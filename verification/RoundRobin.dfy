// ksched.c: the round-robin scheduler, a doubly linked list threaded through the threads themselves, against a queue.
module RoundRobin {

  class Thread {
    var schedNext: Thread?
    var schedPrev: Thread?

    constructor ()
      ensures schedNext == null && schedPrev == null
    {
      schedNext, schedPrev := null, null;
    }
  }

  // ---------- The queue that the list stands for ----------

  ghost predicate Distinct<T>(s: seq<T>) {
    forall i, j | 0 <= i < j < |s| :: s[i] != s[j]
  }

  function Rotate<T>(s: seq<T>): seq<T> {
    if s == [] then [] else s[1..] + [s[0]]
  }

  function Delete<T(==)>(s: seq<T>, x: T): (r: seq<T>)
    ensures x !in s ==> r == s
  {
    if s == [] then [] else if s[0] == x then s[1..] else [s[0]] + Delete(s[1..], x)
  }

  /** rr_remove: a list of one is emptied whoever the victim is. */
  function Removed<T(==)>(s: seq<T>, victim: T): seq<T> {
    if |s| <= 1 then [] else Delete(s, victim)
  }

  lemma {:induction false} DeleteAt<T>(s: seq<T>, k: nat)
    requires k < |s| && Distinct(s)
    ensures Delete(s, s[k]) == s[..k] + s[k + 1..]
  {
    if k > 0 {
      DeleteAt(s[1..], k - 1);
      assert s[1..][..k - 1] == s[1..k] && s[1..][k - 1 + 1..] == s[k + 1..];
      assert s[..k] == [s[0]] + s[1..k];
    }
  }

  lemma DeleteMeaning<T>(s: seq<T>, x: T)
    requires Distinct(s)
    ensures Distinct(Delete(s, x)) && forall y :: y in Delete(s, x) <==> y in s && y != x
  {
    if x in s {
      var k :| 0 <= k < |s| && s[k] == x;
      DeleteAt(s, k);
      forall y | y in s && y != x ensures y in Delete(s, x) {
        var j :| 0 <= j < |s| && s[j] == y;
        assert Delete(s, x)[if j < k then j else j - 1] == y;
      }
    }
  }

  /** rr_remove deletes its victim exactly when it is there to delete, or nothing is. */
  lemma RemovedIffMember<T>(s: seq<T>, victim: T)
    requires |s| <= 1 || victim in s
    ensures Removed(s, victim) == Delete(s, victim) <==> s == [] || victim in s
  {
    if |s| == 1 && victim !in s { assert Delete(s, victim) == s; }
    if |s| == 1 && victim in s { assert s == [victim]; }
  }

  // ---------- Fairness ----------

  /** The pool after k calls of rr_next, and the threads they returned. */
  function Serve<T>(s: seq<T>, k: nat): (seq<T>, seq<T>)
    requires s != []
    decreases k
  {
    if k == 0 then (s, [])
    else
      var (pool, served) := Serve(Rotate(s), k - 1);
      (pool, [s[0]] + served)
  }

  lemma RotateSize<T>(s: seq<T>)
    ensures |Rotate(s)| == |s| && (|s| <= 1 ==> Rotate(s) == s)
  {
  }

  lemma RotateCut<T>(x: T, c: seq<T>, b: seq<T>)
    ensures Rotate([x] + c + b) == c + (b + [x]) && ([x] + c + b)[0] == x && (b + [x]) + c == b + ([x] + c)
  {
    assert ([x] + c + b)[1..] == c + b;
    assert (c + b) + [x] == c + (b + [x]);
  }

  lemma {:induction false} ServeSome<T>(a: seq<T>, b: seq<T>)
    requires a + b != []
    ensures Serve(a + b, |a|) == (b + a, a)
    decreases |a|
  {
    hide Rotate;
    if a == [] {
      assert a + b == b && b + a == b;
    } else {
      var c := a[1..];
      assert a == [a[0]] + c;
      RotateCut(a[0], c, b);
      ServeSome(c, b + [a[0]]);
    }
  }

  /** A full round serves every thread once, in order, and leaves the pool as it was. */
  lemma FullRound<T>(s: seq<T>)
    requires s != []
    ensures Serve(s, |s|) == (s, s)
  {
    assert s + [] == s && [] + s == s;
    ServeSome(s, []);
  }

  datatype Call<T> = Admit(t: T) | Remove(t: T) | Next

  function Step<T(==)>(s: seq<T>, c: Call<T>): seq<T> {
    match c
    case Admit(t) => s + [t]
    case Remove(t) => Removed(s, t)
    case Next => Rotate(s)
  }

  /** Callers admit threads that are not in the pool and remove ones that are. */
  predicate Behaves<T(==)>(s: seq<T>, c: Call<T>) {
    match c
    case Admit(t) => t !in s
    case Remove(t) => t in s
    case Next => true
  }

  predicate AllBehave<T(==)>(s: seq<T>, calls: seq<Call<T>>)
    decreases |calls|
  {
    calls == [] || (Behaves(s, calls[0]) && AllBehave(Step(s, calls[0]), calls[1..]))
  }

  function CountNext<T(==)>(calls: seq<Call<T>>): nat
    decreases |calls|
  {
    if calls == [] then 0 else (if calls[0].Next? then 1 else 0) + CountNext(calls[1..])
  }

  /** Whether one of the calls of rr_next returns t. */
  predicate Served<T(==)>(s: seq<T>, calls: seq<Call<T>>, t: T)
    decreases |calls|
  {
    calls != [] && ((calls[0].Next? && s != [] && s[0] == t) || Served(Step(s, calls[0]), calls[1..], t))
  }

  lemma StepDistinct<T>(s: seq<T>, c: Call<T>)
    requires Distinct(s) && Behaves(s, c)
    ensures Distinct(Step(s, c))
  {
    if c.Remove? { DeleteMeaning(s, c.t); }
  }

  /**
   * A call that neither serves nor removes the thread at position i moves it
   * forward, or leaves it in place if it is no rr_next.
   */
  lemma Advances<T>(s: seq<T>, i: nat, c: Call<T>) returns (j: nat)
    requires i < |s| && Distinct(s) && Behaves(s, c) && c != Remove(s[i]) && !(c.Next? && i == 0)
    ensures j < |Step(s, c)| && Step(s, c)[j] == s[i]
    ensures if c.Next? then j == i - 1 else j <= i
  {
    match c
    case Admit(_) => j := i;
    case Next => j := i - 1;
    case Remove(t) =>
      var k :| 0 <= k < |s| && s[k] == t;
      DeleteAt(s, k);
      j := if i < k then i else i - 1;
  }

  /** The thread at position i is served within i + 1 calls of rr_next, whatever is admitted and removed around it. */
  lemma {:induction false} ServedInTime<T>(s: seq<T>, i: nat, calls: seq<Call<T>>)
    requires i < |s| && Distinct(s) && AllBehave(s, calls)
    requires Remove(s[i]) !in calls && CountNext(calls) >= i + 1
    ensures Served(s, calls, s[i])
    decreases |calls|
  {
    var c := calls[0];
    if !(c.Next? && i == 0) {
      var j := Advances(s, i, c);
      StepDistinct(s, c);
      ServedInTime(Step(s, c), j, calls[1..]);
    }
  }

  /** Where a thread is in the queue, or -1. */
  ghost function Place(s: seq<Thread>, t: Thread): (k: int)
    ensures if t in s then 0 <= k < |s| && s[k] == t else k == -1
  {
    if t in s then var k :| 0 <= k < |s| && s[k] == t; k else -1
  }

  function NextIn(s: seq<Thread>, i: int): Thread?
    requires 0 <= i < |s|
  {
    if i + 1 < |s| then s[i + 1] else null
  }

  function PrevIn(s: seq<Thread>, i: int): Thread?
    requires 0 <= i < |s|
  {
    if i > 0 then s[i - 1] else null
  }

  /** Links from p to n pass over exactly the thread at position k. */
  predicate PassesOver(s: seq<Thread>, k: int, p: Thread?, n: Thread?) {
    0 < k < |s| - 1 && s[k - 1] == p && s[k + 1] == n
  }

  /** The position that these links pass over, or -1. */
  ghost function PassedOver(s: seq<Thread>, p: Thread?, n: Thread?): (k: int)
    ensures -1 <= k < |s|
    ensures if k < 0 then forall i :: !PassesOver(s, i, p, n) else PassesOver(s, k, p, n)
  {
    if exists k :: PassesOver(s, k, p, n) then var k :| PassesOver(s, k, p, n); k else -1
  }

  // ---------- The list ----------

  class RoundRobin {
    var head: Thread?   // ll_head
    var tail: Thread?   // ll_tail
    var len: nat        // ll_len
    ghost var pool: seq<Thread>

    /** The list, read from both ends, is the queue q. */
    ghost predicate InOrder(q: seq<Thread>)
      reads `head, `tail, `len, q
    {
      && len == |q| && Distinct(q)
      && (q == [] ==> head == null && tail == null)
      && (q != [] ==> head == q[0] && tail == q[|q| - 1] && q[0].schedPrev == null && q[|q| - 1].schedNext == null)
      && (forall i {:trigger q[i].schedNext} | 0 <= i < |q| - 1 :: q[i].schedNext == q[i + 1])
      && (forall i {:trigger q[i].schedPrev} | 0 < i < |q| :: q[i].schedPrev == q[i - 1])
    }

    ghost predicate Valid()
      reads this, pool
    {
      InOrder(pool)
    }

    /** Read forwards the list is the queue q; nothing is said of the links back. */
    ghost predicate Forward(q: seq<Thread>)
      reads `head, `tail, q
    {
      && q != [] && Distinct(q) && head == q[0] && tail == q[|q| - 1]
      && forall i {:trigger q[i].schedNext} | 0 <= i < |q| - 1 :: q[i].schedNext == q[i + 1]
    }

    /** ... and read backwards. */
    ghost predicate Back(q: seq<Thread>)
      reads q
    {
      && (q != [] ==> q[0].schedPrev == null)
      && forall i {:trigger q[i].schedPrev} | 0 < i < |q| :: q[i].schedPrev == q[i - 1]
    }

    lemma Halves()
      ensures pool != [] ==>
                (Valid() <==> len == |pool| && Forward(pool) && tail.schedNext == null && Back(pool))
      ensures pool == [] ==> (Valid() <==> len == 0 && head == null && tail == null)
      ensures Valid() || Rolling() ==> Distinct(pool)
      ensures Rolling() ==> head == pool[0] && tail != null && (head == tail <==> |pool| == 1)
      ensures Valid() && pool != [] ==> Rolling()
    {
    }

    lemma LoopedApart()
      requires Looped()
      ensures head == pool[0] && tail != null && len >= |pool| && (head == tail <==> |pool| == 2)
      ensures !Distinct(pool)
    {
      assert pool[|pool| - 2] == pool[|pool| - 1];
    }

    /** ... and it is taken for one at least as long. */
    ghost predicate Rolling()
      reads this, pool
    {
      && pool != [] && Forward(pool) && tail.schedNext == null
      && |pool| <= len && (|pool| == 1 ==> len == 1)
    }

    /** The last thread has been admitted once more, and is its own neighbour. */
    ghost predicate Looped()
      reads this, pool
    {
      && |pool| > 1 && Forward(pool[..|pool| - 1]) && pool[|pool| - 1] == tail
      && tail.schedNext == tail && tail.schedPrev == tail && |pool| <= len
    }

    constructor ()
      ensures Valid() && pool == []
    {
      head, tail, len, pool := null, null, 0, [];
    }

    /** The checks that every operation starts with: none of them fires on a list in order. */
    method ValidateLl() returns (ok: bool)
      ensures Valid() ==> ok
      ensures ok <==>
              (head == null <==> tail == null) && (head == null <==> len == 0) && (head == tail != null ==> len == 1)
    {
      if head == null && tail != null { return false; }
      if head != null && tail == null { return false; }
      if head == null && tail == null && len != 0 { return false; }
      if head != null && tail != null && len == 0 { return false; }
      if head == tail && head != null && len != 1 {
        return false;
      }
      ok := true;
    }

    /**
     * Exactly when is the list in order after rr_admit? The links of the new
     * thread are not cleared unless it is the first.
     */
    method Admit(t: Thread) returns (ok: bool)
      requires Valid() || (Rolling() && t == tail)
      modifies this, t, tail
      ensures ok && pool == old(pool) + [t]
      ensures old(Valid()) ==> (Valid() <==> old(pool) == [] || (t !in old(pool) && old(t.schedNext) == null))
      ensures old(Rolling()) && t == old(tail) ==> Looped()
    {
      ok := ValidateLl();
      if !ok { return; }
      if len == 0 {
        head, tail := t, t;
        t.schedNext, t.schedPrev := null, null;
      } else {
        tail.schedNext := t;
        t.schedPrev := tail;
        tail := t;
      }
      len := len + 1;
      pool := pool + [t];
    }

    /**
     * A thread of the pool is taken out of it. For one that is not in a pool of two and more the list is in order
     * afterwards exactly if its own links pass over one thread of the pool: that one is lost instead.
     */
    method Remove(victim: Thread) returns (ok: bool)
      requires Valid() || (Looped() && victim == tail)
      modifies this, victim, victim.schedPrev, victim.schedNext, pool
      ensures old(Valid()) ==> ok && (old(pool) != [] ==> victim.schedNext == null && victim.schedPrev == null)
      ensures old(Valid()) && (|old(pool)| <= 1 || victim in old(pool)) ==>
                Valid() && pool == Removed(old(pool), victim)
      ensures old(Valid()) && |old(pool)| > 1 && victim !in old(pool) ==>
                var k := PassedOver(old(pool), old(victim.schedPrev), old(victim.schedNext));
                if k >= 0 then Valid() && pool == Delete(old(pool), old(pool)[k]) else forall q :: !InOrder(q)
      ensures !old(Valid()) ==>
                (ok <==> |old(pool)| > 2) && (ok ==> Rolling() && pool == old(pool)[..|old(pool)| - 1])
    {
      hide Delete, PassedOver, InOrder, Distinct;
      if Valid() { Ends(); } else { LoopedApart(); }
      ok := ValidateLl();
      if !ok || len == 0 { return; }
      if len == 1 {
        CutOnly(victim);
      } else if victim == head || victim == tail {
        CutEnd(victim);
      } else {
        CutOut(victim);
      }
    }

    lemma Ends()
      requires Valid()
      ensures len == |pool| && Distinct(pool) && (pool != [] ==> head == pool[0] && tail == pool[|pool| - 1])
    {
    }

    // The branch of rr_remove for a list of one.
    method CutOnly(victim: Thread)
      requires Valid() && |pool| == 1
      modifies this, victim
      ensures Valid() && pool == [] && victim.schedNext == null && victim.schedPrev == null
    {
      head, tail := null, null;
      victim.schedNext, victim.schedPrev := null, null;
      len, pool := len - 1, [];
    }

    // The two branches of rr_remove for the ends of a list of two and more.
    method CutEnd(victim: Thread)
      requires Valid() || (Looped() && |pool| > 2 && victim == tail)
      requires |pool| > 1 && (victim == head || victim == tail)
      modifies this, pool
      ensures old(Valid()) ==> Valid() && pool == Delete(old(pool), victim)
      ensures !old(Valid()) ==> Rolling() && pool == old(pool)[..|old(pool)| - 1]
      ensures victim.schedNext == null && victim.schedPrev == null
    {
      hide Delete;
      ghost var k := if victim == head then 0 else |pool| - 1;
      if Valid() { DeleteAt(pool, k); }
      if victim == head {
        head := victim.schedNext;
        head.schedPrev := null;
      } else {
        tail := tail.schedPrev;
        tail.schedNext := null;
      }
      victim.schedNext, victim.schedPrev := null, null;
      len := len - 1;
      pool := pool[..k] + pool[k + 1..];
    }

    // The last branch of rr_remove. A write through NULL meets no thread.
    method CutOut(victim: Thread)
      requires Valid() && |pool| > 1 && victim != head && victim != tail
      modifies this, victim, victim.schedPrev, victim.schedNext
      ensures victim.schedNext == null && victim.schedPrev == null
      ensures victim in old(pool) ==> Valid() && pool == Delete(old(pool), victim)
      ensures victim !in old(pool) ==>
                var k := PassedOver(old(pool), old(victim.schedPrev), old(victim.schedNext));
                if k >= 0 then Valid() && pool == Delete(old(pool), old(pool)[k]) else forall q :: !InOrder(q)
    {
      hide Delete, PassedOver, InOrder, Distinct, Relinked, Place;
      ghost var s, k, p, n := pool, Place(pool, victim), victim.schedPrev, victim.schedNext;
      Ends();
      if k >= 0 { Neighbours(s, k); }
      Bypass(victim);
      pool := LeftOver(s, victim, k, p, n);
    }

    /** The queue that is left. */
    lemma LeftOver(s: seq<Thread>, victim: Thread, k: int, p: Thread?, n: Thread?) returns (q: seq<Thread>)
      requires k == Place(s, victim) && Relinked(s, victim, p, n) && len == |s| - 1
      requires k >= 0 ==> 0 < k < |s| - 1 && p == s[k - 1] && n == s[k + 1]
      ensures victim in s ==> InOrder(q) && q == Delete(s, victim)
      ensures victim !in s ==>
                var i := PassedOver(s, p, n);
                if i >= 0 then InOrder(q) && q == Delete(s, s[i]) else forall q :: !InOrder(q)
    {
      hide Delete, PassedOver, InOrder;
      q := s;
      if k >= 0 {
        DeleteAt(s, k);
        BridgedInOrder(s, victim, k);
        q := Delete(s, victim);
      } else {
        OverOne(s, victim, p, n);
        var i := PassedOver(s, p, n);
        if i >= 0 { q := Delete(s, s[i]); }
      }
    }

    // victim->sched_prev->sched_next = victim->sched_next and back, and the clearing of the old links.
    method Bypass(victim: Thread)
      requires Valid() && |pool| > 1
      modifies this`len, victim, victim.schedPrev, victim.schedNext
      ensures Relinked(pool, victim, old(victim.schedPrev), old(victim.schedNext)) && len == |pool| - 1
      ensures victim.schedNext == null && victim.schedPrev == null
    {
      OwnLinks(pool);
      hide InOrder, Distinct;
      var p, n := victim.schedPrev, victim.schedNext;
      if p != null { p.schedNext := n; }
      if n != null { n.schedPrev := p; }
      victim.schedNext, victim.schedPrev := null, null;
      len := len - 1;
    }

    lemma Neighbours(s: seq<Thread>, k: int)
      requires InOrder(s) && 0 <= k < |s| && s[k] != head && s[k] != tail
      ensures 0 < k < |s| - 1 && s[k].schedPrev == s[k - 1] && s[k].schedNext == s[k + 1]
    {
    }

    lemma OwnLinks(s: seq<Thread>)
      requires InOrder(s)
      ensures len == |s| && Distinct(s) && (s != [] ==> head == s[0] && tail == s[|s| - 1])
      ensures forall i {:trigger s[i].schedNext} | 0 <= i < |s| :: s[i].schedNext == NextIn(s, i)
      ensures forall i {:trigger s[i].schedPrev} | 0 <= i < |s| :: s[i].schedPrev == PrevIn(s, i)
    {
    }

    /** The links of a queue, but for the victim's, which are cleared, and those the victim named on either side. */
    ghost predicate Relinked(s: seq<Thread>, victim: Thread, p: Thread?, n: Thread?)
      reads `head, `tail, s
    {
      && |s| > 1 && Distinct(s) && head == s[0] && tail == s[|s| - 1]
      && (forall i {:trigger s[i].schedNext} | 0 <= i < |s| ::
            s[i].schedNext == if s[i] == victim then null else if s[i] == p then n else NextIn(s, i))
      && (forall i {:trigger s[i].schedPrev} | 0 <= i < |s| ::
            s[i].schedPrev == if s[i] == victim then null else if s[i] == n then p else PrevIn(s, i))
    }

    /** Links that pass over the thread at k: what is left is a queue without it. */
    lemma BridgedInOrder(s: seq<Thread>, victim: Thread, k: int)
      requires 0 < k < |s| - 1 && Relinked(s, victim, s[k - 1], s[k + 1]) && len == |s| - 1
               && (victim in s ==> victim == s[k])
      ensures InOrder(s[..k] + s[k + 1..])
    {
      var q := s[..k] + s[k + 1..];
      forall i | 0 <= i < |q| ensures q[i] == s[if i < k then i else i + 1] {}
    }

    lemma OverOne(s: seq<Thread>, victim: Thread, p: Thread?, n: Thread?)
      requires Relinked(s, victim, p, n) && victim !in s && len == |s| - 1
      ensures var i := PassedOver(s, p, n); if i >= 0 then InOrder(Delete(s, s[i])) else forall q :: !InOrder(q)
    {
      hide Delete;
      var i := PassedOver(s, p, n);
      if i >= 0 {
        DeleteAt(s, i);
        BridgedInOrder(s, victim, i);
      }
      forall q | InOrder(q) ensures i >= 0 {
        OnlyOver(s, victim, q, p, n);
      }
    }

    /** From the front the list follows the old one up to p, ... */
    lemma {:induction false} SameFront(s: seq<Thread>, victim: Thread, q: seq<Thread>, p: Thread?, n: Thread?, i: nat)
      requires Relinked(s, victim, p, n) && victim !in s && InOrder(q) && |q| == |s| - 1
      requires i < |q| && forall j | 0 <= j < i :: s[j] != p
      ensures q[i] == s[i]
    {
      if i > 0 {
        SameFront(s, victim, q, p, n, i - 1);
        assert q[i - 1].schedNext == q[i] && s[i - 1].schedNext == s[i];
      }
    }

    /** ... and from the back, down to n. */
    lemma {:induction false} SameBack(s: seq<Thread>, victim: Thread, q: seq<Thread>, p: Thread?, n: Thread?, i: nat)
      requires Relinked(s, victim, p, n) && victim !in s && InOrder(q) && |q| == |s| - 1
      requires 0 < i < |s| && forall j | i < j < |s| :: s[j] != n
      ensures q[i - 1] == s[i]
      decreases |s| - i
    {
      if i + 1 < |s| {
        SameBack(s, victim, q, p, n, i + 1);
        assert q[i].schedPrev == q[i - 1] && s[i + 1].schedPrev == s[i];
      }
    }

    lemma OnlyOver(s: seq<Thread>, victim: Thread, q: seq<Thread>, p: Thread?, n: Thread?)
      requires Relinked(s, victim, p, n) && victim !in s && InOrder(q) && |q| == |s| - 1
      ensures exists k :: PassesOver(s, k, p, n)
    {
      var m := |q|;
      if i :| 0 <= i < |s| && s[i] == p {
        if j :| 0 <= j < |s| && s[j] == n {
          Between(s, victim, q, i, j);
        } else {
          SameBack(s, victim, q, p, n, 1);
        }
      } else {
        SameFront(s, victim, q, p, n, m - 1);
      }
    }

    lemma Between(s: seq<Thread>, victim: Thread, q: seq<Thread>, i: nat, j: nat)
      requires i < |s| && j < |s| && Relinked(s, victim, s[i], s[j]) && victim !in s && InOrder(q) && |q| == |s| - 1
      ensures PassesOver(s, i + 1, s[i], s[j])
    {
      var p, n, m := s[i], s[j], |q|;
      assert s[i].schedNext == n && s[j].schedPrev == p && q[0] == s[0] && q[m - 1] == s[m];
      assert j > 0 && i < m;
      SameFront(s, victim, q, p, n, i);
      SameBack(s, victim, q, p, n, j);
      assert i < m - 1;
      assert q[i].schedNext == q[i + 1];
      assert q[i + 1] == q[j - 1];
    }

    method Next() returns (ok: bool, now: Thread?)
      requires Valid() || Rolling() || Looped()
      modifies this, pool
      ensures old(Valid()) ==> ok && Valid() && pool == Rotate(old(pool))
      ensures old(Rolling()) ==> ok && Rolling() && pool == Rotate(old(pool))
      ensures old(Looped()) ==>
                && (ok <==> |old(pool)| > 2)
                && (ok ==> Rolling() && pool == Rotate(old(pool)[..|old(pool)| - 1]))
      ensures ok ==> now == if old(pool) == [] then null else old(pool)[0]
    {
      hide InOrder, Forward, Back, Distinct, Rotate;
      ghost var q := if Looped() then pool[..|pool| - 1] else pool;
      Halves();
      RotateSize(q);
      if Looped() { LoopedApart(); }
      ok := ValidateLl();
      if !ok || len == 0 { return ok, null; }
      if len == 1 { return true, head; }
      now := MoveHead(q);
      pool := Rotate(q);
      Halves();
    }

    // The end of rr_next: the head goes behind the tail.
    method MoveHead(ghost q: seq<Thread>) returns (now: Thread)
      requires Forward(q) && |q| > 1
      modifies this`head, this`tail, q
      ensures Forward(Rotate(q)) && tail.schedNext == null && now == q[0]
      ensures old(Back(q)) ==> Back(Rotate(q))
    {
      now := head;
      head := head.schedNext;
      head.schedPrev := null;
      tail.schedNext := now;
      now.schedPrev := tail;
      now.schedNext := null;
      tail := now;
    }
  }
}
