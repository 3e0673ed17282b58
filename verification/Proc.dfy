// kproc.c: PROC_set_scheduler, which hands the threads of one scheduler over to another.
module Proc {
  import opened RoundRobin

  datatype Option<T> = None | Some(value: T)

  /** A scheduler that keeps its pool by means of its own, and leaves the links of the round-robin list alone. */
  class OtherScheduler {
    var threads: seq<Thread>

    constructor ()
      ensures threads == []
    {
      threads := [];
    }

    method Admit(t: Thread)
      modifies this
      ensures threads == old(threads) + [t]
    {
      threads := threads + [t];
    }

    method Remove(victim: Thread)
      modifies this
      ensures threads == Delete(old(threads), victim)
    {
      threads := Delete(threads, victim);
    }

    method Next() returns (now: Thread?)
      modifies this
      ensures threads == Rotate(old(threads)) && now == if threads == [] then null else old(threads)[0]
    {
      now := null;
      if threads != [] {
        now := threads[0];
        threads := Rotate(threads);
      }
    }
  }

  datatype Scheduler = Default(rr: RoundRobin) | Given(other: OtherScheduler)

  ghost function Self(s: Scheduler): set<object> { if s.Default? then {s.rr} else {s.other} }

  ghost function Pool(s: Scheduler): seq<Thread>
    reads Self(s)
  {
    if s.Default? then s.rr.pool else s.other.threads
  }

  ghost predicate Ready(s: Scheduler)
    reads Self(s), Pool(s)
  {
    if s.Default? then s.rr.Valid() else Distinct(s.other.threads)
  }

  /** all holds the threads of the system, whose links a scheduler may write to. */
  ghost predicate Known(s: Scheduler, all: set<Thread>)
    reads Self(s)
  {
    forall t | t in Pool(s) :: t in all
  }

  /** Two schedulers that share neither state nor link fields. */
  ghost predicate Two(a: Scheduler, b: Scheduler, all: set<Thread>)
    reads Self(a), Self(b), Pool(a), Pool(b)
  {
    a != b && !(a.Default? && b.Default?) && Ready(a) && Ready(b) && Known(a, all) && Known(b, all)
  }

  // The calls through the tuple of operations; idle is the other of the two schedulers.

  method AdmitTo(s: Scheduler, t: Thread, ghost idle: Scheduler, ghost all: set<Thread>) returns (ok: bool)
    requires Two(s, idle, all) && t in all && t !in Pool(s) && (s.Default? ==> t.schedNext == null)
    modifies Self(s), if s.Default? then all else {}
    ensures ok && Two(s, idle, all) && Pool(s) == old(Pool(s)) + [t] && Pool(idle) == old(Pool(idle))
    ensures forall x | x in all && x !in Pool(s) :: x.schedNext == old(x.schedNext)
  {
    match s {
      case Default(rr) =>
        assert rr.tail != null ==> rr.tail in rr.pool;
        ok := rr.Admit(t);
      case Given(other) =>
        other.Admit(t);
        ok := true;
    }
  }

  lemma {:induction false} StillThere(p: seq<Thread>, t: Thread)
    ensures forall y | y in Delete(p, t) :: y in p
  {
    if p != [] && p[0] != t { StillThere(p[1..], t); }
  }

  method RemoveFrom(s: Scheduler, t: Thread, ghost idle: Scheduler, ghost all: set<Thread>) returns (ok: bool)
    requires Two(s, idle, all) && t in Pool(s)
    modifies Self(s), if s.Default? then all else {}
    ensures ok && Two(s, idle, all) && Pool(s) == Delete(old(Pool(s)), t) && Pool(idle) == old(Pool(idle))
  {
    ghost var rest := Delete(Pool(s), t);
    RemovedIffMember(Pool(s), t);
    DeleteMeaning(Pool(s), t);
    StillThere(Pool(s), t);
    match s {
      case Default(rr) =>
        ok := rr.Remove(t);
        assert rr.pool == rest;
      case Given(other) =>
        other.Remove(t);
        ok := true;
    }
  }

  lemma RotateMembers(p: seq<Thread>)
    ensures forall t :: t in Rotate(p) <==> t in p
    ensures Distinct(p) ==> Distinct(Rotate(p))
  {
    if p != [] { assert p == [p[0]] + p[1..]; }
  }

  method NextOf(s: Scheduler, ghost idle: Scheduler, ghost all: set<Thread>) returns (ok: bool, now: Thread?)
    requires Two(s, idle, all)
    modifies Self(s), if s.Default? then all else {}
    ensures ok && Two(s, idle, all) && Pool(s) == Rotate(old(Pool(s))) && Pool(idle) == old(Pool(idle))
    ensures now == if old(Pool(s)) == [] then null else old(Pool(s))[0]
  {
    RotateMembers(Pool(s));
    match s {
      case Default(rr) =>
        ok, now := rr.Next();
      case Given(other) =>
        now := other.Next();
        ok := true;
    }
  }

  lemma DeleteLast(rest: seq<Thread>, t: Thread)
    requires Distinct(rest + [t])
    ensures Delete(rest + [t], t) == rest && t in rest + [t]
  {
    assert (rest + [t])[|rest|] == t;
    DeleteAt(rest + [t], |rest|);
  }

  lemma DistinctPool(s: Scheduler, idle: Scheduler, all: set<Thread>)
    requires Two(s, idle, all)
    ensures Distinct(Pool(s)) && Two(idle, s, all)
  {
  }

  // One turn of the transfer loop.
  method MoveOne(from: Scheduler, to: Scheduler, th: Thread, ghost rest: seq<Thread>, ghost all: set<Thread>)
      returns (ok: bool, next: Thread?)
    requires Two(from, to, all)
    requires Pool(from) == rest + [th] && th !in Pool(to) && th in all && (to.Default? ==> th.schedNext == null)
    modifies Self(from), Self(to), all
    ensures ok && Two(from, to, all) && Pool(from) == Rotate(rest) && Pool(to) == old(Pool(to)) + [th]
    ensures next == if rest == [] then null else rest[0]
    ensures to.Default? ==> forall x | x in all && x !in Pool(to) :: x.schedNext == old(x.schedNext)
  {
    hide Delete, Two, Pool;
    DistinctPool(from, to, all);
    ok := AdmitTo(to, th, from, all);
    DistinctPool(to, from, all);
    DeleteLast(rest, th);
    ok := RemoveFrom(from, th, to, all);
    ok, next := NextOf(from, to, all);
  }

  lemma Apart(a: seq<Thread>, rest: seq<Thread>)
    requires Distinct(a + rest) && rest != []
    ensures rest[0] !in a && forall t | t in rest[1..] :: t !in a && t != rest[0]
    ensures a + rest == (a + [rest[0]]) + rest[1..]
  {
    var all := a + rest;
    assert all[|a|] == rest[0];
    forall t | t in rest[1..] ensures t !in a && t != rest[0] {
      var j :| 1 <= j < |rest| && rest[j] == t;
      assert all[|a| + j] == t;
      forall i | 0 <= i < |a| ensures a[i] != t { assert all[i] == a[i]; }
    }
    forall i | 0 <= i < |a| ensures a[i] != rest[0] { assert all[i] == a[i]; }
    assert rest == [rest[0]] + rest[1..];
  }

  lemma CurrentApart(a: seq<Thread>, t: Thread, b: seq<Thread>)
    requires Distinct(a + [t] + b)
    ensures t !in a && t !in b && forall x | x in b :: x !in a
  {
    assert a + [t] + b == a + ([t] + b) && ([t] + b)[1..] == b;
    Apart(a, [t] + b);
  }

  ghost function Current(curr: Thread?): seq<Thread> { if curr == null then [] else [curr] }

  /** The two schedulers share neither threads nor link fields, and the current thread is in neither pool. */
  ghost predicate CanHandOver(from: Scheduler, to: Scheduler, curr: Thread?, all: set<Thread>)
    reads Self(from), Self(to), Pool(from), Pool(to), Current(curr)
  {
    && Two(from, to, all) && (curr != null ==> curr in all)
    && Distinct(Pool(to) + Current(curr) + Pool(from))
    && (to.Default? ==> forall t | t in Current(curr) + Pool(from) :: t.schedNext == null)
  }

  // The transfer, from the admission of the current thread on.
  method HandOver(from: Scheduler, to: Scheduler, curr: Thread?, ghost all: set<Thread>) returns (ok: bool)
    requires CanHandOver(from, to, curr, all)
    modifies Self(from), Self(to), all
    ensures ok && Two(from, to, all) && Pool(from) == [] && Pool(to) == old(Pool(to)) + Current(curr) + old(Pool(from))
  {
    hide Two, Pool, Delete, Distinct;
    ghost var every, rest := Pool(to) + Current(curr) + Pool(from), Pool(from);
    var th;
    ok, th := Begin(from, to, curr, all);
    while th != null
      invariant ok && Two(from, to, all) && Pool(to) + rest == every
      invariant rest == [] <==> th == null
      invariant th != null ==> rest[0] == th && Pool(from) == rest[1..] + [th]
      invariant th == null ==> Pool(from) == []
      invariant to.Default? ==> forall t | t in rest :: t.schedNext == null
      decreases |rest|
    {
      Apart(Pool(to), rest);
      Members(from, to, all);
      assert th in Pool(from) && forall t | t in rest[1..] :: t in Pool(from);
      ok, th := MoveOne(from, to, th, rest[1..], all);
      rest := rest[1..];
    }
  }

  lemma Members(s: Scheduler, idle: Scheduler, all: set<Thread>)
    requires Two(s, idle, all)
    ensures forall t | t in Pool(s) :: t in all
  {
  }

  // Up to the loop.
  method Begin(from: Scheduler, to: Scheduler, curr: Thread?, ghost all: set<Thread>) returns (ok: bool, th: Thread?)
    requires CanHandOver(from, to, curr, all)
    modifies Self(from), Self(to), all
    ensures ok && Two(from, to, all) && Pool(to) == old(Pool(to)) + Current(curr)
            && Pool(from) == Rotate(old(Pool(from)))
    ensures th == if old(Pool(from)) == [] then null else old(Pool(from))[0]
    ensures to.Default? ==> forall t | t in old(Pool(from)) :: t.schedNext == null
  {
    hide Two, Pool, Distinct;
    ok := true;
    DistinctPool(from, to, all);
    Members(from, to, all);
    if curr != null {
      CurrentApart(Pool(to), curr, Pool(from));
      ok := AdmitTo(to, curr, from, all);
      DistinctPool(to, from, all);
    }
    ok, th := NextOf(from, to, all);
  }

  // ---------- From a scheduler to itself ----------

  /** The threads that the transfer meets. */
  ghost function Met(pool: seq<Thread>, curr: Thread?): seq<Thread> {
    if curr == null || curr in pool then pool else pool + [curr]
  }

  // One turn of the transfer loop, when both schedulers are the round-robin scheduler.
  method TurnAgain(rr: RoundRobin, th: Thread, ghost all: set<Thread>) returns (ok: bool, next: Thread?)
    requires rr.Rolling() && th == rr.tail && forall t | t in rr.pool :: t in all
    modifies rr, all
    ensures ok <==> |old(rr.pool)| > 1
    ensures ok ==> rr.Rolling() && rr.pool == Rotate(old(rr.pool)) && next != null && next == rr.tail
  {
    next := null;
    ghost var q := rr.pool;
    assert th in q;
    ok := rr.Admit(th);
    assert rr.pool[..|rr.pool| - 1] == q;
    ok := rr.Remove(th);
    if ok { ok, next := rr.Next(); }
  }

  lemma LastRotated(q: seq<Thread>)
    requires q != []
    ensures var r := Rotate(q); r != [] && r[|r| - 1] == q[0]
  {
  }

  /** The current thread is new to the scheduler, or the one it has served last. */
  ghost predicate MayRejoin(rr: RoundRobin, curr: Thread)
    reads rr, rr.pool, curr
  {
    rr.pool == [] || curr == rr.tail || (curr !in rr.pool && curr.schedNext == null)
  }

  method Rejoin(rr: RoundRobin, curr: Thread) returns (ok: bool)
    requires rr.Valid() && MayRejoin(rr, curr)
    modifies rr, rr.pool, curr
    ensures var met := Met(old(rr.pool), curr);
            ok && met != [] && if rr.Looped() then rr.pool[..|rr.pool| - 1] == met else rr.Valid() && rr.pool == met
  {
    ghost var pool := rr.pool;
    rr.Halves();
    assert pool != [] ==> rr.tail in pool;
    ok := rr.Admit(curr);
    if curr in pool {
      assert rr.pool[..|rr.pool| - 1] == pool;
    } else {
      rr.Halves();
      assert !rr.Looped() by { if rr.Looped() { rr.LoopedApart(); } }
    }
  }

  // Up to the loop.
  method StartAgain(rr: RoundRobin, curr: Thread?) returns (ok: bool, th: Thread?)
    requires rr.Valid() && (curr != null ==> MayRejoin(rr, curr))
    modifies rr, rr.pool, curr
    ensures var met := Met(old(rr.pool), curr);
            && (met == [] ==> ok && th == null)
            && (|met| > 1 ==> ok)
            && (ok && met != [] ==> th != null && rr.Rolling() && th == rr.tail && rr.pool == Rotate(met))
  {
    hide Distinct, Rotate;
    ghost var met := Met(rr.pool, curr);
    ok := true;
    if curr != null { ok := Rejoin(rr, curr); }
    if met != [] {
      RotateSize(met);
      LastRotated(met);
    }
    ok, th := rr.Next();
    rr.Halves();
    Last(rr);
  }

  lemma Last(rr: RoundRobin)
    ensures rr.Rolling() ==> rr.pool != [] && rr.tail == rr.pool[|rr.pool| - 1]
  {
  }

  // PROC_set_scheduler with the active scheduler, as far as the given number of turns.
  method TransferToSelf(rr: RoundRobin, curr: Thread?, turns: nat, ghost all: set<Thread>)
      returns (ok: bool, th: Thread?)
    requires rr.Valid() && (curr != null ==> MayRejoin(rr, curr))
    requires forall t | t in Met(rr.pool, curr) :: t in all
    modifies rr, all
    ensures var met := Met(old(rr.pool), curr);
            && (met == [] ==> ok && th == null)
            && (|met| == 1 && turns > 0 ==> !ok)
            && (|met| > 1 ==> ok && th != null)
  {
    ghost var met := Met(rr.pool, curr);
    RotateSize(met);
    RotateMembers(met);
    ok, th := StartAgain(rr, curr);
    var i := 0;
    while i < turns && ok && th != null
      invariant i <= turns && (ok && th != null ==> rr.Rolling() && th == rr.tail && |rr.pool| == |met|)
      invariant ok && th != null ==> forall t | t in rr.pool :: t in all
      invariant met == [] ==> ok && th == null
      invariant |met| == 1 ==> (i == 0 && th != null) || !ok
      invariant |met| > 1 ==> ok && th != null
    {
      RotateSize(rr.pool);
      RotateMembers(rr.pool);
      ok, th := TurnAgain(rr, th, all);
      i := i + 1;
    }
  }

  class Proc {
    const rrScheduler: RoundRobin
    var activeSched: Option<Scheduler>
    var currKthread: Thread?

    constructor ()
      ensures fresh(rrScheduler) && rrScheduler.Valid() && rrScheduler.pool == [] && activeSched == None
              && currKthread == null
    {
      rrScheduler := new RoundRobin();
      activeSched, currKthread := None, null;
    }

    /** all is the set of the threads of the system. */
    method SetScheduler(s: Option<Scheduler>, ghost all: set<Thread>) returns (ok: bool)
      requires activeSched.Some? && s.Some? ==> CanHandOver(activeSched.value, s.value, currKthread, all)
      modifies this`activeSched, all, if s.Some? then Self(s.value) else {}
      modifies if activeSched.Some? then Self(activeSched.value) else {}
      ensures ok
      ensures old(activeSched) == None || s == None ==>
                && activeSched == (if s == None then Some(Default(rrScheduler)) else s)
                && forall x | s == Some(x) || old(activeSched) == Some(x) :: Pool(x) == old(Pool(x))
      ensures old(activeSched).Some? && s.Some? ==>
                && activeSched == s && Two(s.value, old(activeSched.value), all)
                && Pool(s.value) == old(Pool(s.value)) + Current(currKthread) + old(Pool(activeSched.value))
                && Pool(old(activeSched.value)) == []
    {
      ok := true;
      if activeSched == None || s == None {
        activeSched := if s == None then Some(Default(rrScheduler)) else s;
        return;
      }
      ok := HandOver(activeSched.value, s.value, currKthread, all);
      DistinctPool(activeSched.value, s.value, all);
      activeSched := s;
    }
  }
}
