// serial_io_driver.c: the 16-byte transmit ring between serial_write and the interrupt handler. Bytes written to the
// port are a log; what the hardware answers, and when it interrupts, is arbitrary.
module Serial {

  const SERIAL_BUFF_SIZE := 16

  type byte = bv8

  predicate IsTxIrq(iir: byte) { iir & 0x0E == 0x02 }

  predicate IsLineIrq(iir: byte) { iir & 0x0E == 0x06 }

  predicate IsHwTxEmpty(lsr: byte) { lsr & 0x20 == 0x20 }

  /** For every byte the register can read: bits 1 to 3 tell the interrupts apart, and bit 5 the state of the port. */
  lemma RegisterBits(b: byte)
    ensures IsTxIrq(b) <==> b & 0x02 != 0 && b & 0x04 == 0 && b & 0x08 == 0
    ensures IsLineIrq(b) <==> b & 0x02 != 0 && b & 0x04 != 0 && b & 0x08 == 0
    ensures IsHwTxEmpty(b) <==> b & 0x20 != 0
  {
  }

  /** Bits 0 and 4 to 7 decide nothing: with the FIFOs of the port enabled, two of them are set. */
  lemma OtherBits(b: byte, other: byte)
    ensures var c := (b & 0x0E) | (other & 0xF1); IsTxIrq(c) == IsTxIrq(b) && IsLineIrq(c) == IsLineIrq(b)
    ensures IsTxIrq(0xC2) && IsLineIrq(0xC6) && !IsTxIrq(0xC1) && !IsTxIrq(0xC4) && !IsTxIrq(0xCC)
  {
  }

  // ---------- What the ring stands for ----------

  /** The bytes in the ring, the flag, the bytes sent to the port so far, and the bytes accepted so far. */
  datatype Fifo = Fifo(held: seq<byte>, idle: bool, sent: seq<byte>, accepted: seq<byte>)

  ghost predicate Sound(s: Fifo) { |s.held| <= SERIAL_BUFF_SIZE && s.sent + s.held == s.accepted }

  /** hw_write with the flag set: send the oldest byte, if there is one. */
  function SendNext(s: Fifo): Fifo {
    if s.held == [] then s.(idle := false)
    else s.(held := s.held[1..], idle := |s.held| == 1, sent := s.sent + [s.held[0]])
  }

  function Advance(s: Fifo, lsr: byte): Fifo {
    if s.idle then SendNext(s) else s.(idle := IsHwTxEmpty(lsr))
  }

  function Add(s: Fifo, d: byte, lsr: byte): Fifo {
    if |s.held| == SERIAL_BUFF_SIZE then s
    else
      var t := s.(held := s.held + [d], accepted := s.accepted + [d]);
      if |t.held| == 1 then Advance(t, lsr) else t
  }

  function Interrupt(s: Fifo, iir: byte): Fifo {
    if IsTxIrq(iir) then SendNext(s) else s
  }

  datatype Event = Put(d: byte, lsr: byte) | Irq(iir: byte)

  function Step(s: Fifo, e: Event): Fifo {
    match e
    case Put(d, lsr) => Add(s, d, lsr)
    case Irq(iir) => Interrupt(s, iir)
  }

  function Run(s: Fifo, events: seq<Event>): Fifo
    decreases |events|
  {
    if events == [] then s else Run(Step(s, events[0]), events[1..])
  }

  lemma {:induction false} RunCut(s: Fifo, a: seq<Event>, b: seq<Event>)
    ensures Run(s, a + b) == Run(Run(s, a), b)
    decreases |a|
  {
    if a == [] {
      assert a + b == b;
    } else {
      assert (a + b)[1..] == a[1..] + b;
      RunCut(Step(s, a[0]), a[1..], b);
    }
  }

  lemma RunOne(s: Fifo, e: Event)
    ensures Run(s, [e]) == Step(s, e)
  {
    assert [e][1..] == [];
  }

  const START := Fifo([], true, [], [])

  // ---------- Over every interleaving ----------

  lemma StepKeeps(s: Fifo, e: Event)
    requires Sound(s)
    ensures Sound(Step(s, e)) && s.sent <= Step(s, e).sent && s.accepted <= Step(s, e).accepted
  {
    if s.held != [] { assert s.held == [s.held[0]] + s.held[1..]; }
  }

  /** Nothing is lost, doubled or reordered: what was sent and what is held is what was accepted, in order. */
  lemma {:induction false} RunKeeps(s: Fifo, events: seq<Event>)
    requires Sound(s)
    ensures Sound(Run(s, events)) && s.sent <= Run(s, events).sent && s.accepted <= Run(s, events).accepted
    decreases |events|
  {
    if events != [] {
      StepKeeps(s, events[0]);
      RunKeeps(Step(s, events[0]), events[1..]);
    }
  }

  /** A byte is refused exactly when 16 are held. */
  lemma RefusedIff(s: Fifo, d: byte, lsr: byte)
    ensures Add(s, d, lsr).accepted == (if |s.held| == SERIAL_BUFF_SIZE then s.accepted else s.accepted + [d])
    ensures Add(s, d, lsr) == s <==> |s.held| == SERIAL_BUFF_SIZE
  {
    assert |s.accepted + [d]| != |s.accepted|;
  }

  function Irqs(n: nat, iir: byte): seq<Event> {
    if n == 0 then [] else [Irq(iir)] + Irqs(n - 1, iir)
  }

  /** As many transmit interrupts as bytes held drain the ring, in order; fewer drain that many bytes. */
  lemma {:induction false} Drains(s: Fifo, n: nat, iir: byte)
    requires IsTxIrq(iir) && n <= |s.held|
    ensures var t := Run(s, Irqs(n, iir));
            && t.sent == s.sent + s.held[..n] && t.held == s.held[n..] && t.accepted == s.accepted
            && (0 < n ==> t.idle == (n == |s.held|))
    decreases n
  {
    if n > 0 {
      hide SendNext;
      var t := SendNext(s);
      SendsOldest(s, n);
      assert Irqs(n, iir)[1..] == Irqs(n - 1, iir);
      Drains(t, n - 1, iir);
    }
  }

  lemma SendsOldest(s: Fifo, n: nat)
    requires 0 < n <= |s.held|
    ensures var t := SendNext(s);
            && t.sent + t.held[..n - 1] == s.sent + s.held[..n] && t.held[n - 1..] == s.held[n..]
            && t.accepted == s.accepted && |t.held| == |s.held| - 1 && t.idle == (|s.held| == 1)
  {
    assert s.held[..n] == [s.held[0]] + s.held[1..][..n - 1];
  }

  // ---------- Waiting for an interrupt ----------

  /** Nothing more leaves the ring until the next transmit interrupt. */
  predicate Stalled(s: Fifo) { s.held != [] || !s.idle }

  function Puts(bytes: seq<byte>, lsrs: seq<byte>): seq<Event>
    requires |bytes| == |lsrs|
  {
    if bytes == [] then [] else [Put(bytes[0], lsrs[0])] + Puts(bytes[1..], lsrs[1..])
  }

  lemma FullRefuses(s: Fifo, d: byte, lsr: byte)
    requires |s.held| == SERIAL_BUFF_SIZE
    ensures Add(s, d, lsr) == s
  {
  }

  /** A full ring refuses whatever follows. */
  lemma {:induction false} AllRefused(s: Fifo, bytes: seq<byte>, lsrs: seq<byte>)
    requires |bytes| == |lsrs| && |s.held| == SERIAL_BUFF_SIZE
    ensures Run(s, Puts(bytes, lsrs)) == s
    decreases |bytes|
  {
    if bytes != [] {
      assert Puts(bytes, lsrs)[1..] == Puts(bytes[1..], lsrs[1..]);
      AllRefused(s, bytes[1..], lsrs[1..]);
    }
  }

  /**
   * What the interrupt handler does: it prints, serves a transmit interrupt, and prints again for one it does not know.
   */
  function Handled(s: Fifo, message: seq<byte>, lsrs: seq<byte>, iir: byte, unknown: seq<byte>, later: seq<byte>): Fifo
    requires |message| == |lsrs| && |unknown| == |later|
  {
    var t := Interrupt(Run(s, Puts(message, lsrs)), iir);
    if IsTxIrq(iir) || IsLineIrq(iir) then t else Run(t, Puts(unknown, later))
  }

  /** The bytes of a text, with what comes in before each of them. */
  function Woven(text: seq<byte>, env: nat -> seq<Event>, lsr: nat -> byte, n: nat): seq<Event>
    requires n <= |text|
  {
    if n == 0 then [] else Woven(text, env, lsr, n - 1) + env(n - 1) + [Put(text[n - 1], lsr(n - 1))]
  }

  /** The ring has room for each of the first n bytes when its turn comes. */
  ghost predicate Roomy(s: Fifo, text: seq<byte>, env: nat -> seq<Event>, lsr: nat -> byte, n: nat)
    requires n <= |text|
  {
    n > 0 ==>
      && Roomy(s, text, env, lsr, n - 1)
      && |Run(s, Woven(text, env, lsr, n - 1) + env(n - 1)).held| < SERIAL_BUFF_SIZE
  }

  /** A byte that finds no room ends it. */
  lemma {:induction false} RoomyUpTo(s: Fifo, text: seq<byte>, env: nat -> seq<Event>, lsr: nat -> byte, n: nat, k: nat)
    requires n <= |text| && k <= |text| && Roomy(s, text, env, lsr, n)
    requires n < |text| ==> |Run(s, Woven(text, env, lsr, n) + env(n)).held| == SERIAL_BUFF_SIZE
    ensures Roomy(s, text, env, lsr, k) <==> k <= n
    decreases k
  {
    hide Run, Woven;
    if k < n {
      RoomyFront(s, text, env, lsr, n, k);
    } else if k > n + 1 {
      RoomyUpTo(s, text, env, lsr, n, k - 1);
    }
  }

  lemma {:induction false} RoomyFront(s: Fifo, text: seq<byte>, env: nat -> seq<Event>, lsr: nat -> byte, n: nat,
                                      k: nat)
    requires k <= n <= |text| && Roomy(s, text, env, lsr, n)
    ensures Roomy(s, text, env, lsr, k)
  {
    hide Run, Woven;
    if k < n { RoomyFront(s, text, env, lsr, n - 1, k); }
  }

  /** The bytes that some events bring into the ring. */
  function Brought(s: Fifo, events: seq<Event>): seq<byte>
    decreases |events|
  {
    if events == [] then []
    else
      (if events[0].Put? && |s.held| != SERIAL_BUFF_SIZE then [events[0].d] else [])
      + Brought(Step(s, events[0]), events[1..])
  }

  lemma {:induction false} AcceptedIs(s: Fifo, events: seq<Event>)
    ensures Run(s, events).accepted == s.accepted + Brought(s, events)
    decreases |events|
  {
    if events != [] { AcceptedIs(Step(s, events[0]), events[1..]); }
  }

  /** Each of n bytes of a text, behind what the others bring in before it. */
  function Between(s: Fifo, text: seq<byte>, env: nat -> seq<Event>, lsr: nat -> byte, n: nat): seq<byte>
    requires n <= |text|
  {
    if n == 0 then []
    else
      Between(s, text, env, lsr, n - 1) + Brought(Run(s, Woven(text, env, lsr, n - 1)), env(n - 1)) + [text[n - 1]]
  }

  /** With room for the first n bytes each of them is accepted, at its turn. */
  lemma {:induction false} WovenInOrder(s: Fifo, text: seq<byte>, env: nat -> seq<Event>, lsr: nat -> byte, n: nat)
    requires n <= |text| && Roomy(s, text, env, lsr, n)
    ensures Run(s, Woven(text, env, lsr, n)).accepted == s.accepted + Between(s, text, env, lsr, n)
  {
    if n > 0 {
      hide Add, Run, Brought;
      var before, others := Woven(text, env, lsr, n - 1), env(n - 1);
      WovenInOrder(s, text, env, lsr, n - 1);
      RunCut(s, before, others);
      AcceptedIs(Run(s, before), others);
      RunCut(s, before + others, [Put(text[n - 1], lsr(n - 1))]);
      RunOne(Run(s, before + others), Put(text[n - 1], lsr(n - 1)));
      RefusedIff(Run(s, before + others), text[n - 1], lsr(n - 1));
      Regroup(s.accepted, Between(s, text, env, lsr, n - 1), Brought(Run(s, before), others), [text[n - 1]]);
    }
  }

  lemma Regroup(a: seq<byte>, b: seq<byte>, c: seq<byte>, d: seq<byte>)
    ensures ((a + b) + c) + d == a + (b + c + d)
  {
  }

  predicate OnlyIrqs(events: seq<Event>) { forall e | e in events :: e.Irq? }

  /** If nobody else prints, the bytes accepted are that front of the text. */
  lemma {:induction false} AloneInOrder(s: Fifo, text: seq<byte>, env: nat -> seq<Event>, lsr: nat -> byte, n: nat)
    requires n <= |text| && forall i | 0 <= i < n :: OnlyIrqs(env(i))
    ensures Between(s, text, env, lsr, n) == text[..n]
  {
    if n > 0 {
      AloneInOrder(s, text, env, lsr, n - 1);
      NothingBrought(Run(s, Woven(text, env, lsr, n - 1)), env(n - 1));
    }
  }

  lemma {:induction false} NothingBrought(s: Fifo, events: seq<Event>)
    requires OnlyIrqs(events)
    ensures Brought(s, events) == []
    decreases |events|
  {
    if events != [] {
      assert events[0] in events;
      NothingBrought(Step(s, events[0]), events[1..]);
    }
  }

  /** The bytes of the text are in it, in order, whoever else prints: each at its own place. */
  lemma {:induction false} TextInOrder(s: Fifo, text: seq<byte>, env: nat -> seq<Event>, lsr: nat -> byte, n: nat)
      returns (at: seq<nat>)
    requires n <= |text|
    ensures var all := Between(s, text, env, lsr, n);
            && |at| == n && (forall i | 0 <= i < n :: at[i] < |all| && all[at[i]] == text[i])
            && forall i, j | 0 <= i < j < n :: at[i] < at[j]
  {
    at := [];
    if n > 0 {
      hide Run, Woven, Brought;
      at := TextInOrder(s, text, env, lsr, n - 1);
      at := at + [|Between(s, text, env, lsr, n)| - 1];
    }
  }

  /** Without interrupts, bytes either all go straight to the port or all stay in the ring. */
  lemma {:induction false} WithoutInterrupts(s: Fifo, bytes: seq<byte>, lsrs: seq<byte>)
    requires |bytes| == |lsrs| && |s.held| <= SERIAL_BUFF_SIZE
    ensures var t := Run(s, Puts(bytes, lsrs));
            if !Stalled(s) then
              t == s.(sent := s.sent + bytes, accepted := s.accepted + bytes)
            else
              var room := SERIAL_BUFF_SIZE - |s.held|;
              var taken := if |bytes| <= room then bytes else bytes[..room];
              t.sent == s.sent && t.held == s.held + taken && t.accepted == s.accepted + taken
                && (bytes != [] ==> Stalled(t))
    decreases |bytes|
  {
    hide Add;
    if bytes != [] {
      assert Puts(bytes, lsrs)[1..] == Puts(bytes[1..], lsrs[1..]);
      var t := Add(s, bytes[0], lsrs[0]);
      Straight(s, bytes[0], lsrs[0]);
      WithoutInterrupts(t, bytes[1..], lsrs[1..]);
      Unsplit(s.sent, bytes, |bytes|);
      Unsplit(s.accepted, bytes, |bytes|);
      if |s.held| < SERIAL_BUFF_SIZE {
        var n := if |bytes| <= SERIAL_BUFF_SIZE - |s.held| then |bytes| else SERIAL_BUFF_SIZE - |s.held|;
        Unsplit(s.held, bytes, n);
        Unsplit(s.accepted, bytes, n);
      }
    }
  }

  lemma Straight(s: Fifo, d: byte, lsr: byte)
    ensures !Stalled(s) ==> Add(s, d, lsr) == s.(sent := s.sent + [d], accepted := s.accepted + [d])
    ensures Stalled(s) && |s.held| < SERIAL_BUFF_SIZE ==>
              Add(s, d, lsr).held == s.held + [d] && Add(s, d, lsr).accepted == s.accepted + [d]
                && Add(s, d, lsr).sent == s.sent
    ensures |s.held| == SERIAL_BUFF_SIZE ==> Add(s, d, lsr) == s
  {
  }

  lemma Unsplit(a: seq<byte>, b: seq<byte>, n: nat)
    requires 0 < n <= |b|
    ensures (a + [b[0]]) + b[1..][..n - 1] == a + b[..n] && b[1..][..|b| - 1] == b[1..] && b[..|b|] == b
  {
  }

  /** After a transmit interrupt with its message the port waits for the next one, but for one byte on an empty ring. */
  lemma StalledByHandler(s: Fifo, message: seq<byte>, lsrs: seq<byte>, iir: byte, unknown: seq<byte>, later: seq<byte>)
    requires IsTxIrq(iir) && message != [] && |message| == |lsrs| && |unknown| == |later|
             && |s.held| <= SERIAL_BUFF_SIZE
    ensures Stalled(Handled(s, message, lsrs, iir, unknown, later)) <==> !(s.held == [] && !s.idle && |message| == 1)
  {
    hide Run, Puts;
    WithoutInterrupts(s, message, lsrs);
  }

  /** A byte put on an empty ring whose flag is clear stays there, and the flag is what bit 5 of the status says. */
  lemma PollsPort(s: Fifo, d: byte, lsr: byte)
    requires s.held == [] && !s.idle
    ensures Add(s, d, lsr) == s.(held := [d], accepted := s.accepted + [d], idle := lsr & 0x20 != 0)
  {
    RegisterBits(lsr);
  }

  /**
   * What the handler does by the kind of interrupt, where there is room for all it prints and the port takes nothing
   * by itself: a transmit interrupt sends the oldest byte; any but that and line status brings the second message.
   */
  lemma HandlerByKind(s: Fifo, message: seq<byte>, lsrs: seq<byte>, iir: byte, unknown: seq<byte>, later: seq<byte>)
    requires |message| == |lsrs| && |unknown| == |later| && Stalled(s) && message != []
    requires |s.held| + |message| + |unknown| <= SERIAL_BUFF_SIZE
    ensures var t, tx, known := Handled(s, message, lsrs, iir, unknown, later), iir & 0x0E == 0x02, iir & 0x0A == 0x02;
            && t.accepted == s.accepted + message + (if known then [] else unknown)
            && t.sent == s.sent + (if tx then [(s.held + message)[0]] else [])
            && t.sent + t.held == s.sent + s.held + message + (if known then [] else unknown)
  {
    hide Handled, Stalled, IsTxIrq, IsLineIrq;
    KnownBits(iir);
    HandlerTexts(s, message, lsrs, iir, unknown, later);
  }

  lemma HandlerTexts(s: Fifo, message: seq<byte>, lsrs: seq<byte>, iir: byte, unknown: seq<byte>, later: seq<byte>)
    requires |message| == |lsrs| && |unknown| == |later| && Stalled(s) && message != []
    requires |s.held| + |message| + |unknown| <= SERIAL_BUFF_SIZE
    ensures var t, more := Handled(s, message, lsrs, iir, unknown, later), if IsTxIrq(iir) || IsLineIrq(iir) then []
            else unknown;
            && t.accepted == s.accepted + message + more
            && t.sent == s.sent + (if IsTxIrq(iir) then [(s.held + message)[0]] else [])
            && t.sent + t.held == s.sent + s.held + message + more
  {
    hide Run, Puts, IsTxIrq, IsLineIrq;
    WithoutInterrupts(s, message, lsrs);
    var t := Run(s, Puts(message, lsrs));
    if !IsTxIrq(iir) && !IsLineIrq(iir) { WithoutInterrupts(t, unknown, later); }
    var all := s.held + message;
    assert all == [all[0]] + all[1..];
  }

  lemma KnownBits(iir: byte)
    ensures IsTxIrq(iir) <==> iir & 0x0E == 0x02
    ensures IsTxIrq(iir) || IsLineIrq(iir) <==> iir & 0x0A == 0x02
  {
  }

  // ---------- The ring ----------

  function Wrap(i: nat): nat { if i >= SERIAL_BUFF_SIZE then i - SERIAL_BUFF_SIZE else i }

  /** The count bytes of a ring from cons on. */
  function Ring(b: seq<byte>, cons: nat, count: nat): (r: seq<byte>)
    requires |b| == SERIAL_BUFF_SIZE && cons < SERIAL_BUFF_SIZE && count <= SERIAL_BUFF_SIZE
    ensures |r| == count
  {
    if cons + count <= SERIAL_BUFF_SIZE then b[cons..cons + count] else b[cons..] + b[..cons + count - SERIAL_BUFF_SIZE]
  }

  lemma RingAt(b: seq<byte>, cons: nat, count: nat, i: nat)
    requires |b| == SERIAL_BUFF_SIZE && cons < SERIAL_BUFF_SIZE && i < count <= SERIAL_BUFF_SIZE
    ensures Ring(b, cons, count)[i] == b[Wrap(cons + i)]
  {
  }

  lemma RingPop(b: seq<byte>, cons: nat, count: nat)
    requires |b| == SERIAL_BUFF_SIZE && cons < SERIAL_BUFF_SIZE && 0 < count <= SERIAL_BUFF_SIZE
    ensures [b[cons]] + Ring(b, Wrap(cons + 1), count - 1) == Ring(b, cons, count)
  {
    hide Ring;
    var r := Ring(b, cons, count);
    forall i | 0 <= i < count ensures ([b[cons]] + Ring(b, Wrap(cons + 1), count - 1))[i] == r[i] {
      RingAt(b, cons, count, i);
      if i > 0 { RingAt(b, Wrap(cons + 1), count - 1, i - 1); }
    }
  }

  lemma RingPush(b: seq<byte>, cons: nat, count: nat, d: byte)
    requires |b| == SERIAL_BUFF_SIZE && cons < SERIAL_BUFF_SIZE && count < SERIAL_BUFF_SIZE
    ensures Ring(b[Wrap(cons + count) := d], cons, count + 1) == Ring(b, cons, count) + [d]
  {
    hide Ring;
    var b' := b[Wrap(cons + count) := d];
    forall i | 0 <= i < count + 1 ensures Ring(b', cons, count + 1)[i] == (Ring(b, cons, count) + [d])[i] {
      RingAt(b', cons, count + 1, i);
      if i < count { RingAt(b, cons, count, i); }
    }
  }

  class SerialFifo {
    var buff: array<byte>
    var prod: nat
    var cons: nat
    var count: nat
    var idle: bool
    var port: seq<byte>            // the bytes written to the port
    ghost var accepted: seq<byte>

    ghost predicate Valid()
      reads this
    {
      && buff.Length == SERIAL_BUFF_SIZE && prod < SERIAL_BUFF_SIZE && cons < SERIAL_BUFF_SIZE
      && count <= SERIAL_BUFF_SIZE
      && prod == Wrap(cons + count)
    }

    ghost function Held(): seq<byte>
      requires Valid()
      reads this, buff
    {
      Ring(buff[..], cons, count)
    }

    ghost function State(): Fifo
      requires Valid()
      reads this, buff
    {
      Fifo(Held(), idle, port, accepted)
    }

    constructor ()
      ensures Valid() && fresh(buff) && State() == START
    {
      buff := new byte[SERIAL_BUFF_SIZE](_ => 0);
      prod, cons, count, idle, port, accepted := 0, 0, 0, true, [], [];
    }

    method ConsGet() returns (ok: bool, d: byte)
      requires Valid()
      modifies this`cons, this`count, this`idle
      ensures Valid() && ok == (old(Held()) != [])
      ensures !ok ==> State() == old(State())
      ensures ok ==> [d] + Held() == old(Held()) && idle == (if Held() == [] then true else old(idle))
    {
      if count == 0 {
        return false, 0;
      }
      hide Ring;
      RingPop(buff[..], cons, count);
      d := buff[cons];
      cons, count := cons + 1, count - 1;
      if cons >= SERIAL_BUFF_SIZE {
        cons := 0;
      }
      if count == 0 {
        idle := true;
      }
      ok := true;
    }

    method HwWrite(lsr: byte)
      requires Valid()
      modifies this`cons, this`count, this`idle, this`port
      ensures Valid() && State() == Advance(old(State()), lsr)
    {
      hide Ring;
      if idle {
        idle := false;
        var ok, data := ConsGet();
        if ok {
          port := port + [data];
        }
      } else if IsHwTxEmpty(lsr) {
        idle := true;
      }
    }

    method ProdAdd(d: byte, lsr: byte) returns (ok: bool)
      requires Valid()
      modifies this`prod, this`cons, this`count, this`idle, this`port, this`accepted, buff
      ensures Valid() && State() == Add(old(State()), d, lsr)
      ensures ok <==> |old(Held())| < SERIAL_BUFF_SIZE
    {
      if count == SERIAL_BUFF_SIZE {
        return false;
      }
      hide Ring;
      RingPush(buff[..], cons, count, d);
      ghost var was, b := Held(), buff[..];
      buff[prod] := d;
      assert buff[..] == b[prod := d];
      prod, count := prod + 1, count + 1;
      if prod >= SERIAL_BUFF_SIZE {
        prod := 0;
      }
      accepted := accepted + [d];
      assert Held() == was + [d];
      if count == 1 {
        HwWrite(lsr);
      }
      ok := true;
    }

    // The part of the handler that serves a transmit interrupt.
    method ServeTx(iir: byte, lsr: byte)
      requires Valid()
      modifies this`cons, this`count, this`idle, this`port
      ensures Valid() && State() == Interrupt(old(State()), iir)
    {
      if IsTxIrq(iir) {
        idle := true;
        HwWrite(lsr);
      }
    }

    // serial_write, undisturbed: what printk calls inside the handler.
    method Print(text: seq<byte>, lsrs: seq<byte>)
      requires Valid() && |text| == |lsrs|
      modifies this`prod, this`cons, this`count, this`idle, this`port, this`accepted, buff
      ensures Valid() && State() == Run(old(State()), Puts(text, lsrs))
    {
      hide Ring, Add;
      ghost var s := State();
      var n := 0;
      while n < |text|
        invariant n <= |text| && Valid() && State() == Run(s, Puts(text[..n], lsrs[..n]))
      {
        ghost var t := State();
        var ok := ProdAdd(text[n], lsrs[n]);
        PutsNext(s, text, lsrs, n);
        if !ok {
          FullRefuses(t, text[n], lsrs[n]);
          return;
        }
        n := n + 1;
      }
      assert text[..n] == text && lsrs[..n] == lsrs;
    }

    method TxIrqHandler(message: seq<byte>, lsrs: seq<byte>, iir: byte, lsr: byte, unknown: seq<byte>, later: seq<byte>)
      requires Valid() && |message| == |lsrs| && |unknown| == |later|
      modifies this`prod, this`cons, this`count, this`idle, this`port, this`accepted, buff
      ensures Valid() && State() == Handled(old(State()), message, lsrs, iir, unknown, later)
    {
      hide Ring, Add, Puts;
      Print(message, lsrs);
      ServeTx(iir, lsr);
      if !IsTxIrq(iir) && !IsLineIrq(iir) {
        Print(unknown, later);
      }
    }

    /** Before byte i the events env(i) come in, and lsr(i) is what the line status register then reads. */
    method SerialWrite(text: seq<byte>, env: nat -> seq<Event>, lsr: nat -> byte) returns (n: nat)
      requires Valid()
      modifies this`prod, this`cons, this`count, this`idle, this`port, this`accepted, buff
      ensures Valid() && n <= |text|
      ensures State() == Run(old(State()), Woven(text, env, lsr, n) + (if n < |text| then env(n) else []))
      ensures n < |text| ==> |Held()| == SERIAL_BUFF_SIZE
      ensures forall k: nat | k <= |text| :: Roomy(old(State()), text, env, lsr, k) <==> k <= n
      ensures accepted == old(accepted) + Between(old(State()), text, env, lsr, n)
                          + if n < |text| then Brought(Run(old(State()), Woven(text, env, lsr, n)), env(n)) else []
    {
      hide Ring, Add, Brought;
      ghost var s := State();
      n := 0;
      while n < |text|
        invariant n <= |text| && Valid() && State() == Run(s, Woven(text, env, lsr, n))
        invariant Roomy(s, text, env, lsr, n)
      {
        ghost var before := Woven(text, env, lsr, n);
        RunCut(s, before, env(n));
        Play(env(n));
        ghost var t := State();
        var ok := ProdAdd(text[n], lsr(n));
        if !ok {
          FullRefuses(t, text[n], lsr(n));
          WovenInOrder(s, text, env, lsr, n);
          AcceptedIs(Run(s, before), env(n));
          forall k: nat | k <= |text| { RoomyUpTo(s, text, env, lsr, n, k); }
          return;
        }
        assert t == Run(s, before + env(n)) && |t.held| < SERIAL_BUFF_SIZE;
        RunCut(s, before + env(n), [Put(text[n], lsr(n))]);
        RunOne(t, Put(text[n], lsr(n)));
        n := n + 1;
      }
      assert Woven(text, env, lsr, n) + [] == Woven(text, env, lsr, n);
      WovenInOrder(s, text, env, lsr, n);
      forall k: nat | k <= |text| { RoomyUpTo(s, text, env, lsr, n, k); }
    }

    // What comes in: bytes added by others, and transmit interrupts.
    method Play(events: seq<Event>)
      requires Valid()
      modifies this`prod, this`cons, this`count, this`idle, this`port, this`accepted, buff
      ensures Valid() && State() == Run(old(State()), events)
    {
      hide Ring, Add;
      ghost var s := State();
      var i := 0;
      while i < |events|
        invariant i <= |events| && Valid() && State() == Run(s, events[..i])
      {
        ghost var t := State();
        match events[i] {
          case Put(d, lsr) => var _ := ProdAdd(d, lsr);
          case Irq(iir) => ServeTx(iir, 0);
        }
        assert events[..i + 1] == events[..i] + [events[i]];
        RunCut(s, events[..i], [events[i]]);
        RunOne(t, events[i]);
        i := i + 1;
      }
      assert events[..i] == events;
    }
  }

  lemma PutsNext(s: Fifo, text: seq<byte>, lsrs: seq<byte>, n: nat)
    requires |text| == |lsrs| && n < |text|
    ensures var t := Run(s, Puts(text[..n], lsrs[..n]));
            && Run(s, Puts(text[..n + 1], lsrs[..n + 1])) == Add(t, text[n], lsrs[n])
            && (|t.held| == SERIAL_BUFF_SIZE ==> Run(s, Puts(text, lsrs)) == t)
  {
    var t := Run(s, Puts(text[..n], lsrs[..n]));
    OnePut(text, lsrs, n);
    RunCut(s, Puts(text[..n], lsrs[..n]), [Put(text[n], lsrs[n])]);
    RunOne(t, Put(text[n], lsrs[n]));
    if |t.held| == SERIAL_BUFF_SIZE {
      PutsApart(text, lsrs, n);
      RunCut(s, Puts(text[..n], lsrs[..n]), Puts(text[n..], lsrs[n..]));
      AllRefused(t, text[n..], lsrs[n..]);
    }
  }

  lemma OnePut(text: seq<byte>, lsrs: seq<byte>, n: nat)
    requires |text| == |lsrs| && n < |text|
    ensures Puts(text[..n + 1], lsrs[..n + 1]) == Puts(text[..n], lsrs[..n]) + [Put(text[n], lsrs[n])]
  {
    var t, l := text[..n + 1], lsrs[..n + 1];
    PutsApart(t, l, n);
    assert t[..n] == text[..n] && l[..n] == lsrs[..n] && t[n..] == [text[n]] && l[n..] == [lsrs[n]];
    assert t[n..][1..] == [];
  }

  lemma {:induction false} PutsApart(text: seq<byte>, lsrs: seq<byte>, n: nat)
    requires |text| == |lsrs| && n <= |text|
    ensures Puts(text, lsrs) == Puts(text[..n], lsrs[..n]) + Puts(text[n..], lsrs[n..])
    decreases n
  {
    if n > 0 {
      assert text[..n][1..] == text[1..][..n - 1] && lsrs[..n][1..] == lsrs[1..][..n - 1];
      assert text[n..] == text[1..][n - 1..] && lsrs[n..] == lsrs[1..][n - 1..];
      PutsApart(text[1..], lsrs[1..], n - 1);
    } else {
      assert text[0..] == text && lsrs[0..] == lsrs;
    }
  }
}
