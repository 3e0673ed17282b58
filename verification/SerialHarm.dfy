// The interrupts that do harm: the ring is not in order after them, and two inputs from the start of the driver.
module SerialHarm {
  import opened Serial
  import opened SerialSteps
  import opened SerialInterrupts

  // ---------- Harmful interrupts ----------

  /** What is sent and what is accepted only grows, and a pointer written over is lost for good. */
  ghost predicate Grows(r: Regs, t: Regs) {
    r.port <= t.port && r.accepted <= t.accepted && (r.lost ==> t.lost)
  }

  /** A byte has been sent in place of another. */
  ghost predicate OutOfTurn(r: Regs) {
    exists k: nat :: k < |r.port| && k < |r.accepted| && r.port[k] != r.accepted[k]
  }

  ghost predicate Spoilt(r: Regs) { OutOfTurn(r) || r.lost }

  lemma GoGrows(m: Machine, lsr: byte, stray: byte)
    ensures Grows(m.r, Go(m, lsr, stray).r)
  {
    hide GoAdd, GoGet, GoHw, Grows;
    if InAdd(m.pc) { AddGrows(m); } else if InGet(m.pc) { GetGrows(m, stray); } else { HwGrows(m, lsr); }
  }

  lemma AddGrows(m: Machine)
    requires InAdd(m.pc)
    ensures Grows(m.r, GoAdd(m).r)
  {
  }

  lemma GetGrows(m: Machine, stray: byte)
    requires InGet(m.pc)
    ensures Grows(m.r, GoGet(m, stray).r)
  {
  }

  lemma HwGrows(m: Machine, lsr: byte)
    requires !InAdd(m.pc) && !InGet(m.pc)
    ensures Grows(m.r, GoHw(m, lsr).r)
  {
  }

  lemma {:induction false} FinishGrows(m: Machine, lsr: byte, stray: byte)
    ensures Grows(m.r, Finish(m, lsr, stray).r)
    decreases Left(m.pc)
  {
    hide Go;
    if m.pc != Ready {
      GoesOn(m, lsr, stray);
      GoGrows(m, lsr, stray);
      FinishGrows(Go(m, lsr, stray), lsr, stray);
    }
  }

  lemma {:induction false} PrintsGrows(r: Regs, text: seq<byte>, lsr: byte, stray: byte)
    ensures Grows(r, Prints(r, text, lsr, stray))
    decreases |text|
  {
    hide Finish;
    if text != [] {
      FinishGrows(Machine(r, Full, text[0], 0), lsr, stray);
      PrintsGrows(Finish(Machine(r, Full, text[0], 0), lsr, stray).r, text[1..], lsr, stray);
    }
  }

  lemma DoGrows(m: Machine, a: Act)
    ensures Grows(m.r, Do(m, a).r)
  {
    hide Finish, Prints, Go;
    match a {
      case Call(_) =>
      case Statement(lsr, stray) => GoGrows(m, lsr, stray);
      case Handle(iir, text, lsr, stray) =>
        PrintsGrows(m.r, text, lsr, stray);
        FinishGrows(Machine(Prints(m.r, text, lsr, stray).(idle := true), Flag, 0, 0), lsr, stray);
    }
  }

  lemma SpoiltStays(r: Regs, t: Regs)
    requires Spoilt(r) && Grows(r, t)
    ensures Spoilt(t) && !InOrder(t)
  {
    if OutOfTurn(r) {
      var k: nat :| k < |r.port| && k < |r.accepted| && r.port[k] != r.accepted[k];
      assert t.port[k] != t.accepted[k];
      if InOrder(t) { SentInTurn(t); }
    }
  }

  lemma SentInTurn(r: Regs)
    requires InOrder(r)
    ensures forall k | 0 <= k < |r.port| :: k < |r.accepted| && r.port[k] == r.accepted[k]
  {
    forall k | 0 <= k < |r.port| ensures k < |r.accepted| && r.port[k] == r.accepted[k] {
      assert (r.port + Abs(r).held)[k] == r.port[k];
    }
  }

  /** The byte whose turn it is to be sent. */
  function Turn(r: Regs): byte
    requires |r.port| < |r.accepted|
  {
    r.accepted[|r.port|]
  }

  /** No other byte can pass for it: neither those behind it in the ring nor those that come in now. */
  predicate Distinct(m: Machine, a: Act) {
    (if a.Handle? then m.pc in {Bump, Drop, WrapCons, Last, Stop, Out} else a.Statement? && m.pc == Store)
    && |m.r.port| < |m.r.accepted| ==>
      var b := Turn(m.r);
      b !in m.r.accepted[|m.r.port| + 1..] && if a.Handle? then b !in a.text && b != a.stray else b != m.d
  }

  /** Sending any other byte first. */
  lemma Overtakes(r: Regs, t: Regs)
    requires |r.port| < |r.accepted| && Grows(r, t) && |r.port| < |t.port| && t.port[|r.port|] != Turn(r)
    ensures OutOfTurn(t)
  {
  }

  // A byte is about to be stored, and the message fills the ring.
  lemma StoreHarm(m: Machine, a: Act, lsr: byte, stray: byte)
    requires Inv(m) && m.pc == Store && Spoils(m, a)
    ensures Finish(Do(m, a), lsr, stray).r.count == SERIAL_BUFF_SIZE + 1
  {
    hide Finish, Handler, Prints, InOrder;
    CountOk(m.r);
    HandlerIs(m.r, a.iir, a.text, a.lsr, a.stray);
    PrintsQuiet(m.r, a.text, a.lsr, a.stray);
    FinishStore(Do(m, a), lsr, stray);
  }

  // The pointer stands behind the buffer when the message comes, and its first byte is written over the pointer.
  lemma HandlerBehind(m: Machine, a: Act)
    requires a.Handle? && m.r.prod >= |m.r.buff| && m.r.count < SERIAL_BUFF_SIZE
    ensures Do(m, a).r.lost
  {
    hide Finish, Prints, PutIn;
    var t := PutIn(m.r, a.text[0], a.lsr, a.stray);
    PutBehind(m.r, a.text[0], a.lsr, a.stray);
    PrintsNext(m.r, a.text, a.lsr, a.stray);
    PrintsGrows(t, a.text[1..], a.lsr, a.stray);
    Served(m.r, a.iir, a.text, a.lsr, a.stray);
  }

  lemma PutBehind(r: Regs, d: byte, lsr: byte, stray: byte)
    requires r.prod >= |r.buff| && r.count < SERIAL_BUFF_SIZE
    ensures PutIn(r, d, lsr, stray).lost
  {
  }

  /** A message that fills the ring overwrites the byte whose turn it is, when another one is stored and not counted. */
  lemma {:induction false} HeadOverwritten(r: Regs, text: seq<byte>, lsr: byte, stray: byte)
    requires Stored(r) && r.prod < SERIAL_BUFF_SIZE && Fills(r, |text|)
    ensures var t := Prints(r, text, lsr, stray);
            && t.count == SERIAL_BUFF_SIZE && t.cons == r.cons && t.port == r.port && |t.buff| == SERIAL_BUFF_SIZE
            && t.buff[r.cons] in text && AllBehind(t)
    decreases |text|
  {
    hide PutIn, Prints, Stored;
    Slots(r);
    PrintsNext(r, text, lsr, stray);
    PrintsQuiet(r, text, lsr, stray);
    var t := PutIn(r, text[0], lsr, stray);
    PutCount(r, text[0], lsr, stray);
    if r.count == SERIAL_BUFF_SIZE - 1 {
      LastPut(r, text[0], lsr, stray);
      MessageRefused(t, text[1..], lsr, stray);
    } else {
      PutStored(r, text[0], lsr, stray);
      HeadOverwritten(t, text[1..], lsr, stray);
    }
  }

  lemma Slots(r: Regs)
    requires Stored(r)
    ensures r.count < SERIAL_BUFF_SIZE && r.cons < SERIAL_BUFF_SIZE && |r.buff| == SERIAL_BUFF_SIZE
    ensures |r.port| < |r.accepted|
  {
  }

  lemma LastPut(r: Regs, d: byte, lsr: byte, stray: byte)
    requires Stored(r) && r.prod < SERIAL_BUFF_SIZE && r.count == SERIAL_BUFF_SIZE - 1
    ensures var t := PutIn(r, d, lsr, stray); |t.buff| == SERIAL_BUFF_SIZE && t.buff[r.cons] == d && AllBehind(t)
  {
    hide Ring;
    assert r.port + [] == r.port;
    OverHead(r, d);
  }

  /** Every slot of the buffer holds a byte behind the one whose turn it is. */
  ghost predicate AllBehind(r: Regs) {
    && |r.buff| == SERIAL_BUFF_SIZE && |r.port| < |r.accepted|
    && forall i | 0 <= i < SERIAL_BUFF_SIZE :: r.buff[i] in r.accepted[|r.port| + 1..]
  }

  /** One byte too many is written over the one whose turn it is. */
  lemma OverHead(r: Regs, d: byte)
    requires |r.buff| == SERIAL_BUFF_SIZE && r.cons < SERIAL_BUFF_SIZE
    requires r.port + Ring(r.buff, r.cons, SERIAL_BUFF_SIZE) == r.accepted
    ensures AllBehind(r.(buff := r.buff[r.cons := d], accepted := r.accepted + [d]))
  {
    hide Ring;
    var b, ring := r.buff[r.cons := d], Ring(r.buff, r.cons, SERIAL_BUFF_SIZE);
    var behind := (r.accepted + [d])[|r.port| + 1..];
    assert behind == ring[1..] + [d];
    forall i | 0 <= i < SERIAL_BUFF_SIZE ensures b[i] in behind {
      if i == r.cons {
        assert behind[15] == d;
      } else {
        var k := if i > r.cons then i - r.cons else i + SERIAL_BUFF_SIZE - r.cons;
        RingAt(r.buff, r.cons, SERIAL_BUFF_SIZE, k);
        assert behind[k - 1] == b[i];
      }
    }
  }

  lemma FullHarm(m: Machine, a: Act)
    requires Inv(m) && m.pc == Bump && a.Handle? && m.r.prod < SERIAL_BUFF_SIZE && Fills(m.r, |a.text|)
             && Distinct(m, a)
    ensures IsTxIrq(a.iir) ==> OutOfTurn(Do(m, a).r)
    ensures !IsTxIrq(a.iir) ==> Do(m, a).r.count == SERIAL_BUFF_SIZE && AllBehind(Do(m, a).r)
    ensures |m.r.port| < |m.r.accepted| && (IsTxIrq(a.iir) || Do(m, a).r.port == m.r.port)
  {
    hide Finish, Handler, Prints, Stored, OutOfTurn, Grows, AllBehind;
    var r, n := m.r, Do(m, a);
    Slots(r);
    HandlerIs(r, a.iir, a.text, a.lsr, a.stray);
    HeadOverwritten(r, a.text, a.lsr, a.stray);
    if IsTxIrq(a.iir) {
      DoGrows(m, a);
      assert n.r.port == r.port + [Prints(r, a.text, a.lsr, a.stray).buff[r.cons]];
      Overtakes(r, n.r);
    }
  }

  lemma TooMany(r: Regs)
    requires r.count > SERIAL_BUFF_SIZE
    ensures !InOrder(r)
  {
  }

  // ---------- A byte in flight is overtaken ----------

  predicate InFlight(pc: Pc) { pc.Drop? || pc.WrapCons? || pc.Last? || pc.Stop? || pc.Out? }

  /**
   * What is read and not at the port is next; and the byte at the consumer's pointer, if there is one, is behind it.
   */
  lemma NextIsTurn(p: Place, r: Regs)
    requires Holds(p, r) && !p.AtStored?
    ensures |r.port| < |r.accepted| && Turn(r) == p.data && r.cons <= SERIAL_BUFF_SIZE == |r.buff|
            && r.count <= SERIAL_BUFF_SIZE
    ensures r.cons < SERIAL_BUFF_SIZE && r.count > (if p.AtDropping? then 1 else 0) ==>
              r.buff[r.cons] in r.accepted[|r.port| + 1..]
  {
    hide Ring;
    var held := if p.AtDropping? then r.count - 1 else r.count;
    assert Pending(r, [p.data], Wrap(r.cons), held);
    var ring := Ring(r.buff, Wrap(r.cons), held);
    assert (r.port + [p.data] + ring)[|r.port|] == p.data;
    if r.cons < SERIAL_BUFF_SIZE && held > 0 {
      SentFirst(r.buff, r.cons, held);
      assert (r.port + [p.data] + ring)[|r.port| + 1] == ring[0];
      assert r.accepted[|r.port| + 1..][0] == ring[0];
    }
  }

  function PlaceOf(m: Machine): Place { if m.pc == Drop then AtDropping(m.data) else AtTaken(m.data) }

  /** After the message, the byte at the consumer's pointer was in the ring before or is one of the message. */
  lemma AnotherByte(p: Place, r: Regs, text: Message, lsr: byte, stray: byte)
    requires Holds(p, r) && !p.AtStored? && r.count <= SERIAL_BUFF_SIZE && !(r.idle && r.count == 0)
    requires |r.port| < |r.accepted| && r.cons <= SERIAL_BUFF_SIZE && (p.AtDropping? ==> r.count > 0)
    ensures var t := Prints(r, text, lsr, stray);
            && t.count > 0 && t.cons == r.cons && t.port == r.port && |t.buff| == SERIAL_BUFF_SIZE
            && (t.cons < SERIAL_BUFF_SIZE ==> t.buff[t.cons] in r.accepted[|r.port| + 1..] + text)
  {
    hide Prints, Holds;
    var t := Prints(r, text, lsr, stray);
    PrintsKeep(p, r, text, lsr, stray);
    PrintsQuiet(r, text, lsr, stray);
    NextIsTurn(p, t);
    var n := Least(|text|, SERIAL_BUFF_SIZE - r.count);
    Behind(r.accepted, |r.port| + 1, text, n);
  }

  lemma Behind(a: seq<byte>, k: nat, text: seq<byte>, n: nat)
    requires k <= |a| && n <= |text|
    ensures (a + text[..n])[k..] == a[k..] + text[..n]
    ensures forall b | b in (a + text[..n])[k..] :: b in a[k..] + text
  {
  }

  /** The handler sends a byte of the message, one from the ring, or the one behind the buffer. */
  lemma FlightHarm(m: Machine, a: Act)
    requires Inv(m) && InFlight(m.pc) && a.Handle? && Harmful(m, a) && Distinct(m, a)
    requires !(m.r.idle && m.r.count == 0)
    ensures OutOfTurn(Do(m, a).r)
  {
    hide Handler, Prints, Holds, OutOfTurn, Grows, Inv;
    var r, t, p := m.r, Prints(m.r, a.text, a.lsr, a.stray), PlaceOf(m);
    FlightHolds(m);
    NextIsTurn(p, r);
    HandlerIs(r, a.iir, a.text, a.lsr, a.stray);
    AnotherByte(p, r, a.text, a.lsr, a.stray);
    DoGrows(m, a);
    assert Do(m, a).r.port == r.port + [Read(t.buff, t.cons, a.stray)];
    Overtakes(r, Do(m, a).r);
  }

  lemma FlightHolds(m: Machine)
    requires Inv(m) && InFlight(m.pc) && !(m.r.idle && m.r.count == 0)
    ensures Holds(PlaceOf(m), m.r) && (m.pc == Drop ==> m.r.count > 0)
  {
  }

  /** With the flag set and the ring empty, the message itself is sent first. */
  lemma OutHarm(m: Machine, a: Act)
    requires Inv(m) && m.pc == Out && a.Handle? && m.r.idle && m.r.count == 0 && Distinct(m, a)
    ensures OutOfTurn(Do(m, a).r)
  {
    hide Handler, Prints, Finish, OutOfTurn, Pending;
    var r := m.r;
    var t := PutIn(r, a.text[0], a.lsr, a.stray);
    EmptyFlight(r, m.data);
    FirstThrough(r, m.data, a.text[0], a.lsr, a.stray);
    PrintsNext(r, a.text, a.lsr, a.stray);
    PrintsGrows(t, a.text[1..], a.lsr, a.stray);
    Served(r, a.iir, a.text, a.lsr, a.stray);
    DoGrows(m, a);
    Overtakes(r, Do(m, a).r);
  }

  lemma EmptyFlight(r: Regs, data: byte)
    requires Taken(r, data)
    ensures |r.port| < |r.accepted| && Turn(r) == data
  {
    assert (r.port + [data] + Ring(r.buff, Wrap(r.cons), r.count))[|r.port|] == data;
  }

  lemma FirstThrough(r: Regs, data: byte, d: byte, lsr: byte, stray: byte)
    requires Taken(r, data) && r.cons < SERIAL_BUFF_SIZE && r.idle && r.count == 0
    ensures PutIn(r, d, lsr, stray).port == r.port + [d]
  {
  }

  lemma Served(r: Regs, iir: byte, text: seq<byte>, lsr: byte, stray: byte)
    ensures Grows(Prints(r, text, lsr, stray), Handler(r, iir, text, lsr, stray))
  {
    hide Finish, Prints;
    FinishGrows(Machine(Prints(r, text, lsr, stray).(idle := true), Flag, 0, 0), lsr, stray);
  }

  // ---------- One interrupt in a call ----------

  /** What is harmful, and, before a byte is stored, a message that fills the ring and no byte sent in its stead. */
  predicate Spoils(m: Machine, a: Act) {
    a.Handle? && if m.pc == Store then !IsTxIrq(a.iir) && Fills(m.r, |a.text|) else Harmful(m, a)
  }

  lemma InFlightHarm(m: Machine, a: Act)
    requires Inv(m) && InFlight(m.pc) && a.Handle? && Harmful(m, a) && Distinct(m, a)
    ensures OutOfTurn(Do(m, a).r)
  {
    hide Do, OutOfTurn, Pending;
    if m.r.idle && m.r.count == 0 {
      IdleOnlyAtOut(m);
      OutHarm(m, a);
    } else {
      FlightHarm(m, a);
    }
  }

  lemma BehindHarm(m: Machine, a: Act)
    requires Inv(m) && a.Handle? && Harmful(m, a) && m.pc in {Bump, WrapProd} && m.r.prod == SERIAL_BUFF_SIZE
    ensures Do(m, a).r.lost
  {
    hide Handler, Ring;
    HandlerBehind(m, a);
  }

  /**
   * From any state in order, an interrupt before any statement of a call, and the rest of the call: the
   * ring is in order afterwards exactly if the interrupt is none of those.
   */
  lemma InOrderIff(m: Machine, a: Act, lsr: byte, stray: byte)
    requires Inv(m) && a.Handle? && Distinct(m, a)
    ensures InOrder(Finish(Do(m, a), lsr, stray).r) <==> !Spoils(m, a)
  {
    hide Finish, Do, Inv, InOrder, OutOfTurn, Distinct, Handler, Harmful, Fills;
    var n := Do(m, a);
    if m.pc == Store {
      AtStore(m, a, lsr, stray);
    } else if !Harmful(m, a) {
      IrqKeeps(m, a);
      SamePlace(m, a);
      FinishKeeps(n, lsr, stray);
    } else if InFlight(m.pc) {
      InFlightHarm(m, a);
      FinishGrows(n, lsr, stray);
      SpoiltStays(n.r, Finish(n, lsr, stray).r);
    } else {
      NotInFlight(m, a);
      if m.r.prod == SERIAL_BUFF_SIZE {
        BehindHarm(m, a);
        FinishGrows(n, lsr, stray);
        SpoiltStays(n.r, Finish(n, lsr, stray).r);
      } else {
        AtBump(m, a, lsr, stray);
      }
    }
  }

  lemma SamePlace(m: Machine, a: Act)
    requires a.Handle?
    ensures Do(m, a).pc == m.pc
  {
  }

  lemma NotInFlight(m: Machine, a: Act)
    requires Inv(m) && a.Handle? && Harmful(m, a) && !InFlight(m.pc)
    ensures m.pc in {Bump, WrapProd} && m.r.prod <= SERIAL_BUFF_SIZE
    ensures m.r.prod < SERIAL_BUFF_SIZE ==> m.pc == Bump && Fills(m.r, |a.text|)
  {
  }

  lemma AtStore(m: Machine, a: Act, lsr: byte, stray: byte)
    requires Inv(m) && m.pc == Store && a.Handle?
    ensures InOrder(Finish(Do(m, a), lsr, stray).r) <==> !Spoils(m, a)
  {
    hide Finish, Handler, InOrder, Fills;
    if Spoils(m, a) {
      StoreHarm(m, a, lsr, stray);
      TooMany(Finish(Do(m, a), lsr, stray).r);
    } else {
      CountOk(m.r);
      HandlerKeeps(m.r, a.iir, a.text, a.lsr, a.stray);
      StoreHarmless(m.r, a.iir, a.text, a.lsr, a.stray);
      FinishKeeps(Do(m, a), lsr, stray);
    }
  }

  lemma AtBump(m: Machine, a: Act, lsr: byte, stray: byte)
    requires Inv(m) && m.pc == Bump && a.Handle? && m.r.prod < SERIAL_BUFF_SIZE && Fills(m.r, |a.text|)
             && Distinct(m, a)
    ensures !InOrder(Finish(Do(m, a), lsr, stray).r)
  {
    hide Finish, Handler, InOrder, OutOfTurn, Stored, AllBehind;
    var n := Do(m, a);
    FullHarm(m, a);
    if IsTxIrq(a.iir) {
      FinishGrows(n, lsr, stray);
      SpoiltStays(n.r, Finish(n, lsr, stray).r);
    } else {
      FinishBump(n, lsr, stray);
      TooMany(Finish(n, lsr, stray).r);
    }
  }

  // ---------- Harm is never made good ----------

  /** The byte whose turn it is, b, is no longer in the buffer. */
  predicate Missing(r: Regs, b: byte) {
    |r.buff| == SERIAL_BUFF_SIZE && |r.port| < |r.accepted| && Turn(r) == b && b !in r.buff
  }

  ghost predicate Beyond(r: Regs, b: byte) { Spoilt(r) || Missing(r, b) }

  /** ... nor on its way into the buffer or to the port. */
  ghost predicate BeyondHelp(m: Machine, b: byte) {
    || Spoilt(m.r)
    || (Missing(m.r, b) && (m.pc in {Full, Store} ==> m.d != b) && (InFlight(m.pc) ==> m.data != b))
  }

  predicate Brings(a: Act, b: byte) {
    match a
    case Call(d) => d == b
    case Statement(_, stray) => stray == b
    case Handle(_, text, _, stray) => b in text || stray == b
  }

  ghost predicate Avoids(acts: seq<Act>, b: byte) { forall a | a in acts :: !Brings(a, b) }

  lemma NotInBuffer(r: Regs, b: byte)
    requires Beyond(r, b)
    ensures !InOrder(r)
  {
    if Spoilt(r) {
      SpoiltStays(r, r);
    } else if InOrder(r) {
      var held := Abs(r).held;
      assert (r.port + held)[|r.port|] == held[0];
      RingAt(r.buff, r.cons, r.count, 0);
    }
  }

  lemma GoBeyond(m: Machine, lsr: byte, stray: byte, b: byte)
    requires BeyondHelp(m, b) && stray != b
    ensures BeyondHelp(Go(m, lsr, stray), b)
  {
    hide InOrder, OutOfTurn, Grows, GoAdd, GoGet, GoHw, Missing;
    if Spoilt(m.r) {
      GoGrows(m, lsr, stray);
      SpoiltStays(m.r, Go(m, lsr, stray).r);
    } else if InAdd(m.pc) {
      AddBeyond(m, b);
    } else if InGet(m.pc) {
      GetBeyond(m, stray, b);
    } else {
      HwBeyond(m, lsr, b);
    }
  }

  lemma MissingStays(r: Regs, t: Regs, b: byte)
    requires Missing(r, b) && t.buff == r.buff && t.port == r.port && t.accepted == r.accepted
    ensures Missing(t, b)
  {
  }

  lemma MissingStored(r: Regs, t: Regs, d: byte, b: byte)
    requires Missing(r, b) && d != b && t.port == r.port && t.accepted == r.accepted + [d]
    requires t.buff == if r.prod < |r.buff| then r.buff[r.prod := d] else r.buff
    ensures Missing(t, b)
  {
    forall i | 0 <= i < SERIAL_BUFF_SIZE ensures t.buff[i] != b {
      assert t.buff[i] == d || t.buff[i] == r.buff[i];
    }
  }

  lemma AddPlace(m: Machine)
    requires InAdd(m.pc)
    ensures !InFlight(GoAdd(m).pc)
  {
    match m.pc
    case Full => assert GoAdd(m).pc.Ready? || GoAdd(m).pc.Store?;
    case Store => assert GoAdd(m).pc.Bump?;
    case Bump => assert GoAdd(m).pc.WrapProd?;
    case WrapProd => assert GoAdd(m).pc.One?;
    case One => assert GoAdd(m).pc.Ready? || GoAdd(m).pc.Flag?;
  }

  lemma TestedFirst(m: Machine)
    requires InAdd(m.pc) && m.pc != Full
    ensures GoAdd(m).pc != Full && GoAdd(m).pc != Store
  {
  }

  lemma SameByte(m: Machine)
    requires InAdd(m.pc)
    ensures GoAdd(m).d == m.d && GoAdd(m).r.port == m.r.port
  {
  }

  lemma AddBytes(m: Machine)
    requires InAdd(m.pc)
    ensures m.pc != Store ==> GoAdd(m).r.buff == m.r.buff && GoAdd(m).r.accepted == m.r.accepted
    ensures m.pc == Store ==>
              && GoAdd(m).r.accepted == m.r.accepted + [m.d]
              && GoAdd(m).r.buff == if m.r.prod < |m.r.buff| then m.r.buff[m.r.prod := m.d] else m.r.buff
  {
  }

  lemma AddBeyond(m: Machine, b: byte)
    requires BeyondHelp(m, b) && !Spoilt(m.r) && InAdd(m.pc)
    ensures BeyondHelp(GoAdd(m), b)
  {
    hide Spoilt, Missing, GoAdd;
    AddPlace(m);
    AddBytes(m);
    SameByte(m);
    if m.pc != Full { TestedFirst(m); }
    if m.pc == Store {
      MissingStored(m.r, GoAdd(m).r, m.d, b);
    } else {
      MissingStays(m.r, GoAdd(m).r, b);
    }
  }

  lemma GetBeyond(m: Machine, stray: byte, b: byte)
    requires BeyondHelp(m, b) && !Spoilt(m.r) && InGet(m.pc) && stray != b
    ensures BeyondHelp(GoGet(m, stray), b)
  {
    hide Spoilt, Missing;
    MissingStays(m.r, GoGet(m, stray).r, b);
    if m.pc == Take { ReadsAnother(m.r, stray, b); }
  }

  lemma ReadsAnother(r: Regs, stray: byte, b: byte)
    requires Missing(r, b) && stray != b
    ensures Read(r.buff, r.cons, stray) != b
  {
  }

  lemma HwPlace(m: Machine, lsr: byte)
    requires !InAdd(m.pc) && !InGet(m.pc)
    ensures !InFlight(GoHw(m, lsr).pc) && GoHw(m, lsr).pc != Full && GoHw(m, lsr).pc != Store
  {
    match m.pc
    case Ready => assert GoHw(m, lsr).pc.Ready?;
    case Flag => assert GoHw(m, lsr).pc.Clear? || GoHw(m, lsr).pc.Poll?;
    case Clear => assert GoHw(m, lsr).pc.Empty?;
    case Out => assert GoHw(m, lsr).pc.Ready?;
    case Poll => assert GoHw(m, lsr).pc.Set? || GoHw(m, lsr).pc.Ready?;
    case Set => assert GoHw(m, lsr).pc.Ready?;
  }

  lemma HwBytes(m: Machine, lsr: byte)
    requires !InAdd(m.pc) && !InGet(m.pc)
    ensures m.pc == Out ==> GoHw(m, lsr).r == m.r.(port := m.r.port + [m.data])
    ensures m.pc != Out ==>
              var t := GoHw(m, lsr).r; t.buff == m.r.buff && t.port == m.r.port && t.accepted == m.r.accepted
  {
  }

  lemma HwBeyond(m: Machine, lsr: byte, b: byte)
    requires BeyondHelp(m, b) && !Spoilt(m.r) && !InAdd(m.pc) && !InGet(m.pc)
    ensures BeyondHelp(GoHw(m, lsr), b)
  {
    hide OutOfTurn, Missing, GoHw;
    HwPlace(m, lsr);
    HwBytes(m, lsr);
    if m.pc == Out {
      SendsAnother(m.r, m.data, b);
    } else {
      MissingStays(m.r, GoHw(m, lsr).r, b);
    }
  }

  lemma SendsAnother(r: Regs, data: byte, b: byte)
    requires Missing(r, b) && data != b
    ensures OutOfTurn(r.(port := r.port + [data]))
  {
    Overtakes(r, r.(port := r.port + [data]));
  }

  lemma {:induction false} FinishBeyond(m: Machine, lsr: byte, stray: byte, b: byte)
    requires BeyondHelp(m, b) && stray != b
    ensures Beyond(Finish(m, lsr, stray).r, b)
    decreases Left(m.pc)
  {
    hide Go, Spoilt, Missing;
    if m.pc != Ready {
      GoesOn(m, lsr, stray);
      GoBeyond(m, lsr, stray, b);
      FinishBeyond(Go(m, lsr, stray), lsr, stray, b);
    }
  }

  lemma {:induction false} PrintsBeyond(r: Regs, text: seq<byte>, lsr: byte, stray: byte, b: byte)
    requires Beyond(r, b) && b !in text && stray != b
    ensures Beyond(Prints(r, text, lsr, stray), b)
    decreases |text|
  {
    hide Finish, Spoilt, Missing;
    if text != [] {
      FinishBeyond(Machine(r, Full, text[0], 0), lsr, stray, b);
      PrintsBeyond(Finish(Machine(r, Full, text[0], 0), lsr, stray).r, text[1..], lsr, stray, b);
    }
  }

  lemma IdleBeyond(r: Regs, b: byte)
    requires Beyond(r, b)
    ensures Beyond(r.(idle := true), b)
  {
    if OutOfTurn(r) {
      var k: nat :| k < |r.port| && k < |r.accepted| && r.port[k] != r.accepted[k];
      assert r.(idle := true).port[k] != r.(idle := true).accepted[k];
    }
  }

  lemma DoBeyond(m: Machine, a: Act, b: byte)
    requires BeyondHelp(m, b) && !Brings(a, b)
    ensures BeyondHelp(Do(m, a), b)
  {
    hide Go, Handler, Spoilt, Missing, Grows, InOrder;
    if Spoilt(m.r) {
      hide Do;
      DoGrows(m, a);
      SpoiltStays(m.r, Do(m, a).r);
    } else {
      match a {
        case Call(d) => CallBeyond(m, d, b);
        case Statement(lsr, stray) => GoBeyond(m, lsr, stray, b);
        case Handle(iir, text, lsr, stray) => HandlerBeyond(m.r, iir, text, lsr, stray, b);
      }
    }
  }

  lemma CallBeyond(m: Machine, d: byte, b: byte)
    requires BeyondHelp(m, b) && d != b && !Spoilt(m.r)
    ensures BeyondHelp(Do(m, Call(d)), b)
  {
    hide Spoilt, Missing, Go, Handler;
  }

  lemma HandlerBeyond(r: Regs, iir: byte, text: Message, lsr: byte, stray: byte, b: byte)
    requires Beyond(r, b) && b !in text && stray != b
    ensures Beyond(Handler(r, iir, text, lsr, stray), b)
  {
    hide Finish, Prints, Spoilt, Missing;
    var t := Prints(r, text, lsr, stray);
    PrintsBeyond(r, text, lsr, stray, b);
    IdleBeyond(t, b);
    FinishBeyond(Machine(t.(idle := true), Flag, 0, 0), lsr, stray, b);
  }

  lemma {:induction false} RunBeyond(m: Machine, acts: seq<Act>, b: byte)
    requires BeyondHelp(m, b) && Avoids(acts, b)
    ensures !InOrder(Exec(m, acts).r)
    decreases |acts|
  {
    hide Do, Spoilt, Missing, InOrder, Brings;
    if acts == [] {
      NotInBuffer(m.r, b);
    } else {
      assert acts[0] in acts && forall a | a in acts[1..] :: a in acts;
      DoBeyond(m, acts[0], b);
      RunBeyond(Do(m, acts[0]), acts[1..], b);
    }
  }

  /** Once a byte has been sent out of its turn, or the pointer written over, the ring is never in order again. */
  lemma {:induction false} NeverAgain(m: Machine, acts: seq<Act>)
    requires Spoilt(m.r)
    ensures !InOrder(Exec(m, acts).r)
    decreases |acts|
  {
    hide Do, Spoilt, InOrder;
    if acts == [] {
      SpoiltStays(m.r, m.r);
    } else {
      DoGrows(m, acts[0]);
      SpoiltStays(m.r, Do(m, acts[0]).r);
      NeverAgain(Do(m, acts[0]), acts[1..]);
    }
  }

  /** No other byte can pass for the one whose turn it is; where that one is written over, no later one either. */
  ghost predicate NoChance(m: Machine, a: Act, rest: seq<Act>) {
    && Distinct(m, a)
    && (m.pc in {Store, Bump} && |m.r.port| < |m.r.accepted| ==> Avoids(rest, Turn(m.r)))
  }

  lemma OneTooMany(m: Machine, a: Act)
    requires Inv(m) && a.Statement? && Harmful(m, a) && Distinct(m, a)
    ensures |m.r.port| < |m.r.accepted| && BeyondHelp(Do(m, a), Turn(m.r))
  {
    hide Ring, OutOfTurn;
    var r := m.r;
    assert Do(m, a) == GoAdd(m);
    OverHead(r, m.d);
    Gone(r, Do(m, a).r);
  }

  /** Where every slot holds another byte, and none of these is like it, it is gone. */
  lemma Gone(r: Regs, t: Regs)
    requires AllBehind(t) && |r.port| < |r.accepted| && r.port == t.port && r.accepted <= t.accepted
    requires Turn(r) !in t.accepted[|t.port| + 1..]
    ensures Missing(t, Turn(r))
  {
  }

  lemma HeadGone(m: Machine, a: Act)
    requires Inv(m) && m.pc == Bump && a.Handle? && m.r.prod < SERIAL_BUFF_SIZE && Fills(m.r, |a.text|)
             && Distinct(m, a)
    ensures |m.r.port| < |m.r.accepted| && BeyondHelp(Do(m, a), Turn(m.r))
  {
    hide Handler, OutOfTurn, Prints, Stored, AllBehind, Missing;
    FullHarm(m, a);
    if !IsTxIrq(a.iir) {
      HandlerIs(m.r, a.iir, a.text, a.lsr, a.stray);
      BumpCount(m);
      PrintsQuiet(m.r, a.text, a.lsr, a.stray);
      Behind(m.r.accepted, |m.r.port| + 1, a.text, Least(|a.text|, SERIAL_BUFF_SIZE - m.r.count));
      Gone(m.r, Do(m, a).r);
    }
  }

  lemma BumpCount(m: Machine)
    requires Inv(m) && m.pc == Bump
    ensures m.r.count < SERIAL_BUFF_SIZE
  {
  }

  /** Whatever comes after it, and wherever, the harm is never made good. */
  lemma HarmForGood(m: Machine, a: Act, acts: seq<Act>)
    requires Inv(m) && Harmful(m, a) && NoChance(m, a, acts)
    ensures !InOrder(Exec(Do(m, a), acts).r)
  {
    hide Do, Inv, InOrder, OutOfTurn, Distinct, Fills, Missing, Avoids;
    if a.Statement? {
      OneTooMany(m, a);
      RunBeyond(Do(m, a), acts, Turn(m.r));
    } else if InFlight(m.pc) {
      InFlightHarm(m, a);
      NeverAgain(Do(m, a), acts);
    } else {
      NotInFlight(m, a);
      if m.r.prod == SERIAL_BUFF_SIZE {
        BehindHarm(m, a);
        NeverAgain(Do(m, a), acts);
      } else {
        HeadGone(m, a);
        RunBeyond(Do(m, a), acts, Turn(m.r));
      }
    }
  }

  /** What is told apart at the first harm of a run. */
  ghost predicate ToldApart(m: Machine, acts: seq<Act>)
    decreases |acts|
  {
    acts != [] ==>
      if Harmful(m, acts[0]) then NoChance(m, acts[0], acts[1..]) else ToldApart(Do(m, acts[0]), acts[1..])
  }

  lemma {:induction false} HarmShows(m: Machine, acts: seq<Act>)
    requires Inv(m) && ToldApart(m, acts) && !Clean(m, acts)
    ensures !InOrder(Exec(m, acts).r)
    decreases |acts|
  {
    hide Do, Inv, InOrder, Harmful, NoChance;
    if Harmful(m, acts[0]) {
      HarmForGood(m, acts[0], acts[1..]);
    } else {
      ActKeeps(m, acts[0]);
      HarmShows(Do(m, acts[0]), acts[1..]);
    }
  }

  /**
   * Over any run of calls, statements and interrupts from any state in order: once the last call is through, the
   * ring is in order exactly if nothing harmful has happened.
   */
  lemma RunInOrderIff(m: Machine, acts: seq<Act>)
    requires Inv(m) && ToldApart(m, acts) && Exec(m, acts).pc == Ready
    ensures InOrder(Exec(m, acts).r) <==> Clean(m, acts)
  {
    hide Exec, Inv, InOrder;
    if Clean(m, acts) { InterruptedRunKeeps(m, acts); } else { HarmShows(m, acts); }
  }

  lemma IdleOnlyAtOut(m: Machine)
    requires Inv(m) && InFlight(m.pc) && m.r.idle && m.r.count == 0
    ensures m.pc == Out
  {
  }

  // ---------- It happens ----------

  /** "INFO: Serial TX IRQ!" and a newline. */
  const MESSAGE: Message :=
    [73, 78, 70, 79, 58, 32, 83, 101, 114, 105, 97, 108, 32, 84, 88, 32, 73, 82, 81, 33, 10]

  /** An empty ring at its first slot, and an idle port. */
  function Fresh(b: seq<byte>): Regs { Regs(b, 0, 0, 0, true, [], [], false) }

  function Statements(n: nat): seq<Act> {
    if n == 0 then [] else [Statement(0, 0)] + Statements(n - 1)
  }

  lemma NoStatement(m: Machine)
    ensures Exec(m, Statements(0)) == m
  {
  }

  lemma NextStatement(m: Machine, n: nat)
    ensures InAdd(m.pc) ==> Exec(m, Statements(n + 1)) == Exec(GoAdd(m), Statements(n))
    ensures InGet(m.pc) ==> Exec(m, Statements(n + 1)) == Exec(GoGet(m, 0), Statements(n))
    ensures !InAdd(m.pc) && !InGet(m.pc) ==> Exec(m, Statements(n + 1)) == Exec(GoHw(m, 0), Statements(n))
  {
    assert Statements(n + 1)[1..] == Statements(n);
  }

  /** An empty ring, and a port that takes the next byte at once. */
  predicate IdleAt(r: Regs, cons: nat) {
    && |r.buff| == SERIAL_BUFF_SIZE && r.cons == r.prod == cons < SERIAL_BUFF_SIZE && r.count == 0 && r.idle && !r.lost
  }

  /** The ninth statement of a call then reads the byte back. */
  function ReadBack(r: Regs, d: byte): Regs
    requires r.prod < |r.buff|
  {
    r.(buff := r.buff[r.prod := d], prod := Wrap(r.prod + 1), cons := r.cons + 1, count := 1, idle := false,
       accepted := r.accepted + [d])
  }

  lemma NineStatements(r: Regs, cons: nat, d: byte, data: byte)
    requires IdleAt(r, cons)
    ensures Exec(Machine(r, Full, d, data), Statements(9)) == Machine(ReadBack(r, d), Drop, d, d)
  {
    hide Exec, Statements, Go, GoGet, GoHw;
    var m := Machine(r, Full, d, data);
    var m1 := m.(pc := Store);
    var m2 := m.(r := r.(buff := r.buff[cons := d], prod := cons + 1, accepted := r.accepted + [d]), pc := Bump);
    var m3 := m2.(r := m2.r.(count := 1), pc := WrapProd);
    var m4 := m3.(r := m3.r.(prod := Wrap(cons + 1)), pc := One);
    assert GoAdd(m) == m1 && GoAdd(m1) == m2 && GoAdd(m2) == m3 && GoAdd(m3) == m4 && GoAdd(m4) == m4.(pc := Flag);
    NextStatement(m, 8);
    NextStatement(m1, 7);
    NextStatement(m2, 6);
    NextStatement(m3, 5);
    NextStatement(m4, 4);
    hide GoAdd;
    FourMore(m4.(pc := Flag), cons, d);
  }

  lemma FourMore(m: Machine, cons: nat, d: byte)
    requires m.pc == Flag && m.r.idle && m.r.count == 1 && m.r.cons == cons < |m.r.buff| && m.r.buff[cons] == d
    ensures Exec(m, Statements(4)) == m.(r := m.r.(cons := cons + 1, idle := false), pc := Drop, data := d)
  {
    hide Exec, Statements, Go, GoAdd;
    var m1 := m.(pc := Clear);
    var m2 := m.(r := m.r.(idle := false), pc := Empty);
    var m3 := m2.(pc := Take);
    var m4 := m2.(r := m2.r.(cons := cons + 1), pc := Drop, data := d);
    assert GoHw(m, 0) == m1 && GoHw(m1, 0) == m2 && GoGet(m2, 0) == m3 && GoGet(m3, 0) == m4;
    NextStatement(m, 3);
    NextStatement(m1, 2);
    NextStatement(m2, 1);
    NextStatement(m3, 0);
    NoStatement(m4);
  }

  lemma FinishDrop(m: Machine, lsr: byte, stray: byte)
    requires m.pc == Drop && m.r.count > 1
    ensures Finish(m, lsr, stray).r.port == m.r.port + [m.data]
    ensures Finish(m, lsr, stray).r.accepted == m.r.accepted
  {
    hide Finish, Go, GoHw, GoAdd;
    var m1 := GoGet(m, stray);
    var m2 := GoGet(m1, stray);
    FinishStep(m, lsr, stray);
    FinishStep(m1, lsr, stray);
    FinishStep(m2, lsr, stray);
    FinishOut(GoGet(m2, stray), lsr, stray);
  }

  lemma BackInOrder(r: Regs, cons: nat, d: byte)
    requires IdleAt(r, cons) && r.port == r.accepted
    ensures Dropping(ReadBack(r, d), d)
  {
    assert Ring(ReadBack(r, d).buff, Wrap(cons + 1), 0) == [];
  }

  /** What the handler sends between the read of a byte and the decrement of the count. */
  lemma SentFirstAt(r: Regs, cons: nat, d: byte, stray: byte)
    requires IdleAt(r, cons) && r.port == r.accepted
    ensures var n := Do(Machine(ReadBack(r, d), Drop, d, d), Handle(2, MESSAGE, 0, stray)).r;
            && n.port == r.port + [if cons == SERIAL_BUFF_SIZE - 1 then stray else MESSAGE[0]] && n.count == 15
            && n.accepted == r.accepted + [d] + MESSAGE[..15]
  {
    hide Handler, Prints, Pending;
    var q := ReadBack(r, d);
    BackInOrder(r, cons, d);
    HandlerIs(q, 2, MESSAGE, 0, stray);
    PrintsKeep(AtDropping(d), q, MESSAGE, 0, stray);
    PrintsQuiet(q, MESSAGE, 0, stray);
    var t := Prints(q, MESSAGE, 0, stray);
    NextIsTurn(AtDropping(d), t);
    if cons < SERIAL_BUFF_SIZE - 1 { MessageNext(t, r.port, d); }
  }

  lemma MessageNext(t: Regs, port: seq<byte>, d: byte)
    requires Dropping(t, d) && t.cons < SERIAL_BUFF_SIZE && t.count == 16 && t.port == port
    requires t.accepted == port + [d] + MESSAGE[..15]
    ensures t.buff[t.cons] == MESSAGE[0]
  {
    SentFirst(t.buff, t.cons, 15);
    var ring := Ring(t.buff, t.cons, 15);
    assert (port + [d] + ring)[|port| + 1] == ring[0] && (port + [d] + MESSAGE[..15])[|port| + 1] == MESSAGE[0];
  }

  /**
   * A byte is written to an empty ring and an idle port, and a transmit interrupt comes in between *stream->cons++ and
   * --stream->count: the first byte of the handler's message is sent before the one that was read.
   */
  lemma Overtaken(b: seq<byte>, d: byte)
    requires |b| == SERIAL_BUFF_SIZE
    ensures var m := Exec(Machine(Fresh(b), Full, d, 0), Statements(9));
            var n := Finish(Do(m, Handle(2, MESSAGE, 0, 0)), 0, 0).r;
            m.pc == Drop && n.port == [MESSAGE[0], d] && n.accepted == [d] + MESSAGE[..15]
  {
    hide Exec, Statements, Finish, Handler;
    NineStatements(Fresh(b), 0, d, 0);
    SentFirstAt(Fresh(b), 0, d, 0);
    var a := Do(Machine(ReadBack(Fresh(b), d), Drop, d, d), Handle(2, MESSAGE, 0, 0));
    FinishDrop(a, 0, 0);
    assert [] + [d] == [d] && [] + [MESSAGE[0]] == [MESSAGE[0]];
  }

  /** Bytes written to an idle port go straight through, and the ring moves on. */
  lemma {:induction false} StraightThrough(r: Regs, cons: nat, text: seq<byte>, lsr: byte, stray: byte)
    requires IdleAt(r, cons) && cons + |text| < SERIAL_BUFF_SIZE
    ensures var t := Prints(r, text, lsr, stray);
            IdleAt(t, cons + |text|) && t.port == r.port + text && t.accepted == r.accepted + text
    decreases |text|
  {
    hide PutIn, Prints;
    PrintsNext(r, text, lsr, stray);
    if text != [] {
      OneThrough(r, cons, text[0], lsr, stray);
      StraightThrough(PutIn(r, text[0], lsr, stray), cons + 1, text[1..], lsr, stray);
      assert text == [text[0]] + text[1..];
    }
  }

  lemma OneThrough(r: Regs, cons: nat, d: byte, lsr: byte, stray: byte)
    requires IdleAt(r, cons) && cons + 1 < SERIAL_BUFF_SIZE
    ensures var t := PutIn(r, d, lsr, stray);
            IdleAt(t, cons + 1) && t.port == r.port + [d] && t.accepted == r.accepted + [d]
  {
  }

  /** After fifteen bytes, the byte sent first is the one behind the buffer. */
  lemma BehindTheBuffer(b: seq<byte>, text: seq<byte>, d: byte, stray: byte)
    requires |b| == SERIAL_BUFF_SIZE && |text| == SERIAL_BUFF_SIZE - 1
    ensures var m := Exec(Machine(Prints(Fresh(b), text, 0, 0), Full, d, 0), Statements(9));
            var n := Finish(Do(m, Handle(2, MESSAGE, 0, stray)), 0, 0).r;
            m.pc == Drop && n.port == text + [stray, d] && n.accepted == text + [d] + MESSAGE[..15]
  {
    hide Exec, Statements, Finish, Handler, Prints;
    var r := Prints(Fresh(b), text, 0, 0);
    StraightThrough(Fresh(b), 0, text, 0, 0);
    assert [] + text == text;
    NineStatements(r, 15, d, 0);
    SentFirstAt(r, 15, d, stray);
    FinishDrop(Do(Machine(ReadBack(r, d), Drop, d, d), Handle(2, MESSAGE, 0, stray)), 0, 0);
    assert (text + [stray]) + [d] == text + [stray, d];
  }
}
