// serial_io_driver.c with its interrupt handler coming in between the statements of prod_add: at which statements, and
// in which states, it loses bytes or their order, and at which it does no harm.
module SerialInterrupts {
  import opened Serial
  import opened SerialSteps

  // ---------- Where it does harm ----------

  /** A message of n bytes fills the ring, unless the port takes its bytes as they come. */
  predicate Fills(r: Regs, n: nat) { !(r.idle && r.count == 0) && r.count + n >= SERIAL_BUFF_SIZE }

  /**
   * Harm is done by storing a byte in a full ring, which a message can have filled after the test; by a message that
   * fills the ring while a byte is stored and not counted, or meets the producer's pointer behind the buffer; and by
   * whatever sends a byte before the one that has been read and is not at the port yet.
   */
  predicate Harmful(m: Machine, a: Act) {
    match a
    case Call(_) => false
    case Statement(_, _) => m.pc == Store && m.r.count == SERIAL_BUFF_SIZE
    case Handle(iir, text, _, _) =>
      match m.pc
      case Bump => m.r.prod == SERIAL_BUFF_SIZE || Fills(m.r, |text|)
      case WrapProd => m.r.prod == SERIAL_BUFF_SIZE && m.r.count < SERIAL_BUFF_SIZE
      case Drop => IsTxIrq(iir)
      case WrapCons => IsTxIrq(iir)
      case Last => IsTxIrq(iir)
      case Stop => IsTxIrq(iir)
      case Out => IsTxIrq(iir) || (m.r.idle && m.r.count == 0)
      case _ => false
  }

  // ---------- What holds at each statement ----------

  /** The ring has held bytes from cons on, and with those in flight they are the bytes accepted and not sent. */
  ghost predicate Pending(r: Regs, flight: seq<byte>, cons: nat, held: nat) {
    && |r.buff| == SERIAL_BUFF_SIZE && cons < SERIAL_BUFF_SIZE && held <= SERIAL_BUFF_SIZE && !r.lost
    && r.port + flight + Ring(r.buff, cons, held) == r.accepted
  }

  /** A byte is stored and not counted. */
  ghost predicate Stored(r: Regs) {
    && r.cons < SERIAL_BUFF_SIZE && r.count < SERIAL_BUFF_SIZE && r.prod <= SERIAL_BUFF_SIZE
    && Wrap(r.prod) == Wrap(r.cons + r.count + 1) && Pending(r, [], r.cons, r.count + 1)
  }

  /** A byte is read and still counted. */
  ghost predicate Dropping(r: Regs, data: byte) {
    && r.cons <= SERIAL_BUFF_SIZE && 1 <= r.count <= SERIAL_BUFF_SIZE && !r.idle
    && r.prod == Wrap(Wrap(r.cons) + r.count - 1) && Pending(r, [data], Wrap(r.cons), r.count - 1)
  }

  /** A byte is read and not at the port; the consumer's pointer may not be wrapped. */
  ghost predicate Taken(r: Regs, data: byte) {
    && r.cons <= SERIAL_BUFF_SIZE && r.count <= SERIAL_BUFF_SIZE
    && r.prod == Wrap(Wrap(r.cons) + r.count) && Pending(r, [data], Wrap(r.cons), r.count)
  }

  /** What holds when a statement is about to be executed. */
  ghost predicate Inv(m: Machine) {
    var r := m.r;
    match m.pc
    case Bump => Stored(r)
    case WrapProd =>
      r.prod <= SERIAL_BUFF_SIZE && InOrder(r.(prod := Wrap(r.prod)))
    case Flag => InOrder(r) && r.count > 0
    case Clear => InOrder(r) && r.count > 0
    case Empty => InOrder(r) && r.count > 0 && !r.idle
    case Take => InOrder(r) && r.count > 0 && !r.idle
    case Drop => Dropping(r, m.data)
    case WrapCons => Taken(r, m.data) && (r.idle ==> r.count > 0)
    case Last => Taken(r, m.data) && (r.idle ==> r.count > 0) && r.cons < SERIAL_BUFF_SIZE
    case Stop => Taken(r, m.data) && (r.idle ==> r.count > 0) && r.cons < SERIAL_BUFF_SIZE
    case Out => Taken(r, m.data) && r.cons < SERIAL_BUFF_SIZE
    case _ => InOrder(r)
  }

  // ---------- Statements ----------

  lemma FirstOf(a: seq<byte>, h: seq<byte>)
    requires h != []
    ensures a + [h[0]] + h[1..] == a + h
  {
  }

  lemma LastOf(a: seq<byte>, h: seq<byte>, d: byte)
    ensures a + (h + [d]) == (a + h) + [d]
  {
  }

  lemma StoreKeeps(m: Machine)
    requires Inv(m) && m.pc == Store && m.r.count < SERIAL_BUFF_SIZE
    ensures Inv(GoAdd(m))
  {
    hide Ring;
    var r := m.r;
    RingPush(r.buff, r.cons, r.count, m.d);
    LastOf(r.port, Ring(r.buff, r.cons, r.count), m.d);
    assert r.port + [] == r.port;
  }

  lemma BumpKeeps(m: Machine)
    requires Inv(m) && m.pc == Bump
    ensures Inv(GoAdd(m))
  {
    hide Ring;
    assert m.r.port + [] == m.r.port;
  }

  lemma AddKeeps(m: Machine)
    requires Inv(m) && InAdd(m.pc) && (m.pc == Store ==> m.r.count < SERIAL_BUFF_SIZE)
    ensures Inv(GoAdd(m))
  {
    hide Ring;
    if m.pc == Store {
      StoreKeeps(m);
    } else if m.pc == Bump {
      BumpKeeps(m);
    }
  }

  lemma TakeKeeps(m: Machine, stray: byte)
    requires Inv(m) && m.pc == Take
    ensures Inv(GoGet(m, stray))
  {
    hide Ring;
    var r := m.r;
    SentFirst(r.buff, r.cons, r.count);
    FirstOf(r.port, Ring(r.buff, r.cons, r.count));
  }

  lemma GetKeeps(m: Machine, stray: byte)
    requires Inv(m) && InGet(m.pc)
    ensures Inv(GoGet(m, stray))
  {
    hide Ring;
    if m.pc == Take { TakeKeeps(m, stray); }
  }

  lemma HwKeeps(m: Machine, lsr: byte)
    requires Inv(m) && !InAdd(m.pc) && !InGet(m.pc)
    ensures Inv(GoHw(m, lsr))
  {
    hide InOrder, Taken;
    if m.pc == Out {
      OutKeeps(m.r, m.data);
    } else {
      var idle := GoHw(m, lsr).r.idle;
      assert GoHw(m, lsr).r == m.r.(idle := idle);
      IdleAside(m.r, idle);
    }
  }

  lemma OutKeeps(r: Regs, data: byte)
    requires Taken(r, data) && r.cons < SERIAL_BUFF_SIZE
    ensures InOrder(r.(port := r.port + [data]))
  {
    hide Ring;
  }

  lemma IdleAside(r: Regs, idle: bool)
    requires InOrder(r)
    ensures InOrder(r.(idle := idle))
  {
    hide Ring;
  }

  lemma GoKeeps(m: Machine, lsr: byte, stray: byte)
    requires Inv(m) && (m.pc == Store ==> m.r.count < SERIAL_BUFF_SIZE)
    ensures Inv(Go(m, lsr, stray))
  {
    hide Inv, GoAdd, GoGet, GoHw;
    if InAdd(m.pc) { AddKeeps(m); } else if InGet(m.pc) { GetKeeps(m, stray); } else { HwKeeps(m, lsr); }
  }

  /** Undisturbed, the test leaves room for the store. */
  lemma Tested(m: Machine, lsr: byte, stray: byte)
    requires Inv(m)
    ensures var n := Go(m, lsr, stray); n.pc == Store ==> n.r.count < SERIAL_BUFF_SIZE
  {
    hide Ring, Sound;
    if m.pc == Full {
      CountOk(m.r);
      assert Go(m, lsr, stray) == GoAdd(m);
    } else if InAdd(m.pc) {
      assert GoAdd(m).pc != Store;
    } else if InGet(m.pc) {
      assert GoGet(m, stray).pc != Store;
    } else {
      assert GoHw(m, lsr).pc != Store;
    }
  }

  lemma AtRest(m: Machine)
    requires Inv(m) && m.pc == Ready
    ensures InOrder(m.r)
  {
  }

  /** The rest of a call, undisturbed. */
  lemma {:induction false} FinishKeeps(m: Machine, lsr: byte, stray: byte)
    requires Inv(m) && (m.pc == Store ==> m.r.count < SERIAL_BUFF_SIZE)
    ensures InOrder(Finish(m, lsr, stray).r)
    decreases Left(m.pc)
  {
    hide Inv, Go, InOrder;
    if m.pc == Ready {
      AtRest(m);
    } else {
      GoesOn(m, lsr, stray);
      GoKeeps(m, lsr, stray);
      Tested(m, lsr, stray);
      FinishKeeps(Go(m, lsr, stray), lsr, stray);
    }
  }

  // ---------- The message ----------

  lemma WrittenStored(r: Regs, lsr: byte, stray: byte)
    requires Stored(r) && r.prod < SERIAL_BUFF_SIZE
    ensures Stored(Written(r, lsr, stray)) && Written(r, lsr, stray).prod == r.prod
  {
    hide Ring;
    if r.idle && r.count > 0 {
      SentFirst(r.buff, r.cons, r.count + 1);
      FirstOf(r.port, Ring(r.buff, r.cons, r.count + 1));
      assert r.port + [] == r.port && (r.port + [r.buff[r.cons]]) + [] == r.port + [r.buff[r.cons]];
    }
  }

  /** One more byte behind those held. */
  lemma AddedPending(r: Regs, flight: seq<byte>, cons: nat, held: nat, d: byte)
    requires Pending(r, flight, cons, held) && held < SERIAL_BUFF_SIZE && r.prod == Wrap(cons + held)
    ensures Pending(Added(r, d), flight, cons, held + 1) && Added(r, d).prod == Wrap(cons + held + 1)
  {
    hide Ring;
    RingPush(r.buff, cons, held, d);
    LastOf(r.port + flight, Ring(r.buff, cons, held), d);
  }

  lemma PutStored(r: Regs, d: byte, lsr: byte, stray: byte)
    requires Stored(r) && r.prod < SERIAL_BUFF_SIZE && r.count < SERIAL_BUFF_SIZE - 1
    ensures var t := PutIn(r, d, lsr, stray); Stored(t) && t.prod < SERIAL_BUFF_SIZE
  {
    hide Pending, Written;
    AddedPending(r, [], r.cons, r.count + 1, d);
    if r.count == 0 { WrittenStored(Added(r, d), lsr, stray); }
  }

  lemma PutDropping(r: Regs, data: byte, d: byte, lsr: byte, stray: byte)
    requires Dropping(r, data)
    ensures Dropping(PutIn(r, d, lsr, stray), data)
  {
    hide Pending, Written;
    if r.count < SERIAL_BUFF_SIZE { AddedPending(r, [data], Wrap(r.cons), r.count - 1, d); }
  }

  lemma PutTaken(r: Regs, data: byte, d: byte, lsr: byte, stray: byte)
    requires Taken(r, data) && (r.idle ==> r.count > 0)
    ensures var t := PutIn(r, d, lsr, stray); Taken(t, data) && (t.idle ==> t.count > 0)
  {
    hide Pending, Added;
    if r.count < SERIAL_BUFF_SIZE {
      AddedPending(r, [data], Wrap(r.cons), r.count, d);
      AddedRest(r, d);
      PolledTaken(Added(r, d), data, lsr, stray);
    }
  }

  lemma AddedRest(r: Regs, d: byte)
    requires r.count < SERIAL_BUFF_SIZE
    ensures var t := Added(r, d); t.cons == r.cons && t.count == r.count + 1 && t.idle == r.idle
  {
  }

  lemma PolledTaken(r: Regs, data: byte, lsr: byte, stray: byte)
    requires Taken(r, data) && r.count > 0 && (r.idle ==> r.count > 1)
    ensures var t := Started(r, lsr, stray); Taken(t, data) && t.count > 0
  {
  }

  /** What prints at these three kinds of places keep. */
  datatype Place = AtStored | AtDropping(data: byte) | AtTaken(data: byte)

  ghost predicate Holds(p: Place, r: Regs) {
    match p
    case AtStored => Stored(r) && r.prod < SERIAL_BUFF_SIZE
    case AtDropping(data) => Dropping(r, data)
    case AtTaken(data) => Taken(r, data) && (r.idle ==> r.count > 0)
  }

  lemma PutKeeps(p: Place, r: Regs, d: byte, lsr: byte, stray: byte)
    requires Holds(p, r) && (p.AtStored? ==> r.count < SERIAL_BUFF_SIZE - 1)
    ensures Holds(p, PutIn(r, d, lsr, stray))
  {
    hide Stored, Dropping, Taken, PutIn;
    match p
    case AtStored => PutStored(r, d, lsr, stray);
    case AtDropping(data) => PutDropping(r, data, d, lsr, stray);
    case AtTaken(data) => PutTaken(r, data, d, lsr, stray);
  }

  /** The count, while a byte of the message is added. */
  lemma PutCount(r: Regs, d: byte, lsr: byte, stray: byte)
    requires r.count <= SERIAL_BUFF_SIZE
    ensures var t := PutIn(r, d, lsr, stray);
            && (r.idle && r.count == 0 ==> t.idle && t.count == 0)
            && (!(r.idle && r.count == 0) ==>
                  && t.count == (if r.count == SERIAL_BUFF_SIZE then r.count else r.count + 1)
                  && t.port == r.port && t.cons == r.cons && (r.count > 0 ==> t.idle == r.idle)
                  && t.accepted == if r.count == SERIAL_BUFF_SIZE then r.accepted else r.accepted + [d])
  {
  }

  lemma {:induction false} PrintsKeep(p: Place, r: Regs, text: seq<byte>, lsr: byte, stray: byte)
    requires Holds(p, r) && (p.AtStored? ==> !Fills(r, |text|)) && r.count <= SERIAL_BUFF_SIZE
    ensures Holds(p, Prints(r, text, lsr, stray))
    decreases |text|
  {
    hide PutIn, Prints, Holds;
    PrintsNext(r, text, lsr, stray);
    if text != [] {
      PutKeeps(p, r, text[0], lsr, stray);
      PutCount(r, text[0], lsr, stray);
      PrintsKeep(p, PutIn(r, text[0], lsr, stray), text[1..], lsr, stray);
    }
  }

  function Least(a: nat, b: nat): nat { if a < b then a else b }

  /**
   * Where the port does not take the bytes at once, a message sends nothing,
   * and as much of it is accepted as there is room.
   */
  lemma {:induction false} PrintsQuiet(r: Regs, text: seq<byte>, lsr: byte, stray: byte)
    requires r.count <= SERIAL_BUFF_SIZE && !(r.idle && r.count == 0)
    ensures var t, n := Prints(r, text, lsr, stray), Least(|text|, SERIAL_BUFF_SIZE - r.count);
            && t.count == r.count + n && t.port == r.port && t.cons == r.cons && t.accepted == r.accepted + text[..n]
            && (r.count > 0 ==> t.idle == r.idle)
    decreases |text|
  {
    hide PutIn, Prints;
    PrintsNext(r, text, lsr, stray);
    if text != [] {
      PutCount(r, text[0], lsr, stray);
      PrintsQuiet(PutIn(r, text[0], lsr, stray), text[1..], lsr, stray);
      Front(r.accepted, text, Least(|text|, SERIAL_BUFF_SIZE - r.count));
    }
  }

  lemma Front(a: seq<byte>, text: seq<byte>, n: nat)
    requires n <= |text| && text != []
    ensures n > 0 ==> (a + [text[0]]) + text[1..][..n - 1] == a + text[..n]
    ensures a + text[..0] == a && a + text[1..][..0] == a
  {
  }

  /** Where it does, the ring is as empty afterwards. */
  lemma {:induction false} PrintsThrough(r: Regs, text: seq<byte>, lsr: byte, stray: byte)
    requires r.idle && r.count == 0
    ensures var t := Prints(r, text, lsr, stray); t.idle && t.count == 0
    decreases |text|
  {
    hide PutIn, Prints;
    PrintsNext(r, text, lsr, stray);
    if text != [] {
      PutCount(r, text[0], lsr, stray);
      PrintsThrough(PutIn(r, text[0], lsr, stray), text[1..], lsr, stray);
    }
  }

  // ---------- Harmless interrupts ----------

  /** With a byte in the ring there is one afterwards, and the flag stays clear if it was. */
  lemma StaysBusy(r: Regs, iir: byte, text: Message, lsr: byte, stray: byte)
    requires 0 < r.count <= SERIAL_BUFF_SIZE
    ensures var t := Handler(r, iir, text, lsr, stray); 0 < t.count && (!r.idle ==> !t.idle)
  {
    hide Handler, Prints;
    HandlerIs(r, iir, text, lsr, stray);
    PrintsQuiet(r, text, lsr, stray);
  }

  lemma StoreHarmless(r: Regs, iir: byte, text: Message, lsr: byte, stray: byte)
    requires r.count <= SERIAL_BUFF_SIZE && (IsTxIrq(iir) || !Fills(r, |text|))
    ensures Handler(r, iir, text, lsr, stray).count < SERIAL_BUFF_SIZE
  {
    hide Handler, Prints;
    HandlerIs(r, iir, text, lsr, stray);
    if r.idle && r.count == 0 { PrintsThrough(r, text, lsr, stray); } else { PrintsQuiet(r, text, lsr, stray); }
  }

  lemma BumpHarmless(r: Regs, iir: byte, text: Message, lsr: byte, stray: byte)
    requires Stored(r) && r.prod < SERIAL_BUFF_SIZE && !Fills(r, |text|)
    ensures Stored(Handler(r, iir, text, lsr, stray))
  {
    hide Handler, Prints, Written, Pending;
    HandlerIs(r, iir, text, lsr, stray);
    PrintsKeep(AtStored, r, text, lsr, stray);
    var t := Prints(r, text, lsr, stray);
    if IsTxIrq(iir) {
      IdleStored(t);
      WrittenStored(t.(idle := true), lsr, stray);
    }
  }

  lemma IdleStored(r: Regs)
    requires Stored(r)
    ensures Stored(r.(idle := true))
  {
  }

  lemma {:induction false} MessageRefused(r: Regs, text: seq<byte>, lsr: byte, stray: byte)
    requires r.count == SERIAL_BUFF_SIZE
    ensures Prints(r, text, lsr, stray) == r
    decreases |text|
  {
    hide Prints;
    PrintsNext(r, text, lsr, stray);
    if text != [] { MessageRefused(r, text[1..], lsr, stray); }
  }

  lemma WrapHarmless(r: Regs, iir: byte, text: Message, lsr: byte, stray: byte)
    requires r.prod <= SERIAL_BUFF_SIZE && InOrder(r.(prod := Wrap(r.prod)))
    requires r.prod < SERIAL_BUFF_SIZE || r.count == SERIAL_BUFF_SIZE
    ensures var t := Handler(r, iir, text, lsr, stray); t.prod <= SERIAL_BUFF_SIZE && InOrder(t.(prod := Wrap(t.prod)))
  {
    hide Handler, Prints, Ring;
    if r.prod < SERIAL_BUFF_SIZE {
      assert r.(prod := Wrap(r.prod)) == r;
      HandlerKeeps(r, iir, text, lsr, stray);
    } else {
      HandlerIs(r, iir, text, lsr, stray);
      MessageRefused(r, text, lsr, stray);
      if IsTxIrq(iir) { FullSends(r, lsr, stray); }
    }
  }

  lemma FullSends(r: Regs, lsr: byte, stray: byte)
    requires r.prod == SERIAL_BUFF_SIZE == r.count && InOrder(r.(prod := 0))
    ensures var t := Written(r.(idle := true), lsr, stray); t.prod == r.prod && InOrder(t.(prod := 0))
  {
    hide Ring;
    SentFirst(r.buff, r.cons, r.count);
    FirstOf(r.port, Ring(r.buff, r.cons, r.count));
  }

  lemma IrqKeeps(m: Machine, a: Act)
    requires Inv(m) && a.Handle? && !Harmful(m, a)
    ensures Inv(Do(m, a))
  {
    hide Handler, InOrder, Dropping, Taken, Prints, Written, Pending;
    var r := m.r;
    if m.pc == WrapProd { CountOk(r.(prod := Wrap(r.prod))); }
    match m.pc {
      case Bump => BumpHarmless(r, a.iir, a.text, a.lsr, a.stray);
      case WrapProd => WrapHarmless(r, a.iir, a.text, a.lsr, a.stray);
      case Drop => QuietKeeps(AtDropping(m.data), m, a);
      case WrapCons => QuietKeeps(AtTaken(m.data), m, a);
      case Last => QuietKeeps(AtTaken(m.data), m, a);
      case Stop => QuietKeeps(AtTaken(m.data), m, a);
      case Out => QuietKeeps(AtTaken(m.data), m, a);
      case _ => HandlerKeeps(r, a.iir, a.text, a.lsr, a.stray);
    }
    if m.pc in {Flag, Clear, Empty, Take} {
      CountOk(r);
      StaysBusy(r, a.iir, a.text, a.lsr, a.stray);
    }
  }

  lemma CountOk(r: Regs)
    requires InOrder(r)
    ensures r.count <= SERIAL_BUFF_SIZE
  {
  }

  /** Where the handler only prints. */
  lemma QuietKeeps(p: Place, m: Machine, a: Act)
    requires a.Handle? && !IsTxIrq(a.iir) && Holds(p, m.r) && !p.AtStored?
    ensures var t := Do(m, a).r; Holds(p, t) && t.cons == m.r.cons
  {
    hide Handler, Prints, Pending;
    HandlerIs(m.r, a.iir, a.text, a.lsr, a.stray);
    PrintsKeep(p, m.r, a.text, a.lsr, a.stray);
    PrintsQuiet(m.r, a.text, a.lsr, a.stray);
  }

  // ---------- Runs ----------

  /** Nothing harmful in the whole run. */
  ghost predicate Clean(m: Machine, acts: seq<Act>)
    decreases |acts|
  {
    acts != [] ==> !Harmful(m, acts[0]) && Clean(Do(m, acts[0]), acts[1..])
  }

  lemma ActKeeps(m: Machine, a: Act)
    requires Inv(m) && !Harmful(m, a)
    ensures Inv(Do(m, a))
  {
    hide Go, Handler, Inv, InOrder, Harmful;
    match a {
      case Call(d) => CallKeeps(m, d);
      case Statement(lsr, stray) =>
        StoresInRoom(m, a);
        GoKeeps(m, lsr, stray);
      case Handle(_, _, _, _) => IrqKeeps(m, a);
    }
  }

  /** Whatever comes in where it does no harm: over any run, nothing is lost, doubled or reordered. */
  lemma {:induction false} InterruptedRunKeeps(m: Machine, acts: seq<Act>)
    requires Inv(m) && Clean(m, acts)
    ensures var n := Exec(m, acts); Inv(n) && (n.pc == Ready ==> InOrder(n.r))
    decreases |acts|
  {
    hide Do, Inv, InOrder, Harmful;
    if acts != [] {
      ActKeeps(m, acts[0]);
      InterruptedRunKeeps(Do(m, acts[0]), acts[1..]);
    } else if m.pc == Ready {
      AtRest(m);
    }
  }

  lemma StoresInRoom(m: Machine, a: Act)
    requires Inv(m) && a.Statement? && !Harmful(m, a)
    ensures m.pc == Store ==> m.r.count < SERIAL_BUFF_SIZE
  {
  }

  lemma CallKeeps(m: Machine, d: byte)
    requires Inv(m)
    ensures Inv(Do(m, Call(d)))
  {
  }
}
