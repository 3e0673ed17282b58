// serial_io_driver.c one statement at a time. IRQ_disable executes sti and IRQ_enable executes cli, so interrupts are
// on exactly where the driver means them to be off: the handler can come in between any two statements of prod_add,
// hw_write and cons_get. It is not interrupted itself.
module SerialSteps {
  import opened Serial

  const TWO_32 := 0x1_0000_0000

  // ---------- The interrupt mask ----------

  /** Does the processor take interrupts, and what irq_handler.c has in its two status variables. */
  datatype Mask = Mask(on: bool, curr: bool, prev: bool)

  function Enable(c: Mask): Mask { Mask(false, true, c.curr) }

  function Disable(c: Mask): Mask { Mask(c.curr || c.on, false, c.curr) }

  function Reenable(c: Mask): Mask { if c.prev && !c.curr then Enable(c) else c }

  /** Interrupts are on inside a critical section, and once one was entered inside another they stay on for good. */
  lemma OnInside(c: Mask)
    ensures !Enable(c).on && Disable(Enable(c)).on && !Reenable(Disable(Enable(c))).on
    ensures var nested := Reenable(Reenable(Disable(Disable(Enable(c)))));
            && nested.on && !nested.curr
            && Disable(nested).on && Reenable(Disable(nested)) == Mask(true, false, false)
  {
  }

  // ---------- One statement at a time ----------

  /** The statement that comes next; Ready is outside prod_add. */
  datatype Pc =
    | Ready
    | Full | Store | Bump | WrapProd | One                   // prod_add
    | Flag | Clear | Poll | Set | Out                        // hw_write
    | Empty | Take | Drop | WrapCons | Last | Stop           // cons_get

  /**
   * The fields of the ring, with its 32-bit count, the bytes written to the port and the bytes accepted. The field
   * behind the buffer is the pointer prod itself: once a byte has been written there, lost is set, and what the other
   * fields then hold means nothing.
   */
  datatype Regs = Regs(buff: seq<byte>, prod: nat, cons: nat, count: nat, idle: bool, port: seq<byte>,
                       accepted: seq<byte>, lost: bool)

  datatype Machine = Machine(r: Regs, pc: Pc, d: byte, data: byte)

  /** A byte read behind the buffer is the low byte of the pointer prod, which depends on where the ring lies. */
  function Read(b: seq<byte>, i: nat, stray: byte): byte { if i < |b| then b[i] else stray }

  predicate InAdd(pc: Pc) { pc in {Full, Store, Bump, WrapProd, One} }

  predicate InGet(pc: Pc) { pc in {Empty, Take, Drop, WrapCons, Last, Stop} }

  function GoAdd(m: Machine): Machine
    requires InAdd(m.pc)
  {
    var r := m.r;
    match m.pc
    case Full => m.(pc := if r.count == SERIAL_BUFF_SIZE then Ready else Store)
    case Store =>
      m.(r := r.(buff := if r.prod < |r.buff| then r.buff[r.prod := m.d] else r.buff, prod := r.prod + 1,
                 accepted := r.accepted + [m.d], lost := r.lost || r.prod >= |r.buff|),
         pc := Bump)
    case Bump => m.(r := r.(count := (r.count + 1) % TWO_32), pc := WrapProd)
    case WrapProd => m.(r := r.(prod := if r.prod >= SERIAL_BUFF_SIZE then 0 else r.prod), pc := One)
    case One => m.(pc := if r.count == 1 then Flag else Ready)
  }

  function GoGet(m: Machine, stray: byte): Machine
    requires InGet(m.pc)
  {
    var r := m.r;
    match m.pc
    case Empty => m.(pc := if r.count == 0 then Ready else Take)
    case Take => m.(r := r.(cons := r.cons + 1), data := Read(r.buff, r.cons, stray), pc := Drop)
    case Drop => m.(r := r.(count := if r.count == 0 then TWO_32 - 1 else r.count - 1), pc := WrapCons)
    case WrapCons => m.(r := r.(cons := if r.cons >= SERIAL_BUFF_SIZE then 0 else r.cons), pc := Last)
    case Last => m.(pc := if r.count == 0 then Stop else Out)
    case Stop => m.(r := r.(idle := true), pc := Out)
  }

  function GoHw(m: Machine, lsr: byte): Machine
    requires !InAdd(m.pc) && !InGet(m.pc)
  {
    var r := m.r;
    match m.pc
    case Ready => m
    case Flag => m.(pc := if r.idle then Clear else Poll)
    case Clear => m.(r := r.(idle := false), pc := Empty)
    case Out => m.(r := r.(port := r.port + [m.data]), pc := Ready)
    case Poll => m.(pc := if IsHwTxEmpty(lsr) then Set else Ready)
    case Set => m.(r := r.(idle := true), pc := Ready)
  }

  /** One statement. */
  function Go(m: Machine, lsr: byte, stray: byte): Machine {
    if InAdd(m.pc) then GoAdd(m) else if InGet(m.pc) then GoGet(m, stray) else GoHw(m, lsr)
  }

  function Left(pc: Pc): nat {
    match pc
    case Ready => 0
    case Out => 1
    case Set => 1
    case Poll => 2
    case Stop => 2
    case Last => 3
    case WrapCons => 4
    case Drop => 5
    case Take => 6
    case Empty => 7
    case Clear => 8
    case Flag => 9
    case One => 10
    case WrapProd => 11
    case Bump => 12
    case Store => 13
    case Full => 14
  }

  /** The rest of the call, without an interrupt. */
  function Finish(m: Machine, lsr: byte, stray: byte): Machine
    decreases Left(m.pc)
  {
    if m.pc == Ready then m
    else
      GoesOn(m, lsr, stray);
      Finish(Go(m, lsr, stray), lsr, stray)
  }

  lemma GoesOn(m: Machine, lsr: byte, stray: byte)
    requires m.pc != Ready
    ensures Left(Go(m, lsr, stray).pc) < Left(m.pc)
  {
    if InAdd(m.pc) {
      assert Left(GoAdd(m).pc) < Left(m.pc);
    } else if InGet(m.pc) {
      assert Left(GoGet(m, stray).pc) < Left(m.pc);
    } else {
      assert Left(GoHw(m, lsr).pc) < Left(m.pc);
    }
  }

  /** What the handler prints goes through prod_add as well. */
  function Prints(r: Regs, text: seq<byte>, lsr: byte, stray: byte): Regs
    decreases |text|
  {
    if text == [] then r else Prints(Finish(Machine(r, Full, text[0], 0), lsr, stray).r, text[1..], lsr, stray)
  }

  /** serial_tx_irq_handler: the message, and for a transmit interrupt the flag and hw_write. */
  function Handler(r: Regs, iir: byte, text: seq<byte>, lsr: byte, stray: byte): Regs {
    var t := Prints(r, text, lsr, stray);
    if IsTxIrq(iir) then Finish(Machine(t.(idle := true), Flag, 0, 0), lsr, stray).r else t
  }

  /** The handler always prints something. */
  type Message = t: seq<byte> | t != [] witness [0]

  datatype Act =
    | Call(d: byte)
    | Statement(lsr: byte, stray: byte)
    | Handle(iir: byte, text: Message, lsr: byte, stray: byte)

  function Do(m: Machine, a: Act): Machine {
    match a
    case Call(d) => if m.pc == Ready then Machine(m.r, Full, d, m.data) else m
    case Statement(lsr, stray) => Go(m, lsr, stray)
    case Handle(iir, text, lsr, stray) => m.(r := Handler(m.r, iir, text, lsr, stray))
  }

  function Exec(m: Machine, acts: seq<Act>): Machine
    decreases |acts|
  {
    if acts == [] then m else Exec(Do(m, acts[0]), acts[1..])
  }

  // ---------- Whole routines on the registers ----------

  /** cons_get and the write to the port, from the statement that reads the byte on. */
  function Sent(r: Regs, stray: byte): Regs
    requires r.count > 0
  {
    r.(cons := if r.cons + 1 >= SERIAL_BUFF_SIZE then 0 else r.cons + 1, count := r.count - 1,
       idle := r.count == 1 || r.idle, port := r.port + [Read(r.buff, r.cons, stray)])
  }

  /** hw_write. */
  function Written(r: Regs, lsr: byte, stray: byte): Regs {
    if r.idle then (if r.count == 0 then r.(idle := false) else Sent(r.(idle := false), stray))
    else if IsHwTxEmpty(lsr) then r.(idle := true)
    else r
  }

  /** The first half of prod_add, from the store on. */
  function Added(r: Regs, d: byte): Regs {
    r.(buff := if r.prod < |r.buff| then r.buff[r.prod := d] else r.buff,
       prod := if r.prod + 1 >= SERIAL_BUFF_SIZE then 0 else r.prod + 1,
       count := (r.count + 1) % TWO_32, accepted := r.accepted + [d], lost := r.lost || r.prod >= |r.buff|)
  }

  function Started(r: Regs, lsr: byte, stray: byte): Regs { if r.count == 1 then Written(r, lsr, stray) else r }

  /** prod_add. */
  function PutIn(r: Regs, d: byte, lsr: byte, stray: byte): Regs {
    if r.count == SERIAL_BUFF_SIZE then r else Started(Added(r, d), lsr, stray)
  }

  lemma FinishStep(m: Machine, lsr: byte, stray: byte)
    requires m.pc != Ready
    ensures InAdd(m.pc) ==> Finish(m, lsr, stray) == Finish(GoAdd(m), lsr, stray)
    ensures InGet(m.pc) ==> Finish(m, lsr, stray) == Finish(GoGet(m, stray), lsr, stray)
    ensures !InAdd(m.pc) && !InGet(m.pc) ==> Finish(m, lsr, stray) == Finish(GoHw(m, lsr), lsr, stray)
  {
  }

  lemma FinishDone(m: Machine, lsr: byte, stray: byte)
    requires m.pc == Ready
    ensures Finish(m, lsr, stray) == m
  {
  }

  lemma FinishOut(m: Machine, lsr: byte, stray: byte)
    requires m.pc == Out
    ensures Finish(m, lsr, stray).r == m.r.(port := m.r.port + [m.data])
  {
    FinishStep(m, lsr, stray);
  }

  lemma FinishSend(m: Machine, lsr: byte, stray: byte)
    requires m.pc == Take && m.r.count > 0
    ensures Finish(m, lsr, stray).r == Sent(m.r, stray)
  {
    hide Finish, Go, GoHw;
    var m1 := GoGet(m, stray);
    var m2 := GoGet(m1, stray);
    var m3 := GoGet(m2, stray);
    var m4 := GoGet(m3, stray);
    FinishStep(m, lsr, stray);
    FinishStep(m1, lsr, stray);
    FinishStep(m2, lsr, stray);
    FinishStep(m3, lsr, stray);
    if m4.pc == Stop { FinishStep(m4, lsr, stray); }
    FinishOut(if m4.pc == Stop then GoGet(m4, stray) else m4, lsr, stray);
  }

  lemma FinishHw(m: Machine, lsr: byte, stray: byte)
    requires m.pc == Flag
    ensures Finish(m, lsr, stray).r == Written(m.r, lsr, stray)
  {
    hide Finish, Sent, Go;
    var m1 := GoHw(m, lsr);
    FinishStep(m, lsr, stray);
    FinishStep(m1, lsr, stray);
    if m.r.idle {
      var m2 := GoHw(m1, lsr);
      FinishStep(m2, lsr, stray);
      var m3 := GoGet(m2, stray);
      if m.r.count > 0 { FinishSend(m3, lsr, stray); } else { FinishDone(m3, lsr, stray); }
    } else if IsHwTxEmpty(lsr) {
      FinishStep(GoHw(m1, lsr), lsr, stray);
      FinishDone(GoHw(GoHw(m1, lsr), lsr), lsr, stray);
    } else {
      FinishDone(GoHw(m1, lsr), lsr, stray);
    }
  }

  lemma FinishOne(m: Machine, lsr: byte, stray: byte)
    requires m.pc == One
    ensures Finish(m, lsr, stray).r == Started(m.r, lsr, stray)
  {
    hide Finish, Written, Go, GoHw, GoGet;
    FinishStep(m, lsr, stray);
    if m.r.count == 1 { FinishHw(GoAdd(m), lsr, stray); } else { FinishDone(GoAdd(m), lsr, stray); }
  }

  /** The wrap of the producer's pointer and what follows. */
  lemma FinishWrap(m: Machine, lsr: byte, stray: byte)
    requires m.pc == WrapProd
    ensures Finish(m, lsr, stray).r ==
            Started(m.r.(prod := if m.r.prod >= SERIAL_BUFF_SIZE then 0 else m.r.prod), lsr, stray)
  {
    hide Finish, Started, Go, GoHw, GoGet;
    FinishStep(m, lsr, stray);
    FinishOne(GoAdd(m), lsr, stray);
  }

  lemma FinishBump(m: Machine, lsr: byte, stray: byte)
    requires m.pc == Bump
    ensures Finish(m, lsr, stray).r ==
            Started(m.r.(prod := if m.r.prod >= SERIAL_BUFF_SIZE then 0 else m.r.prod,
                         count := (m.r.count + 1) % TWO_32),
                    lsr, stray)
  {
    hide Finish, Started, Go, GoHw, GoGet;
    FinishStep(m, lsr, stray);
    FinishWrap(GoAdd(m), lsr, stray);
  }

  lemma FinishStore(m: Machine, lsr: byte, stray: byte)
    requires m.pc == Store
    ensures Finish(m, lsr, stray).r == Started(Added(m.r, m.d), lsr, stray)
  {
    hide Finish, Started, Go, GoHw, GoGet;
    FinishStep(m, lsr, stray);
    FinishBump(GoAdd(m), lsr, stray);
  }

  lemma FinishPut(r: Regs, d: byte, data: byte, lsr: byte, stray: byte)
    ensures Finish(Machine(r, Full, d, data), lsr, stray).r == PutIn(r, d, lsr, stray)
  {
    hide Finish, Started, Added, Go, GoHw, GoGet;
    var m := Machine(r, Full, d, data);
    FinishStep(m, lsr, stray);
    if r.count == SERIAL_BUFF_SIZE { FinishDone(GoAdd(m), lsr, stray); } else { FinishStore(GoAdd(m), lsr, stray); }
  }

  /** The handler's message, byte by byte. */
  lemma PrintsNext(r: Regs, text: seq<byte>, lsr: byte, stray: byte)
    ensures text == [] ==> Prints(r, text, lsr, stray) == r
    ensures text != [] ==>
              Prints(r, text, lsr, stray) == Prints(PutIn(r, text[0], lsr, stray), text[1..], lsr, stray)
  {
    hide Finish, PutIn;
    if text != [] { FinishPut(r, text[0], 0, lsr, stray); }
  }

  lemma HandlerIs(r: Regs, iir: byte, text: seq<byte>, lsr: byte, stray: byte)
    ensures var t := Prints(r, text, lsr, stray);
            Handler(r, iir, text, lsr, stray) == if IsTxIrq(iir) then Written(t.(idle := true), lsr, stray) else t
  {
    hide Finish, Written, Prints;
    FinishHw(Machine(Prints(r, text, lsr, stray).(idle := true), Flag, 0, 0), lsr, stray);
  }

  // ---------- Without interrupts it is one step ----------

  predicate ConsOk(r: Regs) {
    |r.buff| == SERIAL_BUFF_SIZE && r.cons < SERIAL_BUFF_SIZE && r.count <= SERIAL_BUFF_SIZE
  }

  predicate RegsOk(r: Regs) { ConsOk(r) && r.prod == Wrap(r.cons + r.count) && !r.lost }

  function Abs(r: Regs): Fifo
    requires ConsOk(r)
  {
    Fifo(Ring(r.buff, r.cons, r.count), r.idle, r.port, r.accepted)
  }

  /** The ring in order: nothing lost, doubled or reordered, and nothing written behind the buffer. */
  ghost predicate InOrder(r: Regs) { RegsOk(r) && Sound(Abs(r)) }

  lemma SentFirst(b: seq<byte>, cons: nat, count: nat)
    requires |b| == SERIAL_BUFF_SIZE && cons < SERIAL_BUFF_SIZE && 0 < count <= SERIAL_BUFF_SIZE
    ensures var h := Ring(b, cons, count); h[0] == b[cons] && h[1..] == Ring(b, Wrap(cons + 1), count - 1)
  {
    RingPop(b, cons, count);
  }

  lemma WrittenIs(r: Regs, lsr: byte, stray: byte)
    requires RegsOk(r)
    ensures var t := Written(r, lsr, stray); RegsOk(t) && Abs(t) == Advance(Abs(r), lsr)
  {
    hide Ring;
    if r.idle && r.count > 0 { SentFirst(r.buff, r.cons, r.count); }
  }

  lemma AddedIs(r: Regs, d: byte)
    requires RegsOk(r) && r.count < SERIAL_BUFF_SIZE
    ensures var t := Added(r, d);
            && RegsOk(t) && t.count == r.count + 1
            && Abs(t) == Abs(r).(held := Abs(r).held + [d], accepted := Abs(r).accepted + [d])
  {
    hide Ring;
    RingPush(r.buff, r.cons, r.count, d);
  }

  /** prod_add, left alone, is the one step that Add describes. */
  lemma Uninterrupted(r: Regs, d: byte, data: byte, lsr: byte, stray: byte)
    requires RegsOk(r)
    ensures var t := Finish(Machine(r, Full, d, data), lsr, stray).r; RegsOk(t) && Abs(t) == Add(Abs(r), d, lsr)
  {
    hide Finish, Ring, Added, Written, Advance;
    FinishPut(r, d, data, lsr, stray);
    if r.count < SERIAL_BUFF_SIZE {
      AddedIs(r, d);
      if r.count == 0 { WrittenIs(Added(r, d), lsr, stray); }
    }
  }

  lemma {:induction false} PrintsAsPuts(r: Regs, text: seq<byte>, lsr: byte, stray: byte)
    requires RegsOk(r)
    ensures var t := Prints(r, text, lsr, stray);
            RegsOk(t) && Abs(t) == Run(Abs(r), Puts(text, seq(|text|, _ => lsr)))
    decreases |text|
  {
    hide Finish, Ring, Add;
    if text != [] {
      Uninterrupted(r, text[0], 0, lsr, stray);
      PrintsAsPuts(Finish(Machine(r, Full, text[0], 0), lsr, stray).r, text[1..], lsr, stray);
      var lsrs := seq(|text|, _ => lsr);
      assert lsrs[1..] == seq(|text| - 1, _ => lsr) && Puts(text, lsrs)[1..] == Puts(text[1..], lsrs[1..]);
    }
  }

  /** Between calls, what the handler prints and the byte it sends are events like any others. */
  lemma HandlerAsEvents(r: Regs, iir: byte, text: seq<byte>, lsr: byte, stray: byte)
    requires RegsOk(r)
    ensures var t := Handler(r, iir, text, lsr, stray);
            RegsOk(t) && Abs(t) == Run(Abs(r), Puts(text, seq(|text|, _ => lsr)) + [Irq(iir)])
  {
    hide Finish, Ring, Prints, Run, Puts, Written;
    var puts := Puts(text, seq(|text|, _ => lsr));
    PrintsAsPuts(r, text, lsr, stray);
    var t := Prints(r, text, lsr, stray);
    RunCut(Abs(r), puts, [Irq(iir)]);
    RunOne(Abs(t), Irq(iir));
    HandlerIs(r, iir, text, lsr, stray);
    if IsTxIrq(iir) { WrittenIs(t.(idle := true), lsr, stray); }
  }

  /** So between calls it does no harm. */
  lemma HandlerKeeps(r: Regs, iir: byte, text: seq<byte>, lsr: byte, stray: byte)
    requires InOrder(r)
    ensures InOrder(Handler(r, iir, text, lsr, stray))
  {
    hide Ring, Handler, Run, Puts;
    HandlerAsEvents(r, iir, text, lsr, stray);
    RunKeeps(Abs(r), Puts(text, seq(|text|, _ => lsr)) + [Irq(iir)]);
  }
}
