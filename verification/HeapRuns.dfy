// Whole runs of the kernel heap: any sequence of calls by its users and of moves by the system.
module HeapRuns {
  import opened Blocks
  import opened HeapSpec
  import opened HeapTheorems
  import opened ReallocSpec
  import opened Memory

  datatype Op =
    | Kmalloc(size: nat)
    | Kcalloc(nmemb: nat, count: nat)
    | Kfree(p: int)
    | Krealloc(q: int, newSize: nat)
    | Write(to: Block)      // a program writes in its own allocation
    | Limit(limit: int)     // the system sets how far the break may move

  /** What every reachable heap satisfies. */
  ghost predicate Inv(h: Heap) {
    Shape(h) && Coalesced(h.blocks) && Aligned(h.blocks)
  }

  predicate OwnPointer(h: Heap, p: int) {
    var i := FindBlock(h.blocks, p);
    i < |h.blocks| && h.blocks[i].Ptr() == p && !h.blocks[i].free
  }

  /**
   * krealloc needs a live pointer, to return a live block (ReturnsLiveIff says
   * when), and not to split at an unrounded size.
   */
  ghost predicate Allowed(h: Heap, op: Op) {
    match op
    case Krealloc(p, size) =>
      p == 0 ||
      (OwnPointer(h, p) &&
       var i := FindBlock(h.blocks, p);
       size == 0 || TooBig(size) ||
       (ReturnsLive(h, i, size) && !SplitsUnaligned(h.blocks, i, size)))
    case Write(x) => x in h.blocks && !x.free
    case Limit(l) => l <= KHEAP_START + HEAP_MAX
    case _ => true
  }

  ghost function Step(h: Heap, op: Op): Heap
    requires Allowed(h, op)
  {
    match op
    case Kmalloc(size) => Malloc(h, size).0
    case Kcalloc(nmemb, count) => Calloc(h, nmemb, count).0
    case Kfree(p) => Free(h, p)
    case Krealloc(p, size) =>
      if p == 0 then Malloc(h, size).0 else if size == 0 then Free(h, p) else Realloc(h, FindBlock(h.blocks, p), size).0
    case Write(x) => h
    case Limit(l) => h.(limit := l)
  }

  ghost predicate AllAllowed(h: Heap, ops: seq<Op>)
    decreases ops
  {
    ops != [] ==> Allowed(h, ops[0]) && AllAllowed(Step(h, ops[0]), ops[1..])
  }

  ghost function Run(h: Heap, ops: seq<Op>): Heap
    requires AllAllowed(h, ops)
    decreases ops
  {
    if ops == [] then h else Run(Step(h, ops[0]), ops[1..])
  }

  lemma ReallocStep(h: Heap, p: int, size: nat)
    requires Inv(h) && OwnPointer(h, p) && 0 < size && !TooBig(size) && Allowed(h, Krealloc(p, size)) && p != 0
    ensures var i := FindBlock(h.blocks, p);
            var (g, o) := Realloc(h, i, size);
            Inv(g) && o.At? && Resized(h, i, size, g, o.k)
  {
    var i := FindBlock(h.blocks, p);
    hide Tiled, Coalesced, Realloc, Stuck, StaleSize, Overruns, SplitsUnaligned, Absorbed, FreesItsResult, ReturnsLive;
    ReturnsLiveIff(h, i, size);
    ReallocAlignedIff(h, i, size);
    if Shrinks(h.blocks, i, size) || GrowsInPlace(h.blocks, i, size) {
      ResizedInPlace(h, i, size);
    } else {
      ResizedByMoving(h, i, size);
    }
  }

  lemma StepKeeps(h: Heap, op: Op)
    requires Inv(h) && Allowed(h, op)
    ensures Inv(Step(h, op))
  {
    hide Malloc, Free, Realloc, Tiled, Coalesced, ReturnsLive, SplitsUnaligned;
    match op
    case Kmalloc(size) => MallocMeaning(h, size);
    case Kcalloc(nmemb, count) =>
      if CallocBytes(nmemb, count) >= 0 { MallocMeaning(h, CallocBytes(nmemb, count)); }
    case Kfree(p) => FreeMeaning(h, p);
    case Krealloc(p, size) =>
      if p == 0 {
        MallocMeaning(h, size);
      } else if size == 0 {
        FreeMeaning(h, p);
      } else if TooBig(size) {
        TooBigStep(h, FindBlock(h.blocks, p), size);
      } else {
        ReallocStep(h, p, size);
      }
    case Write(x) =>
    case Limit(l) =>
  }

  lemma TooBigStep(h: Heap, i: nat, size: nat)
    requires i < |h.blocks| && TooBig(size)
    ensures Realloc(h, i, size).0 == h
  {
  }

  /** Every run from a heap in order leaves it in order: an exact, aligned, coalesced tiling of [heap head, break). */
  lemma {:induction false} RunKeeps(h: Heap, ops: seq<Op>)
    requires Inv(h) && AllAllowed(h, ops)
    ensures var g := Run(h, ops); Inv(g) && TotalBytes(g.blocks) == g.brk - KHEAP_START
    decreases ops
  {
    if ops == [] {
      TiledTotal(h.blocks, KHEAP_START, h.brk);
    } else {
      StepKeeps(h, ops[0]);
      RunKeeps(Step(h, ops[0]), ops[1..]);
    }
  }

  lemma EmptyHeap(limit: int)
    requires limit <= KHEAP_START + HEAP_MAX
    ensures Inv(Heap([], KHEAP_START, limit))
  {
  }

  // ---------- What a live block can rely on ----------

  /** The call releases block b or may give it another size or place. */
  predicate Targets(op: Op, b: Block) {
    match op
    case Kfree(p) => b.Holds(p)
    case Krealloc(p, size) => p != 0 && b.Holds(p)
    case _ => false
  }

  lemma StepPersists(h: Heap, op: Op, b: Block)
    requires Inv(h) && Allowed(h, op) && b in Live(h.blocks) && !Targets(op, b)
    ensures b in Live(Step(h, op).blocks)
  {
    hide Malloc, Free, Realloc, Tiled, Coalesced, ReturnsLive, SplitsUnaligned, Refused;
    match op
    case Kmalloc(size) => MallocMeaning(h, size);
    case Kcalloc(nmemb, count) =>
      if CallocBytes(nmemb, count) >= 0 { MallocMeaning(h, CallocBytes(nmemb, count)); }
    case Kfree(p) => FreeMeaning(h, p);
    case Krealloc(p, size) =>
      if p == 0 {
        MallocMeaning(h, size);
      } else if size == 0 {
        FreeMeaning(h, p);
      } else if TooBig(size) {
        TooBigStep(h, FindBlock(h.blocks, p), size);
      } else {
        ReallocStep(h, p, size);
      }
    case Write(x) =>
    case Limit(l) =>
  }

  /** One call, and the bytes it leaves. */
  datatype Event = Event(op: Op, bytes: map<int, Byte>)

  /** What the methods of KernelHeap promise about bytes: a call changes no live payload but the one it is about. */
  ghost predicate Quiet(h: Heap, before: map<int, Byte>, e: Event) {
    forall b | b in Live(h.blocks) && !Targets(e.op, b) && e.op != Write(b) ::
      SameBytes(before, e.bytes, b.Ptr(), b.End())
  }

  ghost predicate Trace(h: Heap, before: map<int, Byte>, es: seq<Event>)
    decreases es
  {
    es != [] ==> Allowed(h, es[0].op) && Quiet(h, before, es[0]) && Trace(Step(h, es[0].op), es[0].bytes, es[1..])
  }

  ghost function After(h: Heap, es: seq<Event>): Heap
    decreases es
  {
    if es == [] then h
    else After(if Allowed(h, es[0].op) then Step(h, es[0].op) else h, es[1..])
  }

  function BytesAfter(before: map<int, Byte>, es: seq<Event>): map<int, Byte> {
    if es == [] then before else es[|es| - 1].bytes
  }

  /**
   * Over any run, a block its owner neither releases, resizes nor writes to keeps its place, its size and every byte.
   */
  lemma {:induction false} LiveBlockUndisturbed(h: Heap, before: map<int, Byte>, es: seq<Event>, b: Block)
    requires Inv(h) && Trace(h, before, es) && b in Live(h.blocks)
    requires forall e | e in es :: !Targets(e.op, b) && e.op != Write(b)
    ensures b in Live(After(h, es).blocks)
    ensures SameBytes(before, BytesAfter(before, es), b.Ptr(), b.End())
    decreases es
  {
    if es != [] {
      var e, g := es[0], Step(h, es[0].op);
      assert e in es;
      StepKeeps(h, e.op);
      StepPersists(h, e.op, b);
      LiveBlockUndisturbed(g, e.bytes, es[1..], b);
      assert BytesAfter(before, es) == BytesAfter(e.bytes, es[1..]);
    }
  }
}
