// The calls of the kernel heap, one after the other: the steps that the statements about whole runs speak of.
module HeapCalls {
  import opened Blocks
  import opened HeapSpec
  import opened ReallocSpec
  import opened HeapBytes
  import opened Memory
  import opened MovedBytes
  import opened ReallocContents
  import opened HeapRuns
  import K = KernelHeap

  ghost predicate InRange(op: Op) {
    match op
    case Kmalloc(size) => size < TWO_64
    case Kcalloc(nmemb, count) => nmemb < TWO_64 && count < TWO_64
    case Kfree(p) => 0 <= p < TWO_64
    case Krealloc(p, size) => 0 <= p < TWO_64 && size < TWO_64
    case Write(_) => true
    case Limit(_) => true
  }

  lemma QuietFrom(h: Heap, b: map<int, Byte>, op: Op, c: map<int, Byte>)
    requires Untouched(b, c, Live(h.blocks))
    ensures Quiet(h, b, Event(op, c))
  {
    forall x | x in Live(h.blocks) ensures SameBytes(b, c, x.Ptr(), x.End()) {
      SamePayload(b, c, Live(h.blocks), x);
    }
  }

  lemma QuietWrite(h: Heap, x: Block, b: map<int, Byte>, a: int, c: map<int, Byte>)
    requires Shape(h) && x in Live(h.blocks) && x.InPayload(a) && BytesOutside(b, c, a, a + 1)
    ensures Quiet(h, b, Event(Write(x), c))
  {
    forall y | y in Live(h.blocks) && y != x ensures SameBytes(b, c, y.Ptr(), y.End()) {
      if y.Holds(a) { TiledDisjoint(h.blocks, KHEAP_START, h.brk, x, y, a); }
    }
  }

  lemma QuietMove(h: Heap, i: nat, size: nat, b: map<int, Byte>, c: map<int, Byte>, p: int)
    requires Shape(h) && i < |h.blocks| && K.Moved(h, i, size, b, c, p)
    ensures Quiet(h, b, Event(Krealloc(h.blocks[i].Ptr(), size), c))
  {
    TiledMember(h.blocks, KHEAP_START, h.brk, h.blocks[i]);
    forall x | x in Live(h.blocks) && x != h.blocks[i] ensures SameBytes(b, c, x.Ptr(), x.End()) {
      SamePayload(b, c, Live(h.blocks) - {h.blocks[i]}, x);
    }
  }

  lemma QuietDelivery(h: Heap, i: nat, size: nat, b: map<int, Byte>, c: map<int, Byte>, p: int)
    requires Shape(h) && i < |h.blocks| && Delivered(h, i, size, b, c, p)
    ensures Quiet(h, b, Event(Krealloc(h.blocks[i].Ptr(), size), c))
  {
    hide Result, Wanted;
    TiledMember(h.blocks, KHEAP_START, h.brk, h.blocks[i]);
    forall x | x in Live(h.blocks) && x != h.blocks[i] ensures SameBytes(b, c, x.Ptr(), x.End()) {
      SamePayload(b, c, Live(h.blocks) - {h.blocks[i]}, x);
    }
  }

  method Resize(m: K.KernelHeap, p: int, size: nat)
    requires m.Valid() && Inv(m.State()) && Allowed(m.State(), Krealloc(p, size)) && InRange(Krealloc(p, size))
    modifies m
    ensures m.Valid() && m.State() == Step(old(m.State()), Krealloc(p, size))
    ensures Quiet(old(m.State()), old(m.mem.bytes), Event(Krealloc(p, size), m.mem.bytes))
  {
    hide Malloc, Free, Realloc, Tiled, Coalesced, Absorbed, Stuck, Overruns, SplitsUnaligned, Quiet;
    hide K.Moved, Delivered, ReturnsLive, FreesItsResult, Untouched;
    ghost var h, b := m.State(), m.mem.bytes;
    ghost var i: int := -1;
    var r; ghost var k;
    if p != 0 { i := FindBlock(m.blocks, p); }
    r, k := m.KRealloc(p, size, i);
    if p == 0 || size == 0 {
      QuietFrom(h, b, Krealloc(p, size), m.mem.bytes);
    } else if TooBig(size) {
      TooBigStep(h, i, size);
      NothingWritten(h, b, Krealloc(p, size));
    } else {
      ReturnsLiveIff(h, i, size);
      if Absorbed(h.blocks, i, size) {
        QuietDelivery(h, i, size, b, m.mem.bytes, r.ptr);
      } else {
        QuietMove(h, i, size, b, m.mem.bytes, r.ptr);
      }
    }
  }

  lemma NothingWritten(h: Heap, b: map<int, Byte>, op: Op)
    ensures Quiet(h, b, Event(op, b))
  {
  }

  /**
   * Every allowed call is a step of the runs: the heap becomes what Step
   * says, and no payload but the call's own changes.
   */
  method Perform(m: K.KernelHeap, op: Op, a: int, v: Byte)
    requires m.Valid() && Inv(m.State()) && Allowed(m.State(), op) && InRange(op)
    requires op.Write? ==> op.to.InPayload(a)
    modifies m
    ensures m.Valid() && m.State() == Step(old(m.State()), op)
    ensures Quiet(old(m.State()), old(m.mem.bytes), Event(op, m.mem.bytes))
  {
    hide Malloc, Calloc, Free, Realloc, Tiled, Coalesced, ReturnsLive, SplitsUnaligned, Quiet, K.Moved, Untouched;
    ghost var h, b := m.State(), m.mem.bytes;
    match op {
      case Kmalloc(size) =>
        var p; ghost var k;
        p, k := m.KMalloc(size);
        QuietFrom(h, b, op, m.mem.bytes);
      case Kcalloc(nmemb, count) =>
        var p; ghost var k;
        p, k := m.KCalloc(nmemb, count);
        QuietFrom(h, b, op, m.mem.bytes);
      case Kfree(p) =>
        m.KFree(p);
        QuietFrom(h, b, op, m.mem.bytes);
      case Krealloc(p, size) =>
        Resize(m, p, size);
      case Write(x) =>
        m.Store(a, v);
        QuietWrite(h, x, b, a, m.mem.bytes);
      case Limit(l) =>
        m.SetLimit(l);
        NothingWritten(h, b, op);
    }
  }
}
