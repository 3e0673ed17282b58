// What each entry point of kmalloc.c does to the block list and the break, as functions on values,
// and the properties of those functions: tiling, coalescing, who is live, and what undoes what.
module HeapSpec {
  import opened Blocks

  const KHEAP_START := 0x0100_0000_0000
  const HEAP_MAX := 0x1_0000_0000

  /** `limit` is how far kbrk may still move the break; the system decides it. */
  datatype Heap = Heap(blocks: seq<Block>, brk: int, limit: int)

  ghost predicate Shape(h: Heap) {
    && Tiled(h.blocks, KHEAP_START, h.brk)
    && h.brk % ALIGN_SIZE == 0
    && h.brk <= KHEAP_START + HEAP_MAX
    && h.limit <= KHEAP_START + HEAP_MAX
  }

  function Live(bs: seq<Block>): set<Block> {
    set b | b in bs && !b.free
  }

  // ---------- get_empty_mem ----------

  predicate Exact(b: Block, size: int) { b.free && b.size == size }

  predicate Oversized(b: Block, size: int) { b.free && b.size > size }

  function FirstExact(bs: seq<Block>, size: int): (k: int)
    ensures -1 <= k < |bs|
    ensures k >= 0 ==> Exact(bs[k], size)
    ensures k < 0 ==> forall b | b in bs :: !Exact(b, size)
  {
    if bs == [] then -1
    else
      var k := FirstExact(bs[..|bs| - 1], size);
      if k >= 0 then k else if Exact(bs[|bs| - 1], size) then |bs| - 1 else -1
  }

  function LastOversized(bs: seq<Block>, size: int): (k: int)
    ensures -1 <= k < |bs|
    ensures k >= 0 ==> Oversized(bs[k], size)
    ensures k < 0 ==> forall b | b in bs :: !Oversized(b, size)
  {
    if bs == [] then -1
    else if Oversized(bs[|bs| - 1], size) then |bs| - 1
    else LastOversized(bs[..|bs| - 1], size)
  }

  /** What extend_mem lays out at the break. */
  function Extension(at: int, size: nat): (bs: seq<Block>)
    ensures bs != []
  {
    SplitFirst([Block(at, RoundUp(size, BIN_SIZE), true)], size)
  }

  predicate CanGrow(h: Heap, size: nat) {
    h.brk + RoundUp(size, BIN_SIZE) + HEADER_SIZE <= h.limit
  }

  function Grow(h: Heap, size: nat): Heap {
    h.(blocks := h.blocks + Extension(h.brk, size),
       brk := h.brk + RoundUp(size, BIN_SIZE) + HEADER_SIZE)
  }

  /** The heap get_empty_mem starts its search on: the first call makes the first block. */
  function Opened(h: Heap): Heap {
    if h.blocks == [] && CanGrow(h, BIN_SIZE) then Grow(h, BIN_SIZE) else h
  }

  function Used(bs: seq<Block>): (r: seq<Block>)
    requires bs != []
    ensures |r| == |bs|
  {
    [bs[0].(free := false)] + bs[1..]
  }

  function Take(h: Heap, k: nat, size: nat): (r: Heap)
    requires k < |h.blocks|
    ensures k < |r.blocks|
  {
    h.(blocks := h.blocks[..k] + Used(SplitFirst(h.blocks[k..], size)))
  }

  /** The block kmalloc settles on, and whether the heap grows first; index -1 means none. */
  function Choose(h: Heap, size: nat): (c: (Heap, int))
    ensures -1 <= c.1 < |c.0.blocks|
  {
    var bs := h.blocks;
    if bs == [] then (h, -1)
    else
      var e := FirstExact(bs, size);
      if e >= 0 then (h, e)
      else if Oversized(bs[|bs| - 1], size) then (h, |bs| - 1)
      else if CanGrow(h, size) then (Grow(h, size), |bs|)
      else (h, LastOversized(bs, size))
  }

  /** get_empty_mem: the heap it leaves and the index of the block it hands out, or -1. */
  function Alloc(h: Heap, size: nat): (r: (Heap, int))
    ensures -1 <= r.1 < |r.0.blocks|
  {
    var (g, k) := Choose(Opened(h), size);
    if k < 0 then (g, -1) else (Take(g, k, size), k)
  }

  // ---------- kmalloc and kcalloc ----------

  /** kmalloc: the heap it leaves and the index of the block it returns, or -1 for NULL. */
  function Malloc(h: Heap, size: nat): (r: (Heap, int))
    ensures -1 <= r.1 < |r.0.blocks|
  {
    var asked := if size < 1 then 1 else size;
    var total := RoundUp64(asked, ALIGN_SIZE);
    if asked > UINT32_MAX || total > UINT32_MAX then (h, -1) else Alloc(h, total)
  }

  /** ROUND_UP of a product that wraps. */
  function RoundUpWrapped(n: nat): nat {
    RoundUp64(n % TWO_64, ALIGN_SIZE)
  }

  /** The byte count kcalloc passes on to kmalloc, or -1 when it refuses. */
  function CallocBytes(nmemb: nat, size: nat): int {
    var total := RoundUpWrapped(nmemb * size);
    if nmemb > UINT32_MAX || size > UINT32_MAX || total > UINT32_MAX then -1 else total
  }

  /**
   * The product kcalloc asks for never wraps once both factors have passed: it is refused exactly if a factor does not
   * fit 32 bits or the product does not once it is rounded up, and it is asked for in full.
   */
  lemma CallocExact(nmemb: nat, size: nat)
    requires nmemb < TWO_64 && size < TWO_64
    ensures CallocBytes(nmemb, size) >= 0 <==>
            nmemb <= UINT32_MAX && size <= UINT32_MAX && nmemb * size + ALIGN_SIZE <= UINT32_MAX + 1
    ensures CallocBytes(nmemb, size) >= 0 ==> nmemb * size <= CallocBytes(nmemb, size) < nmemb * size + ALIGN_SIZE
  {
    hide RoundUpWrapped;
    if nmemb <= UINT32_MAX && size <= UINT32_MAX {
      ProductFits(nmemb, size);
      RoundsInFull(nmemb * size);
    }
  }

  const SQUARE := 0xFFFF_FFFE_0000_0001

  lemma ProductFits(m: nat, n: nat)
    requires m <= UINT32_MAX && n <= UINT32_MAX
    ensures m * n <= SQUARE
  {
    ProductAtMost(m, n, UINT32_MAX);
  }

  lemma ProductAtMost(m: nat, n: nat, k: nat)
    requires m <= k && n <= k
    ensures m * n <= k * k
  {
    assert m * n <= m * k;
  }

  lemma RoundsInFull(n: nat)
    requires n <= SQUARE
    ensures n <= RoundUpWrapped(n) < n + ALIGN_SIZE
    ensures RoundUpWrapped(n) <= UINT32_MAX <==> n + ALIGN_SIZE <= UINT32_MAX + 1
  {
    if n > 0 { RoundUpIsMask(n, ALIGN_SIZE); }
  }

  function Calloc(h: Heap, nmemb: nat, size: nat): (r: (Heap, int))
    ensures -1 <= r.1 < |r.0.blocks|
  {
    var total := CallocBytes(nmemb, size);
    if total < 0 then (h, -1) else Malloc(h, total)
  }

  // ---------- kfree ----------

  /** The block a pointer falls in, or |bs|. */
  function FindBlock(bs: seq<Block>, p: int): (i: nat)
    ensures i <= |bs|
    ensures i < |bs| ==> bs[i].Holds(p)
    ensures forall j | 0 <= j < i :: !bs[j].Holds(p)
  {
    if bs == [] || bs[0].Holds(p) then 0 else 1 + FindBlock(bs[1..], p)
  }

  function FreeAt(bs: seq<Block>, i: nat): seq<Block>
    requires i < |bs|
  {
    var freed := MergeFirst([bs[i].(free := true)] + bs[i + 1..]);
    if i == 0 then freed else bs[..i - 1] + MergeFirst([bs[i - 1]] + freed)
  }

  /** kfree reports these pointers as invalid and does nothing. */
  predicate Refused(h: Heap, p: int) {
    p != 0 && (p < First(h.blocks, 0) || h.brk - MIN_BLK_SIZE < p || FindBlock(h.blocks, p) == |h.blocks|)
  }

  function Free(h: Heap, p: int): Heap {
    if p == 0 || Refused(h, p) then h else h.(blocks := FreeAt(h.blocks, FindBlock(h.blocks, p)))
  }

  // ---------- Lemmas on the pieces ----------

  lemma LiveCut(a: seq<Block>, b: seq<Block>)
    ensures Live(a + b) == Live(a) + Live(b)
  {
  }

  lemma MergeFirstLive(bs: seq<Block>)
    ensures Live(MergeFirst(bs)) == Live(bs)
  {
    if |bs| >= 2 && bs[0].free && bs[1].free {
      var m := MergeFirst(bs);
      assert bs == [bs[0], bs[1]] + bs[2..] && m == [m[0]] + bs[2..];
      LiveCut([bs[0], bs[1]], bs[2..]);
      LiveCut([m[0]], bs[2..]);
      assert Live([bs[0], bs[1]]) == {} && Live([m[0]]) == {};
    }
  }

  lemma MergeFirstAligned(bs: seq<Block>)
    requires Aligned(bs)
    ensures Aligned(MergeFirst(bs))
  {
    if |bs| >= 2 && bs[0].free && bs[1].free {
      assert AlignedBlock(bs[0]) && AlignedBlock(bs[1]);
      forall b | b in MergeFirst(bs) ensures AlignedBlock(b) { assert b == MergeFirst(bs)[0] || b in bs; }
    }
  }

  lemma MergeFirstFacts(bs: seq<Block>)
    ensures Live(MergeFirst(bs)) == Live(bs)
    ensures Aligned(bs) ==> Aligned(MergeFirst(bs))
    ensures bs != [] ==> MergeFirst(bs) != [] && MergeFirst(bs)[0].addr == bs[0].addr
                         && MergeFirst(bs)[0].free == bs[0].free
    ensures bs != [] && Coalesced(bs[1..]) ==> Coalesced(MergeFirst(bs))
  {
    hide Tiled, Live, Aligned;
    MergeFirstLive(bs);
    if Aligned(bs) { MergeFirstAligned(bs); }
    if |bs| >= 2 && bs[0].free && bs[1].free {
      assert MergeFirst(bs)[1..] == bs[2..] == bs[1..][1..];
    }
  }

  lemma SplitFirstFacts(bs: seq<Block>, size: nat)
    requires bs != [] && size > 0
    ensures var r := SplitFirst(bs, size);
            && r != [] && r[0] == bs[0].(size := r[0].size)
            && (bs[0].size < size + MIN_BLK_SIZE ==> r == bs)
            && (bs[0].size >= size + MIN_BLK_SIZE ==> r[0].size == size && |r| >= 2 && r[1].free)
            && Live(r[1..]) == Live(bs[1..])
            && (Aligned(bs) && size % ALIGN_SIZE == 0 ==> Aligned(r))
            && (Coalesced(bs[1..]) ==> Coalesced(r[1..]))
  {
    var r := SplitFirst(bs, size);
    if bs[0].size < size + MIN_BLK_SIZE {
      return;
    }
    hide Tiled, Live, Aligned, MergeFirst;
    var tail := SplitTail(bs, size);
    assert tail[1..] == bs[1..];
    MergeFirstFacts(tail);
    SplitTailLive(bs, size);
    assert r[1..] == MergeFirst(tail);
    if Aligned(bs) && size % ALIGN_SIZE == 0 { SplitTailAligned(bs, size); }
  }

  /** The blocks behind the first one, once it is cut, before they are merged. */
  function SplitTail(bs: seq<Block>, size: nat): (tail: seq<Block>)
    requires bs != []
  {
    [Block(bs[0].Ptr() + size, bs[0].size - size - HEADER_SIZE, true)] + bs[1..]
  }

  lemma SplitTailLive(bs: seq<Block>, size: nat)
    requires bs != []
    ensures Live(SplitTail(bs, size)) == Live(bs[1..])
  {
    var tail := SplitTail(bs, size);
    LiveCut([tail[0]], bs[1..]);
    assert Live([tail[0]]) == {};
  }

  lemma SplitTailAligned(bs: seq<Block>, size: nat)
    requires bs != [] && Aligned(bs) && size % ALIGN_SIZE == 0 && bs[0].size >= size + MIN_BLK_SIZE
    ensures Aligned(SplitFirst(bs, size))
  {
    var tail := SplitTail(bs, size);
    assert AlignedBlock(bs[0]) by { assert bs[0] in bs; }
    forall b | b in tail ensures AlignedBlock(b) {
      if b != tail[0] { assert b in bs[1..] && b in bs; }
    }
    hide MergeFirst;
    MergeFirstAligned(tail);
    var cut := bs[0].(size := size);
    forall b | b in SplitFirst(bs, size) ensures AlignedBlock(b) {
      assert b == cut || b in MergeFirst(tail);
    }
  }

  lemma RoundUpFacts(n: nat, d: nat)
    requires 0 < n <= UINT32_MAX && (d == ALIGN_SIZE || d == BIN_SIZE)
    ensures RoundUp(n, d) % d == 0 && n <= RoundUp(n, d) < n + d && RoundUp(n, d) == RoundUp64(n, d)
  {
    RoundUpIsMask(n, d);
  }

  /** A single free block, split: what a fresh stretch of heap looks like. */
  lemma SplitAlone(b: Block, size: nat)
    requires b.free && 0 < size <= b.size
    ensures var r := SplitFirst([b], size);
            && Tiled(r, b.addr, b.End()) && Live(r) == {} && Coalesced(r[1..])
            && r[0].addr == b.addr && r[0].free && size <= r[0].size < size + MIN_BLK_SIZE
            && (r[0].size > size ==> |r| == 1)
            && (AlignedBlock(b) && size % ALIGN_SIZE == 0 ==> Aligned(r))
  {
    SplitFirstTiled([b], size, b.addr, b.End());
    SplitFirstFacts([b], size);
    hide Tiled;
    var r := SplitFirst([b], size);
    LiveCut([r[0]], r[1..]);
    assert r == [r[0]] + r[1..];
    assert Live([r[0]]) == {};
  }

  lemma BreakAligned(brk: int, n: int)
    requires brk % ALIGN_SIZE == 0 && n % BIN_SIZE == 0
    ensures n % ALIGN_SIZE == 0 && (brk + n + HEADER_SIZE) % ALIGN_SIZE == 0
  {
  }

  lemma ExtensionFacts(at: int, size: nat)
    requires 0 < size <= UINT32_MAX
    ensures var e := Extension(at, size);
            && Tiled(e, at, at + RoundUp(size, BIN_SIZE) + HEADER_SIZE) && Live(e) == {} && Coalesced(e[1..])
            && e[0].addr == at && e[0].free && size <= e[0].size < size + MIN_BLK_SIZE
            && (e[0].size > size ==> |e| == 1)
            && (at % ALIGN_SIZE == 0 && size % ALIGN_SIZE == 0 ==> Aligned(e))
  {
    hide Tiled, Coalesced, RoundUp, SplitFirst, Live, Aligned;
    RoundUpFacts(size, BIN_SIZE);
    BreakAligned(0, RoundUp(size, BIN_SIZE));
    SplitAlone(Block(at, RoundUp(size, BIN_SIZE), true), size);
  }

  // ---------- Allocation ----------

  lemma LiveAround(pre: seq<Block>, b: Block, post: seq<Block>)
    ensures Live(pre + ([b] + post)) == Live(pre) + (if b.free then {} else {b}) + Live(post)
  {
    LiveCut(pre, [b] + post);
    LiveCut([b], post);
    assert Live([b]) == if b.free then {} else {b};
  }

  lemma TakePieces(h: Heap, k: nat, size: nat)
    requires k < |h.blocks|
    ensures var pre, r := h.blocks[..k], SplitFirst(h.blocks[k..], size);
            && h.blocks == pre + ([h.blocks[k]] + h.blocks[k + 1..])
            && h.blocks[k..] == [h.blocks[k]] + h.blocks[k + 1..]
            && Take(h, k, size).blocks == pre + ([r[0].(free := false)] + r[1..])
  {
  }

  /** Handing out block k: exactly that block becomes live, in its first bytes. */
  lemma TakeFacts(h: Heap, k: nat, size: nat)
    requires Shape(h) && k < |h.blocks| && h.blocks[k].free && 0 < size <= h.blocks[k].size
    ensures var g, b := Take(h, k, size), Take(h, k, size).blocks[k];
            && Shape(g) && g.brk == h.brk && g.limit == h.limit
            && !b.free && b.addr == h.blocks[k].addr && size <= b.size < size + MIN_BLK_SIZE
            && Live(g.blocks) == Live(h.blocks) + {b}
  {
    var pre, seg := h.blocks[..k], h.blocks[k..];
    var r := SplitFirst(seg, size);
    TakePieces(h, k, size);
    assert seg[1..] == h.blocks[k + 1..];
    SplitFirstFacts(seg, size);
    TakeShape(h, k, size);
    LiveAround(pre, h.blocks[k], h.blocks[k + 1..]);
    LiveAround(pre, r[0].(free := false), r[1..]);
  }

  lemma TakeTidy(h: Heap, k: nat, size: nat)
    requires k < |h.blocks| && 0 < size
    ensures Coalesced(h.blocks[..k]) && Coalesced(h.blocks[k + 1..]) ==> Coalesced(Take(h, k, size).blocks)
    ensures Aligned(h.blocks) && size % ALIGN_SIZE == 0 ==> Aligned(Take(h, k, size).blocks)
  {
    hide Take, SplitFirst, Coalesced, Aligned;
    var pre, seg := h.blocks[..k], h.blocks[k..];
    var r := SplitFirst(seg, size);
    SplitFirstFacts(seg, size);
    var b := r[0].(free := false);
    TakePieces(h, k, size);
    assert seg[1..] == h.blocks[k + 1..];
    if Coalesced(pre) && Coalesced(seg[1..]) {
      AloneCoalesced(b);
      CoalescedCut([b], r[1..]);
      CoalescedCut(pre, [b] + r[1..]);
    }
    if Aligned(h.blocks) && size % ALIGN_SIZE == 0 { AlignedPieces(h.blocks, k, r); }
  }

  lemma AloneCoalesced(b: Block)
    ensures Coalesced([b])
  {
  }

  lemma AlignedPieces(bs: seq<Block>, k: nat, r: seq<Block>)
    requires k < |bs| && r != [] && Aligned(bs)
    ensures Aligned(bs[k..])
    ensures Aligned(r) ==> Aligned(bs[..k] + ([r[0].(free := false)] + r[1..]))
  {
    assert Aligned(r) ==> AlignedBlock(r[0]);
  }

  lemma TakeShape(h: Heap, k: nat, size: nat)
    requires Shape(h) && k < |h.blocks| && 0 < size
    ensures Shape(Take(h, k, size))
  {
    var pre, seg := h.blocks[..k], h.blocks[k..];
    assert h.blocks == pre + seg;
    TiledCut(pre, seg, KHEAP_START, h.brk);
    SplitFirstTiled(seg, size, First(seg, h.brk), h.brk);
    var u := Used(SplitFirst(seg, size));
    assert u[1..] == SplitFirst(seg, size)[1..];
    TiledCut(pre, u, KHEAP_START, h.brk);
  }

  lemma GrowFacts(h: Heap, size: nat)
    requires Shape(h) && 0 < size <= UINT32_MAX && CanGrow(h, size)
    ensures var g, k := Grow(h, size), |h.blocks|;
            && Shape(g) && Live(g.blocks) == Live(h.blocks) && k < |g.blocks| && g.brk > h.brk
            && g.blocks[..k] == h.blocks && Coalesced(g.blocks[k + 1..])
            && g.blocks[k].free && size <= g.blocks[k].size < size + MIN_BLK_SIZE
            && g.blocks[k].addr == h.brk
            && (Aligned(h.blocks) && size % ALIGN_SIZE == 0 ==> Aligned(g.blocks))
  {
    hide Tiled, Coalesced, RoundUp, Extension, Live, Aligned;
    var e := Extension(h.brk, size);
    RoundUpFacts(size, BIN_SIZE);
    ExtensionFacts(h.brk, size);
    TiledCut(h.blocks, e, KHEAP_START, h.brk + RoundUp(size, BIN_SIZE) + HEADER_SIZE);
    LiveCut(h.blocks, e);
    AlignedCut(h.blocks, e);
    BreakAligned(h.brk, RoundUp(size, BIN_SIZE));
    assert (h.blocks + e)[|h.blocks| + 1..] == e[1..] && (h.blocks + e)[..|h.blocks|] == h.blocks;
  }

  lemma AlignedCut(a: seq<Block>, b: seq<Block>)
    ensures Aligned(a + b) <==> Aligned(a) && Aligned(b)
  {
    forall x | x in a || x in b ensures x in a + b {}
  }

  /** The search ends at the block just added. */
  lemma GrownTail(h: Heap, size: nat)
    requires Shape(h) && 0 < size <= UINT32_MAX && CanGrow(h, size)
    ensures var bs, n := Grow(h, size).blocks, |h.blocks|;
            && n < |bs| && bs[n].free && (Exact(bs[n], size) || (Oversized(bs[n], size) && n + 1 == |bs|))
  {
    GrowFacts(h, size);
    ExtensionFacts(h.brk, size);
  }

  /** The first call's block: one free block of BIN_SIZE bytes, when the break can move that far. */
  lemma OpenedFacts(h: Heap)
    requires Shape(h)
    ensures var g := Opened(h);
            && Shape(g) && Live(g.blocks) == Live(h.blocks)
            && (Coalesced(h.blocks) ==> Coalesced(g.blocks))
            && (Aligned(h.blocks) ==> Aligned(g.blocks))
            && (h.blocks != [] ==> g == h)
  {
    if h.blocks == [] && CanGrow(h, BIN_SIZE) {
      GrowFacts(h, BIN_SIZE);
      CoalescedCut([Opened(h).blocks[0]], Opened(h).blocks[1..]);
      assert Opened(h).blocks == [Opened(h).blocks[0]] + Opened(h).blocks[1..];
      if Aligned(h.blocks) { assert BIN_SIZE % ALIGN_SIZE == 0; }
    }
  }

  /** The search fails only if nothing free is big enough and the break cannot move. */
  lemma ChooseFails(h: Heap, size: nat)
    requires h.blocks != []
    ensures Choose(h, size).1 < 0 <==> (forall b | b in h.blocks && b.free :: b.size < size) && !CanGrow(h, size)
  {
    var e, l := FirstExact(h.blocks, size), LastOversized(h.blocks, size);
    if e < 0 && l < 0 {
      forall b | b in h.blocks && b.free ensures b.size < size {
        assert !Exact(b, size) && !Oversized(b, size);
      }
    }
  }

  lemma SearchStep(bs: seq<Block>, k: nat, size: int)
    requires k < |bs| && FirstExact(bs[..k], size) < 0
    ensures FirstExact(bs[..k + 1], size) == if Exact(bs[k], size) then k else -1
    ensures LastOversized(bs[..k + 1], size) == if Oversized(bs[k], size) then k else LastOversized(bs[..k], size)
    ensures Exact(bs[k], size) ==> FirstExact(bs, size) == k
  {
    assert bs[..k + 1][..k] == bs[..k];
    if Exact(bs[k], size) {
      FirstExactPrefix(bs, k + 1, size);
    }
  }

  /** The search looks at the list from the front. */
  lemma FirstExactPrefix(bs: seq<Block>, k: nat, size: int)
    requires k <= |bs| && FirstExact(bs[..k], size) >= 0
    ensures FirstExact(bs, size) == FirstExact(bs[..k], size)
  {
    if k < |bs| {
      var front := bs[..|bs| - 1];
      assert front[..k] == bs[..k];
      FirstExactPrefix(front, k, size);
    } else {
      assert bs[..k] == bs;
    }
  }

  lemma CoalescedAround(bs: seq<Block>, k: nat)
    requires k < |bs| && Coalesced(bs)
    ensures Coalesced(bs[..k]) && Coalesced(bs[k + 1..])
  {
    assert bs == bs[..k] + bs[k..] == bs[..k + 1] + bs[k + 1..];
    CoalescedCut(bs[..k], bs[k..]);
    CoalescedCut(bs[..k + 1], bs[k + 1..]);
  }

  lemma ChooseFacts(h: Heap, size: nat)
    requires Shape(h) && 0 < size <= UINT32_MAX
    ensures var (g, k) := Choose(h, size);
            && Shape(g) && Live(g.blocks) == Live(h.blocks)
            && (k < 0 ==> g == h)
            && (k >= 0 ==> g.blocks[k].free && size <= g.blocks[k].size)
            && (k >= 0 && Coalesced(h.blocks) ==> Coalesced(g.blocks[..k]) && Coalesced(g.blocks[k + 1..]))
            && (Aligned(h.blocks) && size % ALIGN_SIZE == 0 ==> Aligned(g.blocks))
  {
    var (g, k) := Choose(h, size);
    if g != h {
      GrowFacts(h, size);
    } else if k >= 0 && Coalesced(h.blocks) {
      CoalescedAround(h.blocks, k);
    }
  }

  /** Allocation keeps the tiling, the coalescing and the alignment of the heap. */
  lemma AllocShape(h: Heap, size: nat)
    requires Shape(h) && 0 < size <= UINT32_MAX
    ensures Shape(Alloc(h, size).0)
    ensures Coalesced(h.blocks) ==> Coalesced(Alloc(h, size).0.blocks)
    ensures Aligned(h.blocks) && size % ALIGN_SIZE == 0 ==> Aligned(Alloc(h, size).0.blocks)
  {
    hide Tiled, Coalesced, Aligned, Live, Choose, Opened, Take;
    var o := Opened(h);
    OpenedFacts(h);
    ChooseFacts(o, size);
    var (g, k) := Choose(o, size);
    if k >= 0 {
      TakeShape(g, k, size);
      TakeTidy(g, k, size);
    }
  }

  /** A successful allocation makes one more block live, of the right size, and a failed one none. */
  lemma AllocLive(h: Heap, size: nat)
    requires Shape(h) && 0 < size <= UINT32_MAX
    ensures var (g, k) := Alloc(h, size);
            if k < 0 then Live(g.blocks) == Live(h.blocks)
            else var b := g.blocks[k];
                 && !b.free && size <= b.size < size + MIN_BLK_SIZE
                 && b !in Live(h.blocks) && Live(g.blocks) == Live(h.blocks) + {b}
  {
    hide Tiled, Coalesced, Aligned, Live, Choose, Opened, Take;
    var o := Opened(h);
    OpenedFacts(h);
    ChooseFacts(o, size);
    var (g, k) := Choose(o, size);
    if k >= 0 {
      TakeFacts(g, k, size);
      var b := Take(g, k, size).blocks[k];
      FreeIsNotLive(g, k, b);
    }
  }

  lemma FreeIsNotLive(g: Heap, k: nat, b: Block)
    requires Shape(g) && k < |g.blocks| && g.blocks[k].free && b.addr == g.blocks[k].addr
    ensures b !in Live(g.blocks)
  {
    TiledMember(g.blocks, KHEAP_START, g.brk, g.blocks[k]);
    if b in Live(g.blocks) {
      TiledMember(g.blocks, KHEAP_START, g.brk, b);
      TiledDisjoint(g.blocks, KHEAP_START, g.brk, b, g.blocks[k], b.addr);
    }
  }
}
