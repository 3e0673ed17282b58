// What krealloc does to the block list, with the paths on which it goes wrong left as they are.
module ReallocSpec {
  import opened Blocks
  import opened HeapSpec
  import opened HeapTheorems
  import opened Memory

  /** NULL, the block at an index, or behaviour C does not define. */
  datatype Outcome = Nothing | At(k: nat) | Undefined

  const SIZE_OFFSET := 8   // of the size in a header

  function Total(size: nat): nat { RoundUp64(size, ALIGN_SIZE) }

  predicate TooBig(size: nat) { size > UINT32_MAX || Total(size) > UINT32_MAX }

  /** The list from block i on, once block i is free and merged with the next one. */
  function Widened(bs: seq<Block>, i: nat): (m: seq<Block>)
    requires i < |bs|
    ensures m != []
  {
    MergeFirst([bs[i].(free := true)] + bs[i + 1..])
  }

  predicate Shrinks(bs: seq<Block>, i: nat, size: nat)
    requires i < |bs|
  {
    Total(size) < bs[i].size
  }

  predicate GrowsInPlace(bs: seq<Block>, i: nat, size: nat)
    requires i < |bs|
  {
    !Shrinks(bs, i, size) && Total(size) <= Widened(bs, i)[0].size
  }

  /** Block and next block are too small and the previous block is free: it swallows the block. */
  predicate Absorbed(bs: seq<Block>, i: nat, size: nat)
    requires i < |bs|
  {
    !Shrinks(bs, i, size) && !GrowsInPlace(bs, i, size) && i > 0 && bs[i - 1].free
  }

  /** The list just before krealloc falls back on kmalloc. */
  function Vacated(bs: seq<Block>, i: nat, size: nat): seq<Block>
    requires i < |bs|
  {
    if Absorbed(bs, i, size) then FreeAt(bs, i) else bs[..i] + Used(Widened(bs, i))
  }

  function SplitAt(bs: seq<Block>, k: nat, size: nat): (r: seq<Block>)
    requires k < |bs|
    ensures k < |r|
  {
    bs[..k] + SplitFirst(bs[k..], size)
  }

  /** The heap kmalloc is called on, on the moving path, and what it makes of it. */
  function Before(h: Heap, i: nat, size: nat): Heap
    requires i < |h.blocks|
  {
    h.(blocks := Vacated(h.blocks, i, size))
  }

  function Fetched(h: Heap, i: nat, size: nat): (r: (Heap, int))
    requires i < |h.blocks|
    ensures -1 <= r.1 < |r.0.blocks|
  {
    Malloc(Before(h, i, size), Total(size))
  }

  /** What the header of block j holds. */
  function HeaderOf(bs: seq<Block>, j: nat): Header
    requires j < |bs|
  {
    Header(bs[j].Ptr(), bs[j].size, bs[j].free, if j + 1 < |bs| then bs[j + 1].addr else 0,
           if j > 0 then bs[j - 1].addr else 0)
  }

  /** The block in use again, with what it has gained from its next block. */
  function Stretched(bs: seq<Block>, i: nat): Block
    requires i < |bs|
  {
    Widened(bs, i)[0].(free := false)
  }

  /** kmalloc takes the block that has swallowed the old one. */
  predicate TakesBack(h: Heap, i: nat, size: nat)
    requires i < |h.blocks|
  {
    Absorbed(h.blocks, i, size) && Fetched(h, i, size).1 == i - 1 < |Before(h, i, size).blocks|
  }

  /** ... and splits it: then a header is written into what was the old block or its neighbour. */
  predicate Splits(h: Heap, i: nat, size: nat)
    requires i < |h.blocks|
  {
    && TakesBack(h, i, size) && Before(h, i, size).blocks[i - 1].size >= Total(size) + MIN_BLK_SIZE
    && i < |Fetched(h, i, size).0.blocks|
  }

  /** Where that header starts. */
  function RestAddr(h: Heap, i: nat, size: nat): int
    requires i < |h.blocks|
  {
    if i == 0 then 0 else h.blocks[i - 1].Ptr() + Total(size)
  }

  /** The byte that header leaves at an address, or the byte that was there. */
  function Over(h: Heap, i: nat, size: nat, x: int, was: Byte): Byte
    requires i < |h.blocks|
  {
    if Splits(h, i, size) && FieldAt(RestAddr(h, i, size), x)
    then HeaderByte(HeaderOf(Fetched(h, i, size).0.blocks, i), x - RestAddr(h, i, size))
    else was
  }

  /** The size memcpy is called with: it is read from the old block's header after kmalloc. */
  function StaleSize(h: Heap, i: nat, size: nat): int
    requires i < |h.blocks|
  {
    var (at, n) := (h.blocks[i].addr + SIZE_OFFSET, Stretched(h.blocks, i).size);
    Join32(Over(h, i, size, at, Le(n, 0)), Over(h, i, size, at + 1, Le(n, 1)),
           Over(h, i, size, at + 2, Le(n, 2)), Over(h, i, size, at + 3, Le(n, 3)))
  }

  /** On the moving path: kmalloc finds memory, but memcpy runs over its end or reads past the break. */
  predicate Overruns(h: Heap, i: nat, size: nat)
    requires i < |h.blocks|
  {
    && !TooBig(size) && !Shrinks(h.blocks, i, size) && !GrowsInPlace(h.blocks, i, size)
    && var (g, k) := Fetched(h, i, size);
       k >= 0 && (StaleSize(h, i, size) > g.blocks[k].size || h.blocks[i].Ptr() + StaleSize(h, i, size) > g.brk)
  }

  /** krealloc of block i to a nonzero size. */
  function Realloc(h: Heap, i: nat, size: nat): (Heap, Outcome)
    requires i < |h.blocks|
  {
    var bs := h.blocks;
    if TooBig(size) then (h, Nothing)
    else if Shrinks(bs, i, size) then (h.(blocks := SplitAt(bs, i, Total(size))), At(i))
    else if GrowsInPlace(bs, i, size) then (h.(blocks := SplitAt(Vacated(bs, i, size), i, size)), At(i))
    else
      var (g, k) := Fetched(h, i, size);
      if k < 0 || Overruns(h, i, size) then (h, Undefined)
      else Settle(g, k, bs[i].Ptr(), size)
  }

  /** The end of the moving path: free the old pointer, trim the new block. */
  function Settle(g: Heap, k: nat, ptr: int, size: nat): (Heap, Outcome)
    requires k < |g.blocks|
  {
    var f := Free(g, ptr);
    var j := FindBlock(f.blocks, g.blocks[k].Ptr());
    if j == |f.blocks| || f.blocks[j].addr != g.blocks[k].addr then (f, Undefined)
    else (f.(blocks := SplitAt(f.blocks, j, size)), At(j))
  }

  // ---------- Lemmas ----------

  lemma WidenedTiled(h: Heap, i: nat)
    requires Shape(h) && i < |h.blocks|
    ensures Tiled(h.blocks[..i] + Widened(h.blocks, i), KHEAP_START, h.brk)
  {
    var pre, seg := h.blocks[..i], h.blocks[i..];
    var f := [h.blocks[i].(free := true)] + h.blocks[i + 1..];
    assert h.blocks == pre + seg && f[1..] == seg[1..];
    TiledCut(pre, seg, KHEAP_START, h.brk);
    MergeFirstTiled(f, h.blocks[i].addr, h.brk);
    MergeFirstFacts(f);
    TiledCut(pre, MergeFirst(f), KHEAP_START, h.brk);
  }

  lemma WidenedFacts(h: Heap, i: nat)
    requires Shape(h) && i < |h.blocks|
    ensures var m := Widened(h.blocks, i);
            && m[0].addr == h.blocks[i].addr && m[0].free && h.blocks[i].size <= m[0].size
            && Live(m[1..]) == Live(h.blocks[i + 1..])
            && (Coalesced(h.blocks) ==> Coalesced(m[1..]))
            && (Aligned(h.blocks) ==> Aligned(m))
  {
    hide Tiled;
    var bs := h.blocks;
    var f := [bs[i].(free := true)] + bs[i + 1..];
    WidenedTail(f);
    MergeFirstFacts(f);
    assert f[1..] == bs[i + 1..];
    if Coalesced(bs) { CoalescedAround(bs, i); }
    assert Aligned(bs) ==> AlignedBlock(bs[i]);
    if i + 1 < |bs| { TiledMember(bs, KHEAP_START, h.brk, bs[i + 1]); }
  }

  lemma WidenedTail(f: seq<Block>)
    requires f != [] && f[0].free
    ensures Live(MergeFirst(f)[1..]) == Live(f[1..])
    ensures Coalesced(f[1..]) ==> Coalesced(MergeFirst(f)[1..])
  {
    if |f| > 1 && f[1].free {
      assert f[1..] == [f[1]] + f[2..] && MergeFirst(f)[1..] == f[2..] && f[1..][1..] == f[2..];
      LiveCut([f[1]], f[2..]);
      assert Live([f[1]]) == {};
    }
  }

  lemma SplitAtShape(h: Heap, k: nat, size: nat)
    requires Shape(h) && k < |h.blocks| && 0 < size
    ensures Shape(h.(blocks := SplitAt(h.blocks, k, size)))
  {
    var pre, seg := h.blocks[..k], h.blocks[k..];
    assert h.blocks == pre + seg;
    TiledCut(pre, seg, KHEAP_START, h.brk);
    SplitFirstTiled(seg, size, seg[0].addr, h.brk);
    TiledCut(pre, SplitFirst(seg, size), KHEAP_START, h.brk);
  }

  /** Cutting block k down to size bytes, if that leaves room for another block. */
  lemma SplitAtBlock(bs: seq<Block>, k: nat, size: nat)
    requires k < |bs| && 0 < size
    ensures var b := SplitAt(bs, k, size)[k];
            && b == bs[k].(size := b.size)
            && (if bs[k].size < size + MIN_BLK_SIZE then SplitAt(bs, k, size) == bs else b.size == size)
  {
    assert bs == bs[..k] + bs[k..];
    SplitFirstFacts(bs[k..], size);
  }

  lemma SplitAtLive(h: Heap, k: nat, size: nat)
    requires Shape(h) && k < |h.blocks| && 0 < size && !h.blocks[k].free
    ensures var bs := SplitAt(h.blocks, k, size); Live(bs) == Live(h.blocks) - {h.blocks[k]} + {bs[k]}
  {
    var pre, seg := h.blocks[..k], h.blocks[k..];
    var r := SplitFirst(seg, size);
    assert h.blocks == pre + ([seg[0]] + seg[1..]) && seg[1..] == h.blocks[k + 1..];
    SplitFirstFacts(seg, size);
    assert pre + r == pre + ([r[0]] + r[1..]);
    LiveElsewhere(h, k);
    LiveAround(pre, seg[0], seg[1..]);
    LiveAround(pre, r[0], r[1..]);
  }

  lemma SplitAtCoalesces(pre: seq<Block>, seg: seq<Block>, size: nat)
    requires seg != [] && 0 < size && !seg[0].free && Coalesced(pre + seg)
    ensures Coalesced(pre + SplitFirst(seg, size))
  {
    var r := SplitFirst(seg, size);
    SplitFirstFacts(seg, size);
    CoalescedCut(pre, seg);
    CoalescedCut([seg[0]], seg[1..]);
    assert seg == [seg[0]] + seg[1..] && r == [r[0]] + r[1..];
    CoalescedCut([r[0]], r[1..]);
    CoalescedCut(pre, r);
  }

  // ---------- krealloc, when the previous block does not swallow the block ----------

  lemma VacatedShape(h: Heap, i: nat, size: nat)
    requires Shape(h) && i < |h.blocks| && !h.blocks[i].free && !Absorbed(h.blocks, i, size)
    ensures var v := Vacated(h.blocks, i, size);
            && Shape(h.(blocks := v))
            && v[i] == Stretched(h.blocks, i) && v[i] == h.blocks[i].(size := v[i].size)
            && h.blocks[i].size <= v[i].size
            && (Coalesced(h.blocks) ==> Coalesced(v))
            && (Aligned(h.blocks) ==> Aligned(v))
  {
    var bs, m := h.blocks, Widened(h.blocks, i);
    var pre, u := bs[..i], Used(m);
    WidenedTiled(h, i);
    WidenedFacts(h, i);
    assert u == [u[0]] + m[1..];
    TiledCut(pre, m, KHEAP_START, h.brk);
    TiledCut(pre, u, KHEAP_START, h.brk);
    if Coalesced(bs) {
      CoalescedAround(bs, i);
      CoalescedCut([u[0]], m[1..]);
      CoalescedCut(pre, u);
    }
    assert Aligned(bs) ==> AlignedBlock(m[0]);
  }

  lemma VacatedLive(h: Heap, i: nat, size: nat)
    requires Shape(h) && i < |h.blocks| && !h.blocks[i].free && !Absorbed(h.blocks, i, size)
    ensures Live(Vacated(h.blocks, i, size)) == Live(h.blocks) - {h.blocks[i]} + {Stretched(h.blocks, i)}
  {
    var bs, m := h.blocks, Widened(h.blocks, i);
    var pre, x := bs[..i], Stretched(h.blocks, i);
    WidenedFacts(h, i);
    assert Used(m) == [x] + m[1..] && bs == pre + ([bs[i]] + bs[i + 1..]);
    LiveElsewhere(h, i);
    LiveAround(pre, bs[i], bs[i + 1..]);
    LiveAround(pre, x, m[1..]);
  }

  lemma FindLive(h: Heap, x: Block)
    requires Shape(h) && x in Live(h.blocks)
    ensures var j := FindBlock(h.blocks, x.Ptr()); j < |h.blocks| && h.blocks[j] == x
  {
    var i :| 0 <= i < |h.blocks| && h.blocks[i] == x;
    TiledMember(h.blocks, KHEAP_START, h.brk, x);
    FindInTiling(h, i, x.Ptr());
  }

  lemma FreeOne(g: Heap, b: Block)
    requires Shape(g) && b in Live(g.blocks)
    ensures var f := Free(g, b.Ptr());
            && Shape(f) && (Coalesced(g.blocks) ==> Coalesced(f.blocks))
            && Live(f.blocks) == Live(g.blocks) - (if Refused(g, b.Ptr()) then {} else {b})
  {
    FreeMeaning(g, b.Ptr());
    TiledMember(g.blocks, KHEAP_START, g.brk, b);
    forall c | c in Live(g.blocks) && c.Holds(b.Ptr()) ensures c == b {
      TiledDisjoint(g.blocks, KHEAP_START, g.brk, c, b, b.Ptr());
    }
  }

  lemma Trim(f: Heap, x: Block, size: nat)
    requires Shape(f) && x in Live(f.blocks) && 0 < size <= x.size
    ensures var j := FindBlock(f.blocks, x.Ptr());
            && j < |f.blocks| && f.blocks[j] == x
            && var bs := SplitAt(f.blocks, j, size);
            && Shape(f.(blocks := bs)) && bs[j] == x.(size := bs[j].size) && size <= bs[j].size
            && bs[j].size == (if x.size >= size + MIN_BLK_SIZE then size else x.size)
            && Live(bs) == Live(f.blocks) - {x} + {bs[j]}
            && (Coalesced(f.blocks) ==> Coalesced(bs))
  {
    hide Tiled, Coalesced, SplitFirst;
    FindLive(f, x);
    var j := FindBlock(f.blocks, x.Ptr());
    SplitAtShape(f, j, size);
    SplitAtBlock(f.blocks, j, size);
    SplitAtLive(f, j, size);
    if Coalesced(f.blocks) {
      assert f.blocks == f.blocks[..j] + f.blocks[j..];
      SplitAtCoalesces(f.blocks[..j], f.blocks[j..], size);
    }
  }

  /** The end of the moving path keeps the new block live, ends the old one, and touches no other. */
  lemma SettleMeaning(g: Heap, k: nat, b: Block, size: nat)
    requires Shape(g) && k < |g.blocks| && !g.blocks[k].free && b in Live(g.blocks) && b != g.blocks[k]
    requires 0 < size <= g.blocks[k].size
    ensures var (f, o) := Settle(g, k, b.Ptr(), size);
            && o.At? && o.k < |f.blocks| && Shape(f)
            && var x := f.blocks[o.k];
            && x == g.blocks[k].(size := x.size) && size <= x.size < size + MIN_BLK_SIZE
            && Live(f.blocks) == Live(g.blocks) - (if Refused(g, b.Ptr()) then {} else {b}) - {g.blocks[k]} + {x}
            && (Coalesced(g.blocks) ==> Coalesced(f.blocks))
  {
    hide Free, Refused, SplitAt, FindBlock, Coalesced, Tiled;
    FreeOne(g, b);
    assert g.blocks[k] in Live(g.blocks);
    Trim(Free(g, b.Ptr()), g.blocks[k], size);
  }

  /** A taken block that was there before is taken from the heap as it was. */
  lemma TakenFrom(v: Heap, k: nat, t: nat)
    requires Shape(v) && 0 < t <= UINT32_MAX && RoundUp64(t, ALIGN_SIZE) == t && Malloc(v, t).1 == k < |v.blocks|
    ensures Malloc(v, t).0 == Take(v, k, t) && v.blocks[k].free && t <= v.blocks[k].size
  {
    hide FirstExact, LastOversized, Take, Tiled;
    OpenedFacts(v);
    ChooseFacts(v, t);
  }

  lemma TakePlace(v: Heap, k: nat, t: nat)
    requires k < |v.blocks| && 0 < t
    ensures var g, x := Take(v, k, t), v.blocks[k];
            if x.size >= t + MIN_BLK_SIZE then
              k + 1 < |g.blocks| && g.blocks[k].size == t && g.blocks[k + 1].addr == x.Ptr() + t && g.blocks[k + 1].free
            else g.blocks[k].size == x.size
  {
    var seg := v.blocks[k..];
    SplitFirstFacts(seg, t);
    var u := Used(SplitFirst(seg, t));
    assert Take(v, k, t).blocks == v.blocks[..k] + u;
    if seg[0].size >= t + MIN_BLK_SIZE {
      var rest := Block(seg[0].Ptr() + t, seg[0].size - t - HEADER_SIZE, true);
      MergeFirstFacts([rest] + seg[1..]);
      assert u[1] == MergeFirst([rest] + seg[1..])[0];
    }
  }

  /** The rest that a split of the taken block leaves, as kmalloc links it. */
  lemma TakenBack(h: Heap, i: nat, size: nat)
    requires Shape(h) && i < |h.blocks| && !h.blocks[i].free && 0 < size && !TooBig(size) && TakesBack(h, i, size)
    ensures i > 0
    ensures var (v, g, p) := (Before(h, i, size), Fetched(h, i, size).0, h.blocks[i - 1]);
            && Shape(v) && v.blocks[i - 1] == Block(p.addr, p.size + HEADER_SIZE + Stretched(h.blocks, i).size, true)
            && g == Take(v, i - 1, Total(size)) && Total(size) <= v.blocks[i - 1].size && g.brk == h.brk
            && (v.blocks[i - 1].size >= Total(size) + MIN_BLK_SIZE ==>
                  i < |g.blocks| && g.blocks[i].addr == RestAddr(h, i, size) && g.blocks[i - 1].size == Total(size))
            && (v.blocks[i - 1].size < Total(size) + MIN_BLK_SIZE ==> g.blocks[i - 1].size == v.blocks[i - 1].size)
  {
    hide Tiled, FreeAt, Malloc, Stretched, Take;
    var v, t := Before(h, i, size), Total(size);
    TotalFacts(size);
    FreeShape(h, i);
    Swallowing(h, i);
    RoundUpFacts(t, ALIGN_SIZE);
    AlreadyRound(t, RoundUp64(t, ALIGN_SIZE));
    TakenFrom(v, i - 1, t);
    TakePlace(v, i - 1, t);
    TakeFacts(v, i - 1, t);
  }

  /** The block that swallows block i. */
  lemma Swallowing(h: Heap, i: nat)
    requires Shape(h) && 0 < i < |h.blocks| && h.blocks[i - 1].free
    ensures var r, p := FreeAt(h.blocks, i), h.blocks[i - 1];
            && i - 1 < |r| && r[i - 1] == Block(p.addr, p.size + HEADER_SIZE + Stretched(h.blocks, i).size, true)
            && r[..i - 1] == h.blocks[..i - 1] && h.blocks[i].addr == p.End()
  {
    var bs := h.blocks;
    var m := [bs[i - 1]] + MergeFirst([bs[i].(free := true)] + bs[i + 1..]);
    MergeFirstFacts([bs[i].(free := true)] + bs[i + 1..]);
    WidenedFacts(h, i);
    assert bs == bs[..i - 1] + bs[i - 1..] && bs[i - 1..][1..] == bs[i..];
    TiledCut(bs[..i - 1], bs[i - 1..], KHEAP_START, h.brk);
    assert m[1].free && MergeFirst(m)[0] == bs[i - 1].(size := bs[i - 1].size + m[1].size + HEADER_SIZE);
  }

  /** The new header lies on the size field of the old one. */
  predicate HitsSize(h: Heap, i: nat, size: nat)
    requires i < |h.blocks|
  {
    && Splits(h, i, size)
    && var r, at := RestAddr(h, i, size), h.blocks[i].addr + SIZE_OFFSET;
       FieldAt(r, at) || FieldAt(r, at + 1) || FieldAt(r, at + 2) || FieldAt(r, at + 3)
  }

  /** The old size is read as it was unless the new header overlaps it. */
  lemma StaleIntact(h: Heap, i: nat, size: nat)
    requires Shape(h) && i < |h.blocks| && !h.blocks[i].free && !HitsSize(h, i, size)
    ensures StaleSize(h, i, size) == Stretched(h.blocks, i).size
  {
    hide Le, Stretched, Splits, FieldAt, HeaderByte, HeaderOf, Fetched, Tiled;
    JoinLe(Stretched(h.blocks, i).size);
    StretchedFits(h, i);
  }

  lemma StretchedFits(h: Heap, i: nat)
    requires Shape(h) && i < |h.blocks|
    ensures 0 < Stretched(h.blocks, i).size < HEAP_MAX && Stretched(h.blocks, i).End() <= h.brk
    ensures Stretched(h.blocks, i).addr == h.blocks[i].addr
  {
    WidenedTiled(h, i);
    WidenedFacts(h, i);
    var l := h.blocks[..i] + Widened(h.blocks, i);
    assert l[i] == Widened(h.blocks, i)[0];
    TiledMember(l, KHEAP_START, h.brk, l[i]);
  }

  /** A copy of the old size, stretched, fits into the new block and stays below the break. */
  lemma NoOverrun(h: Heap, i: nat, size: nat)
    requires Shape(h) && i < |h.blocks| && !h.blocks[i].free && 0 < size && !TooBig(size)
    requires !Shrinks(h.blocks, i, size) && !GrowsInPlace(h.blocks, i, size)
    requires StaleSize(h, i, size) == Stretched(h.blocks, i).size
    ensures !Overruns(h, i, size)
  {
    hide StaleSize, Tiled, Widened;
    TotalFacts(size);
    StretchedFits(h, i);
    NotEnough(h.blocks, i, size);
    if Absorbed(h.blocks, i, size) { FreeShape(h, i); } else { VacatedShape(h, i, size); }
    MallocMeaning(Before(h, i, size), Total(size));
    MallocGrows(Before(h, i, size), Total(size));
  }

  lemma MallocGrows(h: Heap, size: nat)
    requires Shape(h)
    ensures Malloc(h, size).0.brk >= h.brk
  {
    hide Tiled, RoundUp, FirstExact, LastOversized, SplitFirst, Extension;
    RoundUpFacts(BIN_SIZE, BIN_SIZE);
    var asked := if size < 1 then 1 else size;
    var total := RoundUp64(asked, ALIGN_SIZE);
    if asked <= UINT32_MAX && total <= UINT32_MAX {
      RoundUpFacts(asked, ALIGN_SIZE);
      RoundUpFacts(total, BIN_SIZE);
    }
  }

  lemma NotEnough(bs: seq<Block>, i: nat, size: nat)
    requires i < |bs| && !Shrinks(bs, i, size) && !GrowsInPlace(bs, i, size)
    ensures Stretched(bs, i).size < Total(size)
  {
  }

  /** Does kfree refuse the old pointer on the moving path? Then the old block stays allocated. */
  predicate Leaks(h: Heap, i: nat, size: nat)
    requires i < |h.blocks|
  {
    && !Shrinks(h.blocks, i, size) && !GrowsInPlace(h.blocks, i, size) && !Absorbed(h.blocks, i, size)
    && Refused(Malloc(h.(blocks := Vacated(h.blocks, i, size)), Total(size)).0, h.blocks[i].Ptr())
  }

  /** The moving path hands memory on only if kmalloc finds some. */
  predicate Stuck(h: Heap, i: nat, size: nat)
    requires i < |h.blocks|
  {
    && !TooBig(size) && !Shrinks(h.blocks, i, size) && !GrowsInPlace(h.blocks, i, size)
    && Malloc(h.(blocks := Vacated(h.blocks, i, size)), Total(size)).1 < 0
  }

  lemma TotalFacts(size: nat)
    requires 0 < size && !TooBig(size)
    ensures size <= Total(size) <= UINT32_MAX && Total(size) % ALIGN_SIZE == 0 && Total(size) < size + ALIGN_SIZE
  {
    RoundUpFacts(size, ALIGN_SIZE);
  }

  /** What krealloc promises of the block list wherever the previous block does not swallow the block. */
  ghost predicate Resized(h: Heap, i: nat, size: nat, g: Heap, k: nat)
    requires i < |h.blocks|
  {
    && k < |g.blocks| && Shape(g)
    && var b, x := h.blocks[i], g.blocks[k];
       && !x.free && size <= x.size && (Aligned(h.blocks) ==> x.size < size + MIN_BLK_SIZE)
       && (Shrinks(h.blocks, i, size) || GrowsInPlace(h.blocks, i, size) ==> x.Ptr() == b.Ptr())
       && Live(g.blocks) == Live(h.blocks) - {b} + (if Leaks(h, i, size) then {Stretched(h.blocks, i)} else {}) + {x}
       && (Coalesced(h.blocks) ==> Coalesced(g.blocks))
  }

  lemma TrimAt(h: Heap, k: nat, size: nat)
    requires Shape(h) && k < |h.blocks| && !h.blocks[k].free && 0 < size <= h.blocks[k].size
    ensures var bs := SplitAt(h.blocks, k, size);
            && Shape(h.(blocks := bs)) && bs[k] == h.blocks[k].(size := bs[k].size) && size <= bs[k].size
            && bs[k].size == (if h.blocks[k].size >= size + MIN_BLK_SIZE then size else h.blocks[k].size)
            && Live(bs) == Live(h.blocks) - {h.blocks[k]} + {bs[k]}
            && (Coalesced(h.blocks) ==> Coalesced(bs))
  {
    hide Tiled, SplitFirst, Coalesced;
    SplitAtShape(h, k, size);
    SplitAtBlock(h.blocks, k, size);
    SplitAtLive(h, k, size);
    if Coalesced(h.blocks) {
      assert h.blocks == h.blocks[..k] + h.blocks[k..];
      SplitAtCoalesces(h.blocks[..k], h.blocks[k..], size);
    }
  }

  lemma OnlyOneThere(h: Heap, b: Block, c: Block)
    requires Shape(h) && b in h.blocks && c in h.blocks && b.addr == c.addr
    ensures b == c
  {
    TiledMember(h.blocks, KHEAP_START, h.brk, b);
    TiledMember(h.blocks, KHEAP_START, h.brk, c);
    TiledDisjoint(h.blocks, KHEAP_START, h.brk, b, c, b.addr);
  }

  lemma ResizedInPlace(h: Heap, i: nat, size: nat)
    requires Shape(h) && i < |h.blocks| && !h.blocks[i].free && 0 < size && !TooBig(size)
    requires Shrinks(h.blocks, i, size) || GrowsInPlace(h.blocks, i, size)
    ensures var (g, o) := Realloc(h, i, size); o == At(i) && Resized(h, i, size, g, i)
  {
    hide Tiled, Live, Coalesced, SplitAt, Widened, Malloc;
    TotalFacts(size);
    if Shrinks(h.blocks, i, size) {
      TrimAt(h, i, Total(size));
      assert Aligned(h.blocks) ==> AlignedBlock(h.blocks[i]);
    } else {
      VacatedShape(h, i, size);
      VacatedLive(h, i, size);
      TrimAt(h.(blocks := Vacated(h.blocks, i, size)), i, size);
      NotElsewhere(h, i, Stretched(h.blocks, i));
    }
  }

  /** No other live block of h is where block i is. */
  lemma NotElsewhere(h: Heap, i: nat, x: Block)
    requires Shape(h) && i < |h.blocks| && x.addr == h.blocks[i].addr
    ensures x !in Live(h.blocks) - {h.blocks[i]}
  {
    if x in Live(h.blocks) { OnlyOneThere(h, x, h.blocks[i]); }
  }

  lemma ResizedByMoving(h: Heap, i: nat, size: nat)
    requires Shape(h) && i < |h.blocks| && !h.blocks[i].free && 0 < size && !TooBig(size)
    requires !Shrinks(h.blocks, i, size) && !GrowsInPlace(h.blocks, i, size) && !Stuck(h, i, size)
    requires Absorbed(h.blocks, i, size) ==> !Overruns(h, i, size) && !FreesItsResult(h, i, size)
    ensures var (g, o) := Realloc(h, i, size); o.At? && Resized(h, i, size, g, o.k)
  {
    hide Tiled, Coalesced, Live, Settle, Malloc, Widened, StaleSize;
    if Absorbed(h.blocks, i, size) {
      ResizedBack(h, i, size);
      return;
    }
    TotalFacts(size);
    var hv := h.(blocks := Vacated(h.blocks, i, size));
    VacatedShape(h, i, size);
    VacatedLive(h, i, size);
    MallocMeaning(hv, Total(size));
    var (g, k) := Malloc(hv, Total(size));
    SettleMeaning(g, k, Stretched(h.blocks, i), size);
    NotElsewhere(h, i, Stretched(h.blocks, i));
    StaleIntact(h, i, size);
    NoOverrun(h, i, size);
  }

  /** The same when the previous block has swallowed the block: the old block has then been freed already. */
  lemma ResizedBack(h: Heap, i: nat, size: nat)
    requires Shape(h) && i < |h.blocks| && !h.blocks[i].free && 0 < size && !TooBig(size)
    requires Absorbed(h.blocks, i, size) && !Stuck(h, i, size) && !Overruns(h, i, size) && !FreesItsResult(h, i, size)
    ensures var (g, o) := Realloc(h, i, size); o.At? && Resized(h, i, size, g, o.k)
  {
    hide Tiled, Coalesced, Malloc, StaleSize, Free, SplitAt, FindBlock, FreeAt;
    TotalFacts(size);
    FreeAtMeaning(h, i);
    if Coalesced(h.blocks) { FreeCoalesces(h.blocks, i); }
    MallocMeaning(Before(h, i, size), Total(size));
    OldPointerIdle(h, i, size);
    var (g, k) := Fetched(h, i, size);
    Trim(Free(g, h.blocks[i].Ptr()), g.blocks[k], size);
  }

  /** kfree of the old pointer then ends no life. */
  lemma OldPointerIdle(h: Heap, i: nat, size: nat)
    requires Shape(h) && i < |h.blocks| && !h.blocks[i].free && Shape(Before(h, i, size))
    requires Absorbed(h.blocks, i, size) && !FreesItsResult(h, i, size)
    requires Live(Before(h, i, size).blocks) == Live(h.blocks) - {h.blocks[i]}
    requires var (g, k) := Fetched(h, i, size);
             k >= 0 && Shape(g) && g.blocks[k] in Live(g.blocks)
               && Live(g.blocks) == Live(Before(h, i, size).blocks) + {g.blocks[k]}
    ensures var (g, f) := (Fetched(h, i, size).0, Free(Fetched(h, i, size).0, h.blocks[i].Ptr()));
            Shape(f) && Live(f.blocks) == Live(g.blocks) && (Coalesced(g.blocks) ==> Coalesced(f.blocks))
  {
    hide Tiled, Coalesced, Malloc, Free, FreeAt, Refused;
    var (g, k) := Fetched(h, i, size);
    var p := h.blocks[i].Ptr();
    FreeMeaning(g, p);
    TiledMember(h.blocks, KHEAP_START, h.brk, h.blocks[i]);
    if p != 0 && !Refused(g, p) {
      forall c | c in Live(g.blocks) ensures !c.Holds(p) {
        if c.Holds(p) && c in Live(h.blocks) { TiledDisjoint(h.blocks, KHEAP_START, h.brk, c, h.blocks[i], p); }
      }
    }
  }

  // ---------- Where krealloc goes wrong ----------

  /** kfree of the old pointer would release the block just handed out. */
  predicate FreesItsResult(h: Heap, i: nat, size: nat)
    requires i < |h.blocks|
  {
    Absorbed(h.blocks, i, size) &&
    var (g, k) := Malloc(h.(blocks := Vacated(h.blocks, i, size)), Total(size));
    k >= 0 && g.blocks[k].Holds(h.blocks[i].Ptr()) && !Refused(g, h.blocks[i].Ptr())
  }

  ghost predicate ReturnsLive(h: Heap, i: nat, size: nat)
    requires i < |h.blocks|
  {
    var (g, o) := Realloc(h, i, size);
    o.At? && o.k < |g.blocks| && !g.blocks[o.k].free && size <= g.blocks[o.k].size
  }

  lemma SettleAfterAbsorbing(g: Heap, k: nat, p: int, size: nat)
    requires Shape(g) && k < |g.blocks| && !g.blocks[k].free && 0 < size <= g.blocks[k].size && p != 0
    ensures var (f, o) := Settle(g, k, p, size);
            (o.At? && o.k < |f.blocks| && !f.blocks[o.k].free && size <= f.blocks[o.k].size)
            <==> !(g.blocks[k].Holds(p) && !Refused(g, p))
  {
    hide Refused, FindBlock, SplitAt, Tiled, Coalesced, Free;
    var f, x := Free(g, p), g.blocks[k];
    FreeMeaning(g, p);
    if x in Live(f.blocks) {
      Trim(f, x, size);
    } else {
      GoneIsFree(g, f, x);
      var j := FindBlock(f.blocks, x.Ptr());
      if j < |f.blocks| { SplitAtBlock(f.blocks, j, size); }
    }
    assert x in Live(g.blocks);
  }

  /** Where a live block has gone, the block found in its place is free. */
  lemma GoneIsFree(g: Heap, f: Heap, x: Block)
    requires Shape(g) && x in Live(g.blocks) && x !in Live(f.blocks) && Live(f.blocks) <= Live(g.blocks)
    ensures var j := FindBlock(f.blocks, x.Ptr()); j < |f.blocks| ==> f.blocks[j].free
  {
    var j := FindBlock(f.blocks, x.Ptr());
    TiledMember(g.blocks, KHEAP_START, g.brk, x);
    if j < |f.blocks| && !f.blocks[j].free {
      assert f.blocks[j] in Live(f.blocks);
      TiledDisjoint(g.blocks, KHEAP_START, g.brk, f.blocks[j], x, x.Ptr());
    }
  }

  /** The header krealloc goes on with is still in the list, even when its block has just been freed again. */
  lemma SettlesSomewhere(h: Heap, i: nat, size: nat)
    requires Shape(h) && Coalesced(h.blocks) && i < |h.blocks| && !h.blocks[i].free && 0 < size && !TooBig(size)
    requires Absorbed(h.blocks, i, size) && !Stuck(h, i, size) && !Overruns(h, i, size)
    ensures Realloc(h, i, size).1.At?
  {
    hide StaleSize, Tiled, Coalesced, Free, Overruns, SplitAt;
    SettledBlock(h, i, size);
  }

  /** The block that the last split works on starts where the new block does, and is as large as asked for. */
  lemma SettledBlock(h: Heap, i: nat, size: nat)
    requires Shape(h) && Coalesced(h.blocks) && i < |h.blocks| && !h.blocks[i].free && 0 < size && !TooBig(size)
    requires !Shrinks(h.blocks, i, size) && !GrowsInPlace(h.blocks, i, size) && !Stuck(h, i, size)
    ensures var (g, k) := Fetched(h, i, size);
            k >= 0 && var f := Free(g, h.blocks[i].Ptr());
            var j := FindBlock(f.blocks, g.blocks[k].Ptr());
            Shape(f) && j < |f.blocks| && f.blocks[j].addr == g.blocks[k].addr
              && size <= g.blocks[k].size <= f.blocks[j].size
  {
    hide Tiled, Coalesced, Malloc, Refused, Widened, Free, Vacated, Absorbed;
    var p := h.blocks[i].Ptr();
    TotalFacts(size);
    TiledMember(h.blocks, KHEAP_START, h.brk, h.blocks[i]);
    BeforeInOrder(h, i, size);
    MallocMeaning(Before(h, i, size), Total(size));
    MallocNeighbour(Before(h, i, size), Total(size));
    var (g, k) := Fetched(h, i, size);
    var f, x := Free(g, p), g.blocks[k];
    assert x in Live(g.blocks);
    FreeMeaning(g, p);
    if x in Live(f.blocks) {
      FindLive(f, x);
    } else {
      FreedInPlace(g, k, p);
    }
  }

  /** What the moving path leaves. */
  lemma MoveOutcome(h: Heap, i: nat, size: nat)
    requires Shape(h) && Coalesced(h.blocks) && i < |h.blocks| && !h.blocks[i].free && 0 < size && !TooBig(size)
    requires !Shrinks(h.blocks, i, size) && !GrowsInPlace(h.blocks, i, size) && !Stuck(h, i, size)
             && !Overruns(h, i, size)
    ensures var (g, k) := Fetched(h, i, size);
            k >= 0 && var f := Free(g, h.blocks[i].Ptr());
            var j := FindBlock(f.blocks, g.blocks[k].Ptr());
            j < |f.blocks| && Realloc(h, i, size) == (f.(blocks := SplitAt(f.blocks, j, size)), At(j))
  {
    hide Tiled, Coalesced, Malloc, Free, StaleSize, SplitAt, Shrinks, GrowsInPlace, Overruns;
    SettledBlock(h, i, size);
  }

  lemma BeforeInOrder(h: Heap, i: nat, size: nat)
    requires Shape(h) && Coalesced(h.blocks) && i < |h.blocks| && !h.blocks[i].free
    ensures Shape(Before(h, i, size)) && Coalesced(Before(h, i, size).blocks)
            && h.blocks[i].addr < Before(h, i, size).brk
  {
    TiledMember(h.blocks, KHEAP_START, h.brk, h.blocks[i]);
    if Absorbed(h.blocks, i, size) {
      FreeShape(h, i);
      FreeCoalesces(h.blocks, i);
    } else {
      VacatedShape(h, i, size);
    }
  }

  lemma FreedInPlace(g: Heap, k: nat, p: int)
    requires Shape(g) && k < |g.blocks| && g.blocks[k].Holds(p) && p != 0 && !Refused(g, p)
    requires k > 0 ==> !g.blocks[k - 1].free
    ensures var f, j := Free(g, p), FindBlock(Free(g, p).blocks, g.blocks[k].Ptr());
            && j < |f.blocks| && f.blocks[j] == Widened(g.blocks, k)[0]
            && f.blocks[j].addr == g.blocks[k].addr && g.blocks[k].size <= f.blocks[j].size
  {
    hide Tiled, FindBlock, FreeAt, MergeFirst, Live, Aligned, Coalesced;
    var pre, seg := g.blocks[..k], g.blocks[k..];
    assert g.blocks == pre + seg && seg[1..] == g.blocks[k + 1..];
    FindInTiling(g, k, p);
    FreeAtPieces(pre, seg);
    FreeShape(g, k);
    var freed := Widened(g.blocks, k);
    WidenedFacts(g, k);
    MergeNothing(pre, freed);
    var f := Free(g, p);
    assert f.blocks[k] == freed[0];
    TiledMember(f.blocks, KHEAP_START, f.brk, f.blocks[k]);
    FindInTiling(f, k, g.blocks[k].Ptr());
  }

  /** Exactly when krealloc hands back a live block of the size asked for. */
  lemma ReturnsLiveIff(h: Heap, i: nat, size: nat)
    requires Shape(h) && i < |h.blocks| && !h.blocks[i].free && 0 < size && !TooBig(size)
    ensures ReturnsLive(h, i, size) <==> !Stuck(h, i, size) && !Overruns(h, i, size) && !FreesItsResult(h, i, size)
  {
    hide Tiled, Coalesced, Settle, Malloc, Widened, SplitAt, FreeAt, Refused;
    if Shrinks(h.blocks, i, size) || GrowsInPlace(h.blocks, i, size) {
      ResizedInPlace(h, i, size);
    } else if !Stuck(h, i, size) {
      TotalFacts(size);
      TiledMember(h.blocks, KHEAP_START, h.brk, h.blocks[i]);
      var hv := h.(blocks := Vacated(h.blocks, i, size));
      if Absorbed(h.blocks, i, size) {
        FreeShape(h, i);
        MallocMeaning(hv, Total(size));
        var (g, k) := Malloc(hv, Total(size));
        SettleAfterAbsorbing(g, k, h.blocks[i].Ptr(), size);
      } else {
        ResizedByMoving(h, i, size);
      }
    }
  }

  /** A live block of 64 bytes behind a free one, grown to 160 bytes: krealloc frees what it returns. */
  lemma FreesItsResultOnce() returns (h: Heap, size: nat)
    ensures Shape(h) && Coalesced(h.blocks) && Aligned(h.blocks) && size % ALIGN_SIZE == 0
    ensures |h.blocks| > 1 && !h.blocks[1].free && FreesItsResult(h, 1, size) && !ReturnsLive(h, 1, size)
  {
    hide FreesItsResult, ReturnsLive, Tiled, Coalesced, Stuck;
    var a, b, c := Block(KHEAP_START, 64, true), Block(KHEAP_START + 96, 64, false),
                   Block(KHEAP_START + 192, 16, false);
    h, size := Heap([a, b, c], KHEAP_START + 240, KHEAP_START + HEAP_MAX), 160;
    ThreeBlocks(a, b, c, h.brk);
    FreesIt(h, a, b, c);
    RoundUpIsMask(160, ALIGN_SIZE);
    ReturnsLiveIff(h, 1, 160);
  }

  /**
   * 64 bytes in use and 208 free behind them, grown to 100: the block is
   * cut at 100, and the rest starts 12 bytes early.
   */
  lemma UnalignedOnce() returns (h: Heap, size: nat)
    ensures Shape(h) && Coalesced(h.blocks) && Aligned(h.blocks) && |h.blocks| == 2 && !h.blocks[0].free
            && !TooBig(size)
    ensures !Stuck(h, 0, size) && !Overruns(h, 0, size) && !Aligned(Realloc(h, 0, size).0.blocks)
  {
    hide Stuck, Overruns, Realloc;
    var a, b := Block(KHEAP_START, 64, false), Block(KHEAP_START + 96, 208, true);
    h, size := Heap([a, b], KHEAP_START + 336, KHEAP_START + HEAP_MAX), 100;
    assert h.blocks[1..] == [b];
    TwoBlocks(a, b, h.brk);
    hide Tiled, Coalesced, Aligned;
    RoundUpIsMask(100, ALIGN_SIZE);
    assert [a.(free := true)] + [b] == [a.(free := true), b];
    assert Widened(h.blocks, 0) == [Block(KHEAP_START, 304, true)];
    NotMoved(h, 0, size);
    ReallocAlignedIff(h, 0, size);
  }

  lemma TwoBlocks(a: Block, b: Block, brk: int)
    requires b.addr == a.End() && brk == b.End() && a.size > 0 && b.size > 0 && !a.free && AlignedBlock(a)
             && AlignedBlock(b)
    ensures Tiled([a, b], a.addr, brk) && Coalesced([a, b]) && Aligned([a, b])
  {
    var rest := [b];
    assert [a, b][1..] == rest && rest[1..] == [];
    assert Tiled(rest, b.addr, brk);
    assert Coalesced(rest);
  }

  lemma NotMoved(h: Heap, i: nat, size: nat)
    requires i < |h.blocks| && GrowsInPlace(h.blocks, i, size)
    ensures !Stuck(h, i, size) && !Overruns(h, i, size)
  {
  }

  lemma ThreeBlocks(a: Block, b: Block, c: Block, brk: int)
    requires b.addr == a.End() && c.addr == b.End() && brk == c.End()
    requires a.size > 0 && b.size > 0 && c.size > 0 && !b.free
    ensures Tiled([a, b, c], a.addr, brk) && Coalesced([a, b, c])
  {
    var bs := [a, b, c];
    assert bs[1..] == [b, c] && [b, c][1..] == [c] && [c][1..] == [];
    assert Tiled([c], c.addr, brk) && Tiled([b, c], b.addr, brk);
    assert Coalesced([c]) && Coalesced([b, c]);
  }

  lemma FreesIt(h: Heap, a: Block, b: Block, c: Block)
    requires h.blocks == [a, b, c] && a.free && !b.free && !c.free && a.size == 64 && b.size == 64
    requires 0 < a.addr && b.addr == a.End() && c.addr == b.End() && c.size == 16 && h.brk == c.End()
    ensures FreesItsResult(h, 1, 160)
  {
    hide Malloc, Absorbed, Vacated;
    var d := Block(a.addr, 160, true);
    Swallowed(a, b, c, d);
    RoundUpIsMask(160, ALIGN_SIZE);
    ExactFit(h.(blocks := [d, c]), d, c);
    assert Malloc(h.(blocks := Vacated(h.blocks, 1, 160)), 160) == Malloc(h.(blocks := [d, c]), 160);
  }

  lemma Swallowed(a: Block, b: Block, c: Block, d: Block)
    requires a.free && !b.free && !c.free && a.size == 64 && b.size == 64 && d == Block(a.addr, 160, true)
    ensures Absorbed([a, b, c], 1, 160) && Vacated([a, b, c], 1, 160) == [d, c]
  {
    var bs, f := [a, b, c], [b.(free := true), c];
    RoundUpIsMask(160, ALIGN_SIZE);
    assert [b.(free := true)] + bs[2..] == f && Widened(bs, 1) == f;
    var m := [a] + f;
    assert m[2..] == [c] && bs[..0] == [];
    assert MergeFirst(m) == [d, c];
    assert FreeAt(bs, 1) == [] + MergeFirst(m);
  }

  lemma ExactFit(v: Heap, d: Block, c: Block)
    requires v.blocks == [d, c] && d.free && d.size == 160
    ensures Malloc(v, 160) == (v.(blocks := [d.(free := false), c]), 0)
  {
    RoundUpIsMask(160, ALIGN_SIZE);
    FirstOfTwo(d, c, 160);
    assert v.blocks[0..] == [d, c] && v.blocks[..0] == [];
    assert SplitFirst([d, c], 160) == [d, c];
    assert Used([d, c]) == [d.(free := false), c];
    assert Opened(v) == v && Choose(v, 160) == (v, 0);
    assert Take(v, 0, 160).blocks == [d.(free := false), c];
    assert RoundUp64(160, ALIGN_SIZE) == 160;
  }

  lemma FirstOfTwo(d: Block, c: Block, size: int)
    requires Exact(d, size)
    ensures FirstExact([d, c], size) == 0
  {
    assert [d, c][..1] == [d] && [d][..0] == [];
  }

  // ---------- Alignment ----------

  lemma SplitAtAligned(bs: seq<Block>, k: nat, size: nat)
    requires k < |bs| && 0 < size && Aligned(bs)
    ensures Aligned(SplitAt(bs, k, size)) <==> bs[k].size < size + MIN_BLK_SIZE || size % ALIGN_SIZE == 0
  {
    var pre, seg := bs[..k], bs[k..];
    SplitFirstFacts(seg, size);
    SplitAtBlock(bs, k, size);
    var r := SplitAt(bs, k, size);
    if bs[k].size >= size + MIN_BLK_SIZE {
      if size % ALIGN_SIZE == 0 {
        assert Aligned(pre) && Aligned(seg);
      } else {
        assert r[k] in r && !AlignedBlock(r[k]);
      }
    }
  }

  /**
   * krealloc splits at the unrounded size when it grows a block in place; the
   * moved block is too small for that to matter, ...
   */
  predicate SplitsUnaligned(bs: seq<Block>, i: nat, size: nat)
    requires i < |bs|
  {
    GrowsInPlace(bs, i, size) && size % ALIGN_SIZE != 0 && Stretched(bs, i).size >= size + MIN_BLK_SIZE
  }

  /** ... unless it has been freed again, and with it what lies behind it. */
  predicate SplitsFreed(h: Heap, i: nat, size: nat)
    requires i < |h.blocks|
  {
    && FreesItsResult(h, i, size) && size % ALIGN_SIZE != 0
    && var (g, k) := Fetched(h, i, size);
       k >= 0 && var f := Free(g, h.blocks[i].Ptr()).blocks;
       var j := FindBlock(f, g.blocks[k].Ptr());
       j < |f| && f[j].addr == g.blocks[k].addr && f[j].size >= size + MIN_BLK_SIZE
  }

  /** Exactly when all headers stay on multiples of 16. */
  lemma ReallocAlignedIff(h: Heap, i: nat, size: nat)
    requires Shape(h) && Aligned(h.blocks) && i < |h.blocks| && !h.blocks[i].free && 0 < size && !TooBig(size)
    requires !Stuck(h, i, size) && !Overruns(h, i, size)
    ensures Aligned(Realloc(h, i, size).0.blocks) <==> !SplitsUnaligned(h.blocks, i, size) && !SplitsFreed(h, i, size)
  {
    hide Tiled, FreesItsResult, Overruns, Stretched, SplitAt, Malloc, Free, StaleSize;
    TotalFacts(size);
    if Shrinks(h.blocks, i, size) {
      SplitAtAligned(h.blocks, i, Total(size));
      NotFreed(h, i, size);
    } else if GrowsInPlace(h.blocks, i, size) {
      VacatedShape(h, i, size);
      SplitAtAligned(Vacated(h.blocks, i, size), i, size);
      NotFreed(h, i, size);
    } else {
      MovedAligned(h, i, size);
    }
  }

  lemma NotFreed(h: Heap, i: nat, size: nat)
    requires i < |h.blocks| && (Shrinks(h.blocks, i, size) || GrowsInPlace(h.blocks, i, size))
    ensures !FreesItsResult(h, i, size)
  {
  }

  lemma MovedAligned(h: Heap, i: nat, size: nat)
    requires Shape(h) && Aligned(h.blocks) && i < |h.blocks| && !h.blocks[i].free && 0 < size && !TooBig(size)
    requires Fetched(h, i, size).1 >= 0 && !Shrinks(h.blocks, i, size) && !GrowsInPlace(h.blocks, i, size)
    ensures var (g, k) := Fetched(h, i, size);
            Aligned(Settle(g, k, h.blocks[i].Ptr(), size).0.blocks) <==> !SplitsFreed(h, i, size)
  {
    hide Tiled, Malloc, Refused, FindBlock, SplitAt, Free, FreesItsResult, Vacated, Stretched;
    var p := h.blocks[i].Ptr();
    TotalFacts(size);
    BeforeAligned(h, i, size);
    MallocMeaning(Before(h, i, size), Total(size));
    MallocSlack(Before(h, i, size), Total(size));
    var (g, k) := Fetched(h, i, size);
    FreeMeaning(g, p);
    var f, x := Free(g, p), g.blocks[k];
    assert x in Live(g.blocks);
    var j := FindBlock(f.blocks, x.Ptr());
    if j < |f.blocks| { SplitAtAligned(f.blocks, j, size); }
    if x in Live(f.blocks) {
      FindLive(f, x);
    } else {
      FreedResult(h, i, size);
    }
  }

  lemma BeforeAligned(h: Heap, i: nat, size: nat)
    requires Shape(h) && Aligned(h.blocks) && i < |h.blocks| && !h.blocks[i].free
    ensures Shape(Before(h, i, size)) && Aligned(Before(h, i, size).blocks)
  {
    if Absorbed(h.blocks, i, size) {
      FreeShape(h, i);
      FreeAtAligned(h.blocks, i);
    } else {
      VacatedShape(h, i, size);
    }
  }

  /** Only a call that frees its result ends the life of the new block. */
  lemma FreedResult(h: Heap, i: nat, size: nat)
    requires Shape(h) && i < |h.blocks| && !h.blocks[i].free && 0 < size && !TooBig(size) && Shape(Before(h, i, size))
    requires var (g, k) := Fetched(h, i, size);
             k >= 0 && Shape(g) && g.blocks[k] in Live(g.blocks)
               && g.blocks[k] !in Live(Free(g, h.blocks[i].Ptr()).blocks)
    requires !Shrinks(h.blocks, i, size) && !GrowsInPlace(h.blocks, i, size)
    ensures FreesItsResult(h, i, size)
  {
    hide Tiled, Malloc, Refused, Free, Vacated;
    FreeMeaning(Fetched(h, i, size).0, h.blocks[i].Ptr());
    if !Absorbed(h.blocks, i, size) { MovedStays(h, i, size); }
  }

  lemma MovedStays(h: Heap, i: nat, size: nat)
    requires Shape(h) && i < |h.blocks| && !h.blocks[i].free && 0 < size && !TooBig(size)
             && !Absorbed(h.blocks, i, size)
    requires Fetched(h, i, size).1 >= 0
    ensures var (g, k) := Fetched(h, i, size); g.blocks[k] in Live(Free(g, h.blocks[i].Ptr()).blocks)
  {
    hide Tiled, Malloc, Refused, Free, Vacated;
    TotalFacts(size);
    VacatedShape(h, i, size);
    VacatedLive(h, i, size);
    MallocMeaning(Before(h, i, size), Total(size));
    assert Stretched(h.blocks, i) in Live(Before(h, i, size).blocks);
    FreeOne(Fetched(h, i, size).0, Stretched(h.blocks, i));
  }
}
