// What allocation, release and whole runs of both mean for the heap's users.
module HeapTheorems {
  import opened Blocks
  import opened HeapSpec

  // ---------- Allocation ----------

  lemma SlackOf(got: Block, asked: int)
    requires AlignedBlock(got) && asked % ALIGN_SIZE == 0 && asked <= got.size < asked + MIN_BLK_SIZE
    ensures got.size - asked in {0, 16, 32} && got.Ptr() % ALIGN_SIZE == 0
  {
  }

  /** The slack of an allocation is 0, 16 or 32 bytes, and its pointer is 16-aligned. */
  lemma AllocSlack(h: Heap, size: nat)
    requires Shape(h) && Aligned(h.blocks) && 0 < size <= UINT32_MAX && size % ALIGN_SIZE == 0
    ensures var (g, k) := Alloc(h, size);
            k >= 0 ==> g.blocks[k].size - size in {0, 16, 32} && g.blocks[k].Ptr() % ALIGN_SIZE == 0
  {
    AllocShape(h, size);
    AllocLive(h, size);
    var r := Alloc(h, size);
    if r.1 >= 0 {
      SlackOf(r.0.blocks[r.1], size);
    }
  }

  lemma MallocSlack(h: Heap, size: nat)
    requires Shape(h) && Aligned(h.blocks) && 0 < size <= UINT32_MAX && size % ALIGN_SIZE == 0
    ensures var (g, k) := Malloc(h, size); k >= 0 ==> g.blocks[k].size - size in {0, 16, 32}
  {
    hide Alloc;
    RoundUpFacts(size, ALIGN_SIZE);
    AlreadyRound(size, RoundUp64(size, ALIGN_SIZE));
    AllocSlack(h, size);
  }

  lemma AlreadyRound(n: nat, r: nat)
    requires n % ALIGN_SIZE == 0 && r % ALIGN_SIZE == 0 && n <= r < n + ALIGN_SIZE
    ensures r == n
  {
  }

  /** kmalloc comes back empty-handed exactly when nothing free is big enough and the break is stuck. */
  lemma AllocFailsIff(h: Heap, size: nat)
    requires Shape(h) && 0 < size <= UINT32_MAX
    ensures var o := Opened(h);
            Alloc(h, size).1 < 0 <==>
            (forall b | b in o.blocks && b.free :: b.size < size)
            && !CanGrow(o, if o.blocks == [] then BIN_SIZE else size)
  {
    var o := Opened(h);
    if o.blocks != [] {
      ChooseFails(o, size);
    }
  }

  /** When an existing heap grows: a fitting block in the middle does not prevent it. */
  lemma AllocGrowsIff(h: Heap, size: nat)
    requires Shape(h) && h.blocks != [] && 0 < size <= UINT32_MAX
    ensures Alloc(h, size).0.brk != h.brk <==>
            && CanGrow(h, size)
            && (forall b | b in h.blocks :: !Exact(b, size))
            && !Oversized(h.blocks[|h.blocks| - 1], size)
    ensures Alloc(h, size).0.brk != h.brk ==>
              Alloc(h, size).1 == |h.blocks| && Alloc(h, size).0.brk == h.brk + RoundUp(size, BIN_SIZE) + HEADER_SIZE
  {
    RoundUpFacts(size, BIN_SIZE);
    var e := FirstExact(h.blocks, size);
    assert e >= 0 ==> h.blocks[e] in h.blocks;
    var (g, k) := Choose(h, size);
    assert k >= 0 ==> Take(g, k, size).brk == g.brk;
  }

  /** kmalloc hands out one more live block, at least as large as asked for, and keeps the heap in shape. */
  lemma MallocMeaning(h: Heap, size: nat)
    requires Shape(h)
    ensures Shape(Malloc(h, size).0)
    ensures Coalesced(h.blocks) ==> Coalesced(Malloc(h, size).0.blocks)
    ensures Aligned(h.blocks) ==> Aligned(Malloc(h, size).0.blocks)
    ensures var (g, k) := Malloc(h, size);
            if k < 0 then Live(g.blocks) == Live(h.blocks)
            else var b := g.blocks[k];
                 !b.free && size <= b.size && b !in Live(h.blocks) && Live(g.blocks) == Live(h.blocks) + {b}
  {
    var asked := if size < 1 then 1 else size;
    var total := RoundUp64(asked, ALIGN_SIZE);
    if asked <= UINT32_MAX && total <= UINT32_MAX {
      RoundUpFacts(asked, ALIGN_SIZE);
      AllocShape(h, total);
      AllocLive(h, total);
    }
  }

  /** Non-interference: kmalloc's block shares no byte, header included, with any block live before. */
  lemma MallocApart(h: Heap, size: nat)
    requires Shape(h) && Malloc(h, size).1 >= 0
    ensures var (g, k) := Malloc(h, size);
            forall c, a | c in Live(h.blocks) && c.Holds(a) :: !g.blocks[k].Holds(a)
  {
    MallocMeaning(h, size);
    var (g, k) := Malloc(h, size);
    var x := g.blocks[k];
    forall c, a | c in Live(h.blocks) && c.Holds(a) ensures !x.Holds(a) {
      assert c in Live(g.blocks);
      if x.Holds(a) { TiledDisjoint(g.blocks, KHEAP_START, g.brk, c, x, a); }
    }
  }

  /** A free block just below the one handed out lies where the old heap ended. */
  lemma AllocNeighbour(o: Heap, size: nat)
    requires Shape(o) && Coalesced(o.blocks) && 0 < size <= UINT32_MAX
    ensures var (g, k) := Choose(o, size);
            k > 0 ==> var t := Take(g, k, size).blocks;
                      t[k].addr == g.blocks[k].addr && t[k - 1] == g.blocks[k - 1]
                        && (t[k - 1].free ==> o.brk <= t[k].addr)
  {
    hide Tiled, Coalesced, LastOversized, FirstExact;
    ChooseFacts(o, size);
    var (g, k) := Choose(o, size);
    if k > 0 {
      TakeFacts(g, k, size);
      if g == o {
        NotBothFree(o.blocks, k - 1);
      } else {
        GrowFacts(o, size);
      }
    }
  }

  lemma MallocNeighbour(h: Heap, size: nat)
    requires Shape(h) && Coalesced(h.blocks) && 0 < size
    ensures var (g, k) := Malloc(h, size); k > 0 && g.blocks[k - 1].free ==> h.brk <= g.blocks[k].addr
  {
    hide Tiled, Coalesced, Choose, Take;
    var total := RoundUp64(size, ALIGN_SIZE);
    if size <= UINT32_MAX && total <= UINT32_MAX {
      RoundUpFacts(size, ALIGN_SIZE);
      OpenedFacts(h);
      AllocNeighbour(Opened(h), total);
    }
  }

  /** A heap whose first block is free and large, but which grows all the same. */
  lemma GrowsDespiteAFit() returns (h: Heap, size: nat)
    ensures Shape(h) && Coalesced(h.blocks) && Aligned(h.blocks) && size % ALIGN_SIZE == 0
    ensures h.blocks != [] && Oversized(h.blocks[0], size) && Alloc(h, size).0.brk > h.brk
  {
    var a, b := Block(KHEAP_START, 1024, true), Block(KHEAP_START + 1056, 16, false);
    h, size := Heap([a, b], KHEAP_START + 1104, KHEAP_START + HEAP_MAX), 64;
    assert h.blocks[1..] == [b] && [b][1..] == [];
    assert Tiled([b], b.addr, h.brk);
    assert RoundUp(64, BIN_SIZE) == BIN_SIZE;
    AllocGrowsIff(h, 64);
  }

  // ---------- Release ----------

  /** Freeing block i ends exactly that block's life. */
  lemma FreeAtMeaning(h: Heap, i: nat)
    requires Shape(h) && i < |h.blocks|
    ensures Shape(h.(blocks := FreeAt(h.blocks, i))) && FreeAt(h.blocks, i) != []
    ensures Live(FreeAt(h.blocks, i)) == Live(h.blocks) - {h.blocks[i]}
  {
    var bs := h.blocks;
    var f := bs[i].(free := true);
    var pre, post := bs[..i], bs[i + 1..];
    assert bs == pre + ([bs[i]] + post);
    FreeShape(h, i);
    LiveElsewhere(h, i);
    LiveCut(pre, [bs[i]] + post);
    LiveCut([bs[i]], post);
    LiveCut([f], post);
    assert Live([f]) == {} && Live([bs[i]]) <= {bs[i]};
    FreeAtLive(bs, i);
  }

  lemma FreeAtLive(bs: seq<Block>, i: nat)
    requires i < |bs|
    ensures Live(FreeAt(bs, i)) == Live(bs[..i]) + Live([bs[i].(free := true)] + bs[i + 1..])
    ensures FreeAt(bs, i) != []
  {
    var f := [bs[i].(free := true)] + bs[i + 1..];
    MergeFirstFacts(f);
    if i > 0 {
      var m := [bs[i - 1]] + MergeFirst(f);
      assert bs[..i] == bs[..i - 1] + [bs[i - 1]];
      LiveCut(bs[..i - 1], [bs[i - 1]]);
      LiveCut([bs[i - 1]], MergeFirst(f));
      MergeFirstFacts(m);
      LiveCut(bs[..i - 1], MergeFirst(m));
    }
  }

  lemma FreeAtAligned(bs: seq<Block>, i: nat)
    requires i < |bs| && Aligned(bs)
    ensures Aligned(FreeAt(bs, i))
  {
    var f := [bs[i].(free := true)] + bs[i + 1..];
    assert AlignedBlock(bs[i]);
    MergeFirstFacts(f);
    if i > 0 {
      assert AlignedBlock(bs[i - 1]);
      MergeFirstFacts([bs[i - 1]] + MergeFirst(f));
    }
  }

  /** No other index of a tiling holds the same block. */
  lemma LiveElsewhere(h: Heap, i: nat)
    requires Shape(h) && i < |h.blocks|
    ensures h.blocks[i] !in h.blocks[..i] && h.blocks[i] !in h.blocks[i + 1..]
  {
    var bs := h.blocks;
    assert bs == bs[..i] + bs[i..];
    TiledCut(bs[..i], bs[i..], KHEAP_START, h.brk);
    if bs[i] in bs[..i] { TiledMember(bs[..i], KHEAP_START, bs[i].addr, bs[i]); }
    assert bs[i..][1..] == bs[i + 1..];
    if bs[i] in bs[i + 1..] { TiledMember(bs[i + 1..], bs[i].End(), h.brk, bs[i]); }
  }

  lemma FreeShape(h: Heap, i: nat)
    requires Shape(h) && i < |h.blocks|
    ensures Shape(h.(blocks := FreeAt(h.blocks, i)))
  {
    var bs := h.blocks;
    assert bs == bs[..i] + bs[i..];
    TiledCut(bs[..i], bs[i..], KHEAP_START, h.brk);
    var f := [bs[i].(free := true)] + bs[i + 1..];
    assert f[1..] == bs[i..][1..];
    MergeFirstTiled(f, bs[i].addr, h.brk);
    if i > 0 {
      var m := MergeFirst(f);
      assert bs[..i] == bs[..i - 1] + [bs[i - 1]];
      TiledCut(bs[..i - 1], [bs[i - 1]], KHEAP_START, bs[i].addr);
      TiledCut([bs[i - 1]], m, bs[i - 1].addr, h.brk);
      MergeFirstTiled([bs[i - 1]] + m, bs[i - 1].addr, h.brk);
      MergeFirstFacts([bs[i - 1]] + m);
      TiledCut(bs[..i - 1], MergeFirst([bs[i - 1]] + m), KHEAP_START, h.brk);
    }
  }

  lemma MergeForwardCoalesces(b: Block, post: seq<Block>)
    requires Coalesced(post)
    ensures Coalesced(MergeFirst([b] + post))
  {
    assert ([b] + post)[1..] == post;
    MergeFirstFacts([b] + post);
  }

  lemma MergeBackCoalesces(pre: seq<Block>, x: Block, m: seq<Block>)
    requires Coalesced(pre + [x]) && Coalesced(m)
    ensures Coalesced(pre + MergeFirst([x] + m))
  {
    CoalescedCut(pre, [x]);
    MergeForwardCoalesces(x, m);
    MergeFirstFacts([x] + m);
    CoalescedCut(pre, MergeFirst([x] + m));
  }

  /** The last block of pre merged with what follows it. */
  function MergedBack(pre: seq<Block>, rest: seq<Block>): seq<Block> {
    if pre == [] then rest else pre[..|pre| - 1] + MergeFirst([pre[|pre| - 1]] + rest)
  }

  /** FreeAt, on the list taken apart in front of the block. */
  lemma FreeAtPieces(pre: seq<Block>, seg: seq<Block>)
    requires seg != []
    ensures FreeAt(pre + seg, |pre|) == MergedBack(pre, MergeFirst([seg[0].(free := true)] + seg[1..]))
  {
    var bs := pre + seg;
    assert bs[|pre|] == seg[0] && bs[|pre| + 1..] == seg[1..];
    if pre != [] {
      assert bs[..|pre| - 1] == pre[..|pre| - 1];
    }
  }

  lemma FreeCoalescesPieces(pre: seq<Block>, seg: seq<Block>)
    requires seg != [] && Coalesced(pre + seg)
    ensures Coalesced(FreeAt(pre + seg, |pre|))
  {
    hide MergeFirst, FreeAt;
    CoalescedCut(pre, seg);
    FreeAtPieces(pre, seg);
    MergeForwardCoalesces(seg[0].(free := true), seg[1..]);
    if pre != [] {
      var front, x := pre[..|pre| - 1], pre[|pre| - 1];
      assert pre == front + [x];
      MergeBackCoalesces(front, x, MergeFirst([seg[0].(free := true)] + seg[1..]));
    }
  }

  /** Freeing coalesces with both neighbours, so no two free blocks ever touch. */
  lemma FreeCoalesces(bs: seq<Block>, i: nat)
    requires i < |bs| && Coalesced(bs)
    ensures Coalesced(FreeAt(bs, i))
  {
    assert bs == bs[..i] + bs[i..];
    FreeCoalescesPieces(bs[..i], bs[i..]);
  }

  lemma NotBothFree(bs: seq<Block>, i: nat)
    requires i + 1 < |bs| && Coalesced(bs)
    ensures !(bs[i].free && bs[i + 1].free)
  {
    assert bs == bs[..i + 1] + bs[i + 1..];
    CoalescedCut(bs[..i + 1], bs[i + 1..]);
  }

  /** Freeing what is already free changes nothing: a second kfree is harmless. */
  lemma FreeOfFree(bs: seq<Block>, i: nat)
    requires i < |bs| && Coalesced(bs) && bs[i].free
    ensures FreeAt(bs, i) == bs
  {
    var pre, seg := bs[..i], bs[i..];
    assert bs == pre + seg && seg == [bs[i].(free := true)] + seg[1..];
    if i + 1 < |bs| { NotBothFree(bs, i); }
    if i > 0 { NotBothFree(bs, i - 1); }
    hide MergeFirst, Coalesced, MergedBack, FreeAt;
    FreeAtPieces(pre, seg);
    NotMerged(seg);
    MergeNothing(pre, seg);
  }

  lemma FindInTiling(h: Heap, i: nat, p: int)
    requires Shape(h) && i < |h.blocks| && h.blocks[i].Holds(p)
    ensures FindBlock(h.blocks, p) == i
  {
    var j := FindBlock(h.blocks, p);
    if j < i {
      TiledDisjoint(h.blocks, KHEAP_START, h.brk, h.blocks[i], h.blocks[j], p);
      assert h.blocks[j] in h.blocks[..i];
      LiveElsewhere(h, i);
    }
  }

  /** A block's own pointer is refused exactly when it is the last block and its payload is under 48 bytes. */
  lemma RefusedIff(h: Heap, i: nat)
    requires Shape(h) && Aligned(h.blocks) && i < |h.blocks|
    ensures Refused(h, h.blocks[i].Ptr()) <==> i == |h.blocks| - 1 && h.blocks[i].size < MIN_BLK_SIZE
  {
    var bs := h.blocks;
    TiledMember(bs, KHEAP_START, h.brk, bs[i]);
    FindInTiling(h, i, bs[i].Ptr());
    TiledBounds(bs, KHEAP_START, h.brk);
    assert bs[0].addr == KHEAP_START && (i == |bs| - 1 ==> bs[i].End() == h.brk);
    hide FindBlock;
    if i < |bs| - 1 {
      assert bs == bs[..i + 1] + bs[i + 1..];
      TiledCut(bs[..i + 1], bs[i + 1..], KHEAP_START, h.brk);
      TiledBounds(bs[..i + 1], KHEAP_START, bs[i + 1].addr);
      assert bs[..i + 1][i] == bs[i];
      TiledMember(bs, KHEAP_START, h.brk, bs[i + 1]);
      RoomBehind(bs[i], bs[i + 1], h.brk);
    }
  }

  lemma RoomBehind(b: Block, c: Block, brk: int)
    requires AlignedBlock(b) && AlignedBlock(c) && 0 < b.size && 0 < c.size && b.End() <= c.addr && c.End() <= brk
    ensures b.Ptr() + MIN_BLK_SIZE <= brk
  {
  }

  /** With nothing live the whole heap is one free block. */
  lemma NothingLive(h: Heap)
    requires Shape(h) && Coalesced(h.blocks) && h.blocks != [] && Live(h.blocks) == {}
    ensures h.blocks == [Block(KHEAP_START, h.brk - KHEAP_START - HEADER_SIZE, true)]
  {
    var b := h.blocks[0];
    forall i | 0 <= i < |h.blocks| ensures h.blocks[i].free {
      assert h.blocks[i] in h.blocks;
      assert forall b | b in h.blocks :: b.free || b in Live(h.blocks);
    }
    assert h.blocks[1..] == [] && Tiled(h.blocks[1..], b.End(), h.brk);
    assert h.blocks == [b] && b == Block(KHEAP_START, h.brk - KHEAP_START - HEADER_SIZE, true);
  }

  function FreeAll(h: Heap, ps: seq<int>): Heap
    decreases ps
  {
    if ps == [] then h else FreeAll(Free(h, ps[0]), ps[1..])
  }

  predicate NoneRefused(h: Heap, ps: seq<int>)
    decreases ps
  {
    ps != [] ==> !Refused(h, ps[0]) && NoneRefused(Free(h, ps[0]), ps[1..])
  }

  lemma FreeMeaning(h: Heap, p: int)
    requires Shape(h)
    ensures Shape(Free(h, p))
    ensures Coalesced(h.blocks) ==> Coalesced(Free(h, p).blocks)
    ensures Aligned(h.blocks) ==> Aligned(Free(h, p).blocks)
    ensures h.blocks != [] ==> Free(h, p).blocks != []
    ensures Free(h, p).brk == h.brk && Free(h, p).limit == h.limit
    ensures p == 0 || Refused(h, p) ==> Free(h, p) == h
    ensures p != 0 && !Refused(h, p) ==> Live(Free(h, p).blocks) == (set b | b in Live(h.blocks) && !b.Holds(p))
  {
    if p != 0 && !Refused(h, p) {
      var i := FindBlock(h.blocks, p);
      FreeAtMeaning(h, i);
      if Aligned(h.blocks) { FreeAtAligned(h.blocks, i); }
      if Coalesced(h.blocks) { FreeCoalesces(h.blocks, i); }
      forall b | b in h.blocks && b.Holds(p) ensures b == h.blocks[i] {
        TiledDisjoint(h.blocks, KHEAP_START, h.brk, b, h.blocks[i], p);
      }
    }
  }

  /** Freeing every live block, in any order and with none refused, gives back one block. */
  lemma {:induction false} FreeAllLeavesOne(h: Heap, ps: seq<int>)
    requires Shape(h) && Coalesced(h.blocks) && h.blocks != []
    requires NoneRefused(h, ps) && 0 !in ps
    requires forall b | b in Live(h.blocks) :: exists p :: p in ps && b.Holds(p)
    ensures FreeAll(h, ps).blocks == [Block(KHEAP_START, h.brk - KHEAP_START - HEADER_SIZE, true)]
    decreases ps
  {
    if ps == [] {
      NothingLive(h);
    } else {
      var g := Free(h, ps[0]);
      FreeMeaning(h, ps[0]);
      forall b | b in Live(g.blocks) ensures exists p :: p in ps[1..] && b.Holds(p) {
        var p :| p in ps && b.Holds(p);
        assert p in ps[1..];
      }
      FreeAllLeavesOne(g, ps[1..]);
    }
  }

  /** A second kfree of the same pointer changes nothing. */
  lemma FreeTwice(h: Heap, p: int)
    requires Shape(h) && Coalesced(h.blocks)
    ensures Free(Free(h, p), p) == Free(h, p)
  {
    var g := Free(h, p);
    FreeMeaning(h, p);
    if p != 0 && !Refused(g, p) {
      var j := FindBlock(g.blocks, p);
      assert forall b | b in g.blocks :: b.free || b in Live(g.blocks);
      FreeOfFree(g.blocks, j);
    }
  }

  lemma SplitThenMerge(seg: seq<Block>, size: nat)
    requires seg != [] && seg[0].free && 0 < size && (|seg| > 1 ==> !seg[1].free)
    ensures var u := Used(SplitFirst(seg, size)); MergeFirst([u[0].(free := true)] + u[1..]) == seg
  {
    var u := Used(SplitFirst(seg, size));
    var f := [u[0].(free := true)] + u[1..];
    if seg[0].size >= size + MIN_BLK_SIZE {
      var rest := Block(seg[0].Ptr() + size, seg[0].size - size - HEADER_SIZE, true);
      assert MergeFirst([rest] + seg[1..]) == [rest] + seg[1..];
      assert f[..2] == [seg[0].(size := size), rest] && f[2..] == seg[1..];
      assert MergeFirst(f) == [seg[0]] + seg[1..];
    } else {
      assert f == seg;
    }
  }

  /** Freeing a block right after carving it out of a free block gives that free block back. */
  lemma TakeThenFree(pre: seq<Block>, seg: seq<Block>, size: nat)
    requires seg != [] && seg[0].free && 0 < size && Coalesced(pre + seg)
    ensures FreeAt(pre + Used(SplitFirst(seg, size)), |pre|) == pre + seg
  {
    CoalescedCut(pre, seg);
    SplitThenMerge(seg, size);
    FreeAtPieces(pre, Used(SplitFirst(seg, size)));
    MergeNothing(pre, seg);
  }

  lemma NotMerged(bs: seq<Block>)
    requires |bs| >= 2 ==> !(bs[0].free && bs[1].free)
    ensures MergeFirst(bs) == bs
  {
  }

  lemma MergeNothing(pre: seq<Block>, seg: seq<Block>)
    requires pre != [] && seg != [] ==> !(pre[|pre| - 1].free && seg[0].free)
    ensures MergedBack(pre, seg) == pre + seg
  {
    hide MergeFirst;
    if pre != [] {
      var m := [pre[|pre| - 1]] + seg;
      NotMerged(m);
      assert pre[..|pre| - 1] + m == pre + seg;
    }
  }

  /** kmalloc, then an accepted kfree of what it returned, without growing the heap: nothing has changed. */
  lemma AllocThenFree(h: Heap, size: nat)
    requires Shape(h) && Coalesced(h.blocks) && 0 < size <= UINT32_MAX
    requires var (g, k) := Alloc(h, size); k >= 0 && g.brk == h.brk && !Refused(g, g.blocks[k].Ptr())
    ensures var (g, k) := Alloc(h, size); Free(g, g.blocks[k].Ptr()) == h
  {
    NoGrowth(h, size);
    ChooseFacts(h, size);
    TakenBlock(h, Choose(h, size).1, size);
  }

  lemma TakenBlock(h: Heap, k: nat, size: nat)
    requires Shape(h) && Coalesced(h.blocks) && k < |h.blocks| && h.blocks[k].free && 0 < size <= h.blocks[k].size
    ensures var g := Take(h, k, size);
            FindBlock(g.blocks, g.blocks[k].Ptr()) == k && FreeAt(g.blocks, k) == h.blocks && g.blocks[k].Ptr() != 0
  {
    hide Tiled, Coalesced, SplitFirst, MergeFirst, Live, FindBlock, FreeAt;
    var g := Take(h, k, size);
    TakeFacts(h, k, size);
    TiledMember(g.blocks, KHEAP_START, g.brk, g.blocks[k]);
    FindInTiling(g, k, g.blocks[k].Ptr());
    var pre, seg := h.blocks[..k], h.blocks[k..];
    assert h.blocks == pre + seg;
    TakeThenFree(pre, seg, size);
  }

  lemma NoGrowth(h: Heap, size: nat)
    requires Shape(h) && 0 < size <= UINT32_MAX && Alloc(h, size).0.brk == h.brk
    ensures Opened(h) == h && Choose(h, size).0 == h
  {
    hide Tiled, RoundUp, FirstExact, LastOversized, SplitFirst;
    OpenedFacts(h);
    RoundUpFacts(size, BIN_SIZE);
    RoundUpFacts(BIN_SIZE, BIN_SIZE);
    var o := Opened(h);
    var (g, k) := Choose(o, size);
    assert h.brk <= o.brk <= g.brk && Alloc(h, size).0.brk == g.brk;
  }

  /** Freeing block i, with everything before it free and something behind it: what the sweep relies on. */
  lemma SweepStep(h: Heap, i: nat)
    requires Shape(h) && Coalesced(h.blocks) && Aligned(h.blocks) && i + 1 < |h.blocks| && !h.blocks[i].free
    requires i > 0 ==> h.blocks[0].free
    ensures var p := h.blocks[i].Ptr();
            var g := Free(h, p);
            && p > 0 && !Refused(h, p) && Shape(g) && Coalesced(g.blocks) && Aligned(g.blocks)
            && g.blocks != [] && g.blocks[0].free
            && h.blocks[i] in Live(h.blocks) && Live(g.blocks) == Live(h.blocks) - {h.blocks[i]}
  {
    hide Coalesced, Tiled;
    var bs, p := h.blocks, h.blocks[i].Ptr();
    RefusedIff(h, i);
    TiledMember(bs, KHEAP_START, h.brk, bs[i]);
    FindInTiling(h, i, p);
    FreeAtMeaning(h, i);
    FreeAtAligned(bs, i);
    FreeCoalesces(bs, i);
    var f := [bs[i].(free := true)] + bs[i + 1..];
    MergeFirstFacts(f);
    if i > 0 { MergeFirstFacts([bs[i - 1]] + MergeFirst(f)); }
  }
}
