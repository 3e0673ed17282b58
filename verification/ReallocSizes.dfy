// When krealloc keeps its promise, in block sizes and addresses that can be read off the list before the call.
module ReallocSizes {
  import opened Blocks
  import opened HeapSpec
  import opened HeapTheorems
  import opened ReallocSpec
  import opened ReallocContents

  predicate NextFree(bs: seq<Block>, i: nat)
    requires i < |bs|
  {
    i + 1 < |bs| && bs[i + 1].free
  }

  predicate PrevFree(bs: seq<Block>, i: nat)
    requires i < |bs|
  {
    i > 0 && bs[i - 1].free
  }

  /** The size of block i with a free next block. */
  function Forward(bs: seq<Block>, i: nat): int
    requires i < |bs|
  {
    bs[i].size + if NextFree(bs, i) then HEADER_SIZE + bs[i + 1].size else 0
  }

  /** ... and with the previous block. */
  function Joined(bs: seq<Block>, i: nat): int
    requires 0 < i < |bs|
  {
    bs[i - 1].size + HEADER_SIZE + Forward(bs, i)
  }

  /** The blocks behind those. */
  function Behind(bs: seq<Block>, i: nat): seq<Block>
    requires i < |bs|
  {
    if NextFree(bs, i) then bs[i + 2..] else bs[i + 1..]
  }

  predicate Fits(b: Block, t: int) { b.free && b.size >= t }

  predicate NoneFits(bs: seq<Block>, t: int) { forall b | b in bs :: !Fits(b, t) }

  /**
   * Block i is larger than its next and previous blocks allow, and kmalloc
   * then settles on the very place of these three.
   */
  predicate Retaken(h: Heap, i: nat, t: nat)
    requires i < |h.blocks|
  {
    var bs := h.blocks;
    && Forward(bs, i) < t && PrevFree(bs, i) && (forall b | b in bs[..i - 1] :: !Exact(b, t))
    && (Joined(bs, i) == t ||
        (Joined(bs, i) > t && NoneFits(Behind(bs, i), t) && (Behind(bs, i) == [] || !CanGrow(h, t))))
  }

  /** Nothing free is large enough, and the break cannot move. */
  predicate NoRoom(h: Heap, i: nat, t: nat)
    requires i < |h.blocks|
  {
    var bs := h.blocks;
    && Forward(bs, i) < t && !CanGrow(h, t) && NoneFits(Behind(bs, i), t)
    && if PrevFree(bs, i) then Joined(bs, i) < t && NoneFits(bs[..i - 1], t) else NoneFits(bs[..i], t)
  }

  // ---------- The list kmalloc is called on ----------

  lemma WidenedParts(bs: seq<Block>, i: nat)
    requires i < |bs|
    ensures Widened(bs, i) == [Block(bs[i].addr, Forward(bs, i), true)] + Behind(bs, i)
    ensures Stretched(bs, i) == Block(bs[i].addr, Forward(bs, i), false)
  {
    var f := [bs[i].(free := true)] + bs[i + 1..];
    if NextFree(bs, i) { assert f[1] == bs[i + 1] && f[2..] == bs[i + 2..]; }
  }

  lemma AbsorbedParts(bs: seq<Block>, i: nat)
    requires 0 < i < |bs| && bs[i - 1].free
    ensures FreeAt(bs, i) == bs[..i - 1] + [Block(bs[i - 1].addr, Joined(bs, i), true)] + Behind(bs, i)
  {
    hide FreeAt, Widened, Behind, Forward, MergeFirst;
    FreeAtMerges(bs, i);
    WidenedParts(bs, i);
    var w := Widened(bs, i);
    MergeTwo(bs[i - 1], w[0], Behind(bs, i));
    assert [bs[i - 1]] + w == [bs[i - 1]] + [w[0]] + Behind(bs, i);
  }

  lemma FreeAtMerges(bs: seq<Block>, i: nat)
    requires 0 < i < |bs|
    ensures FreeAt(bs, i) == bs[..i - 1] + MergeFirst([bs[i - 1]] + Widened(bs, i))
  {
    hide MergeFirst;
  }

  lemma MergeTwo(a: Block, b: Block, rest: seq<Block>)
    requires a.free && b.free
    ensures MergeFirst([a] + [b] + rest) == [a.(size := a.size + b.size + HEADER_SIZE)] + rest
  {
    assert ([a] + [b] + rest)[2..] == rest;
  }

  lemma MovesInSizes(bs: seq<Block>, i: nat, size: nat)
    requires i < |bs| && (NextFree(bs, i) ==> bs[i + 1].size >= 0)
    ensures !Shrinks(bs, i, size) && !GrowsInPlace(bs, i, size) <==> Forward(bs, i) < Total(size)
    ensures Absorbed(bs, i, size) <==> Forward(bs, i) < Total(size) && PrevFree(bs, i)
    ensures SplitsUnaligned(bs, i, size) <==>
            bs[i].size <= Total(size) <= Forward(bs, i) && size % ALIGN_SIZE != 0
              && Forward(bs, i) >= size + MIN_BLK_SIZE
  {
    WidenedParts(bs, i);
  }

  // ---------- What kmalloc's search settles on ----------

  lemma {:induction false} FirstIsFirst(bs: seq<Block>, size: int)
    ensures var k := FirstExact(bs, size); forall j | 0 <= j < k :: !Exact(bs[j], size)
  {
    if bs != [] {
      var front := bs[..|bs| - 1];
      FirstIsFirst(front, size);
      var k := FirstExact(front, size);
      forall j | 0 <= j < FirstExact(bs, size) ensures !Exact(bs[j], size) {
        assert bs[j] == front[j];
        if k < 0 { assert front[j] in front; }
      }
    }
  }

  lemma {:induction false} LastIsLast(bs: seq<Block>, size: int)
    ensures var k := LastOversized(bs, size); forall j | k < j < |bs| && 0 <= j :: !Oversized(bs[j], size)
  {
    if bs != [] && !Oversized(bs[|bs| - 1], size) {
      var front := bs[..|bs| - 1];
      LastIsLast(front, size);
      forall j | LastOversized(bs, size) < j < |bs| && 0 <= j ensures !Oversized(bs[j], size) {
        if j < |front| { assert bs[j] == front[j]; }
      }
    }
  }

  lemma FirstHere(bs: seq<Block>, pre: seq<Block>, y: Block, post: seq<Block>, t: nat)
    requires bs == pre + [y] + post && y.free
    ensures var e := FirstExact(bs, t);
            && (e == |pre| <==> y.size == t && forall b | b in pre :: !Exact(b, t))
            && (e < 0 <==> y.size != t && (forall b | b in pre :: !Exact(b, t)) && forall b | b in post :: !Exact(b, t))
  {
    var e := FirstExact(bs, t);
    FirstIsFirst(bs, t);
    assert bs[|pre|] == y && y in bs;
    if b :| b in pre && Exact(b, t) {
      assert b in bs;
      var j :| 0 <= j < |pre| && pre[j] == b;
      assert bs[j] == b;
    } else if b :| b in post && Exact(b, t) {
      assert b in bs;
    }
  }

  lemma LastHere(bs: seq<Block>, pre: seq<Block>, y: Block, post: seq<Block>, t: nat)
    requires bs == pre + [y] + post && y.free
    ensures LastOversized(bs, t) == |pre| <==> y.size > t && forall b | b in post :: !Oversized(b, t)
  {
    var l, n := LastOversized(bs, t), |pre|;
    LastIsLast(bs, t);
    assert bs[n] == y && y in bs;
    if b :| b in post && Oversized(b, t) {
      var j :| 0 <= j < |post| && post[j] == b;
      assert bs[n + 1 + j] == b;
    }
  }

  /** The search settles on one free block of the list exactly if ... */
  lemma ChosenIff(v: Heap, pre: seq<Block>, y: Block, post: seq<Block>, t: nat)
    requires v.blocks == pre + [y] + post && y.free
    ensures Choose(v, t).1 == |pre| <==>
            && (forall b | b in pre :: !Exact(b, t))
            && (y.size == t || (y.size > t && NoneFits(post, t) && (post == [] || !CanGrow(v, t))))
  {
    hide FirstExact, LastOversized, CanGrow, Exact, Oversized;
    var bs, n := v.blocks, |pre|;
    FirstHere(bs, pre, y, post, t);
    LastHere(bs, pre, y, post, t);
    NoneFitsIff(post, t);
    OversizedLast(bs, pre, y, post, t);
  }

  lemma NoneFitsIff(bs: seq<Block>, t: nat)
    ensures NoneFits(bs, t) <==> (forall b | b in bs :: !Exact(b, t)) && forall b | b in bs :: !Oversized(b, t)
  {
    if !NoneFits(bs, t) {
      var b :| b in bs && Fits(b, t);
      assert Exact(b, t) || Oversized(b, t);
    } else {
      forall b | b in bs ensures !Exact(b, t) && !Oversized(b, t) { assert !Fits(b, t); }
    }
  }

  lemma OversizedLast(bs: seq<Block>, pre: seq<Block>, y: Block, post: seq<Block>, t: nat)
    requires bs == pre + [y] + post && y.free
    ensures post == [] ==> (Oversized(bs[|bs| - 1], t) <==> y.size > t)
    ensures post != [] ==> bs[|bs| - 1] in post
  {
    if post != [] { assert bs[|bs| - 1] == post[|post| - 1]; }
  }

  lemma ChosenNone(v: Heap, t: nat)
    requires v.blocks != []
    ensures Choose(v, t).1 < 0 <==> NoneFits(v.blocks, t) && !CanGrow(v, t)
  {
    hide FirstExact, LastOversized;
    NoneFitsIff(v.blocks, t);
  }

  /** On a heap with blocks kmalloc of a rounded size is the search and the split. */
  lemma MallocIsChoose(v: Heap, t: nat)
    requires v.blocks != [] && 0 < t <= UINT32_MAX && t % ALIGN_SIZE == 0
    ensures Malloc(v, t).1 == Choose(v, t).1
  {
    hide Choose, Take;
    RoundUpFacts(t, ALIGN_SIZE);
    AlreadyRound(t, RoundUp64(t, ALIGN_SIZE));
  }

  lemma FetchedIsChoose(h: Heap, i: nat, size: nat)
    requires i < |h.blocks| && 0 < size && !TooBig(size) && Before(h, i, size).blocks != []
    ensures Fetched(h, i, size).1 == Choose(Before(h, i, size), Total(size)).1
  {
    hide Malloc, Choose, Vacated;
    TotalFacts(size);
    MallocIsChoose(Before(h, i, size), Total(size));
  }

  /** When kmalloc takes the block that has swallowed the old one, read off the list. */
  lemma TakesBackIff(h: Heap, i: nat, size: nat)
    requires i < |h.blocks| && 0 < size && !TooBig(size) && Sized(h.blocks, i)
    ensures TakesBack(h, i, size) <==> Retaken(h, i, Total(size))
  {
    hide Malloc, Choose, CanGrow, NoneFits, Exact, Forward, Joined, Behind, FreeAt, Fetched, Widened;
    MovesInSizes(h.blocks, i, size);
    if Absorbed(h.blocks, i, size) {
      var bs, v := h.blocks, Before(h, i, size);
      AbsorbedParts(bs, i);
      FetchedIsChoose(h, i, size);
      var y := Block(bs[i - 1].addr, Joined(bs, i), true);
      assert v.blocks == bs[..i - 1] + [y] + Behind(bs, i) && |bs[..i - 1]| == i - 1;
      ChosenIff(v, bs[..i - 1], y, Behind(bs, i), Total(size));
      assert CanGrow(v, Total(size)) == CanGrow(h, Total(size)) by { SameBreak(h, v, Total(size)); }
    }
  }

  predicate Sized(bs: seq<Block>, i: nat)
    requires i < |bs|
  {
    NextFree(bs, i) ==> bs[i + 1].size >= 0
  }

  /** When kmalloc finds nothing. */
  lemma StuckIff(h: Heap, i: nat, size: nat)
    requires i < |h.blocks| && 0 < size && !TooBig(size) && Sized(h.blocks, i)
    ensures Stuck(h, i, size) <==> NoRoom(h, i, Total(size))
  {
    hide Malloc, Choose, CanGrow, NoneFits, Forward, Joined, Behind, FreeAt, Widened;
    MovesInSizes(h.blocks, i, size);
    if Forward(h.blocks, i) < Total(size) {
      var bs, v, t := h.blocks, Before(h, i, size), Total(size);
      SameBreak(h, v, t);
      if Absorbed(bs, i, size) {
        AbsorbedParts(bs, i);
        NoneFitsParts(v.blocks, bs[..i - 1], Block(bs[i - 1].addr, Joined(bs, i), true), Behind(bs, i), t);
      } else {
        UsedParts(bs, i);
        assert v.blocks == bs[..i] + [Stretched(bs, i)] + Behind(bs, i);
        NoneFitsParts(v.blocks, bs[..i], Stretched(bs, i), Behind(bs, i), t);
        assert !Fits(Stretched(bs, i), t);
      }
      assert NoRoom(h, i, t) <==> NoneFits(v.blocks, t) && !CanGrow(h, t);
      FetchedIsChoose(h, i, size);
      ChosenNone(v, t);
    }
  }

  lemma SameBreak(h: Heap, v: Heap, t: nat)
    requires v == h.(blocks := v.blocks)
    ensures CanGrow(v, t) == CanGrow(h, t)
  {
  }

  lemma UsedParts(bs: seq<Block>, i: nat)
    requires i < |bs|
    ensures bs[..i] + Used(Widened(bs, i)) == bs[..i] + [Stretched(bs, i)] + Behind(bs, i)
  {
    WidenedParts(bs, i);
  }

  lemma NoneFitsParts(bs: seq<Block>, pre: seq<Block>, y: Block, post: seq<Block>, t: int)
    requires bs == pre + [y] + post
    ensures NoneFits(bs, t) <==> NoneFits(pre, t) && !Fits(y, t) && NoneFits(post, t)
  {
    assert y in bs && (forall b | b in pre :: b in bs) && forall b | b in post :: b in bs;
  }

  lemma InOrderSized(h: Heap, i: nat)
    requires Shape(h) && i < |h.blocks|
    ensures Sized(h.blocks, i) && h.blocks[i].size > 0 && Forward(h.blocks, i) == Stretched(h.blocks, i).size
  {
    WidenedParts(h.blocks, i);
    TiledMember(h.blocks, KHEAP_START, h.brk, h.blocks[i]);
    if NextFree(h.blocks, i) { TiledMember(h.blocks, KHEAP_START, h.brk, h.blocks[i + 1]); }
  }

  // ---------- The conditions ----------

  /** Where the break would have to be for the block and a free next one to be the last. */
  predicate AtEnd(h: Heap, i: nat)
    requires i < |h.blocks|
  {
    h.blocks[i].Ptr() + Forward(h.blocks, i) == h.brk
  }

  /** The retaken block is left in peace: it is not freed again, and the contents are still there to be copied. */
  predicate Spared(h: Heap, i: nat, size: nat)
    requires 0 < i < |h.blocks|
  {
    var (s, gap, low) := (Forward(h.blocks, i), Gap(h, i, size), Low(h, i));
    if s < gap + ALIGN_SIZE then AtEnd(h, i) && s < MIN_BLK_SIZE
    else gap <= -32 || gap == 0
         || (gap == -16 && Wanted(h, i, size) <= low <= Total(size) && h.blocks[i].Ptr() + low <= h.brk)
  }

  /** Exactly when krealloc keeps its promise: a live block of the new size, with the contents. */
  lemma DeliversInSizes(h: Heap, i: nat, size: nat)
    requires Shape(h) && Coalesced(h.blocks) && Aligned(h.blocks) && i < |h.blocks| && !h.blocks[i].free
    requires 0 < size && !TooBig(size)
    ensures Delivers(h, i, size) <==> !NoRoom(h, i, Total(size)) && (Retaken(h, i, Total(size)) ==> Spared(h, i, size))
  {
    hide Tiled, Coalesced, Aligned, Stuck, TakesBack, Overruns, FreesItsResult, CopiesAll, HitsContents, Delivers;
    hide Absorbed;
    hide NoRoom, Stretched, StaleSize, Forward;
    InOrderSized(h, i);
    TakesBackIff(h, i, size);
    StuckIff(h, i, size);
    DeliversIff(h, i, size);
    if !Absorbed(h.blocks, i, size) {
      NeverMixed(h, i, size);
    } else if !Stuck(h, i, size) {
      DeliversWhenFound(h, i, size);
      StretchedFits(h, i);
    }
  }

  /** Where the previous block does not swallow the block, nothing goes wrong but for want of memory. */
  lemma NeverMixed(h: Heap, i: nat, size: nat)
    requires Shape(h) && i < |h.blocks| && !h.blocks[i].free && 0 < size && !TooBig(size)
             && !Absorbed(h.blocks, i, size)
    ensures !Overruns(h, i, size) && !FreesItsResult(h, i, size) && !TakesBack(h, i, size)
    ensures CopiesAll(h, i, size) && !HitsContents(h, i, size)
  {
    hide Stretched, StaleSize, Tiled;
    IntactCopies(h, i, size);
    StaleIntact(h, i, size);
    NoSplitNoHit(h, i, size);
    if !Shrinks(h.blocks, i, size) && !GrowsInPlace(h.blocks, i, size) { NoOverrun(h, i, size); }
  }

  /** Exactly when the copy runs over the end of the new block or of the heap. */
  lemma OverrunsInSizes(h: Heap, i: nat, size: nat)
    requires Shape(h) && Coalesced(h.blocks) && Aligned(h.blocks) && i < |h.blocks| && !h.blocks[i].free
    requires 0 < size && !TooBig(size)
    ensures Overruns(h, i, size) <==>
            && Retaken(h, i, Total(size)) && Gap(h, i, size) == -ALIGN_SIZE
            && (Low(h, i) > Total(size) || h.blocks[i].Ptr() + Low(h, i) > h.brk)
  {
    hide Tiled, Coalesced, Aligned, TakesBack, Overruns, Absorbed, Retaken, Stuck;
    InOrderSized(h, i);
    TakesBackIff(h, i, size);
    if TakesBack(h, i, size) { BackIsAbsorbed(h, i, size); }
    if Absorbed(h.blocks, i, size) {
      if Stuck(h, i, size) { StuckStops(h, i, size); } else { OverrunsWhenTaken(h, i, size); }
    } else {
      NeverMixed(h, i, size);
    }
    if Retaken(h, i, Total(size)) { RetakenBehind(h, i, Total(size)); }
  }

  lemma RetakenBehind(h: Heap, i: nat, t: nat)
    requires i < |h.blocks| && Retaken(h, i, t)
    ensures i > 0
  {
  }

  lemma StuckStops(h: Heap, i: nat, size: nat)
    requires i < |h.blocks| && Stuck(h, i, size)
    ensures !Overruns(h, i, size) && !FreesItsResult(h, i, size) && !TakesBack(h, i, size)
  {
    hide Malloc, StaleSize;
  }

  /** Exactly when krealloc frees the block that it returns. */
  lemma FreesItsResultInSizes(h: Heap, i: nat, size: nat)
    requires Shape(h) && Aligned(h.blocks) && i < |h.blocks| && !h.blocks[i].free && 0 < size && !TooBig(size)
    ensures FreesItsResult(h, i, size) <==>
            && Retaken(h, i, Total(size))
            && var (s, gap) := (Forward(h.blocks, i), Gap(h, i, size));
               if s >= gap + ALIGN_SIZE then gap > 32 else !(AtEnd(h, i) && s < MIN_BLK_SIZE)
  {
    hide Tiled, Aligned, TakesBack, FreesItsResult, Absorbed, Retaken, Splits, Forward, Stretched;
    InOrderSized(h, i);
    TakesBackIff(h, i, size);
    if TakesBack(h, i, size) {
      FreesInSizes(h, i, size);
      SplitIff(h, i, size);
      StretchedFits(h, i);
    } else if Absorbed(h.blocks, i, size) {
      Elsewhere(h, i, size);
    } else {
      NeverMixed(h, i, size);
    }
    if Retaken(h, i, Total(size)) { RetakenBehind(h, i, Total(size)); }
  }

  // ---------- Alignment ----------

  lemma TakeWhole(v: Heap, k: nat, t: nat)
    requires k < |v.blocks| && v.blocks[k].size < t + MIN_BLK_SIZE
    ensures Take(v, k, t).blocks == v.blocks[k := v.blocks[k].(free := false)]
  {
    assert v.blocks == v.blocks[..k] + v.blocks[k..];
  }

  /** The block taken back, freed once more, is what it was before kmalloc took it. */
  lemma WholeAgain(v: Heap, k: nat, t: nat)
    requires Coalesced(v.blocks) && k < |v.blocks| && v.blocks[k].free && 0 < t
    ensures var g := Take(v, k, t);
            Forward(g.blocks, k) == v.blocks[k].size && !PrevFree(g.blocks, k)
  {
    hide Coalesced, Take;
    if k > 0 { NotBothFree(v.blocks, k - 1); }
    if k + 1 < |v.blocks| { NotBothFree(v.blocks, k); }
    if v.blocks[k].size < t + MIN_BLK_SIZE {
      TakeWhole(v, k, t);
    } else {
      TakeRest(v, k, t);
      TakePlace(v, k, t);
      TakeFront(v, k, t);
    }
  }

  lemma TakeFront(v: Heap, k: nat, t: nat)
    requires k < |v.blocks|
    ensures Take(v, k, t).blocks[..k] == v.blocks[..k]
  {
  }

  /** When a block is cut that has just been freed again. */
  lemma SplitsFreedIff(h: Heap, i: nat, size: nat)
    requires Shape(h) && Coalesced(h.blocks) && Aligned(h.blocks) && i < |h.blocks| && !h.blocks[i].free
    requires 0 < size && !TooBig(size)
    ensures SplitsFreed(h, i, size) <==>
            && size % ALIGN_SIZE != 0 && Retaken(h, i, Total(size))
            && Gap(h, i, size) > 32 && Forward(h.blocks, i) >= Gap(h, i, size) + ALIGN_SIZE
  {
    hide Tiled, Coalesced, Aligned, TakesBack, FreesItsResult, Absorbed, Retaken, Forward, Stretched, Refused, Take;
    hide FreeAt;
    hide Malloc, Free, FindBlock, Live, Vacated;
    InOrderSized(h, i);
    FreesItsResultInSizes(h, i, size);
    TakesBackIff(h, i, size);
    TotalFacts(size);
    if Retaken(h, i, Total(size)) {
      RetakenBehind(h, i, Total(size));
      AlignedGap(h, i, size);
      ForwardAligned(h.blocks, i);
      if FreesItsResult(h, i, size) { FreedWhole(h, i, size); }
    }
  }

  lemma ForwardAligned(bs: seq<Block>, i: nat)
    requires i < |bs| && Aligned(bs)
    ensures Forward(bs, i) % ALIGN_SIZE == 0
  {
    assert AlignedBlock(bs[i]);
    if NextFree(bs, i) { assert AlignedBlock(bs[i + 1]); }
  }

  lemma FreedWhole(h: Heap, i: nat, size: nat)
    requires Shape(h) && Coalesced(h.blocks) && Aligned(h.blocks) && i < |h.blocks| && !h.blocks[i].free
    requires 0 < size && !TooBig(size) && TakesBack(h, i, size) && FreesItsResult(h, i, size)
    ensures i > 0 && Fetched(h, i, size).1 == i - 1
    ensures var g := Fetched(h, i, size).0;
            var f := Free(g, h.blocks[i].Ptr()).blocks;
            var j := FindBlock(f, g.blocks[i - 1].Ptr());
            j < |f| && f[j].addr == g.blocks[i - 1].addr && f[j].size == Joined(h.blocks, i)
  {
    hide Tiled, Coalesced, Aligned, Absorbed, Forward, Refused, Take, FreeAt, Malloc, Free, FindBlock, Live;
    TakenBack(h, i, size);
    var v, g, t := Before(h, i, size), Fetched(h, i, size).0, Total(size);
    TotalFacts(size);
    FreeCoalesces(h.blocks, i);
    WholeAgain(v, i - 1, t);
    WidenedParts(g.blocks, i - 1);
    TakeFacts(v, i - 1, t);
    InOrderSized(h, i);
    TiledMember(h.blocks, KHEAP_START, h.brk, h.blocks[i]);
    FreedInPlace(g, i - 1, h.blocks[i].Ptr());
  }

  /** Exactly when all headers stay on multiples of 16: unless a block is cut at a size that is none. */
  lemma AlignedInSizes(h: Heap, i: nat, size: nat)
    requires Shape(h) && Coalesced(h.blocks) && Aligned(h.blocks) && i < |h.blocks| && !h.blocks[i].free
    requires 0 < size && !TooBig(size) && !NoRoom(h, i, Total(size)) && !Overruns(h, i, size)
    ensures var (t, s) := (Total(size), Forward(h.blocks, i));
            Aligned(Realloc(h, i, size).0.blocks) <==>
            || size % ALIGN_SIZE == 0
            || !((h.blocks[i].size <= t <= s && s >= size + MIN_BLK_SIZE)
                 || (Retaken(h, i, t) && Gap(h, i, size) > 32 && s >= Gap(h, i, size) + ALIGN_SIZE))
  {
    hide Shape, Coalesced, Aligned, Realloc, Overruns, Stuck, NoRoom, Retaken, SplitsFreed, SplitsUnaligned, Forward;
    InOrderSized(h, i);
    StuckIff(h, i, size);
    ReallocAlignedIff(h, i, size);
    SplitsFreedIff(h, i, size);
    MovesInSizes(h.blocks, i, size);
    if Retaken(h, i, Total(size)) { RetakenBehind(h, i, Total(size)); }
  }
}
