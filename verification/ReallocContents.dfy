// What becomes of a block's contents on krealloc's moving path, where kmalloc may write a header over them first.
module ReallocContents {
  import opened Blocks
  import opened HeapSpec
  import opened HeapTheorems
  import opened Memory
  import opened ReallocSpec

  datatype Known = Is(v: Byte) | Unknown

  function Lookup(b: map<int, Byte>, a: int): Known { if a in b then Is(b[a]) else Unknown }

  /** How many bytes are to come along. */
  function Wanted(h: Heap, i: nat, size: nat): int
    requires i < |h.blocks|
  {
    if h.blocks[i].size <= size then h.blocks[i].size else size
  }

  predicate Moves(h: Heap, i: nat, size: nat)
    requires i < |h.blocks|
  {
    !TooBig(size) && !Shrinks(h.blocks, i, size) && !GrowsInPlace(h.blocks, i, size)
  }

  /** The old header as krealloc leaves it, inside the block that has swallowed its own. */
  function StaleHeader(h: Heap, i: nat, size: nat): Header
    requires i < |h.blocks|
  {
    var v := Before(h, i, size).blocks;
    Header(h.blocks[i].Ptr(), Stretched(h.blocks, i).size, false,
           if i < |v| then v[i].addr else 0, if i > 0 then h.blocks[i - 1].addr else 0)
  }

  /** The byte that memcpy finds at an address in the old payload, from the bytes b before the call. */
  function Found(b: map<int, Byte>, h: Heap, i: nat, size: nat, x: int): Known
    requires i < |h.blocks|
  {
    if Splits(h, i, size) && FieldAt(RestAddr(h, i, size), x)
    then Is(HeaderByte(HeaderOf(Fetched(h, i, size).0.blocks, i), x - RestAddr(h, i, size)))
    else Lookup(b, x)
  }

  /** The byte that stays at an address of the block that kmalloc has taken back. */
  function Stays(b: map<int, Byte>, h: Heap, i: nat, size: nat, x: int): Known
    requires i < |h.blocks|
  {
    if FieldAt(h.blocks[i].addr, x) then Is(HeaderByte(StaleHeader(h, i, size), x - h.blocks[i].addr)) else Lookup(b, x)
  }

  /** Byte k of the block that krealloc returns, from the bytes b before the call. */
  function Result(b: map<int, Byte>, h: Heap, i: nat, size: nat, k: nat): Known
    requires i < |h.blocks|
  {
    if k < StaleSize(h, i, size) || i == 0 then Found(b, h, i, size, h.blocks[i].Ptr() + k)
    else Stays(b, h, i, size, h.blocks[i - 1].Ptr() + k)
  }

  /** Whatever the contents were, they are in the block returned. */
  ghost predicate ContentsKept(h: Heap, i: nat, size: nat)
    requires i < |h.blocks|
  {
    forall b: map<int, Byte>, k: nat | k < Wanted(h, i, size) ::
      Result(b, h, i, size, k) == Lookup(b, h.blocks[i].Ptr() + k)
  }

  /** The header of the rest is written over byte k of the contents. */
  predicate HitAt(h: Heap, i: nat, size: nat, k: nat)
    requires i < |h.blocks|
  {
    Splits(h, i, size) && FieldAt(RestAddr(h, i, size), h.blocks[i].Ptr() + k)
  }

  ghost predicate HitsContents(h: Heap, i: nat, size: nat)
    requires i < |h.blocks|
  {
    exists k: nat :: k < Wanted(h, i, size) && HitAt(h, i, size, k)
  }

  predicate CopiesAll(h: Heap, i: nat, size: nat)
    requires i < |h.blocks|
  {
    StaleSize(h, i, size) >= Wanted(h, i, size)
  }

  lemma Other(v: Known) returns (w: Byte)
    ensures Is(w) != v
  {
    w := if v == Is(0) then 1 else 0;
  }

  lemma SwallowedBehind(h: Heap, i: nat)
    requires Shape(h) && 0 < i < |h.blocks|
    ensures h.blocks[i - 1].End() == h.blocks[i].addr && h.blocks[i - 1].Ptr() < h.blocks[i].Ptr()
  {
    var bs := h.blocks;
    assert bs == bs[..i - 1] + bs[i - 1..] && bs[i - 1..][1..] == bs[i..];
    TiledCut(bs[..i - 1], bs[i - 1..], KHEAP_START, h.brk);
  }

  lemma StaleIsNat(h: Heap, i: nat, size: nat)
    requires i < |h.blocks|
    ensures StaleSize(h, i, size) >= 0
  {
    hide Over;
  }

  /** Contents come along exactly when the copy is long enough and no header is written over them first. */
  lemma ContentsKeptIff(h: Heap, i: nat, size: nat)
    requires Shape(h) && i < |h.blocks| && !h.blocks[i].free && 0 < size && Moves(h, i, size)
    ensures ContentsKept(h, i, size) <==> CopiesAll(h, i, size) && !HitsContents(h, i, size)
  {
    hide StaleSize, Splits, HeaderOf, HeaderByte, FieldAt, Fetched, StaleHeader, Tiled;
    var p := h.blocks[i].Ptr();
    StaleIsNat(h, i, size);
    if !CopiesAll(h, i, size) {
      TooShort(h, i, size);
      var n: nat := StaleSize(h, i, size);
      SwallowedBehind(h, i);
      var w := Other(Stays(map[], h, i, size, h.blocks[i - 1].Ptr() + n));
      var b: map<int, Byte> := map[p + n := w];
      assert Result(b, h, i, size, n) != Lookup(b, p + n);
    } else if k: nat :| k < Wanted(h, i, size) && HitAt(h, i, size, k) {
      var w := Other(Found(map[], h, i, size, p + k));
      var b: map<int, Byte> := map[p + k := w];
      assert Result(b, h, i, size, k) != Lookup(b, p + k);
    } else {
      forall b: map<int, Byte>, k: nat | k < Wanted(h, i, size)
        ensures Result(b, h, i, size, k) == Lookup(b, p + k)
      {
        assert !HitAt(h, i, size, k);
      }
    }
  }

  lemma IntactCopies(h: Heap, i: nat, size: nat)
    requires Shape(h) && i < |h.blocks| && !h.blocks[i].free && !HitsSize(h, i, size)
    ensures CopiesAll(h, i, size)
  {
    StaleIntact(h, i, size);
    WidenedFacts(h, i);
  }

  /** A copy can be too short only where the new header has overlapped the old one. */
  lemma TooShort(h: Heap, i: nat, size: nat)
    requires Shape(h) && i < |h.blocks| && !h.blocks[i].free && !CopiesAll(h, i, size)
    ensures HitsSize(h, i, size) && i > 0
  {
    if !HitsSize(h, i, size) { IntactCopies(h, i, size); }
  }

  /** krealloc does what its documentation promises: a live block of the new size, with the contents. */
  ghost predicate Delivers(h: Heap, i: nat, size: nat)
    requires i < |h.blocks|
  {
    ReturnsLive(h, i, size) && (Moves(h, i, size) ==> ContentsKept(h, i, size))
  }

  /** Exactly when it does. */
  lemma DeliversIff(h: Heap, i: nat, size: nat)
    requires Shape(h) && i < |h.blocks| && !h.blocks[i].free && 0 < size && !TooBig(size)
    ensures Delivers(h, i, size) <==>
            && !Stuck(h, i, size) && !Overruns(h, i, size) && !FreesItsResult(h, i, size)
            && (Moves(h, i, size) ==> CopiesAll(h, i, size) && !HitsContents(h, i, size))
  {
    hide ReturnsLive, Stuck, Overruns, FreesItsResult, ContentsKept, CopiesAll, HitsContents;
    ReturnsLiveIff(h, i, size);
    if Moves(h, i, size) { ContentsKeptIff(h, i, size); }
  }

  // ---------- The condition in block sizes ----------

  /** How far the new header lies from the old one. */
  function Gap(h: Heap, i: nat, size: nat): int
    requires 0 < i < |h.blocks|
  {
    Total(size) - h.blocks[i - 1].size
  }

  /** How far the previous block is into the heap: the low half of its address. */
  function Low(h: Heap, i: nat): int
    requires 0 < i < |h.blocks|
  {
    h.blocks[i - 1].addr - KHEAP_START
  }

  lemma SplitIff(h: Heap, i: nat, size: nat)
    requires Shape(h) && i < |h.blocks| && !h.blocks[i].free && 0 < size && !TooBig(size) && TakesBack(h, i, size)
    ensures i > 0 && RestAddr(h, i, size) == h.blocks[i].addr + Gap(h, i, size)
    ensures Splits(h, i, size) <==> Stretched(h.blocks, i).size >= Gap(h, i, size) + ALIGN_SIZE
  {
    hide Tiled, Fetched, Before, Stretched;
    TakenBack(h, i, size);
    SwallowedBehind(h, i);
  }

  /** The header that kmalloc writes for the rest. */
  lemma RestHeader(h: Heap, i: nat, size: nat)
    requires Shape(h) && Coalesced(h.blocks) && i < |h.blocks| && !h.blocks[i].free && 0 < size && !TooBig(size)
             && Splits(h, i, size)
    ensures i > 0 && i < |Fetched(h, i, size).0.blocks|
    ensures var r := HeaderOf(Fetched(h, i, size).0.blocks, i);
            r.prev == h.blocks[i - 1].addr && r.size == Stretched(h.blocks, i).size - Gap(h, i, size)
  {
    hide Tiled, Fetched, Stretched, Coalesced, FreeAt, Malloc;
    TakenBack(h, i, size);
    var v, t := Before(h, i, size), Total(size);
    FreeCoalesces(h.blocks, i);
    if i < |v.blocks| { NotBothFree(v.blocks, i - 1); }
    TotalFacts(size);
    TakeRest(v, i - 1, t);
  }

  lemma TakeRest(v: Heap, k: nat, t: nat)
    requires k < |v.blocks| && 0 < t && v.blocks[k].size >= t + MIN_BLK_SIZE
    requires k + 1 < |v.blocks| ==> !v.blocks[k + 1].free
    ensures var g, x := Take(v, k, t), v.blocks[k];
            k + 1 < |g.blocks| && g.blocks[k + 1] == Block(x.Ptr() + t, x.size - t - HEADER_SIZE, true)
              && g.blocks[k].addr == x.addr
  {
    var seg := v.blocks[k..];
    var rest := Block(seg[0].Ptr() + t, seg[0].size - t - HEADER_SIZE, true);
    assert MergeFirst([rest] + seg[1..]) == [rest] + seg[1..];
    var u := Used(SplitFirst(seg, t));
    assert Take(v, k, t).blocks == v.blocks[..k] + u && u[1] == rest;
  }

  lemma LowHalf(h: Heap, i: nat)
    requires Shape(h) && 0 < i < |h.blocks|
    ensures 0 <= Low(h, i) < HEAP_MAX && h.blocks[i - 1].addr % HEAP_MAX == Low(h, i)
  {
    TiledMember(h.blocks, KHEAP_START, h.brk, h.blocks[i - 1]);
  }

  /** The size read back, by the distance of the two headers. */
  lemma StaleInSizes(h: Heap, i: nat, size: nat)
    requires Shape(h) && Coalesced(h.blocks) && Aligned(h.blocks) && i < |h.blocks| && !h.blocks[i].free
    requires 0 < size && !TooBig(size) && TakesBack(h, i, size)
    ensures i > 0
    ensures StaleSize(h, i, size) ==
            if Splits(h, i, size) && Gap(h, i, size) == -ALIGN_SIZE then Low(h, i) else Stretched(h.blocks, i).size
  {
    hide Tiled, Fetched, Stretched, Coalesced, Splits, Le, RestAddr;
    SplitIff(h, i, size);
    AlignedGap(h, i, size);
    var gap, s := Gap(h, i, size), Stretched(h.blocks, i).size;
    if Splits(h, i, size) && (gap == 0 || gap == -ALIGN_SIZE) {
      RestHeader(h, i, size);
      StretchedFits(h, i);
      LowHalf(h, i);
      JoinLe(s);
      JoinLe(h.blocks[i - 1].addr);
    } else {
      StaleIntact(h, i, size);
    }
  }

  /**
   * The copy from a swallowed block overruns exactly if the new header ends in the old size field and says too much.
   */
  lemma OverrunsWhenTaken(h: Heap, i: nat, size: nat)
    requires Shape(h) && Coalesced(h.blocks) && Aligned(h.blocks) && i < |h.blocks| && !h.blocks[i].free
    requires 0 < size && !TooBig(size) && Absorbed(h.blocks, i, size) && !Stuck(h, i, size)
    ensures i > 0
    ensures Overruns(h, i, size) <==>
            && TakesBack(h, i, size) && Gap(h, i, size) == -ALIGN_SIZE
            && (Low(h, i) > Total(size) || h.blocks[i].Ptr() + Low(h, i) > h.brk)
  {
    hide Tiled, Stretched, Coalesced, StaleSize, FreeAt, Malloc, Aligned, Live;
    if TakesBack(h, i, size) {
      SplitIff(h, i, size);
      StaleInSizes(h, i, size);
      TakenBack(h, i, size);
      StretchedFits(h, i);
      if Gap(h, i, size) != -ALIGN_SIZE { NoOverrun(h, i, size); }
    } else {
      Elsewhere(h, i, size);
    }
  }

  lemma AlignedGap(h: Heap, i: nat, size: nat)
    requires 0 < i < |h.blocks| && Aligned(h.blocks) && 0 < size && !TooBig(size)
    ensures Gap(h, i, size) % ALIGN_SIZE == 0
  {
    TotalFacts(size);
    assert AlignedBlock(h.blocks[i - 1]);
  }

  lemma HitsInSizes(h: Heap, i: nat, size: nat)
    requires Shape(h) && Aligned(h.blocks) && i < |h.blocks| && !h.blocks[i].free
    requires 0 < size && !TooBig(size) && Splits(h, i, size) && h.blocks[i].size > 0
    ensures i > 0 && (Gap(h, i, size) <= 0 ==> !HitsContents(h, i, size))
    ensures Gap(h, i, size) == 16 || Gap(h, i, size) == 32 ==> HitsContents(h, i, size)
  {
    assert TakesBack(h, i, size);
    hide Tiled, Fetched, Coalesced, Splits, RestAddr;
    SplitIff(h, i, size);
    var gap := Gap(h, i, size);
    if gap == 16 || gap == 32 {
      assert FieldAt(RestAddr(h, i, size), h.blocks[i].Ptr() + 0);
      assert HitAt(h, i, size, 0);
    }
  }

  /** Does kfree release what was just taken back? */
  lemma FreesInSizes(h: Heap, i: nat, size: nat)
    requires Shape(h) && Aligned(h.blocks) && i < |h.blocks| && !h.blocks[i].free && 0 < size && !TooBig(size)
             && TakesBack(h, i, size)
    ensures i > 0
    ensures FreesItsResult(h, i, size) <==>
            if Splits(h, i, size) then Gap(h, i, size) > 32
            else !(Stretched(h.blocks, i).End() == h.brk && Stretched(h.blocks, i).size < MIN_BLK_SIZE)
  {
    hide Tiled, Stretched, Coalesced, FreeAt, Malloc, Take;
    TakenBack(h, i, size);
    SwallowedBehind(h, i);
    var v, g, p := Before(h, i, size), Fetched(h, i, size).0, h.blocks[i].Ptr();
    var x := g.blocks[i - 1];
    TotalFacts(size);
    TakeFacts(v, i - 1, Total(size));
    StretchedFits(h, i);
    FreeAtAligned(h.blocks, i);
    TakeTidy(v, i - 1, Total(size));
    TiledMember(g.blocks, KHEAP_START, g.brk, x);
    TiledMember(h.blocks, KHEAP_START, h.brk, h.blocks[i]);
    if x.Holds(p) {
      RefusedThere(g, i - 1, p);
      RestBehind(g, i - 1);
    }
  }

  lemma RefusedThere(g: Heap, k: nat, p: int)
    requires Shape(g) && k < |g.blocks| && g.blocks[k].Holds(p) && p > 0
    ensures Refused(g, p) <==> g.brk - MIN_BLK_SIZE < p
  {
    FindInTiling(g, k, p);
    TiledBounds(g.blocks, KHEAP_START, g.brk);
    TiledMember(g.blocks, KHEAP_START, g.brk, g.blocks[k]);
  }

  lemma RestBehind(g: Heap, k: nat)
    requires Shape(g) && Aligned(g.blocks) && k < |g.blocks|
    ensures if k + 1 < |g.blocks| then g.blocks[k].End() + MIN_BLK_SIZE <= g.brk else g.blocks[k].End() == g.brk
  {
    var bs := g.blocks;
    assert bs == bs[..k + 1] + bs[k + 1..];
    TiledCut(bs[..k + 1], bs[k + 1..], KHEAP_START, g.brk);
    TiledBounds(bs[..k + 1], KHEAP_START, First(bs[k + 1..], g.brk));
    assert bs[..k + 1][k] == bs[k];
    if k + 1 < |bs| {
      TiledMember(bs, KHEAP_START, g.brk, bs[k + 1]);
      assert AlignedBlock(bs[k + 1]);
    }
  }

  /** In a heap in order, when the previous block swallows the block: what krealloc needs, in block sizes. */
  lemma DeliversWhenFound(h: Heap, i: nat, size: nat)
    requires Shape(h) && Coalesced(h.blocks) && Aligned(h.blocks) && i < |h.blocks| && !h.blocks[i].free
    requires 0 < size && !TooBig(size) && Absorbed(h.blocks, i, size) && !Stuck(h, i, size)
    ensures i > 0
    ensures var (s, gap, low) := (Stretched(h.blocks, i), Gap(h, i, size), Low(h, i));
            Delivers(h, i, size) <==>
              if !TakesBack(h, i, size) then true
              else if s.size < gap + ALIGN_SIZE then s.End() == h.brk && s.size < MIN_BLK_SIZE
              else gap <= -32 || gap == 0
                   || (gap == -16 && Wanted(h, i, size) <= low <= Total(size) && h.blocks[i].Ptr() + low <= h.brk)
  {
    hide Tiled, Fetched, Stretched, Coalesced, Splits, RestAddr, StaleSize, FreesItsResult, ReturnsLive, HitsContents;
    hide Delivers;
    DeliversIff(h, i, size);
    TiledMember(h.blocks, KHEAP_START, h.brk, h.blocks[i]);
    if TakesBack(h, i, size) {
      BackInSizes(h, i, size);
    } else {
      Elsewhere(h, i, size);
    }
  }

  /** Another block was taken: nothing is written near the old one. */
  lemma Elsewhere(h: Heap, i: nat, size: nat)
    requires Shape(h) && i < |h.blocks| && !h.blocks[i].free && 0 < size && !TooBig(size)
    requires Absorbed(h.blocks, i, size) && !TakesBack(h, i, size)
    ensures CopiesAll(h, i, size) && !HitsContents(h, i, size) && !Overruns(h, i, size) && !FreesItsResult(h, i, size)
  {
    hide Tiled, Stretched, StaleSize, FreeAt, Malloc;
    IntactCopies(h, i, size);
    StaleIntact(h, i, size);
    NoOverrun(h, i, size);
    var v, g, k := Before(h, i, size), Fetched(h, i, size).0, Fetched(h, i, size).1;
    if k >= 0 { NotHeldElsewhere(h, i, size); }
  }

  lemma NotHeldElsewhere(h: Heap, i: nat, size: nat)
    requires Shape(h) && i < |h.blocks| && !h.blocks[i].free && 0 < size && !TooBig(size)
    requires Absorbed(h.blocks, i, size) && !TakesBack(h, i, size) && Fetched(h, i, size).1 >= 0
    ensures !Fetched(h, i, size).0.blocks[Fetched(h, i, size).1].Holds(h.blocks[i].Ptr())
  {
    hide Tiled, Stretched, FreeAt, FirstExact, LastOversized, Take, Live, Aligned, Coalesced, Extension, RoundUp;
    hide FindBlock;
    var v, t, p := Before(h, i, size), Total(size), h.blocks[i].Ptr();
    TotalFacts(size);
    RoundUpFacts(t, ALIGN_SIZE);
    AlreadyRound(t, RoundUp64(t, ALIGN_SIZE));
    FreeShape(h, i);
    Swallowing(h, i);
    SwallowedBehind(h, i);
    StretchedFits(h, i);
    OpenedFacts(v);
    ChooseFacts(v, t);
    var (gv, k) := Choose(v, t);
    TakePlaces(gv, k, t);
    StillBehind(v, i - 1, t);
    if gv.blocks[k].Holds(p) {
      FindInTiling(gv, k, p);
      FindInTiling(gv, i - 1, p);
    }
  }

  lemma StillBehind(v: Heap, j: nat, t: nat)
    requires j < |v.blocks|
    ensures var gv := Choose(v, t).0; j < |gv.blocks| && gv.blocks[j] == v.blocks[j]
  {
  }

  lemma TakePlaces(v: Heap, k: nat, t: nat)
    requires k < |v.blocks| && 0 < t
    ensures var x := Take(v, k, t).blocks[k]; x.addr == v.blocks[k].addr && x.End() <= v.blocks[k].End()
  {
    var seg := v.blocks[k..];
    SplitFirstFacts(seg, t);
    assert Take(v, k, t).blocks == v.blocks[..k] + Used(SplitFirst(seg, t));
  }

  lemma NoSplitNoHit(h: Heap, i: nat, size: nat)
    requires i < |h.blocks| && !Splits(h, i, size)
    ensures !HitsContents(h, i, size)
  {
    hide Splits;
  }

  lemma BackInSizes(h: Heap, i: nat, size: nat)
    requires Shape(h) && Coalesced(h.blocks) && Aligned(h.blocks) && i < |h.blocks| && !h.blocks[i].free
             && h.blocks[i].size > 0
    requires 0 < size && !TooBig(size) && TakesBack(h, i, size)
    ensures i > 0
    ensures var (s, gap, low) := (Stretched(h.blocks, i), Gap(h, i, size), Low(h, i));
            !Overruns(h, i, size) && !FreesItsResult(h, i, size) && CopiesAll(h, i, size)
              && !HitsContents(h, i, size) <==>
              if s.size < gap + ALIGN_SIZE then s.End() == h.brk && s.size < MIN_BLK_SIZE
              else gap <= -32 || gap == 0
                   || (gap == -16 && Wanted(h, i, size) <= low <= Total(size) && h.blocks[i].Ptr() + low <= h.brk)
  {
    hide Tiled, Fetched, Stretched, Coalesced, Splits, RestAddr, StaleSize, FreesItsResult, HitsContents, Live, Aligned;
    SplitIff(h, i, size);
    if Splits(h, i, size) { BackSplit(h, i, size); } else { BackWhole(h, i, size); }
  }

  lemma BackWhole(h: Heap, i: nat, size: nat)
    requires Shape(h) && Coalesced(h.blocks) && Aligned(h.blocks) && i < |h.blocks| && !h.blocks[i].free
             && h.blocks[i].size > 0
    requires 0 < size && !TooBig(size) && TakesBack(h, i, size) && !Splits(h, i, size)
    ensures i > 0
    ensures !Overruns(h, i, size) && !FreesItsResult(h, i, size) && CopiesAll(h, i, size)
            && !HitsContents(h, i, size) <==>
              Stretched(h.blocks, i).End() == h.brk && Stretched(h.blocks, i).size < MIN_BLK_SIZE
  {
    hide Tiled, Fetched, Stretched, Coalesced, Splits, RestAddr, StaleSize, FreesItsResult, HitsContents, Live, Aligned;
    StaleInSizes(h, i, size);
    FreesInSizes(h, i, size);
    WidenedFacts(h, i);
    StretchedSize(h, i);
    NoSplitNoHit(h, i, size);
    NoOverrun(h, i, size);
  }

  lemma StretchedSize(h: Heap, i: nat)
    requires Shape(h) && i < |h.blocks|
    ensures h.blocks[i].size <= Stretched(h.blocks, i).size
  {
    WidenedFacts(h, i);
  }

  lemma BackSplit(h: Heap, i: nat, size: nat)
    requires Shape(h) && Coalesced(h.blocks) && Aligned(h.blocks) && i < |h.blocks| && !h.blocks[i].free
             && h.blocks[i].size > 0
    requires 0 < size && !TooBig(size) && TakesBack(h, i, size) && Splits(h, i, size)
    ensures i > 0
    ensures var (gap, low) := (Gap(h, i, size), Low(h, i));
            !Overruns(h, i, size) && !FreesItsResult(h, i, size) && CopiesAll(h, i, size)
              && !HitsContents(h, i, size) <==>
              gap <= -32 || gap == 0
              || (gap == -16 && Wanted(h, i, size) <= low <= Total(size) && h.blocks[i].Ptr() + low <= h.brk)
  {
    hide Shape, Tiled, Fetched, Stretched, Coalesced, RestAddr, StaleSize, FreesItsResult, HitsContents, Live;
    hide Aligned, Overruns;
    hide TakesBack, Splits, Stuck, Absorbed;
    BackIsAbsorbed(h, i, size);
    OverrunsWhenTaken(h, i, size);
    StaleInSizes(h, i, size);
    FreesInSizes(h, i, size);
    AlignedGap(h, i, size);
    StretchedSize(h, i);
    HitsInSizes(h, i, size);
  }

  lemma BackIsAbsorbed(h: Heap, i: nat, size: nat)
    requires i < |h.blocks| && TakesBack(h, i, size)
    ensures i > 0 && Absorbed(h.blocks, i, size) && !Stuck(h, i, size)
  {
    hide Malloc;
  }

  // ---------- Where it goes wrong ----------

  lemma FreeThenLast(pre: seq<Block>, p: Block, b: Block, h: Heap)
    requires |pre| <= 1 && (pre != [] ==>
                pre[0].addr == KHEAP_START && !pre[0].free && pre[0].size > 0 && p.addr == pre[0].End())
    requires pre == [] ==> p.addr == KHEAP_START
    requires p.free && !b.free && p.size > 0 && b.size > 0 && b.addr == p.End() && h.blocks == pre + [p, b]
             && h.brk == b.End()
    requires h.brk % ALIGN_SIZE == 0 && h.brk <= KHEAP_START + HEAP_MAX && h.limit <= KHEAP_START + HEAP_MAX
    ensures Shape(h) && Coalesced(h.blocks)
  {
    assert [p, b][1..] == [b] && [b][1..] == [];
    assert Tiled([b], b.addr, h.brk) && Tiled([p, b], p.addr, h.brk) && Coalesced([b]) && Coalesced([p, b]);
    if pre != [] {
      assert pre[1..] == [] && pre == [pre[0]];
      assert Tiled([], p.addr, p.addr) && Coalesced([]);
      assert Tiled(pre, KHEAP_START, p.addr) && Coalesced(pre);
    }
    TiledCut(pre, [p, b], KHEAP_START, h.brk);
    CoalescedCut(pre, [p, b]);
    assert pre == [] ==> pre + [p, b] == [p, b];
  }

  /** The last block outgrows itself: kmalloc takes it back together with the free block before it. */
  lemma LastGrown(pre: seq<Block>, p: Block, b: Block, h: Heap, size: nat)
    requires h.blocks == pre + [p, b] && p.free && !b.free && 0 < size && !TooBig(size) && Total(size) == size
    requires forall x | x in pre :: !x.free
    requires b.size < size < p.size + HEADER_SIZE + b.size
    ensures var i := |pre| + 1; TakesBack(h, i, size) && Stretched(h.blocks, i) == b && !Stuck(h, i, size)
  {
    var i, bs := |pre| + 1, h.blocks;
    var f := [b.(free := true)];
    assert bs[i] == b && bs[i + 1..] == [] && [bs[i].(free := true)] + bs[i + 1..] == f;
    assert Widened(bs, i) == f && bs[i - 1] == p && bs[..i - 1] == pre;
    var y := Block(p.addr, p.size + HEADER_SIZE + b.size, true);
    assert MergeFirst([p] + f) == [y];
    var v := Before(h, i, size);
    assert v.blocks == pre + [y];
    LastTaken(v, pre, y, size);
  }

  lemma LastTaken(v: Heap, pre: seq<Block>, y: Block, size: nat)
    requires v.blocks == pre + [y] && y.free && 0 < size < y.size && !TooBig(size) && Total(size) == size
    requires forall x | x in pre :: !x.free
    ensures Malloc(v, size).1 == |pre|
  {
    forall k | 0 <= k < |v.blocks| ensures !Exact(v.blocks[k], size) {
      assert k < |pre| ==> v.blocks[k] in pre;
    }
    assert Choose(v, size) == (v, |pre|);
  }

  lemma LongCopy(h: Heap, i: nat, size: nat)
    requires Shape(h) && i < |h.blocks| && !h.blocks[i].free && 0 < size && !TooBig(size) && Splits(h, i, size)
    requires StaleSize(h, i, size) > Total(size)
    ensures Overruns(h, i, size)
  {
    hide StaleSize, Tiled, FreeAt, Malloc;
    TakenBack(h, i, size);
  }

  /**
   * 4096 bytes in use, 176 free, then 64 live at the end, grown to 160: the copy runs 4128 bytes into a block of 160.
   */
  lemma OverrunsOnce() returns (h: Heap, size: nat)
    ensures Shape(h) && Coalesced(h.blocks) && Aligned(h.blocks) && size % ALIGN_SIZE == 0 && |h.blocks| == 3
            && !h.blocks[2].free
    ensures !Stuck(h, 2, size) && !FreesItsResult(h, 2, size)
    ensures StaleSize(h, 2, size) == 4128 && Overruns(h, 2, size) && !ReturnsLive(h, 2, size)
  {
    hide Tiled, Coalesced, Stuck, ReturnsLive, Overruns, FreesItsResult, StaleSize, Splits, TakesBack, Absorbed;
    hide Stretched;
    var x, p, b := Block(KHEAP_START, 4096, false), Block(KHEAP_START + 4128, 176, true),
                   Block(KHEAP_START + 4336, 64, false);
    h, size := Heap([x, p, b], KHEAP_START + 4432, KHEAP_START + HEAP_MAX), 160;
    FreeThenLast([x], p, b, h);
    RoundUpIsMask(160, ALIGN_SIZE);
    LastGrown([x], p, b, h, size);
    SplitIff(h, 2, size);
    StaleInSizes(h, 2, size);
    FreesInSizes(h, 2, size);
    ReturnsLiveIff(h, 2, size);
    assert Overruns(h, 2, size) by { LongCopy(h, 2, size); }
  }

  /** 128 free, then 64 live at the end, grown to 160: a live block of 160 bytes comes back without the contents. */
  lemma ContentsLostOnce() returns (h: Heap, size: nat)
    ensures Shape(h) && Coalesced(h.blocks) && Aligned(h.blocks) && size % ALIGN_SIZE == 0 && |h.blocks| == 2
            && !h.blocks[1].free
    ensures !Stuck(h, 1, size) && !Overruns(h, 1, size) && ReturnsLive(h, 1, size) && !ContentsKept(h, 1, size)
  {
    hide Tiled, Coalesced, Stuck, ReturnsLive, Overruns, FreesItsResult, StaleSize, Splits, TakesBack, Absorbed;
    hide Stretched;
    hide ContentsKept;
    var p, b := Block(KHEAP_START, 128, true), Block(KHEAP_START + 160, 64, false);
    h, size := Heap([p, b], KHEAP_START + 256, KHEAP_START + HEAP_MAX), 160;
    FreeThenLast([], p, b, h);
    RoundUpIsMask(160, ALIGN_SIZE);
    LastGrown([], p, b, h, size);
    SplitIff(h, 1, size);
    StaleInSizes(h, 1, size);
    FreesInSizes(h, 1, size);
    NoOverrun(h, 1, size);
    ReturnsLiveIff(h, 1, size);
    HitsInSizes(h, 1, size);
    ContentsKeptIff(h, 1, size);
  }
}
