// What kmalloc, kcalloc and krealloc come to in numbers: sizes, multiples and addresses, without the names of their
// steps.
module HeapExact {
  import opened Blocks
  import opened HeapSpec
  import opened HeapTheorems
  import opened ReallocSpec
  import ReallocSizes

  /** n is the least multiple of 16 that is at least size and not 0. */
  predicate Rounded(size: nat, n: nat) {
    n % 16 == 0 && n > 0 && size <= n < size + 16 + (if size == 0 then 1 else 0)
  }

  /** m is the least multiple of 64 KiB that is at least n. */
  predicate Binned(n: nat, m: nat) { m % 0x1_0000 == 0 && n <= m < n + 0x1_0000 }

  lemma RoundedIs(size: nat, n: nat)
    requires Rounded(size, n)
    ensures RoundUp(if size < 1 then 1 else size, ALIGN_SIZE) == n
  {
    RoundUpIsMask(if size < 1 then 1 else size, ALIGN_SIZE);
  }

  lemma BinnedIs(n: nat, m: nat)
    requires 0 < n && Binned(n, m)
    ensures RoundUp(n, BIN_SIZE) == m
  {
    RoundUpIsMask(n, BIN_SIZE);
    SameMultiple(RoundUp(n, BIN_SIZE), m);
  }

  lemma SameMultiple(a: int, b: int)
    requires a % 0x1_0000 == 0 && b % 0x1_0000 == 0 && -0x1_0000 < a - b < 0x1_0000
    ensures a == b
  {
  }

  /** Some free block has room for n bytes. */
  predicate HasRoom(bs: seq<Block>, n: nat) { exists b :: b in bs && b.free && b.size >= n }

  /** The heap that kmalloc searches: the first call sets up 64 KiB, if the break may move that far. */
  function Searched(h: Heap): Heap {
    if h.blocks == [] && h.brk + 0x1_0000 + 32 <= h.limit
    then Heap([Block(h.brk, 0x1_0000, true)], h.brk + 0x1_0000 + 32, h.limit) else h
  }

  lemma SearchedIs(h: Heap)
    ensures Opened(h) == Searched(h)
  {
    BinnedIs(0x1_0000, 0x1_0000);
    var first := [Block(h.brk, 0x1_0000, true)];
    assert SplitFirst(first, 0x1_0000) == first && [] + first == first;
  }

  /**
   * For every size: kmalloc fails exactly if the rounded size does not fit 32 bits, or no free block has room for it
   * and the break cannot move far enough. Else the block is at most 32 bytes larger than that.
   */
  lemma MallocExact(h: Heap, size: nat, n: nat, m: nat)
    requires Shape(h) && size < TWO_64 && Rounded(size, n) && Binned(n, m)
    ensures var o := Searched(h);
            Malloc(h, size).1 < 0 <==>
            n >= 0x1_0000_0000
            || (!HasRoom(o.blocks, n) && o.brk + (if o.blocks == [] then 0x1_0000 else m) + 32 > o.limit)
    ensures n >= 0x1_0000_0000 ==> Malloc(h, size).0 == h
    ensures Malloc(h, size).1 >= 0 ==>
              var b := Malloc(h, size).0.blocks[Malloc(h, size).1];
              !b.free && n <= b.size < n + 48 && (Aligned(h.blocks) ==> b.size - n in {0, 16, 32})
  {
    hide Tiled, Coalesced, Alloc, Searched;
    RoundedIs(size, n);
    if n < 0x1_0000_0000 {
      assert RoundUp64(if size < 1 then 1 else size, ALIGN_SIZE) == n;
      assert Malloc(h, size) == Alloc(h, n);
      AllocExact(h, n, m);
    }
  }

  lemma AllocExact(h: Heap, n: nat, m: nat)
    requires Shape(h) && 0 < n <= UINT32_MAX && n % ALIGN_SIZE == 0 && Binned(n, m)
    ensures var o := Searched(h);
            Alloc(h, n).1 < 0 <==>
            !HasRoom(o.blocks, n) && o.brk + (if o.blocks == [] then 0x1_0000 else m) + 32 > o.limit
    ensures Alloc(h, n).1 >= 0 ==>
              var b := Alloc(h, n).0.blocks[Alloc(h, n).1];
              !b.free && n <= b.size < n + 48 && (Aligned(h.blocks) ==> b.size - n in {0, 16, 32})
  {
    hide Tiled, Coalesced, Alloc, Grow, Live;
    SearchedIs(h);
    AllocFailsIff(h, n);
    BinnedIs(n, m);
    BinnedIs(0x1_0000, 0x1_0000);
    AllocSize(h, n);
    if Aligned(h.blocks) { AllocSlack(h, n); }
  }

  lemma AllocSize(h: Heap, n: nat)
    requires Shape(h) && 0 < n <= UINT32_MAX
    ensures Alloc(h, n).1 >= 0 ==>
              var b := Alloc(h, n).0.blocks[Alloc(h, n).1]; !b.free && n <= b.size < n + 48
  {
    hide Tiled, Coalesced, Choose, Take, Live;
    OpenedFacts(h);
    ChooseFacts(Opened(h), n);
    var (g, k) := Choose(Opened(h), n);
    if k >= 0 { TakeFacts(g, k, n); }
  }

  /** Rounding twice is rounding once. */
  lemma MallocRounded(h: Heap, p: nat)
    requires p + ALIGN_SIZE <= UINT32_MAX + 1
    ensures Malloc(h, RoundUp(p, ALIGN_SIZE)) == Malloc(h, p)
  {
    hide Alloc;
    if p > 0 {
      RoundUpIsMask(p, ALIGN_SIZE);
      var n := RoundUp(p, ALIGN_SIZE);
      RoundUpFacts(n, ALIGN_SIZE);
      AlreadyRound(n, RoundUp64(n, ALIGN_SIZE));
    }
  }

  lemma MallocTooBig(h: Heap, p: nat)
    requires p + ALIGN_SIZE > UINT32_MAX + 1
    ensures Malloc(h, p) == (h, -1)
  {
    hide Alloc;
    RoundUpIsMask(p, ALIGN_SIZE);
  }

  /** kcalloc is kmalloc of the product, unless a factor does not fit 32 bits: then it fails. */
  lemma CallocIsMalloc(h: Heap, nmemb: nat, size: nat, p: nat)
    requires nmemb < TWO_64 && size < TWO_64 && p == nmemb * size
    ensures Calloc(h, nmemb, size) ==
            if nmemb >= 0x1_0000_0000 || size >= 0x1_0000_0000 then (h, -1) else Malloc(h, p)
  {
    hide Malloc, RoundUpWrapped;
    if nmemb <= UINT32_MAX && size <= UINT32_MAX {
      ProductFits(nmemb, size);
      RoundsInFull(p);
      WrapsNot(p);
      if p + ALIGN_SIZE <= UINT32_MAX + 1 { MallocRounded(h, p); } else { MallocTooBig(h, p); }
    }
  }

  lemma WrapsNot(p: nat)
    requires p + ALIGN_SIZE <= TWO_64
    ensures RoundUpWrapped(p) == RoundUp(p, ALIGN_SIZE)
  {
    assert p % TWO_64 == p;
  }

  /** For every product: when kcalloc fails, and how large its block is. */
  lemma CallocMeaning(h: Heap, nmemb: nat, size: nat, p: nat, n: nat, m: nat)
    requires Shape(h) && nmemb < TWO_64 && size < TWO_64 && p == nmemb * size && Rounded(p, n) && Binned(n, m)
    ensures var o := Searched(h);
            Calloc(h, nmemb, size).1 < 0 <==>
            nmemb >= 0x1_0000_0000 || size >= 0x1_0000_0000 || n >= 0x1_0000_0000
            || (!HasRoom(o.blocks, n) && o.brk + (if o.blocks == [] then 0x1_0000 else m) + 32 > o.limit)
    ensures Calloc(h, nmemb, size).1 >= 0 ==>
              var b := Calloc(h, nmemb, size).0.blocks[Calloc(h, nmemb, size).1];
              !b.free && n <= b.size < n + 48 && (Aligned(h.blocks) ==> b.size - n in {0, 16, 32})
  {
    hide Malloc, Calloc, Searched;
    CallocIsMalloc(h, nmemb, size, p);
    if nmemb <= UINT32_MAX && size <= UINT32_MAX {
      ProductFits(nmemb, size);
      MallocExact(h, p, n, m);
    }
  }

  // ---------- kfree ----------

  /** kfree takes no pointer below the heap, none in the last 48 bytes of it, and none while there is no heap. */
  lemma RefusedExact(h: Heap, p: int)
    requires Shape(h)
    ensures Refused(h, p) <==>
            p != 0 && (h.blocks == [] || p < 0x0100_0000_0000 || p > h.brk - 48)
    ensures p == 0 || Refused(h, p) ==> Free(h, p) == h
  {
    hide Tiled;
    if h.blocks != [] && KHEAP_START <= p <= h.brk - MIN_BLK_SIZE {
      SomeHolds(h.blocks, KHEAP_START, h.brk, p);
    }
    FirstStarts(h);
  }

  lemma FirstStarts(h: Heap)
    requires Shape(h)
    ensures h.blocks != [] ==> h.blocks[0].addr == KHEAP_START
    ensures h.blocks == [] ==> FindBlock(h.blocks, 0) == 0
  {
  }

  lemma {:induction false} SomeHolds(bs: seq<Block>, lo: int, hi: int, p: int)
    requires Tiled(bs, lo, hi) && lo <= p < hi
    ensures FindBlock(bs, p) < |bs|
  {
    if !bs[0].Holds(p) {
      SomeHolds(bs[1..], bs[0].End(), hi, p);
    }
  }

  // ---------- krealloc ----------

  /**
   * krealloc of a live block gives NULL, and changes nothing, exactly for the sizes that do not fit 32 bits rounded up.
   */
  lemma ReallocTooBigIff(h: Heap, i: nat, size: nat)
    requires i < |h.blocks| && 0 < size < TWO_64
    ensures Realloc(h, i, size).1 == Nothing <==> size > 0xFFFF_FFF0
    ensures size > 0xFFFF_FFF0 ==> Realloc(h, i, size).0 == h
  {
    hide Settle, Overruns, Fetched, Shrinks, GrowsInPlace;
    RoundUpIsMask(size, ALIGN_SIZE);
    if Fetched(h, i, size).1 >= 0 {
      var (g, k) := Fetched(h, i, size);
      SettleIsSomething(g, k, h.blocks[i].Ptr(), size);
    }
  }

  lemma SettleIsSomething(g: Heap, k: nat, p: int, size: nat)
    requires k < |g.blocks|
    ensures Settle(g, k, p, size).1 != Nothing
  {
  }

  lemma TotalIs(size: nat, n: nat)
    requires 0 < size && Rounded(size, n) && n < 0x1_0000_0000
    ensures Total(size) == n && !TooBig(size)
  {
    RoundedIs(size, n);
  }

  /** Where a block has been cut, what was behind the cut is free. */
  ghost predicate RestFree(was: Block, bs: seq<Block>, x: Block) {
    forall a | x.End() <= a < was.End() :: InFree(bs, a)
  }

  ghost predicate InFree(bs: seq<Block>, a: int) { exists c :: c in bs && c.free && c.Holds(a) }

  lemma CutExact(h: Heap, k: nat, s: nat)
    requires Shape(h) && k < |h.blocks| && 0 < s
    ensures var bs, was := SplitAt(h.blocks, k, s), h.blocks[k];
            && bs[k] == was.(size := if was.size >= s + 48 then s else was.size) && RestFree(was, bs, bs[k])
            && bs[..k] == h.blocks[..k]
  {
    hide Tiled, Live;
    var was, seg := h.blocks[k], h.blocks[k..];
    var r := SplitFirst(seg, s);
    SplitFirstFacts(seg, s);
    if was.size >= s + 48 {
      var rest := Block(was.Ptr() + s, was.size - s - HEADER_SIZE, true);
      TiledMember(h.blocks, KHEAP_START, h.brk, was);
      if k + 1 < |h.blocks| { TiledMember(h.blocks, KHEAP_START, h.brk, h.blocks[k + 1]); }
      RestReaches(rest, seg);
      var bs := SplitAt(h.blocks, k, s);
      assert bs[k + 1] == r[1] && bs[k + 1] in bs;
      forall a | bs[k].End() <= a < was.End() ensures InFree(bs, a) {
        assert bs[k + 1].Holds(a);
      }
    }
  }

  lemma RestReaches(rest: Block, seg: seq<Block>)
    requires seg != [] && rest.free && (|seg| > 1 ==> seg[1].size > 0)
    ensures var r := MergeFirst([rest] + seg[1..]);
            r != [] && r[0].free && r[0].addr == rest.addr && r[0].size >= rest.size
  {
  }

  /**
   * Shrinking: exactly the rounded size, unless what is left has no room for a header and 16 bytes; the rest is free.
   */
  lemma ShrinkExact(h: Heap, i: nat, size: nat, n: nat)
    requires Shape(h) && i < |h.blocks| && !h.blocks[i].free && 0 < size && Rounded(size, n) && n < h.blocks[i].size
    ensures var (g, o) := Realloc(h, i, size);
            && o == At(i) && i < |g.blocks| && g.brk == h.brk && g.blocks[..i] == h.blocks[..i]
            && g.blocks[i] == h.blocks[i].(size := if h.blocks[i].size >= n + 48 then n else h.blocks[i].size)
            && RestFree(h.blocks[i], g.blocks, g.blocks[i])
            && (Aligned(h.blocks) ==> g.blocks[i].size - n in {0, 16, 32})
  {
    hide Tiled, SplitAt;
    TiledMember(h.blocks, KHEAP_START, h.brk, h.blocks[i]);
    TotalIs(size, n);
    CutExact(h, i, n);
    assert Aligned(h.blocks) ==> AlignedBlock(h.blocks[i]);
  }

  /** The block and a free next block, as one. */
  function WithNext(bs: seq<Block>, i: nat): Block
    requires i < |bs|
  {
    bs[i].(size := bs[i].size + if i + 1 < |bs| && bs[i + 1].free then 32 + bs[i + 1].size else 0)
  }

  /** Growing in place: exactly the size asked for, not rounded, or all that is there; what is over is free. */
  lemma GrowExact(h: Heap, i: nat, size: nat, n: nat)
    requires Shape(h) && i < |h.blocks| && !h.blocks[i].free && 0 < size && Rounded(size, n) && n < 0x1_0000_0000
    requires h.blocks[i].size <= n <= WithNext(h.blocks, i).size
    ensures var (g, o) := Realloc(h, i, size);
            var w := WithNext(h.blocks, i);
            && o == At(i) && i < |g.blocks| && g.brk == h.brk && g.blocks[..i] == h.blocks[..i]
            && g.blocks[i] == w.(size := if w.size >= size + 48 then size else w.size)
            && RestFree(w, g.blocks, g.blocks[i])
  {
    hide Tiled, SplitAt, Widened, Coalesced, Aligned, Live, RestFree, Fetched, Overruns, Settle;
    TotalIs(size, n);
    ReallocSizes.WidenedParts(h.blocks, i);
    VacatedShape(h, i, size);
    var v := h.(blocks := Vacated(h.blocks, i, size));
    assert v.blocks == h.blocks[..i] + Used(Widened(h.blocks, i));
    assert GrowsInPlace(h.blocks, i, size) && Realloc(h, i, size) == (v.(blocks := SplitAt(v.blocks, i, size)), At(i));
    hide Realloc, Vacated, Used;
    CutExact(v, i, size);
  }

  /** Moving: a block at most 32 bytes larger than the rounded size, wherever a live block comes back. */
  lemma MoveExact(h: Heap, i: nat, size: nat, n: nat)
    requires Shape(h) && Aligned(h.blocks) && i < |h.blocks| && !h.blocks[i].free
    requires 0 < size && Rounded(size, n) && WithNext(h.blocks, i).size < n < 0x1_0000_0000 && ReturnsLive(h, i, size)
    ensures var (g, o) := Realloc(h, i, size); g.blocks[o.k].size - n in {0, 16, 32}
  {
    hide Tiled, Coalesced, Live, Realloc, Overruns, Stuck, FreesItsResult, Widened, ReturnsLive;
    TotalIs(size, n);
    ReallocSizes.InOrderSized(h, i);
    ReallocSizes.MovesInSizes(h.blocks, i, size);
    ReturnsLiveIff(h, i, size);
    ResizedByMoving(h, i, size);
    ReallocAlignedIff(h, i, size);
    var (g, o) := Realloc(h, i, size);
    assert AlignedBlock(g.blocks[o.k]) by { assert g.blocks[o.k] in g.blocks; }
    Multiples(size, n, g.blocks[o.k].size);
  }

  lemma Multiples(size: nat, n: nat, x: int)
    requires 0 < size && Rounded(size, n) && x % 16 == 0 && size <= x < size + 48
    ensures x - n in {0, 16, 32}
  {
  }
}
