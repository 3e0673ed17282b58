// krealloc's moving path when the previous block has swallowed the block: which bytes each step leaves where.
module MovedBytes {
  import opened Blocks
  import opened HeapSpec
  import opened HeapTheorems
  import opened Memory
  import opened HeapBytes
  import opened HeapChain
  import opened ReallocSpec
  import opened ReallocContents

  /** Inside a block but off its own header's fields there is no header. */
  lemma OnlyOwnHeader(h: Heap, z: Block, x: int)
    requires Shape(h) && z in h.blocks && z.Holds(x) && !FieldAt(z.addr, x)
    ensures !InHeaders(h.blocks, x)
  {
    forall y | y in h.blocks ensures !FieldAt(y.addr, x) {
      TiledMember(h.blocks, KHEAP_START, h.brk, y);
      if y.Holds(x) { TiledDisjoint(h.blocks, KHEAP_START, h.brk, y, z, x); }
    }
  }

  lemma TakeHeaders(v: Heap, k: nat, t: nat, x: int)
    requires k < |v.blocks| && 0 < t && InHeaders(Take(v, k, t).blocks, x)
    ensures InHeaders(v.blocks, x) || (v.blocks[k].size >= t + MIN_BLK_SIZE && FieldAt(v.blocks[k].Ptr() + t, x))
  {
    var pre, seg := v.blocks[..k], v.blocks[k..];
    assert v.blocks == pre + seg && Take(v, k, t).blocks == pre + Used(SplitFirst(seg, t));
    EitherHeaders(pre, Used(SplitFirst(seg, t)), x);
    EitherHeaders(pre, seg, x);
    if InHeaders(Used(SplitFirst(seg, t)), x) { SplitHeaders(seg, t, x); }
  }

  lemma SplitHeaders(seg: seq<Block>, t: nat, x: int)
    requires seg != [] && 0 < t && InHeaders(Used(SplitFirst(seg, t)), x)
    ensures InHeaders(seg, x) || (seg[0].size >= t + MIN_BLK_SIZE && FieldAt(seg[0].Ptr() + t, x))
  {
    hide FieldAt;
    var u := Used(SplitFirst(seg, t));
    var y :| y in u && FieldAt(y.addr, x);
    SplitPlaces(seg, t, y);
  }

  /** The headers of a split segment stand where headers stood, but for the rest's. */
  lemma SplitPlaces(seg: seq<Block>, t: nat, y: Block)
    requires seg != [] && 0 < t && y in Used(SplitFirst(seg, t))
    ensures (exists b :: b in seg && b.addr == y.addr)
            || (seg[0].size >= t + MIN_BLK_SIZE && y.addr == seg[0].Ptr() + t)
  {
    hide Live, Aligned, Coalesced, MergeFirst;
    var u := Used(SplitFirst(seg, t));
    SplitFirstFacts(seg, t);
    assert seg[0] in seg;
    if y != u[0] && seg[0].size >= t + MIN_BLK_SIZE {
      var rest := Block(seg[0].Ptr() + t, seg[0].size - t - HEADER_SIZE, true);
      assert y in MergeFirst([rest] + seg[1..]);
      MergePlaces([rest] + seg[1..], y);
    }
  }

  lemma MergePlaces(bs: seq<Block>, y: Block)
    requires bs != [] && y in MergeFirst(bs)
    ensures y in bs[1..] || y.addr == bs[0].addr
  {
  }

  lemma ChosenHeaders(v: Heap, t: nat, x: int)
    requires Shape(v) && 0 < t <= UINT32_MAX && x < v.brk && InHeaders(Choose(v, t).0.blocks, x)
    ensures InHeaders(v.blocks, x)
  {
    RoundUpFacts(t, BIN_SIZE);
    if Choose(v, t).0 != v {
      ExtensionFacts(v.brk, t);
      EitherHeaders(v.blocks, Extension(v.brk, t), x);
      HeadersInside(Extension(v.brk, t), v.brk, v.brk + RoundUp(t, BIN_SIZE) + HEADER_SIZE, x);
    }
  }

  /** In the payload of the block that has swallowed the old one, kmalloc writes the header of a rest or nothing. */
  lemma NearHeaders(h: Heap, i: nat, size: nat, x: int)
    requires Shape(h) && i < |h.blocks| && !h.blocks[i].free && 0 < size && !TooBig(size) && Absorbed(h.blocks, i, size)
    requires Fetched(h, i, size).1 >= 0
    requires i - 1 < |Before(h, i, size).blocks| && Before(h, i, size).blocks[i - 1].InPayload(x)
    ensures InHeaders(Fetched(h, i, size).0.blocks, x) <==> Splits(h, i, size) && FieldAt(RestAddr(h, i, size), x)
  {
    hide Tiled, FreeAt, FirstExact, LastOversized, Take, FieldAt;
    var v, t := Before(h, i, size), Total(size);
    TotalFacts(size);
    RoundUpFacts(t, ALIGN_SIZE);
    AlreadyRound(t, RoundUp64(t, ALIGN_SIZE));
    FreeShape(h, i);
    OpenedFacts(v);
    ChooseFacts(v, t);
    var (gv, k) := Choose(v, t);
    var g := Fetched(h, i, size).0;
    assert Shape(v) && v.blocks != [] && Opened(v) == v && g == Take(gv, k, t);
    StillBehind(v, i - 1, t);
    NoHeaderHere(v, gv, i - 1, t, x);
    if TakesBack(h, i, size) {
      TakenBack(h, i, size);
      BackHeaders(h, i, size, x);
    } else if InHeaders(g.blocks, x) {
      TakeHeaders(gv, k, t, x);
      RestElsewhere(gv, k, i - 1, t, x);
    }
  }

  lemma NoHeaderHere(v: Heap, gv: Heap, j: nat, t: nat, x: int)
    requires Shape(v) && 0 < t <= UINT32_MAX && gv == Choose(v, t).0 && j < |v.blocks| && v.blocks[j].InPayload(x)
    ensures !InHeaders(gv.blocks, x)
  {
    TiledMember(v.blocks, KHEAP_START, v.brk, v.blocks[j]);
    OwnPayloadApart(v, v.blocks[j], x);
    if InHeaders(gv.blocks, x) { ChosenHeaders(v, t, x); }
  }

  lemma BackHeaders(h: Heap, i: nat, size: nat, x: int)
    requires i < |h.blocks| && 0 < size && TakesBack(h, i, size) && i > 0
    requires var v, g := Before(h, i, size), Fetched(h, i, size).0;
             && g == Take(v, i - 1, Total(size)) && 0 < Total(size) && !InHeaders(v.blocks, x)
             && v.blocks[i - 1].addr == h.blocks[i - 1].addr
             && (v.blocks[i - 1].size >= Total(size) + MIN_BLK_SIZE ==>
                 i < |g.blocks| && g.blocks[i].addr == RestAddr(h, i, size))
    ensures InHeaders(Fetched(h, i, size).0.blocks, x) <==> Splits(h, i, size) && FieldAt(RestAddr(h, i, size), x)
  {
    hide Take, FieldAt, Fetched, Before, Absorbed;
    var v, g := Before(h, i, size), Fetched(h, i, size).0;
    if InHeaders(g.blocks, x) { TakeHeaders(v, i - 1, Total(size), x); }
    if Splits(h, i, size) && FieldAt(RestAddr(h, i, size), x) { assert g.blocks[i] in g.blocks; }
  }

  lemma RestElsewhere(g: Heap, k: nat, j: nat, t: nat, x: int)
    requires Shape(g) && k < |g.blocks| && j < |g.blocks| && k != j && g.blocks[j].InPayload(x) && 0 < t
    requires g.blocks[k].size >= t + MIN_BLK_SIZE
    ensures !FieldAt(g.blocks[k].Ptr() + t, x)
  {
    if FieldAt(g.blocks[k].Ptr() + t, x) {
      FindInTiling(g, k, x);
      FindInTiling(g, j, x);
    }
  }

  /** kmalloc, called from memory m, has left memory n. */
  ghost predicate Kmalloced(h: Heap, i: nat, size: nat, m: Store, n: Store)
    requires i < |h.blocks|
  {
    var (g, k) := Fetched(h, i, size);
    k >= 0 && Aside(m.bytes, n.bytes, Before(h, i, size).blocks, g.blocks, h.brk) && Chain(n.hdr, g.blocks, 0, 0)
  }

  /** The header of block i is the one krealloc leaves. */
  ghost predicate StaleIn(h: Heap, i: nat, size: nat, m: Store)
    requires i < |h.blocks|
  {
    h.blocks[i].addr in m.hdr && m.hdr[h.blocks[i].addr] == StaleHeader(h, i, size)
  }

  /** What kmalloc leaves of the old header and payload. */
  lemma AfterKmalloc(h: Heap, i: nat, size: nat, m: Store, n: Store, x: int)
    requires Shape(h) && i < |h.blocks| && !h.blocks[i].free && 0 < size && !TooBig(size) && Absorbed(h.blocks, i, size)
    requires Kmalloced(h, i, size, m, n)
    requires i - 1 < |Before(h, i, size).blocks| && Before(h, i, size).blocks[i - 1].InPayload(x)
    ensures Lookup(n.bytes, x) == Found(m.bytes, h, i, size, x)
  {
    hide Tiled, FreeAt, Take, FieldAt, Fetched, HeaderByte, HeaderOf, Chain, Absorbed;
    var v, g := Before(h, i, size), Fetched(h, i, size).0;
    NearHeaders(h, i, size, x);
    BeforeShape(h, i, size);
    TiledMember(v.blocks, KHEAP_START, v.brk, v.blocks[i - 1]);
    OwnPayloadApart(v, v.blocks[i - 1], x);
    if Splits(h, i, size) && FieldAt(RestAddr(h, i, size), x) {
      TakenBack(h, i, size);
      HeaderThere(n, g.blocks, i);
    }
  }

  lemma BeforeShape(h: Heap, i: nat, size: nat)
    requires Shape(h) && i < |h.blocks| && Absorbed(h.blocks, i, size)
    ensures i > 0 && Shape(Before(h, i, size))
  {
    FreeShape(h, i);
  }

  lemma HeaderThere(n: Store, bs: seq<Block>, j: nat)
    requires Chain(n.hdr, bs, 0, 0) && j < |bs|
    ensures Spelled(n.bytes, bs[j].addr, HeaderOf(bs, j))
  {
    ChainAt(n.hdr, bs, 0, 0, j);
    assert Spelled(n.bytes, bs[j].addr, n.hdr[bs[j].addr]);
  }

  /** The old header and payload lie in the payload of the block that has swallowed them. */
  lemma InsideSwallower(h: Heap, i: nat, size: nat, x: int)
    requires Shape(h) && i < |h.blocks| && Absorbed(h.blocks, i, size)
    ensures i > 0 && i - 1 < |Before(h, i, size).blocks|
    ensures h.blocks[i - 1].Ptr() <= x < Stretched(h.blocks, i).End() ==> Before(h, i, size).blocks[i - 1].InPayload(x)
    ensures h.blocks[i - 1].Ptr() <= h.blocks[i].addr && h.blocks[i].Ptr() <= Stretched(h.blocks, i).End()
    ensures h.blocks[i].End() <= Stretched(h.blocks, i).End() && Stretched(h.blocks, i).addr == h.blocks[i].addr
  {
    hide Tiled, FreeAt;
    Swallowing(h, i);
    SwallowedBehind(h, i);
    StretchedFits(h, i);
    WidenedFacts(h, i);
    TiledMember(h.blocks, KHEAP_START, h.brk, h.blocks[i - 1]);
  }

  /** The size that krealloc reads back after kmalloc. */
  lemma ReadsBack(h: Heap, i: nat, size: nat, m: Store, n: Store, j: nat)
    requires Shape(h) && i < |h.blocks| && !h.blocks[i].free && 0 < size && !TooBig(size) && Absorbed(h.blocks, i, size)
    requires Kmalloced(h, i, size, m, n)
    requires StaleIn(h, i, size, m) && j < 4
    ensures var x := h.blocks[i].addr + SIZE_OFFSET + j;
            Lookup(n.bytes, x) == Is(Over(h, i, size, x, Le(Stretched(h.blocks, i).size, j)))
  {
    hide Tiled, FreeAt, Take, Fetched, HeaderOf, Chain, Absorbed, Stretched, Le, Splits, StaleHeader, Kmalloced;
    var b, x := h.blocks[i].addr, h.blocks[i].addr + SIZE_OFFSET + j;
    InsideSwallower(h, i, size, x);
    StretchedFits(h, i);
    AfterKmalloc(h, i, size, m, n, x);
    assert Spelled(m.bytes, b, m.hdr[b]);
    assert FieldAt(b, x);
    SizeField(h, i, size, j);
  }

  /** The bytes of the size field of a header at a say n. */
  predicate SizeAt(b: map<int, Byte>, a: int, n: int) {
    var x := a + SIZE_OFFSET;
    x in b && x + 1 in b && x + 2 in b && x + 3 in b && Word32(b, x) == n
  }

  lemma SwallowedSize(h: Heap, i: nat, size: nat, m: Store, n: Store)
    requires Shape(h) && i < |h.blocks| && !h.blocks[i].free && 0 < size && !TooBig(size) && Absorbed(h.blocks, i, size)
    requires Kmalloced(h, i, size, m, n) && StaleIn(h, i, size, m)
    ensures SizeAt(n.bytes, h.blocks[i].addr, StaleSize(h, i, size))
  {
    hide Shape, Absorbed, Kmalloced, StaleIn, Over, Stretched, Le;
    ReadsBack(h, i, size, m, n, 0);
    ReadsBack(h, i, size, m, n, 1);
    ReadsBack(h, i, size, m, n, 2);
    ReadsBack(h, i, size, m, n, 3);
  }

  lemma SizeField(h: Heap, i: nat, size: nat, j: nat)
    requires i < |h.blocks| && j < 4
    ensures HeaderByte(StaleHeader(h, i, size), SIZE_OFFSET + j) == Le(Stretched(h.blocks, i).size, j)
  {
    hide Le, Stretched, Before;
  }

  /**
   * The bytes of one call, step by step: before it, after the merges, after kmalloc, memcpy, kfree and the last split.
   */
  ghost predicate Steps(h: Heap, i: nat, size: nat, b0: map<int, Byte>, m: Store, n: Store,
                        b3: map<int, Byte>, b4: map<int, Byte>, b5: map<int, Byte>)
    requires i < |h.blocks|
  {
    var (g, k) := Fetched(h, i, size);
    && OnlyHeaders(b0, m.bytes, h.blocks, 0, 0) && StaleIn(h, i, size, m) && Kmalloced(h, i, size, m, n)
    && var p, q, c := h.blocks[i].Ptr(), g.blocks[k].Ptr(), StaleSize(h, i, size);
       && (q <= p || p + c <= q ==> Copied(n.bytes, p, b3, q, c)) && BytesOutside(n.bytes, b3, q, q + c)
       && OnlyHeaders(b3, b4, g.blocks, 0, 0) && SameBytes(b4, b5, q, q + size)
  }

  /** What the last three steps do to byte o of the block returned. */
  lemma LastSteps(h: Heap, i: nat, size: nat, b0: map<int, Byte>, m: Store, n: Store,
                  b3: map<int, Byte>, b4: map<int, Byte>, b5: map<int, Byte>, o: nat)
    requires Shape(h) && i < |h.blocks| && !h.blocks[i].free && 0 < size && !TooBig(size) && Absorbed(h.blocks, i, size)
    requires Steps(h, i, size, b0, m, n, b3, b4, b5) && o < Wanted(h, i, size)
    ensures var p, q, c := h.blocks[i].Ptr(), Fetched(h, i, size).0.blocks[Fetched(h, i, size).1].Ptr(),
            StaleSize(h, i, size);
            Lookup(b5, q + o) == if o < c && (q <= p || p + c <= q) then Lookup(n.bytes, p + o)
                                 else if o < c then Lookup(b5, q + o) else Lookup(n.bytes, q + o)
  {
    hide Tiled, FreeAt, Take, Fetched, Absorbed, StaleSize, StaleIn, Kmalloced;
    WithFetched(h, i, size, m, n);
    var (g, k) := Fetched(h, i, size);
    var q := g.blocks[k].Ptr();
    TotalFacts(size);
    BeforeShape(h, i, size);
    FetchedBlock(h, i, size);
    OwnPayloadApart(g, g.blocks[k], q + o);
    assert !InHeaders(g.blocks, q + o);
  }

  lemma FetchedBlock(h: Heap, i: nat, size: nat)
    requires Shape(h) && i < |h.blocks| && 0 < size && !TooBig(size) && Shape(Before(h, i, size))
             && Fetched(h, i, size).1 >= 0
    ensures var (g, k) := Fetched(h, i, size); Shape(g) && size <= Total(size) <= g.blocks[k].size && !g.blocks[k].free
  {
    TotalFacts(size);
    MallocMeaning(Before(h, i, size), Total(size));
  }

  /** Where kmalloc puts the block: before the old one when it was taken back, else clear of it. */
  lemma FetchedWhere(h: Heap, i: nat, size: nat)
    requires Shape(h) && i < |h.blocks| && !h.blocks[i].free && 0 < size && !TooBig(size) && Absorbed(h.blocks, i, size)
    requires Fetched(h, i, size).1 >= 0
    ensures i > 0
    ensures var p, q := h.blocks[i].Ptr(), Fetched(h, i, size).0.blocks[Fetched(h, i, size).1].Ptr();
            if TakesBack(h, i, size) then q == h.blocks[i - 1].Ptr() <= p
            else StaleSize(h, i, size) == Stretched(h.blocks, i).size
                 && (q <= p || p + Stretched(h.blocks, i).size <= q)
  {
    hide Tiled, FreeAt, Malloc, Take, Stretched, StaleSize;
    InsideSwallower(h, i, size, h.blocks[i].Ptr());
    if TakesBack(h, i, size) {
      TakenBack(h, i, size);
      SwallowedBehind(h, i);
      TakeFacts(Before(h, i, size), i - 1, Total(size));
    } else {
      StaleIntact(h, i, size);
      OutsideSwallower(h, i, size);
    }
  }

  lemma OutsideSwallower(h: Heap, i: nat, size: nat)
    requires Shape(h) && i < |h.blocks| && !h.blocks[i].free && 0 < size && !TooBig(size) && Absorbed(h.blocks, i, size)
    requires Fetched(h, i, size).1 >= 0 && !TakesBack(h, i, size)
    ensures var p, q := h.blocks[i].Ptr(), Fetched(h, i, size).0.blocks[Fetched(h, i, size).1].Ptr();
            q <= p || p + Stretched(h.blocks, i).size <= q
  {
    hide Tiled, FreeAt, FirstExact, LastOversized, Take, Stretched;
    var v, t, p := Before(h, i, size), Total(size), h.blocks[i].Ptr();
    TotalFacts(size);
    RoundUpFacts(t, ALIGN_SIZE);
    AlreadyRound(t, RoundUp64(t, ALIGN_SIZE));
    FreeShape(h, i);
    InsideSwallower(h, i, size, p);
    OpenedFacts(v);
    ChooseFacts(v, t);
    var (gv, k) := Choose(v, t);
    TakePlaces(gv, k, t);
    StillBehind(v, i - 1, t);
    var q := gv.blocks[k].Ptr();
    TiledMember(gv.blocks, KHEAP_START, gv.brk, gv.blocks[k]);
    if p < q < p + Stretched(h.blocks, i).size {
      InsideSwallower(h, i, size, q);
      FindInTiling(gv, k, q);
      FindInTiling(gv, i - 1, q);
    }
  }

  /** Byte o of the block returned. */
  lemma ResultByte(h: Heap, i: nat, size: nat, b0: map<int, Byte>, m: Store, n: Store,
                   b3: map<int, Byte>, b4: map<int, Byte>, b5: map<int, Byte>, o: nat)
    requires Shape(h) && i < |h.blocks| && !h.blocks[i].free && 0 < size && !TooBig(size) && Absorbed(h.blocks, i, size)
    requires Steps(h, i, size, b0, m, n, b3, b4, b5) && o < Wanted(h, i, size)
    ensures Lookup(b5, Fetched(h, i, size).0.blocks[Fetched(h, i, size).1].Ptr() + o) == Result(b0, h, i, size, o)
  {
    hide Tiled, FreeAt, Take, Fetched, HeaderOf, Chain, Absorbed, Stretched, StaleSize, Found, Stays, TakesBack;
    hide Wanted, Kmalloced;
    hide OnlyHeaders, StaleIn, Copied, SameBytes, BytesOutside, Lookup;
    LastSteps(h, i, size, b0, m, n, b3, b4, b5, o);
    WithFetched(h, i, size, m, n);
    CopyIsRight(h, i, size);
    if o < StaleSize(h, i, size) {
      FoundBefore(h, i, size, b0, m, n, o);
    } else {
      BehindTheCopy(h, i, size, b0, m, n, o);
      FetchedWhere(h, i, size);
    }
  }

  lemma CopyIsRight(h: Heap, i: nat, size: nat)
    requires Shape(h) && i < |h.blocks| && !h.blocks[i].free && 0 < size && !TooBig(size) && Absorbed(h.blocks, i, size)
    requires Fetched(h, i, size).1 >= 0
    ensures var p, q := h.blocks[i].Ptr(), Fetched(h, i, size).0.blocks[Fetched(h, i, size).1].Ptr();
            i > 0 && (q <= p || p + StaleSize(h, i, size) <= q)
  {
    hide Tiled, FreeAt, Take, Fetched, Absorbed, Stretched, StaleSize, TakesBack;
    FetchedWhere(h, i, size);
  }

  lemma WithFetched(h: Heap, i: nat, size: nat, m: Store, n: Store)
    requires i < |h.blocks| && Kmalloced(h, i, size, m, n)
    ensures Fetched(h, i, size).1 >= 0
  {
  }

  lemma FoundBefore(h: Heap, i: nat, size: nat, b0: map<int, Byte>, m: Store, n: Store, o: nat)
    requires Shape(h) && i < |h.blocks| && !h.blocks[i].free && 0 < size && !TooBig(size) && Absorbed(h.blocks, i, size)
    requires OnlyHeaders(b0, m.bytes, h.blocks, 0, 0) && Kmalloced(h, i, size, m, n) && o < Wanted(h, i, size)
    ensures Lookup(n.bytes, h.blocks[i].Ptr() + o) == Found(b0, h, i, size, h.blocks[i].Ptr() + o)
  {
    hide Tiled, FreeAt, Take, Fetched, HeaderOf, Absorbed, Stretched, Splits, FieldAt, Kmalloced;
    var p := h.blocks[i].Ptr();
    InsideSwallower(h, i, size, p + o);
    AfterKmalloc(h, i, size, m, n, p + o);
    OwnPayloadApart(h, h.blocks[i], p + o);
  }

  lemma BehindTheCopy(h: Heap, i: nat, size: nat, b0: map<int, Byte>, m: Store, n: Store, o: nat)
    requires Shape(h) && i < |h.blocks| && !h.blocks[i].free && 0 < size && !TooBig(size) && Absorbed(h.blocks, i, size)
    requires OnlyHeaders(b0, m.bytes, h.blocks, 0, 0)
    requires StaleIn(h, i, size, m)
    requires Kmalloced(h, i, size, m, n)
    requires StaleSize(h, i, size) <= o < Wanted(h, i, size)
    ensures i > 0 && TakesBack(h, i, size)
    ensures Lookup(n.bytes, h.blocks[i - 1].Ptr() + o) == Stays(b0, h, i, size, h.blocks[i - 1].Ptr() + o)
  {
    hide Tiled, FreeAt, Take, Fetched, HeaderOf, Chain, Absorbed, Stretched, StaleSize, StaleHeader, FieldAt;
    TooShort(h, i, size);
    TakenBack(h, i, size);
    TotalFacts(size);
    var x, b := h.blocks[i - 1].Ptr() + o, h.blocks[i].addr;
    InsideSwallower(h, i, size, x);
    SwallowedBehind(h, i);
    StretchedFits(h, i);
    BelowRest(h, i, size, x);
    AfterKmalloc(h, i, size, m, n, x);
    if FieldAt(b, x) {
      assert Spelled(m.bytes, b, m.hdr[b]);
    } else {
      NoOldHeader(h, i, x);
    }
  }

  lemma BelowRest(h: Heap, i: nat, size: nat, x: int)
    requires i < |h.blocks| && x < RestAddr(h, i, size)
    ensures !FieldAt(RestAddr(h, i, size), x)
  {
  }

  lemma NoOldHeader(h: Heap, i: nat, x: int)
    requires Shape(h) && 0 < i < |h.blocks| && h.blocks[i - 1].Ptr() <= x < h.blocks[i].End()
             && !FieldAt(h.blocks[i].addr, x)
    ensures !InHeaders(h.blocks, x)
  {
    hide Tiled;
    SwallowedBehind(h, i);
    if x < h.blocks[i].addr {
      OwnPayloadApart(h, h.blocks[i - 1], x);
    } else {
      OnlyOwnHeader(h, h.blocks[i], x);
    }
  }

  /** The bytes of the block returned are those of Result, and no other live payload has changed. */
  ghost predicate Delivered(h: Heap, i: nat, size: nat, b: map<int, Byte>, c: map<int, Byte>, p: int)
    requires i < |h.blocks|
  {
    && (forall o: nat {:trigger Result(b, h, i, size, o)} | o < Wanted(h, i, size) ::
          Lookup(c, p + o) == Result(b, h, i, size, o))
    && Untouched(b, c, Live(h.blocks) - {h.blocks[i]})
  }

  /** The steps leave every live payload but the two alone. */
  lemma OthersStay(h: Heap, i: nat, size: nat, b0: map<int, Byte>, b1: map<int, Byte>, b2: map<int, Byte>,
                   b3: map<int, Byte>, b4: map<int, Byte>, b5: map<int, Byte>)
    requires Shape(h) && i < |h.blocks| && !h.blocks[i].free && 0 < size && !TooBig(size) && Absorbed(h.blocks, i, size)
    requires var (g, k) := Fetched(h, i, size);
             && k >= 0 && !Overruns(h, i, size)
             && Untouched(b0, b1, Live(h.blocks)) && Untouched(b1, b2, Live(Before(h, i, size).blocks))
             && BytesOutside(b2, b3, g.blocks[k].Ptr(), g.blocks[k].Ptr() + StaleSize(h, i, size))
             && Untouched(b3, b4, Live(g.blocks))
             && var f := Free(g, h.blocks[i].Ptr()).blocks;
                var j := FindBlock(f, g.blocks[k].Ptr());
                j < |f| && f[j].addr == g.blocks[k].addr && Untouched(b4, b5, Live(f) - {f[j]})
    ensures Untouched(b0, b5, Live(h.blocks) - {h.blocks[i]})
  {
    hide Tiled, FreeAt, Malloc, Free, StaleSize, FindBlock, Refused;
    FitsIn(h, i, size);
    hide Absorbed, Overruns;
    var (g, k) := Fetched(h, i, size);
    var p, x := h.blocks[i].Ptr(), g.blocks[k];
    BeforeShape(h, i, size);
    var rest := Live(h.blocks) - {h.blocks[i]};
    VacatedBack(h, i, size);
    assert Untouched(b1, b2, rest);
    MallocMeaning(Before(h, i, size), Total(size));
    FreeMeaning(g, p);
    var f := Free(g, p).blocks;
    var j := FindBlock(f, x.Ptr());
    TiledMember(h.blocks, KHEAP_START, h.brk, h.blocks[i]);
    forall c, a | c in rest && c.InPayload(a) ensures Same(b0, b5, a) {
      assert c in Live(g.blocks) && c != x;
      assert !x.InPayload(a) by { if x.Holds(a) { TiledDisjoint(g.blocks, KHEAP_START, g.brk, c, x, a); } }
      StaysLive(h, i, g, c, p, size);
      NotThere(g, c, x, f[j]);
      assert Same(b0, b1, a) && Same(b1, b2, a) && Same(b2, b3, a) && Same(b3, b4, a) && Same(b4, b5, a);
    }
  }

  lemma FitsIn(h: Heap, i: nat, size: nat)
    requires i < |h.blocks| && !TooBig(size) && Absorbed(h.blocks, i, size) && !Overruns(h, i, size)
             && Fetched(h, i, size).1 >= 0
    ensures var (g, k) := Fetched(h, i, size); StaleSize(h, i, size) <= g.blocks[k].size
  {
    hide StaleSize;
  }

  lemma VacatedBack(h: Heap, i: nat, size: nat)
    requires Shape(h) && i < |h.blocks| && !h.blocks[i].free && Absorbed(h.blocks, i, size)
    ensures Live(Before(h, i, size).blocks) == Live(h.blocks) - {h.blocks[i]}
  {
    FreeAtMeaning(h, i);
  }

  /** kfree of the old pointer ends no other block that was live. */
  lemma StaysLive(h: Heap, i: nat, g: Heap, c: Block, p: int, size: nat)
    requires Shape(h) && i < |h.blocks| && p == h.blocks[i].Ptr() && c in Live(h.blocks) && c != h.blocks[i] && Shape(g)
    requires c in Live(g.blocks) && p > 0 && h.blocks[i].size > 0
    ensures c in Live(Free(g, p).blocks)
  {
    hide Tiled, Free, Refused;
    FreeMeaning(g, p);
    if c.Holds(p) { TiledDisjoint(h.blocks, KHEAP_START, h.brk, c, h.blocks[i], p); }
  }

  lemma NotThere(g: Heap, c: Block, x: Block, y: Block)
    requires Shape(g) && c in g.blocks && x in g.blocks && c != x && y.addr == x.addr
    ensures c != y
  {
    if c.addr == x.addr { OnlyOneThere(g, c, x); }
  }

  /** The steps of a move out of a swallowed block, put together. */
  lemma AbsorbedDone(h: Heap, i: nat, size: nat, b0: map<int, Byte>, m: Store, n: Store,
                     b3: map<int, Byte>, b4: map<int, Byte>, b5: map<int, Byte>)
    requires Shape(h) && i < |h.blocks| && !h.blocks[i].free && 0 < size && !TooBig(size) && Absorbed(h.blocks, i, size)
    requires Steps(h, i, size, b0, m, n, b3, b4, b5) && !Overruns(h, i, size)
    requires Untouched(b0, m.bytes, Live(h.blocks)) && Untouched(m.bytes, n.bytes, Live(Before(h, i, size).blocks))
    requires var (g, k) := Fetched(h, i, size);
             && Untouched(b3, b4, Live(g.blocks))
             && var f := Free(g, h.blocks[i].Ptr()).blocks;
                var j := FindBlock(f, g.blocks[k].Ptr());
                j < |f| && f[j].addr == g.blocks[k].addr && Untouched(b4, b5, Live(f) - {f[j]})
    ensures Delivered(h, i, size, b0, b5, Fetched(h, i, size).0.blocks[Fetched(h, i, size).1].Ptr())
  {
    hide Tiled, FreeAt, Fetched, Absorbed, Overruns, StaleSize, Wanted, Result, Kmalloced, StaleIn, Free, FindBlock;
    hide Untouched;
    WithFetched(h, i, size, m, n);
    OthersStay(h, i, size, b0, m.bytes, n.bytes, b3, b4, b5);
    forall o: nat | o < Wanted(h, i, size)
      ensures Lookup(b5, Fetched(h, i, size).0.blocks[Fetched(h, i, size).1].Ptr() + o) == Result(b0, h, i, size, o)
    {
      ResultByte(h, i, size, b0, m, n, b3, b4, b5, o);
    }
  }

  /** Where krealloc delivers, the bytes are the old ones. */
  lemma KeptBytes(h: Heap, i: nat, size: nat, b: map<int, Byte>, c: map<int, Byte>, p: int)
    requires i < |h.blocks| && Delivered(h, i, size, b, c, p) && ContentsKept(h, i, size)
    ensures Copied(b, h.blocks[i].Ptr(), c, p, Wanted(h, i, size))
  {
    hide Result, Wanted;
    forall a | p <= a < p + Wanted(h, i, size)
      ensures var x := h.blocks[i].Ptr() + (a - p); (x in b <==> a in c) && (a in c ==> b[x] == c[a])
    {
      var o: nat := a - p;
      assert Lookup(c, p + o) == Result(b, h, i, size, o) == Lookup(b, h.blocks[i].Ptr() + o);
    }
  }
}
