// Which bytes of memory the writes of kmalloc.c can reach: header fields, and what they leave alone.
module HeapBytes {
  import opened Blocks
  import opened HeapSpec
  import opened Memory

  /** No byte of any of these payloads has changed. */
  ghost predicate Untouched(b: map<int, Byte>, c: map<int, Byte>, payloads: set<Block>) {
    forall x, a | x in payloads && x.InPayload(a) :: Same(b, c, a)
  }

  /** a is the address of a field of one of these headers. */
  ghost predicate InHeaders(bs: seq<Block>, a: int) {
    exists b :: b in bs && FieldAt(b.addr, a)
  }

  /** Bytes change at most inside the headers of bs and inside [lo, hi). */
  ghost predicate OnlyHeaders(b: map<int, Byte>, c: map<int, Byte>, bs: seq<Block>, lo: int, hi: int) {
    forall a {:trigger a in b} {:trigger a in c} | !InHeaders(bs, a) && !(lo <= a < hi) ::
      (a in b <==> a in c) && (a in b ==> b[a] == c[a])
  }

  /** A live payload lies below the break, outside every header and every free block. */
  lemma PayloadApart(h: Heap, c: Block, a: int)
    requires Shape(h) && c in Live(h.blocks) && c.InPayload(a)
    ensures a < h.brk && !InHeaders(h.blocks, a) && forall x | x in h.blocks :: !x.InHeader(a)
    ensures forall x | x in h.blocks && x.free :: !x.Holds(a)
  {
    TiledMember(h.blocks, KHEAP_START, h.brk, c);
    forall x | x in h.blocks ensures x.Holds(a) ==> x == c {
      TiledMember(h.blocks, KHEAP_START, h.brk, x);
      if x.Holds(a) {
        TiledDisjoint(h.blocks, KHEAP_START, h.brk, x, c, a);
      }
    }
    assert forall x | x in h.blocks :: x.size > 0 && (FieldAt(x.addr, a) ==> x.Holds(a)) by {
      forall x | x in h.blocks ensures x.size > 0 { TiledMember(h.blocks, KHEAP_START, h.brk, x); }
    }
  }

  /** Writing headers, and bytes of a free block or beyond the break, leaves every live payload alone. */
  lemma HeaderWritesAreQuiet(b: map<int, Byte>, c: map<int, Byte>, h: Heap, seg: seq<Block>, lo: int, hi: int)
    requires Shape(h) && OnlyHeaders(b, c, seg, lo, hi) && forall x | x in seg :: x in h.blocks
    requires h.brk <= lo || hi <= lo || exists x :: x in h.blocks && x.free && x.addr <= lo && hi <= x.End()
    ensures Untouched(b, c, Live(h.blocks))
  {
    forall x, a | x in Live(h.blocks) && x.InPayload(a) ensures Same(b, c, a) {
      PayloadApart(h, x, a);
      assert !InHeaders(seg, a) by { MoreHeaders(seg, h.blocks, a); }
      assert !(lo <= a < hi);
    }
  }

  lemma HeadersInside(bs: seq<Block>, lo: int, hi: int, a: int)
    requires Tiled(bs, lo, hi)
    ensures InHeaders(bs, a) ==> lo <= a < hi
  {
    if x :| x in bs && FieldAt(x.addr, a) { TiledMember(bs, lo, hi, x); }
  }

  lemma CarvedHeaders(post: seq<Block>, rest: Block, a: int)
    requires rest.free && !InHeaders(post + MergeFirst([rest] + post), a)
    ensures !InHeaders([rest] + post, a) && !FieldAt(rest.addr, a) && (post != [] ==> !FieldAt(post[0].addr, a))
  {
    MergeFirstFacts([rest] + post);
    var x := MergeFirst([rest] + post)[0];
    assert x in post + MergeFirst([rest] + post) && x.addr == rest.addr;
    assert post != [] ==> post[0] in post + MergeFirst([rest] + post);
  }

  lemma MoreHeaders(seg: seq<Block>, bs: seq<Block>, a: int)
    requires forall x | x in seg :: x in bs
    ensures InHeaders(seg, a) ==> InHeaders(bs, a)
  {
  }

  /** No header lies in a block's payload. */
  lemma OwnPayloadApart(h: Heap, x: Block, a: int)
    requires Shape(h) && x in h.blocks && x.InPayload(a)
    ensures !InHeaders(h.blocks, a)
  {
    forall y | y in h.blocks ensures !FieldAt(y.addr, a) {
      TiledMember(h.blocks, KHEAP_START, h.brk, y);
      if y.Holds(a) { TiledDisjoint(h.blocks, KHEAP_START, h.brk, x, y, a); }
    }
  }

  /** Header writes alone leave alone what is payload before and after. */
  lemma QuietBoth(b: map<int, Byte>, c: map<int, Byte>, h: Heap, g: Heap)
    requires Shape(h) && Shape(g) && OnlyHeaders(b, c, h.blocks + g.blocks, 0, 0)
    ensures Untouched(b, c, Live(h.blocks) * Live(g.blocks))
  {
    forall x, a | x in Live(h.blocks) * Live(g.blocks) && x.InPayload(a) ensures Same(b, c, a) {
      PayloadApart(h, x, a);
      PayloadApart(g, x, a);
      EitherHeaders(h.blocks, g.blocks, a);
    }
  }

  lemma EitherHeaders(bs: seq<Block>, cs: seq<Block>, a: int)
    ensures InHeaders(bs + cs, a) <==> InHeaders(bs, a) || InHeaders(cs, a)
  {
    if x :| x in bs && FieldAt(x.addr, a) { assert x in bs + cs; }
    if x :| x in cs && FieldAt(x.addr, a) { assert x in bs + cs; }
  }

  /** The headers of a segment and of what replaces it are among those of the whole list before and after. */
  lemma WiderHeaders(b: map<int, Byte>, c: map<int, Byte>, pre: seq<Block>, seg: seq<Block>, seg': seq<Block>)
    requires OnlyHeaders(b, c, seg + seg', 0, 0)
    ensures OnlyHeaders(b, c, (pre + seg) + (pre + seg'), 0, 0)
  {
    forall a | !InHeaders((pre + seg) + (pre + seg'), a) ensures !InHeaders(seg + seg', a) {
      MoreHeaders(seg + seg', (pre + seg) + (pre + seg'), a);
    }
  }

  lemma SamePayload(b: map<int, Byte>, c: map<int, Byte>, payloads: set<Block>, x: Block)
    requires Untouched(b, c, payloads) && x in payloads
    ensures SameBytes(b, c, x.Ptr(), x.End())
  {
    forall a | x.Ptr() <= a < x.End() ensures (a in b <==> a in c) && (a in b ==> b[a] == c[a]) {
      assert x.InPayload(a) && Same(b, c, a);
    }
  }

  lemma UntouchedSince(b0: map<int, Byte>, b1: map<int, Byte>, b2: map<int, Byte>, live: set<Block>, x: Block)
    requires Untouched(b0, b1, live) && BytesOutside(b1, b2, x.Ptr(), x.End())
    requires forall c, a | c in live && c.Holds(a) :: !x.Holds(a)
    ensures Untouched(b0, b2, live)
  {
    forall c, a | c in live && c.InPayload(a) ensures Same(b0, b2, a) {
      assert Same(b0, b1, a) && c.Holds(a);
    }
  }

  /** Below top, bytes change at most in the fields of two lists' headers. */
  ghost predicate Aside(b: map<int, Byte>, c: map<int, Byte>, bs: seq<Block>, cs: seq<Block>, top: int) {
    forall a {:trigger a in b} {:trigger a in c} | a < top && !InHeaders(bs, a) && !InHeaders(cs, a) ::
      (a in b <==> a in c) && (a in b ==> b[a] == c[a])
  }
}
