// A stretch of the header list in memory, and how writes elsewhere leave it alone.
module HeapChain {
  import opened Blocks
  import opened Memory

  /** The headers in memory spell out the blocks bs, doubly linked, between the neighbours prev and next. */
  ghost predicate Chain(h: map<int, Header>, bs: seq<Block>, prev: int, next: int) {
    bs != [] ==>
      var b := bs[0];
      && b.addr in h
      && h[b.addr] == Header(b.Ptr(), b.size, b.free, First(bs[1..], next), prev)
      && Chain(h, bs[1..], b.addr, next)
  }

  lemma ChainCut(h: map<int, Header>, a: seq<Block>, b: seq<Block>, prev: int, next: int)
    ensures Chain(h, a + b, prev, next) <==> Chain(h, a, prev, First(b, next)) && Chain(h, b, Last(a, prev), next)
  {
    if a == [] {
      assert a + b == b;
    } else {
      assert (a + b)[1..] == a[1..] + b;
      ChainCut(h, a[1..], b, a[0].addr, next);
    }
  }

  lemma ChainFrame(h: map<int, Header>, k: map<int, Header>, bs: seq<Block>, prev: int, next: int, lo: int, hi: int)
    requires Tiled(bs, lo, hi) && Chain(h, bs, prev, next) && SameHeaders(h, k, lo, hi)
    ensures Chain(k, bs, prev, next)
  {
    if bs != [] {
      TiledBounds(bs[1..], bs[0].End(), hi);
      ChainFrame(h, k, bs[1..], bs[0].addr, next, bs[0].End(), hi);
    }
  }

  /** Only the first header's back link has changed. */
  lemma Relink(h: map<int, Header>, k: map<int, Header>, bs: seq<Block>, prev: int, prev': int, next: int, lo: int,
               hi: int)
    requires bs != [] && Tiled(bs, lo, hi) && Chain(h, bs, prev, next)
    requires lo in k && k[lo] == h[lo].(prev := prev') && SameHeaders(h, k, bs[0].End(), hi)
    ensures Chain(k, bs, prev', next)
  {
    ChainFrame(h, k, bs[1..], lo, next, bs[0].End(), hi);
  }

  /** The header of block i. */
  lemma ChainAt(h: map<int, Header>, bs: seq<Block>, prev: int, next: int, i: nat)
    requires i < |bs| && Chain(h, bs, prev, next)
    ensures bs[i].addr in h
    ensures h[bs[i].addr] == Header(bs[i].Ptr(), bs[i].size, bs[i].free,
                                    if i + 1 < |bs| then bs[i + 1].addr else next,
                                    if i > 0 then bs[i - 1].addr else prev)
  {
    if i > 0 {
      ChainAt(h, bs[1..], bs[0].addr, next, i - 1);
    }
  }

  /** What merge_blocks reads before it writes. */
  lemma TwoHeaders(h: map<int, Header>, seg: seq<Block>, prev: int, hi: int)
    requires |seg| >= 2 && Chain(h, seg, prev, 0) && Tiled(seg, seg[0].addr, hi)
    ensures var b1, b2, n := seg[0].addr, seg[1].addr, First(seg[2..], 0);
            && b1 in h && h[b1] == Header(seg[0].Ptr(), seg[0].size, seg[0].free, b2, prev)
            && b2 in h && h[b2] == Header(seg[1].Ptr(), seg[1].size, seg[1].free, n, b1)
            && b2 == seg[0].End() && seg[1].End() <= hi
            && (|seg| > 2 ==> n == seg[1].End() && n in h && seg[2].End() <= hi && seg[2].size > 0)
            && (|seg| > 2 ==> Chain(h, seg[2..], b2, 0)) && Tiled(seg[2..], seg[1].End(), hi)
  {
    assert seg[1..][1..] == seg[2..] && seg[1..][0] == seg[1];
    TiledBounds(seg[2..], seg[1].End(), hi);
    if |seg| > 2 {
      TiledMember(seg[2..], seg[1].End(), hi, seg[2..][0]);
    }
  }

  lemma MergeLinks(h: map<int, Header>, k: map<int, Header>, seg: seq<Block>, prev: int, hi: int)
    requires |seg| >= 2 && seg[0].free && seg[1].free && Chain(h, seg, prev, 0) && Tiled(seg, seg[0].addr, hi)
    requires seg[0].addr in k
    requires k[seg[0].addr] ==
             Header(seg[0].Ptr(), seg[0].size + seg[1].size + HEADER_SIZE, true, First(seg[2..], 0), prev)
    requires |seg| > 2 ==>
             seg[2].addr in h && seg[2].addr in k && k[seg[2].addr] == h[seg[2].addr].(prev := seg[0].addr)
    requires |seg| > 2 ==> SameHeaders(h, k, seg[2].End(), hi)
    ensures Chain(k, MergeFirst(seg), prev, 0)
  {
    TwoHeaders(h, seg, prev, hi);
    var m, post := MergeFirst(seg), seg[2..];
    assert m[1..] == post;
    if post != [] {
      Relink(h, k, post, seg[1].addr, seg[0].addr, 0, post[0].addr, hi);
    }
  }

  /** A new header in front of a stretch whose first back link now names it. */
  lemma Prepend(h: map<int, Header>, k: map<int, Header>, x: Block, bs: seq<Block>, prev: int, prev': int, hi: int)
    requires Tiled(bs, x.End(), hi) && Chain(h, bs, prev, 0)
    requires x.addr in k && k[x.addr] == Header(x.Ptr(), x.size, x.free, First(bs, 0), prev')
    requires bs != [] ==> bs[0].addr in k && k[bs[0].addr] == h[bs[0].addr].(prev := x.addr)
                          && SameHeaders(h, k, bs[0].End(), hi)
    ensures Chain(k, [x] + bs, prev', 0)
  {
    assert ([x] + bs)[1..] == bs;
    if bs != [] {
      Relink(h, k, bs, prev, x.addr, 0, x.End(), hi);
    }
  }

  /** Hanging a new stretch behind the last block. */
  lemma AppendTail(h: map<int, Header>, k: map<int, Header>, front: seq<Block>, last: Block, ext: seq<Block>, lo: int,
                   hi: int)
    requires Tiled(front + [last], lo, last.End()) && Tiled(ext, last.End(), hi)
    requires Chain(h, front + [last], 0, 0) && Chain(k, ext, last.addr, 0)
    requires SameHeaders(h, k, lo, last.addr)
    requires last.addr in h && last.addr in k && k[last.addr] == h[last.addr].(next := First(ext, 0))
    ensures Chain(k, front + [last] + ext, 0, 0)
  {
    ChainCut(h, front, [last], 0, 0);
    TiledCut(front, [last], lo, last.End());
    ChainFrame(h, k, front, 0, last.addr, lo, last.addr);
    assert front + [last] + ext == front + ([last] + ext) && ([last] + ext)[1..] == ext;
    ChainCut(k, front, [last] + ext, 0, 0);
  }

  /** A stretch replaced in the middle of the list; what lies in front of it has not been written to. */
  lemma Reassemble(h: map<int, Header>, k: map<int, Header>, pre: seq<Block>, seg: seq<Block>, seg': seq<Block>,
                   lo: int, hi: int)
    requires seg != [] && seg' != [] && seg'[0].addr == seg[0].addr
    requires Tiled(pre + seg, lo, hi) && Chain(h, pre + seg, 0, 0)
    requires HeadersBelow(h, k, seg[0].addr) && Chain(k, seg', Last(pre, 0), 0)
    ensures Chain(k, pre + seg', 0, 0)
  {
    TiledCut(pre, seg, lo, hi);
    ChainCut(h, pre, seg, 0, 0);
    ChainFrame(h, k, pre, 0, seg[0].addr, lo, seg[0].addr);
    ChainCut(k, pre, seg', 0, 0);
  }

  /** Only the first block's free flag has changed. */
  lemma Reflag(h: map<int, Header>, k: map<int, Header>, seg: seq<Block>, prev: int, hi: int, free: bool)
    requires seg != [] && Tiled(seg, seg[0].addr, hi) && Chain(h, seg, prev, 0)
    requires seg[0].addr in k && k[seg[0].addr] == h[seg[0].addr].(free := free)
    requires HeadersOutside(h, k, seg[0].addr, seg[0].Ptr())
    ensures Chain(k, [seg[0].(free := free)] + seg[1..], prev, 0)
  {
    ChainFrame(h, k, seg[1..], seg[0].addr, 0, seg[0].End(), hi);
    assert ([seg[0].(free := free)] + seg[1..])[1..] == seg[1..];
  }

  /** Writing a byte outside every header leaves the list as it was. */
  lemma ByteOutsideChain(h: map<int, Header>, k: map<int, Header>, bs: seq<Block>, prev: int, next: int, a: int)
    requires Chain(h, bs, prev, next) && HeadersOutside(h, k, a, a + 1)
    requires forall b | b in bs :: !b.InHeader(a)
    ensures Chain(k, bs, prev, next)
  {
    if bs != [] {
      assert !bs[0].InHeader(a);
      ByteOutsideChain(h, k, bs[1..], bs[0].addr, next, a);
    }
  }

  /** Only the free flag of the block in front of seg has changed, in the middle of the list. */
  lemma ReflagAt(h: map<int, Header>, k: map<int, Header>, pre: seq<Block>, seg: seq<Block>, lo: int, hi: int,
                 free: bool)
    requires seg != [] && Tiled(pre + seg, lo, hi) && Chain(h, pre + seg, 0, 0)
    requires seg[0].addr in h && HeaderStoredIn(h, k, seg[0].addr, h[seg[0].addr].(free := free))
    ensures Chain(k, pre + ([seg[0].(free := free)] + seg[1..]), 0, 0)
  {
    ChainCut(h, pre, seg, 0, 0);
    TiledCut(pre, seg, lo, hi);
    Reflag(h, k, seg, Last(pre, 0), hi, free);
    Reassemble(h, k, pre, seg, [seg[0].(free := free)] + seg[1..], lo, hi);
  }

  ghost predicate HeaderStoredIn(h: map<int, Header>, k: map<int, Header>, a: int, x: Header) {
    a in k && k[a] == x && HeadersOutside(h, k, a, a + HEADER_BYTES)
  }

  /** A header written over the payload of some block leaves the list as it was. */
  lemma StaleWrite(h: map<int, Header>, k: map<int, Header>, bs: seq<Block>, lo: int, hi: int, y: Block, a: int)
    requires Tiled(bs, lo, hi) && Chain(h, bs, 0, 0) && HeadersOutside(h, k, a, a + HEADER_BYTES)
    requires y in bs && y.Ptr() <= a && a + HEADER_BYTES <= y.End()
    ensures Chain(k, bs, 0, 0)
  {
    forall x | x in bs ensures x.addr + HEADER_BYTES <= a || a + HEADER_BYTES <= x.addr {
      TiledMember(bs, lo, hi, x);
      var z := if x.addr > a then x.addr else a;
      if x.Holds(z) && y.Holds(z) { TiledDisjoint(bs, lo, hi, x, y, z); }
    }
    ApartFromChain(h, k, bs, 0, 0, a);
  }

  lemma ApartFromChain(h: map<int, Header>, k: map<int, Header>, bs: seq<Block>, prev: int, next: int, a: int)
    requires Chain(h, bs, prev, next) && HeadersOutside(h, k, a, a + HEADER_BYTES)
    requires forall x | x in bs :: x.addr + HEADER_BYTES <= a || a + HEADER_BYTES <= x.addr
    ensures Chain(k, bs, prev, next)
  {
    if bs != [] {
      ApartFromChain(h, k, bs[1..], bs[0].addr, next, a);
    }
  }
}
