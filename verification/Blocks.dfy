// The block list of the kernel heap, as values: what kmalloc.c keeps in its linked headers, read off
// in address order. Every function here says what one routine of kmalloc.c does to that list.
module Blocks {

  const HEADER_SIZE := 32
  const ALIGN_SIZE := 16
  const MIN_BLK_SIZE := HEADER_SIZE + ALIGN_SIZE
  const BIN_SIZE := 65536
  const UINT32_MAX := 0xFFFF_FFFF
  const TWO_64 := 0x1_0000_0000_0000_0000

  datatype Block = Block(addr: int, size: int, free: bool) {
    function Ptr(): int { addr + HEADER_SIZE }

    function End(): int { addr + HEADER_SIZE + size }

    /** kfree takes any pointer into a block, its header included. */
    predicate Holds(a: int) { addr <= a < End() }

    predicate InPayload(a: int) { Ptr() <= a < End() }

    predicate InHeader(a: int) { addr <= a < Ptr() }
  }

  /** The least multiple of d that is at least n: ROUND_UP, for n + d within 64 bits. */
  function RoundUp(n: nat, d: nat): (r: nat)
    requires d > 0
    ensures n <= r < n + d
  {
    if n == 0 then 0 else if n <= d then d else d + RoundUp(n - d, d)
  }

  /** It is what ROUND_UP computes with a mask, (n - 1 | d - 1) + 1 for d a power of two. */
  lemma {:induction false} RoundUpIsMask(n: nat, d: nat)
    requires n > 0 && (d == ALIGN_SIZE || d == BIN_SIZE)
    ensures RoundUp(n, d) == n - 1 - (n - 1) % d + d
    ensures RoundUp(n, d) % d == 0
  {
    if n > d {
      RoundUpIsMask(n - d, d);
      if d == ALIGN_SIZE {
        assert (n - 1) % 16 == (n - 1 - 16) % 16;
        assert (16 + RoundUp(n - 16, 16)) % 16 == 0;
      } else {
        assert (n - 1) % 65536 == (n - 1 - 65536) % 65536;
        assert (65536 + RoundUp(n - 65536, 65536)) % 65536 == 0;
      }
    }
  }

  /** ROUND_UP on 64-bit unsigned arithmetic. */
  function RoundUp64(n: nat, d: nat): nat
    requires d > 0
  {
    RoundUp(n, d) % TWO_64
  }

  function First(bs: seq<Block>, otherwise: int): int {
    if bs == [] then otherwise else bs[0].addr
  }

  function Last(bs: seq<Block>, otherwise: int): int {
    if bs == [] then otherwise else bs[|bs| - 1].addr
  }

  // ---------- Shape of the list ----------

  /** The blocks, headers included, fill [lo, hi) exactly, in address order. */
  ghost predicate Tiled(bs: seq<Block>, lo: int, hi: int) {
    if bs == [] then lo == hi
    else bs[0].addr == lo && bs[0].size > 0 && Tiled(bs[1..], bs[0].End(), hi)
  }

  /** No two neighbours are both free. */
  ghost predicate Coalesced(bs: seq<Block>) {
    |bs| >= 2 ==> !(bs[0].free && bs[1].free) && Coalesced(bs[1..])
  }

  predicate AlignedBlock(b: Block) {
    b.addr % ALIGN_SIZE == 0 && b.size % ALIGN_SIZE == 0
  }

  ghost predicate Aligned(bs: seq<Block>) {
    forall b | b in bs :: AlignedBlock(b)
  }

  function TotalBytes(bs: seq<Block>): int {
    if bs == [] then 0 else HEADER_SIZE + bs[0].size + TotalBytes(bs[1..])
  }

  lemma TiledCut(a: seq<Block>, b: seq<Block>, lo: int, hi: int)
    ensures Tiled(a + b, lo, hi) <==> Tiled(a, lo, First(b, hi)) && Tiled(b, First(b, hi), hi)
  {
    if a == [] {
      assert a + b == b;
    } else {
      assert (a + b)[1..] == a[1..] + b;
      TiledCut(a[1..], b, a[0].End(), hi);
    }
  }

  lemma CoalescedCut(a: seq<Block>, b: seq<Block>)
    ensures Coalesced(a + b) <==>
            Coalesced(a) && Coalesced(b) && (a != [] && b != [] ==> !(a[|a| - 1].free && b[0].free))
  {
    if a == [] {
      assert a + b == b;
    } else {
      assert (a + b)[1..] == a[1..] + b;
      CoalescedCut(a[1..], b);
    }
  }

  lemma TiledMember(bs: seq<Block>, lo: int, hi: int, b: Block)
    requires Tiled(bs, lo, hi) && b in bs
    ensures lo <= b.addr && b.size > 0 && b.End() <= hi
  {
    TiledBounds(bs[1..], bs[0].End(), hi);
    if b != bs[0] {
      TiledMember(bs[1..], bs[0].End(), hi, b);
    }
  }

  lemma TiledBounds(bs: seq<Block>, lo: int, hi: int)
    requires Tiled(bs, lo, hi)
    ensures lo <= hi
    ensures bs != [] ==> lo + HEADER_SIZE < hi && bs[|bs| - 1].End() == hi
  {
    if bs != [] {
      TiledBounds(bs[1..], bs[0].End(), hi);
      if |bs| > 1 {
        assert bs[1..][|bs| - 2] == bs[|bs| - 1];
      }
    }
  }

  /** Different blocks of a tiling share no byte. */
  lemma {:induction false} TiledDisjoint(bs: seq<Block>, lo: int, hi: int, b: Block, c: Block, x: int)
    requires Tiled(bs, lo, hi) && b in bs && c in bs && b.Holds(x) && c.Holds(x)
    ensures b == c
  {
    if b == bs[0] || c == bs[0] {
      forall d | d in bs[1..] ensures bs[0].End() <= d.addr {
        TiledMember(bs[1..], bs[0].End(), hi, d);
      }
    } else {
      TiledDisjoint(bs[1..], bs[0].End(), hi, b, c, x);
    }
  }

  /** Conservation: the headers and payloads add up to the bytes obtained from the break. */
  lemma {:induction false} TiledTotal(bs: seq<Block>, lo: int, hi: int)
    requires Tiled(bs, lo, hi)
    ensures TotalBytes(bs) == hi - lo
  {
    if bs != [] {
      TiledTotal(bs[1..], bs[0].End(), hi);
    }
  }

  // ---------- merge_blocks and split_block ----------

  /** merge_blocks on the first two blocks of a list. */
  function MergeFirst(bs: seq<Block>): seq<Block> {
    if |bs| >= 2 && bs[0].free && bs[1].free
    then [Block(bs[0].addr, bs[0].size + bs[1].size + HEADER_SIZE, true)] + bs[2..]
    else bs
  }

  /** split_block on the first block of a list. */
  function SplitFirst(bs: seq<Block>, size: int): seq<Block>
    requires bs != []
  {
    if bs[0].size < size + MIN_BLK_SIZE then bs
    else [bs[0].(size := size)]
         + MergeFirst([Block(bs[0].Ptr() + size, bs[0].size - size - HEADER_SIZE, true)] + bs[1..])
  }

  lemma MergeFirstTiled(bs: seq<Block>, lo: int, hi: int)
    requires Tiled(bs, lo, hi)
    ensures Tiled(MergeFirst(bs), lo, hi)
  {
    if |bs| >= 2 {
      assert bs[1..][1..] == bs[2..];
    }
  }

  lemma TailTiled(bs: seq<Block>, size: int, hi: int)
    requires bs != [] && Tiled(bs, bs[0].addr, hi) && bs[0].size >= size + MIN_BLK_SIZE
    ensures var rest := Block(bs[0].Ptr() + size, bs[0].size - size - HEADER_SIZE, true);
            Tiled([rest] + bs[1..], rest.addr, hi) && Tiled(MergeFirst([rest] + bs[1..]), rest.addr, hi)
  {
    var tail := [Block(bs[0].Ptr() + size, bs[0].size - size - HEADER_SIZE, true)] + bs[1..];
    assert tail[1..] == bs[1..];
    MergeFirstTiled(tail, bs[0].Ptr() + size, hi);
  }

  lemma SplitFirstTiled(bs: seq<Block>, size: int, lo: int, hi: int)
    requires bs != [] && Tiled(bs, lo, hi) && size > 0
    ensures Tiled(SplitFirst(bs, size), lo, hi)
  {
    if bs[0].size >= size + MIN_BLK_SIZE {
      TailTiled(bs, size, hi);
      var rest := Block(bs[0].Ptr() + size, bs[0].size - size - HEADER_SIZE, true);
      assert SplitFirst(bs, size)[1..] == MergeFirst([rest] + bs[1..]);
    }
  }
}
