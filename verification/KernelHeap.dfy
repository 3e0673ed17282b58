// kmalloc.c: the kernel heap, an address-ordered doubly linked list of headers embedded in the heap.
module KernelHeap {
  import opened Blocks
  import opened HeapSpec
  import opened HeapTheorems
  import opened ReallocSpec
  import opened Memory
  import opened HeapBytes
  import opened HeapChain
  import opened MovedBytes
  import opened ReallocContents

  const NULL := 0
  const FAILED := -1

  datatype Errno = NoError | ENOMEM | EFAULT

  function PtrOf(bs: seq<Block>, k: int): int {
    if 0 <= k < |bs| then bs[k].Ptr() else NULL
  }

  function AddrOf(bs: seq<Block>, k: int): int {
    if 0 <= k < |bs| then bs[k].addr else NULL
  }

  /** Headers stand on when n bytes from a on are written, and only those clear of them are kept. */
  lemma StillSpelled(m: Memory, k: Memory, a: int, n: nat)
    requires AllSpelled(m) && BytesOutside(m.bytes, k.bytes, a, a + n)
    requires forall x | x in k.hdr :: (x == a && Spelled(k.bytes, a, k.hdr[a])) ||
               (x in m.hdr && k.hdr[x] == m.hdr[x] && (x + HEADER_BYTES <= a || a + n <= x))
    ensures AllSpelled(k)
  {
    forall x | x in k.hdr ensures Spelled(k.bytes, x, k.hdr[x]) {
      assert x in m.hdr ==> Spelled(m.bytes, x, m.hdr[x]);
    }
  }

  /** The heap with the break moved up to the next multiple of 16, if it can be. */
  function Padded(h: Heap): Heap {
    var pad := if h.brk % ALIGN_SIZE == 0 then 0 else ALIGN_SIZE - h.brk % ALIGN_SIZE;
    if h.brk + pad <= h.limit then h.(brk := h.brk + pad) else h
  }

  lemma NothingCopied(b: map<int, Byte>, src: int, dest: int)
    ensures forall n | n <= 0 :: Copied(b, src, b, dest, n)
  {
  }

  /** One more byte of a copy: the bytes from src on are still the old ones. */
  lemma CopiedFurther(b0: map<int, Byte>, b1: map<int, Byte>, b2: map<int, Byte>, src: int, dest: int, i: int)
    requires 0 <= i && Copied(b0, src, b1, dest, i) && BytesOutside(b0, b1, dest, dest + i)
    requires dest <= src || src + i < dest
    requires BytesOutside(b1, b2, dest + i, dest + i + 1)
    requires (dest + i in b2 <==> src + i in b1) && (dest + i in b2 ==> b2[dest + i] == b1[src + i])
    ensures Copied(b0, src, b2, dest, i + 1)
  {
  }

  class KernelHeap {
    var head: int        // kernel_heap_head
    var mem: Store
    var brk: int
    var limit: int       // how far the MMU lets the break move
    var errno: Errno
    ghost var blocks: seq<Block>

    ghost function State(): Heap
      reads this
    {
      Heap(blocks, brk, limit)
    }

    ghost predicate Valid()
      reads this
    {
      && head == First(blocks, NULL)
      && Chain(mem.hdr, blocks, NULL, NULL)
      && Shape(State())
    }

    constructor (limit: int)
      requires limit <= KHEAP_START + HEAP_MAX
      ensures Valid() && blocks == [] && brk == KHEAP_START && this.limit == limit && errno == NoError
    {
      head, brk := NULL, KHEAP_START;
      this.limit := limit;
      mem := Memory(map[], map[]);
      errno := NoError;
      blocks := [];
    }

    // ---------- Memory accesses ----------

    // The fields written one by one in the source are written together here; each keeps its last value.
    method PutHeader(a: int, h: Header)
      modifies this`mem
      ensures HeaderStored(old(mem), mem, a, h)
    {
      var hdr := (map x | x in mem.hdr && (x + HEADER_BYTES <= a || a + HEADER_BYTES <= x) :: mem.hdr[x])[a := h];
      var bytes := mem.bytes + HeaderBytes(a, h);
      assert Spelled(bytes, a, h);
      StillSpelled(mem, Memory(hdr, bytes), a, HEADER_BYTES);
      mem := Memory(hdr, bytes);
    }

    method PutByte(a: int, v: Byte)
      modifies this`mem
      ensures ByteStored(old(mem), mem, a) && a in mem.bytes && mem.bytes[a] == v
    {
      var hdr := map x | x in mem.hdr && (x + HEADER_BYTES <= a || a < x) :: mem.hdr[x];
      StillSpelled(mem, Memory(hdr, mem.bytes[a := v]), a, 1);
      mem := Memory(hdr, mem.bytes[a := v]);
    }

    /** Copy the byte at address s, or the lack of one, to address a. */
    method CopyByte(a: int, s: int)
      modifies this`mem
      ensures ByteStored(old(mem), mem, a)
      ensures (a in mem.bytes <==> s in old(mem.bytes)) && (a in mem.bytes ==> mem.bytes[a] == old(mem.bytes[s]))
    {
      var b := mem.bytes;
      var hdr := map x | x in mem.hdr && (x + HEADER_BYTES <= a || a < x) :: mem.hdr[x];
      var bytes := if s in b then b[a := b[s]] else b - {a};
      StillSpelled(mem, Memory(hdr, bytes), a, 1);
      mem := Memory(hdr, bytes);
    }

    /** The MMU's room for the heap may change at any time. */
    method SetLimit(limit: int)
      requires Valid() && limit <= KHEAP_START + HEAP_MAX
      modifies this`limit
      ensures Valid() && State() == old(State()).(limit := limit)
    {
      this.limit := limit;
    }

    method Kbrk(increment: int) returns (oldBrk: int)
      requires increment >= 0
      modifies this`brk
      ensures if old(brk) + increment <= limit || increment == 0
              then oldBrk == old(brk) && brk == old(brk) + increment
              else oldBrk == FAILED && brk == old(brk)
    {
      if increment == 0 || brk + increment <= limit {
        oldBrk := brk;
        brk := brk + increment;
      } else {
        oldBrk := FAILED;
      }
    }

    // seg is the rest of the list from b1 on, prev the address of the block before it.
    method MergeBlocks(b1: int, b2: int, ghost seg: seq<Block>, ghost prev: int)
      requires b1 != NULL ==> seg != [] && 0 < b1 == seg[0].addr && b2 == First(seg[1..], NULL)
      requires b1 != NULL ==> Tiled(seg, b1, brk) && Chain(mem.hdr, seg, prev, NULL) && brk - b1 <= HEAP_MAX
      modifies this`mem
      ensures b1 != NULL ==> Chain(mem.hdr, MergeFirst(seg), prev, NULL)
      ensures b1 == NULL ==> mem == old(mem)
      ensures HeadersBelow(old(mem.hdr), mem.hdr, b1)
      ensures b1 != NULL && b2 != NULL && b2 in old(mem.hdr) ==> b2 in mem.hdr && mem.hdr[b2] == old(mem.hdr)[b2]
      ensures OnlyHeaders(old(mem.bytes), mem.bytes, seg, 0, 0)
    {
      if b1 != NULL && b2 != NULL && mem.hdr[b1].free && mem.hdr[b2].free
         && mem.hdr[b1].ptr + mem.hdr[b1].size == b2 {
        TwoHeaders(mem.hdr, seg, prev, brk);
        ghost var before := mem.hdr;
        PutHeader(b1, mem.hdr[b1].(size := (mem.hdr[b1].size + mem.hdr[b2].size + HEADER_SIZE) % HEAP_MAX));
        PutHeader(b1, mem.hdr[b1].(next := mem.hdr[b2].next));
        var n := mem.hdr[b2].next;
        if n != NULL {
          PutHeader(n, mem.hdr[n].(prev := b1));
        }
        MergeLinks(before, mem.hdr, seg, prev, brk);
        forall a | !InHeaders(seg, a) ensures !FieldAt(b1, a) && (n != NULL ==> !FieldAt(n, a)) {
          assert !FieldAt(seg[0].addr, a) && (n != NULL ==> !FieldAt(seg[2].addr, a));
        }
      }
    }
  
    // The first half of split_block: the new block behind the first `size` bytes of `block`, linked to
    // what follows and merged with it. seg is the rest of the list from `block` on.
    method CarveRest(block: int, size: nat, ghost seg: seq<Block>, ghost prev: int) returns (newB: int)
      requires seg != [] && 0 < block == seg[0].addr && 0 < size && seg[0].size >= size + MIN_BLK_SIZE
      requires Tiled(seg, block, brk) && Chain(mem.hdr, seg, prev, NULL) && brk - block <= HEAP_MAX
      modifies this`mem
      ensures newB == seg[0].Ptr() + size
      ensures Chain(mem.hdr, SplitFirst(seg, size)[1..], block, NULL)
      ensures HeadersBelow(old(mem.hdr), mem.hdr, newB)
      ensures OnlyHeaders(old(mem.bytes), mem.bytes, seg[1..] + SplitFirst(seg, size)[1..], 0, 0)
    {
      hide Chain, Tiled, OnlyHeaders, InHeaders, FieldsOnly, MergeFirst, SplitFirst, Spelled;
      SplitRest(seg, size);
      ghost var m0, h0, post := mem, mem.hdr, seg[1..];
      FirstLink(h0, seg, prev, size, brk);
      newB := mem.hdr[block].ptr + size;
      ghost var rest := Block(newB, seg[0].size - size - HEADER_SIZE, true);
      var next := mem.hdr[block].next;
      PutHeader(newB, Header(newB + HEADER_SIZE, mem.hdr[block].size - size - HEADER_SIZE, true, NULL, block));
      ghost var m1 := mem;
      if next != NULL {
        LinkRest(newB, next, rest, post, block, h0);
      } else {
        AloneLinked(mem.hdr, rest, block);
      }
      QuietCarve(m0, m1, mem, rest, post);
    }

    // new_b->next, its back link, and the merge; h0 are the headers before new_b was written.
    method LinkRest(newB: int, next: int, ghost rest: Block, ghost post: seq<Block>, ghost block: int,
                    ghost h0: map<int, Header>)
      requires post != [] && next == post[0].addr && 0 < newB == rest.addr && brk - newB <= HEAP_MAX && rest.free
               && rest.size > 0
      requires Tiled(post, rest.End(), brk) && Chain(h0, post, block, NULL)
      requires newB in mem.hdr && mem.hdr[newB] == Header(rest.Ptr(), rest.size, true, NULL, block)
      requires SameHeaders(h0, mem.hdr, rest.End(), brk)
      modifies this`mem
      ensures Chain(mem.hdr, MergeFirst([rest] + post), block, NULL)
      ensures HeadersBelow(old(mem.hdr), mem.hdr, newB) && OnlyHeaders(old(mem.bytes), mem.bytes, [rest] + post, 0, 0)
    {
      ghost var m0, list := mem, [rest] + post;
      assert list[1..] == post;
      TiledMember(post, rest.End(), brk, post[0]);
      PutHeader(newB, mem.hdr[newB].(next := next));
      PutHeader(next, mem.hdr[next].(prev := newB));
      Prepend(h0, mem.hdr, rest, post, block, block, brk);
      ghost var m1 := mem;
      MergeBlocks(newB, mem.hdr[newB].next, list, block);
      forall a | !InHeaders(list, a) ensures !FieldAt(newB, a) && !FieldAt(next, a) {
        assert rest in list && post[0] in list;
      }
    }

    // seg is the rest of the list from the block on.
    method SplitBlock(block: int, size: nat, ghost seg: seq<Block>, ghost prev: int)
      requires seg != [] && 0 < block == seg[0].addr && 0 < size
      requires Tiled(seg, block, brk) && Chain(mem.hdr, seg, prev, NULL) && brk - block <= HEAP_MAX
      modifies this`mem
      ensures Chain(mem.hdr, SplitFirst(seg, size), prev, NULL)
      ensures HeadersBelow(old(mem.hdr), mem.hdr, block)
      ensures OnlyHeaders(old(mem.bytes), mem.bytes, seg + SplitFirst(seg, size), 0, 0)
      ensures seg[0].size < size + MIN_BLK_SIZE ==> mem == old(mem)
    {
      if mem.hdr[block].size >= size + MIN_BLK_SIZE {
        var newB := CarveRest(block, size, seg, prev);
        ghost var h1, tail := mem.hdr, SplitFirst(seg, size)[1..];
        PutHeader(block, mem.hdr[block].(size := size));
        PutHeader(block, mem.hdr[block].(next := newB));
        TailTiled(seg, size, brk);
        ChainFrame(h1, mem.hdr, tail, block, NULL, newB, brk);
        forall a | !InHeaders(seg + SplitFirst(seg, size), a)
          ensures !FieldAt(block, a) && !InHeaders(seg[1..] + tail, a)
        {
          assert seg[0] in seg + SplitFirst(seg, size) && !FieldAt(seg[0].addr, a);
          MoreHeaders(seg[1..] + tail, seg + SplitFirst(seg, size), a);
        }
      }
    }
  
    method ExtendMem(minBlkSize: nat, prev: int, next: int) returns (b: int)
      requires 0 < minBlkSize <= UINT32_MAX && next == NULL
      requires KHEAP_START <= brk && limit <= KHEAP_START + HEAP_MAX
      modifies this`mem, this`brk
      ensures !CanGrow(Padded(old(State())), minBlkSize) ==>
              b == NULL && mem == old(mem) && brk == Padded(old(State())).brk
      ensures CanGrow(Padded(old(State())), minBlkSize) ==>
                && b == Padded(old(State())).brk && brk == Grow(Padded(old(State())), minBlkSize).brk
                && Chain(mem.hdr, Extension(b, minBlkSize), prev, NULL)
                && HeadersBelow(old(mem.hdr), mem.hdr, b)
                && OnlyHeaders(old(mem.bytes), mem.bytes, [], b, brk)
    {
      hide Chain, Extension, RoundUp, HeadersBelow, OnlyHeaders;
      var top := Kbrk(0);
      if top % ALIGN_SIZE != 0 {
        var _ := Kbrk(ALIGN_SIZE - top % ALIGN_SIZE);
      }
      var totalSize := RoundUp(minBlkSize, BIN_SIZE);
      RoundUpFacts(minBlkSize, BIN_SIZE);
      b := Kbrk(totalSize + HEADER_SIZE);
      if b == FAILED {
        return NULL;
      }
      LayOut(b, totalSize, minBlkSize, prev, next);
    }

    // The new block's header, and the split.
    method LayOut(b: int, totalSize: nat, minBlkSize: nat, prev: int, next: int)
      requires 0 < minBlkSize <= UINT32_MAX && totalSize == RoundUp(minBlkSize, BIN_SIZE) && next == NULL
      requires KHEAP_START <= b && b + totalSize + HEADER_SIZE == brk <= KHEAP_START + HEAP_MAX
      modifies this`mem
      ensures Chain(mem.hdr, Extension(b, minBlkSize), prev, NULL)
      ensures HeadersBelow(old(mem.hdr), mem.hdr, b) && OnlyHeaders(old(mem.bytes), mem.bytes, [], b, brk)
    {
      hide RoundUp, SplitFirst;
      PutHeader(b, Header(b + HEADER_SIZE, totalSize % HEAP_MAX, true, next, prev));
      ghost var seg := [Block(b, totalSize, true)];
      assert seg[1..] == [];
      SplitBlock(b, minBlkSize, seg, prev);
      SplitFirstTiled(seg, minBlkSize, b, brk);
      forall a | InHeaders(seg + SplitFirst(seg, minBlkSize), a) ensures b <= a < brk {
        HeadersInside(seg, b, brk, a);
        HeadersInside(SplitFirst(seg, minBlkSize), b, brk, a);
      }
    }

    // The assignment b->next = extend_mem(size, b, NULL) at the last block.
    method ExtendTail(b: int, size: nat)
      requires Valid() && blocks != [] && b == blocks[|blocks| - 1].addr && 0 < size <= UINT32_MAX
      modifies this`mem, this`brk, this`blocks
      ensures Valid()
      ensures State() == if CanGrow(old(State()), size) then Grow(old(State()), size) else old(State())
      ensures Untouched(old(mem.bytes), mem.bytes, Live(old(blocks)))
      ensures Aside(old(mem.bytes), mem.bytes, old(blocks), [], old(brk))
    {
      hide Tiled, Coalesced, Aligned, Extension, RoundUp, Untouched, Aside, OnlyHeaders, Live;
      ghost var m0, h := mem, State();
      TiledBounds(blocks, KHEAP_START, brk);
      TiledMember(blocks, KHEAP_START, brk, blocks[|blocks| - 1]);
      ChainAt(mem.hdr, blocks, NULL, NULL, |blocks| - 1);
      var e := ExtendMem(size, b, NULL);
      ghost var m1 := mem;
      PutHeader(b, mem.hdr[b].(next := e));
      if e != NULL {
        GrowFacts(h, size);
        ExtensionFacts(h.brk, size);
        TailGrown(h, Extension(h.brk, size), brk, m0, m1, mem);
        blocks := blocks + Extension(h.brk, size);
      } else {
        TailKept(h, m0, mem);
      }
    }

    /** The search loop of get_empty_mem: the block to hand out, at index k of the list, or NULL. */
    method Search(size: nat) returns (b: int, ghost k: int)
      requires Valid() && blocks != [] && 0 < size <= UINT32_MAX
      modifies this`mem, this`brk, this`blocks
      ensures Valid() && (State(), k) == Choose(old(State()), size)
      ensures b == AddrOf(blocks, k)
      ensures Untouched(old(mem.bytes), mem.bytes, Live(old(blocks)))
      ensures Aside(old(mem.bytes), mem.bytes, old(blocks), [], old(brk))
    {
      hide Tiled, Chain, Coalesced, Aligned, Extension, RoundUp, Live, InHeaders;
      ghost var h, n, grown := State(), |blocks|, false;
      ghost var quiet := Live(blocks);
      var bAlt := NULL;
      b, k := head, 0;
      while b != NULL
        invariant Valid() && 0 <= k <= |blocks| && (!grown ==> State() == h)
        invariant b == AddrOf(blocks, k)
        invariant FirstExact(h.blocks[..if k <= n then k else n], size) < 0
        invariant bAlt == AddrOf(h.blocks, LastOversized(h.blocks[..if k <= n then k else n], size))
        invariant k >= n ==> k == n && !Oversized(h.blocks[n - 1], size) && (grown <==> CanGrow(h, size))
        invariant grown ==> k == n && State() == Grow(h, size)
        invariant Untouched(old(mem.bytes), mem.bytes, quiet) && Aside(old(mem.bytes), mem.bytes, h.blocks, [], h.brk)
        decreases if grown then 0 else 1, |blocks| - k
      {
        Linked(k);
        if grown {
          GrownTail(h, size);
        } else {
          SearchStep(h.blocks, k, size);
        }
        if mem.hdr[b].free {
          if mem.hdr[b].size == size {
            break;
          }
          if mem.hdr[b].size > size {
            bAlt := b;
            if mem.hdr[b].next == NULL {
              break;
            }
          }
        }
        if mem.hdr[b].next == NULL {
          ExtendTail(b, size);
          grown := CanGrow(h, size);
          Linked(k);
        }
        b := mem.hdr[b].next;
        k := k + 1;
      }
      assert h.blocks[..n] == h.blocks;
      if k < |blocks| { Linked(k); }
      if b == NULL {
        assert k == |blocks| && !grown;
        assert Choose(h, size) == (h, LastOversized(h.blocks, size));
        k := LastOversized(h.blocks, size);
        b := bAlt;
      } else if !grown {
        assert Choose(h, size) == (h, k);
      }
    }

    method GetEmptyMem(size: nat) returns (b: int, ghost k: int)
      requires Valid() && 0 < size <= UINT32_MAX
      modifies this`head, this`mem, this`brk, this`blocks
      ensures Valid() && (State(), k) == Alloc(old(State()), size)
      ensures b == AddrOf(blocks, k)
      ensures Untouched(old(mem.bytes), mem.bytes, Live(old(blocks)))
      ensures Aside(old(mem.bytes), mem.bytes, old(blocks), blocks, old(brk))
    {
      hide Tiled, Chain, Coalesced, Aligned, Take, Live, FirstExact, LastOversized, RoundUp, Extension;
      OpenedFacts(State());
      HeadIsNull();
      if head == NULL {
        OpenHeap();
        HeadIsNull();
        if head == NULL {
          return NULL, -1;
        }
      }
      ghost var o, b0 := State(), mem.bytes;
      b, k := Search(size);
      if k >= 0 { Linked(k); }
      ghost var g, b1 := State(), mem.bytes;
      ChooseFacts(o, size);
      OldHeaders(old(State()), o, size);
      if b == NULL {
        return;
      }
      TakeFacts(g, k, size);
      HandOut(b, size, k);
      assert Live(g.blocks) == Live(o.blocks);
    }

    // kernel_heap_head = extend_mem(BIN_SIZE, NULL, NULL).
    method OpenHeap()
      requires Valid() && head == NULL
      modifies this`head, this`mem, this`brk, this`blocks
      ensures Valid() && State() == Opened(old(State()))
      ensures Live(old(blocks)) == {} && Aside(old(mem.bytes), mem.bytes, [], [], old(brk))
    {
      HeadIsNull();
      ghost var h := State();
      OpenedFacts(h);
      assert h.blocks + Extension(h.brk, BIN_SIZE) == Extension(h.brk, BIN_SIZE);
      head := ExtendMem(BIN_SIZE, NULL, NULL);
      if head != NULL {
        ExtensionFacts(h.brk, BIN_SIZE);
        blocks := Extension(head, BIN_SIZE);
        assert State() == Opened(h);
      }
    }

    // split_block(b, size); b->free = false.
    method HandOut(b: int, size: nat, ghost k: nat)
      requires Valid() && k < |blocks| && b == blocks[k].addr && blocks[k].free && 0 < size <= blocks[k].size
      modifies this`mem, this`blocks
      ensures Valid() && State() == Take(old(State()), k, size)
      ensures Untouched(old(mem.bytes), mem.bytes, Live(old(blocks)))
      ensures Aside(old(mem.bytes), mem.bytes, old(blocks), blocks, old(brk))
    {
      hide Tiled, Chain, SplitFirst, Live, Untouched, Aside, OnlyHeaders, Coalesced, Aligned;
      ghost var h, m0 := State(), mem;
      SplitAtBlock(blocks, k, size);
      SplitListed(b, size, k);
      ghost var m1, pre, seg := mem, blocks[..k], blocks[k..];
      assert blocks == pre + seg && seg == SplitFirst(h.blocks[k..], size);
      Linked(k);
      PutHeader(b, mem.hdr[b].(free := false));
      ReflagAt(m1.hdr, mem.hdr, pre, seg, KHEAP_START, brk, false);
      TakeShape(h, k, size);
      QuietHandOut(h, k, size, m0, m1, mem);
      blocks := pre + Used(seg);
      TakenFirst(h, k, size);
    }

    lemma HeadIsNull()
      requires Valid()
      ensures head == NULL <==> blocks == []
    {
      if blocks != [] { TiledMember(blocks, KHEAP_START, brk, blocks[0]); }
    }

    /** What the header of block k holds. */
    lemma Linked(k: nat)
      requires Valid() && k < |blocks|
      ensures var a := blocks[k].addr;
              && a > NULL && a in mem.hdr
              && mem.hdr[a] == Header(blocks[k].Ptr(), blocks[k].size, blocks[k].free,
                                      AddrOf(blocks, k + 1), if k > 0 then blocks[k - 1].addr else NULL)
              && (AddrOf(blocks, k + 1) == NULL <==> k + 1 == |blocks|)
    {
      ChainAt(mem.hdr, blocks, NULL, NULL, k);
      TiledMember(blocks, KHEAP_START, brk, blocks[k]);
      if k + 1 < |blocks| {
        TiledMember(blocks, KHEAP_START, brk, blocks[k + 1]);
      }
    }

    // ---------- Public functions ----------

    method KMalloc(size: nat) returns (ptr: int, ghost k: int)
      requires Valid() && size < TWO_64
      modifies this`head, this`mem, this`brk, this`blocks, this`errno
      ensures Valid() && (State(), k) == Malloc(old(State()), size)
      ensures ptr == PtrOf(blocks, k)
      ensures errno == if ptr == NULL then ENOMEM else old(errno)
      ensures Untouched(old(mem.bytes), mem.bytes, Live(old(blocks)))
      ensures Aside(old(mem.bytes), mem.bytes, old(blocks), blocks, old(brk))
    {
      var asked := size;
      if asked < 1 {
        asked := asked + 1;
      }
      var totalSize := RoundUp64(asked, ALIGN_SIZE);
      if asked > UINT32_MAX || totalSize > UINT32_MAX {
        errno := ENOMEM;
        return NULL, -1;
      }
      RoundUpFacts(asked, ALIGN_SIZE);
      var b;
      b, k := GetEmptyMem(totalSize);
      if k >= 0 { Linked(k); }
      if b == NULL {
        errno := ENOMEM;
        return NULL, k;
      }
      ptr := mem.hdr[b].ptr;
    }

    /** A program writing one byte of its own allocation. */
    method Store(a: int, v: Byte)
      requires Valid() && exists x :: x in Live(blocks) && x.InPayload(a)
      modifies this`mem
      ensures Valid() && ByteStored(old(mem), mem, a) && a in mem.bytes && mem.bytes[a] == v
    {
      ghost var x :| x in Live(blocks) && x.InPayload(a);
      PayloadApart(State(), x, a);
      ghost var h0 := mem.hdr;
      PutByte(a, v);
      assert forall b | b in blocks :: !b.InHeader(a);
      ByteOutsideChain(h0, mem.hdr, blocks, NULL, NULL, a);
    }

    method Memset(dst: int, c: Byte, n: nat, ghost x: Block)
      requires Valid() && x in Live(blocks) && x.Ptr() <= dst && dst + n <= x.End()
      modifies this`mem
      ensures Valid() && BytesOutside(old(mem.bytes), mem.bytes, dst, dst + n)
      ensures Filled(mem.bytes, dst, dst + n, c)
    {
      ghost var b0 := mem.bytes;
      var i := 0;
      while i < n
        invariant Valid() && 0 <= i <= n
        invariant BytesOutside(b0, mem.bytes, dst, dst + i)
        invariant Filled(mem.bytes, dst, dst + i, c)
      {
        assert x.InPayload(dst + i);
        Store(dst + i, c);
        i := i + 1;
      }
    }

    /** memcpy into a live payload; the bytes copied may themselves be indeterminate. */
    method Memcpy(dest: int, src: int, n: nat, ghost x: Block)
      requires Valid() && x in Live(blocks) && x.Ptr() <= dest && dest + n <= x.End()
      modifies this`mem
      ensures Valid() && BytesOutside(old(mem.bytes), mem.bytes, dest, dest + n)
      ensures dest <= src || src + n <= dest ==> Copied(old(mem.bytes), src, mem.bytes, dest, n)
    {
      hide Tiled, Chain, Live, Copied, Shape;
      ghost var b0 := mem.bytes;
      var i: nat := 0;
      NothingCopied(b0, src, dest);
      while i < n
        invariant Valid() && i <= n
        invariant BytesOutside(b0, mem.bytes, dest, dest + i)
        invariant dest <= src || src + n <= dest ==> Copied(b0, src, mem.bytes, dest, i)
      {
        ghost var b1 := mem.bytes;
        CopyInto(dest + i, src + i, x);
        if dest <= src || src + n <= dest { CopiedFurther(b0, b1, mem.bytes, src, dest, i); }
        i := i + 1;
      }
    }

    // One turn of memcpy's loop.
    method CopyInto(a: int, s: int, ghost x: Block)
      requires Valid() && x in Live(blocks) && x.InPayload(a)
      modifies this`mem
      ensures Valid() && BytesOutside(old(mem.bytes), mem.bytes, a, a + 1)
      ensures (a in mem.bytes <==> s in old(mem.bytes)) && (a in mem.bytes ==> mem.bytes[a] == old(mem.bytes[s]))
    {
      hide Tiled, Chain, Live;
      ghost var h0 := mem.hdr;
      PayloadApart(State(), x, a);
      CopyByte(a, s);
      assert forall b | b in blocks :: !b.InHeader(a);
      ByteOutsideChain(h0, mem.hdr, blocks, NULL, NULL, a);
    }

    method KCalloc(nmemb: nat, size: nat) returns (ptr: int, ghost k: int)
      requires Valid() && nmemb < TWO_64 && size < TWO_64
      modifies this`head, this`mem, this`brk, this`blocks, this`errno
      ensures Valid() && (State(), k) == Calloc(old(State()), nmemb, size)
      ensures ptr == PtrOf(blocks, k)
      ensures ptr != NULL ==> blocks[k].size >= nmemb * size && Filled(mem.bytes, ptr, blocks[k].End(), 0)
      ensures nmemb * size > UINT32_MAX ==> ptr == NULL
      ensures errno == if ptr == NULL then ENOMEM else old(errno)
      ensures Untouched(old(mem.bytes), mem.bytes, Live(old(blocks)))
    {
      hide RoundUpWrapped, Malloc, Tiled, Live, Filled, Coalesced, Aligned;
      CallocExact(nmemb, size);
      var totalSize := RoundUpWrapped(nmemb * size);
      if nmemb > UINT32_MAX || size > UINT32_MAX || totalSize > UINT32_MAX {
        errno := ENOMEM;
        return NULL, -1;
      }
      ptr, k := AllocZeroed(totalSize);
    }

    // The rest of kcalloc: allocate, then clear the whole payload.
    method AllocZeroed(totalSize: nat) returns (ptr: int, ghost k: int)
      requires Valid() && totalSize <= UINT32_MAX
      modifies this`head, this`mem, this`brk, this`blocks, this`errno
      ensures Valid() && (State(), k) == Malloc(old(State()), totalSize)
      ensures ptr == PtrOf(blocks, k)
      ensures ptr != NULL ==> blocks[k].size >= totalSize && Filled(mem.bytes, ptr, blocks[k].End(), 0)
      ensures errno == if ptr == NULL then ENOMEM else old(errno)
      ensures Untouched(old(mem.bytes), mem.bytes, Live(old(blocks)))
    {
      hide Malloc;
      ghost var h, b0 := State(), mem.bytes;
      ptr, k := KMalloc(totalSize);
      if k >= 0 { Linked(k); }
      if ptr == NULL {
        return;
      }
      TiledMember(blocks, KHEAP_START, brk, blocks[k]);
      ghost var b1, x := mem.bytes, blocks[k];
      assert x in Live(blocks) && totalSize <= x.size by { MallocMeaning(h, totalSize); }
      Memset(ptr, 0, mem.hdr[ptr - HEADER_SIZE].size, x);
      MallocApart(h, totalSize);
      UntouchedSince(b0, b1, mem.bytes, Live(h.blocks), x);
    }

    method KFree(ptr: int)
      requires Valid() && 0 <= ptr < TWO_64
      modifies this`mem, this`blocks, this`errno
      ensures Valid() && State() == Free(old(State()), ptr)
      ensures errno == if Refused(old(State()), ptr) then EFAULT else old(errno)
      ensures Untouched(old(mem.bytes), mem.bytes, Live(old(blocks)))
      ensures OnlyHeaders(old(mem.bytes), mem.bytes, old(blocks), 0, 0)
    {
      hide Tiled, Chain, FreeAt, Live;
      if ptr == NULL {
        return;
      }
      if ptr < head || brk - MIN_BLK_SIZE < ptr {
        errno := EFAULT;
        return;
      }
      var b := head;
      ghost var i := 0;
      while b != NULL
        invariant Valid() && State() == old(State()) && mem == old(mem) && errno == old(errno)
        invariant 0 <= i <= |blocks| && b == AddrOf(blocks, i)
        invariant forall j | 0 <= j < i :: !blocks[j].Holds(ptr)
        decreases |blocks| - i
      {
        Linked(i);
        if b <= ptr < mem.hdr[b].ptr + mem.hdr[b].size {
          break;
        }
        b := mem.hdr[b].next;
        i := i + 1;
      }
      if i < |blocks| { Linked(i); }
      if b == NULL {
        errno := EFAULT;
        return;
      }
      Release(b, i);
    }

    // b->free = true, then merge with the next block and with the previous one.
    method Release(b: int, ghost i: nat)
      requires Valid() && i < |blocks| && b == blocks[i].addr
      modifies this`mem, this`blocks
      ensures Valid() && State() == old(State()).(blocks := FreeAt(old(blocks), i))
      ensures Untouched(old(mem.bytes), mem.bytes, Live(old(blocks)))
      ensures OnlyHeaders(old(mem.bytes), mem.bytes, old(blocks), 0, 0)
    {
      ghost var h, m0 := State(), mem;
      ghost var pre, seg := blocks[..i], blocks[i..];
      assert blocks == pre + seg;
      MarkFree(b, pre, seg);
      ghost var m1, freed := mem, MergeFirst([seg[0].(free := true)] + seg[1..]);
      QuietRelease(h, i, m0, m1);
      MergeBack(b, pre, freed);
      QuietMerge(h, i, m0, m1, mem);
      HeaderWritesAreQuiet(m0.bytes, mem.bytes, h, h.blocks, 0, 0);
      FreeAtPieces(pre, seg);
      FreeShape(h, i);
      blocks := FreeAt(blocks, i);
    }

    // b->free = true; merge_blocks(b, b->next), in the list pre + seg with b in front of seg.
    method MarkFree(b: int, ghost pre: seq<Block>, ghost seg: seq<Block>)
      requires seg != [] && b == seg[0].addr && Tiled(pre + seg, KHEAP_START, brk) && brk <= KHEAP_START + HEAP_MAX
      requires Chain(mem.hdr, pre + seg, NULL, NULL)
      modifies this`mem
      ensures var freed := MergeFirst([seg[0].(free := true)] + seg[1..]);
              && freed != [] && freed[0].addr == b
              && Tiled(pre + freed, KHEAP_START, brk) && Chain(mem.hdr, pre + freed, NULL, NULL)
      ensures OnlyHeaders(old(mem.bytes), mem.bytes, seg, 0, 0)
    {
      ghost var m0, f := mem, [seg[0].(free := true)] + seg[1..];
      assert f[1..] == seg[1..];
      ChainCut(mem.hdr, pre, seg, NULL, NULL);
      TiledCut(pre, seg, KHEAP_START, brk);
      TiledBounds(pre, KHEAP_START, b);
      PutHeader(b, mem.hdr[b].(free := true));
      Reflag(m0.hdr, mem.hdr, seg, Last(pre, NULL), brk, true);
      MergeBlocks(b, mem.hdr[b].next, f, Last(pre, NULL));
      MergeFirstFacts(f);
      MergeFirstTiled(f, b, brk);
      Reassemble(m0.hdr, mem.hdr, pre, seg, MergeFirst(f), KHEAP_START, brk);
      TiledCut(pre, MergeFirst(f), KHEAP_START, brk);
      forall a | !InHeaders(seg, a) ensures !InHeaders(f, a) && !FieldAt(b, a) {
        assert seg[0] in seg && !FieldAt(seg[0].addr, a);
        MoreHeaders(seg[1..], seg, a);
      }
    }

    // merge_blocks(b->prev, b), in the list pre + rest with b in front of rest.
    method MergeBack(b: int, ghost pre: seq<Block>, ghost rest: seq<Block>)
      requires rest != [] && b == rest[0].addr && Tiled(pre + rest, KHEAP_START, brk) && brk <= KHEAP_START + HEAP_MAX
      requires Chain(mem.hdr, pre + rest, NULL, NULL)
      modifies this`mem
      ensures Chain(mem.hdr, MergedBack(pre, rest), NULL, NULL)
      ensures b in mem.hdr && b in old(mem.hdr) && mem.hdr[b] == old(mem.hdr)[b] && mem.hdr[b].size == rest[0].size
      ensures OnlyHeaders(old(mem.bytes), mem.bytes, pre + rest, 0, 0)
    {
      ghost var h0, front := mem.hdr, if pre == [] then [] else pre[..|pre| - 1];
      ghost var seg := if pre == [] then rest else [pre[|pre| - 1]] + rest;
      assert pre + rest == front + seg && (pre != [] ==> seg[1..] == rest);
      ChainCut(mem.hdr, pre, rest, NULL, NULL);
      ChainCut(mem.hdr, front, seg, NULL, NULL);
      TiledCut(front, seg, KHEAP_START, brk);
      TiledBounds(front, KHEAP_START, seg[0].addr);
      MergeBlocks(mem.hdr[b].prev, b, seg, Last(front, NULL));
      if pre != [] {
        MergeFirstFacts(seg);
        Reassemble(h0, mem.hdr, front, seg, MergeFirst(seg), KHEAP_START, brk);
      }
      forall a | !InHeaders(pre + rest, a) ensures !InHeaders(seg, a) {
        MoreHeaders(seg, pre + rest, a);
      }
    }

    // split_block on block k of the list.
    method SplitListed(b: int, size: nat, ghost k: nat)
      requires Valid() && k < |blocks| && b == blocks[k].addr && 0 < size
      modifies this`mem, this`blocks
      ensures Valid() && State() == old(State()).(blocks := SplitAt(old(blocks), k, size))
      ensures Untouched(old(mem.bytes), mem.bytes, Live(old(blocks)) - {old(blocks)[k]})
      ensures SameBytes(old(mem.bytes), mem.bytes, old(blocks)[k].Ptr(),
                        Min(old(blocks)[k].Ptr() + size, old(blocks)[k].End()))
      ensures OnlyHeaders(old(mem.bytes), mem.bytes, old(blocks)[k..] + SplitFirst(old(blocks)[k..], size), 0, 0)
    {
      hide Tiled, Chain, SplitFirst, Live, Untouched, SameBytes, OnlyHeaders, Coalesced, Aligned;
      ghost var h, m0 := State(), mem;
      ghost var pre, seg := blocks[..k], blocks[k..];
      assert blocks == pre + seg;
      Linked(k);
      ChainCut(mem.hdr, pre, seg, NULL, NULL);
      TiledCut(pre, seg, KHEAP_START, brk);
      TiledBounds(pre, KHEAP_START, b);
      SplitBlock(b, size, seg, Last(pre, NULL));
      SplitFirstFacts(seg, size);
      Reassemble(m0.hdr, mem.hdr, pre, seg, SplitFirst(seg, size), KHEAP_START, brk);
      SplitAtShape(h, k, size);
      QuietSplit(h, k, size, m0, mem);
      blocks := SplitAt(blocks, k, size);
    }

    // krealloc from b->free = true to the second merge; the pointer if the block, with what it gained, is large
    // enough, and NULL if not.
    method Loosen(b: int, totalSize: nat, ghost i: nat, ghost size: nat) returns (newPtr: int)
      requires Valid() && i < |blocks| && !blocks[i].free && b == blocks[i].addr
      requires totalSize == Total(size) && !Shrinks(blocks, i, size)
      modifies this`mem
      ensures Chain(mem.hdr, Loosened(blocks, i, size), NULL, NULL)
      ensures b in mem.hdr && mem.hdr[b].size == Stretched(blocks, i).size
      ensures Absorbed(blocks, i, size) ==> mem.hdr[b] == StaleHeader(State(), i, size).(free := true)
      ensures newPtr == if GrowsInPlace(blocks, i, size) then blocks[i].Ptr() else NULL
      ensures OnlyHeaders(old(mem.bytes), mem.bytes, blocks, 0, 0)
    {
      hide Tiled;
      ghost var h, m0 := State(), mem;
      ghost var pre, seg, freed := blocks[..i], blocks[i..], Widened(blocks, i);
      assert blocks == pre + seg && seg[1..] == blocks[i + 1..];
      newPtr := NULL;
      MarkFree(b, pre, seg);
      ghost var m1 := mem;
      assert freed == MergeFirst([seg[0].(free := true)] + seg[1..]);
      ChainCut(mem.hdr, pre, freed, NULL, NULL);
      ChainAt(mem.hdr, freed, Last(pre, NULL), NULL, 0);
      QuietRelease(h, i, m0, m1);
      if mem.hdr[b].size < totalSize {
        MergeBack(b, pre, freed);
        QuietMerge(h, i, m0, m1, mem);
        FreeAtPieces(pre, seg);
        if Absorbed(blocks, i, size) {
          StaleLinks(h, i, size);
        } else {
          MergeNothing(pre, freed);
        }
      } else {
        newPtr := mem.hdr[b].ptr;
      }
    }

    // ... and b->free = false.
    method Vacate(b: int, totalSize: nat, ghost i: nat, ghost size: nat) returns (newPtr: int)
      requires Valid() && i < |blocks| && !blocks[i].free && b == blocks[i].addr
      requires totalSize == Total(size) && !Shrinks(blocks, i, size)
      modifies this`mem, this`blocks
      ensures Valid() && State() == old(State()).(blocks := Vacated(old(blocks), i, size))
      ensures b in mem.hdr && mem.hdr[b].size == old(Stretched(blocks, i).size)
      ensures old(Absorbed(blocks, i, size)) ==> StaleIn(old(State()), i, size, mem)
      ensures newPtr == if GrowsInPlace(old(blocks), i, size) then old(blocks)[i].Ptr() else NULL
      ensures Untouched(old(mem.bytes), mem.bytes, Live(old(blocks)))
      ensures OnlyHeaders(old(mem.bytes), mem.bytes, old(blocks), 0, 0)
    {
      hide Tiled, Chain, Live, Untouched, OnlyHeaders, Coalesced, Aligned, Shrinks, GrowsInPlace, Widened, FreeAt;
      ghost var h, m0, pre, freed := State(), mem, blocks[..i], Widened(blocks, i);
      newPtr := Loosen(b, totalSize, i, size);
      ghost var m1 := mem;
      PutHeader(b, mem.hdr[b].(free := false));
      if Absorbed(blocks, i, size) {
        VacatedByAbsorbing(h, i, m1, mem);
      } else {
        WidenedTiled(h, i);
        WidenedFacts(h, i);
        VacatedShape(h, i, size);
        ReflagAt(m1.hdr, mem.hdr, pre, freed, KHEAP_START, brk, false);
      }
      HeadKept(h, i, size);
      QuietVacate(h, i, m0, m1, mem);
      blocks := Vacated(blocks, i, size);
    }

    // The moving path: kmalloc, memcpy, kfree, split. h and b0 are the heap and the bytes krealloc began with.
    method Move(ptr: int, b: int, size: nat, totalSize: nat, ghost i: nat, ghost h: Heap, ghost b0: map<int, Byte>)
      returns (r: Reallocated, ghost k: int)
      requires Shape(h) && Coalesced(h.blocks) && i < |h.blocks| && !h.blocks[i].free
      requires b == h.blocks[i].addr && ptr == h.blocks[i].Ptr() < TWO_64
      requires 0 < size && !TooBig(size) && totalSize == Total(size)
      requires !Shrinks(h.blocks, i, size) && !GrowsInPlace(h.blocks, i, size)
      requires Valid() && State() == Before(h, i, size) && Untouched(b0, mem.bytes, Live(h.blocks))
      requires OnlyHeaders(b0, mem.bytes, h.blocks, 0, 0) && (Absorbed(h.blocks, i, size) ==> StaleIn(h, i, size, mem))
      modifies this`head, this`mem, this`brk, this`blocks, this`errno
      ensures r.Lost? <==> Stuck(h, i, size) || Overruns(h, i, size)
      ensures r.Pointer? ==> Valid() && k >= 0 && (State(), At(k)) == Realloc(h, i, size) && r.ptr == PtrOf(blocks, k)
      ensures r.Pointer? && !Absorbed(h.blocks, i, size) ==> Moved(h, i, size, b0, mem.bytes, r.ptr)
      ensures r.Pointer? && Absorbed(h.blocks, i, size) ==> Delivered(h, i, size, b0, mem.bytes, r.ptr)
    {
      hide Tiled, Coalesced, Malloc, Free, SplitAt, Before, Refused, Shrinks, GrowsInPlace, Absorbed, Widened, Moved;
      hide Delivered;
      hide MoveSteps, Steps, OnlyHeaders, Aside, StaleSize, Kmalloced, StaleIn, Fetched, Stretched;
      TiledMember(h.blocks, KHEAP_START, h.brk, h.blocks[i]);
      ghost var m1 := mem;
      var newPtr, n; ghost var kk;
      newPtr, n, kk := Relocate(b, ptr, size, totalSize, i, h);
      if newPtr == NULL {
        return Lost, -1;
      }
      k := Finish(newPtr, ptr, n, size, i, h, b0, m1, kk);
      r := Pointer(newPtr);
    }

    // ... memcpy, kfree and the last split.
    method Finish(newPtr: int, ptr: int, n: int, size: nat, ghost i: nat, ghost h: Heap, ghost b0: map<int, Byte>,
                  ghost m1: Store,
                  ghost kk: nat) returns (ghost k: nat)
      requires Shape(h) && Coalesced(h.blocks) && i < |h.blocks| && !h.blocks[i].free
               && ptr == h.blocks[i].Ptr() < TWO_64
      requires 0 < size && !TooBig(size) && !Stuck(h, i, size) && !Overruns(h, i, size)
      requires !Shrinks(h.blocks, i, size) && !GrowsInPlace(h.blocks, i, size)
      requires Valid() && (State(), kk) == Fetched(h, i, size) && newPtr == PtrOf(blocks, kk)
               && blocks[kk] in Live(blocks)
      requires n == StaleSize(h, i, size) && 0 <= n <= blocks[kk].size && Kmalloced(h, i, size, m1, mem)
      requires !Absorbed(h.blocks, i, size) ==> newPtr <= ptr || ptr + n <= newPtr
      requires Untouched(b0, m1.bytes, Live(h.blocks))
               && Untouched(m1.bytes, mem.bytes, Live(Before(h, i, size).blocks))
      requires OnlyHeaders(b0, m1.bytes, h.blocks, 0, 0) && (Absorbed(h.blocks, i, size) ==> StaleIn(h, i, size, m1))
      modifies this`mem, this`blocks, this`errno
      ensures Valid() && (State(), At(k)) == Realloc(h, i, size) && newPtr == PtrOf(blocks, k)
      ensures !Absorbed(h.blocks, i, size) ==> Moved(h, i, size, b0, mem.bytes, newPtr)
      ensures Absorbed(h.blocks, i, size) ==> Delivered(h, i, size, b0, mem.bytes, newPtr)
    {
      hide Tiled, Coalesced, Malloc, Free, SplitAt, Before, Refused, Shrinks, GrowsInPlace, Absorbed, Widened, Moved;
      hide Delivered;
      hide MoveSteps, Steps, OnlyHeaders, Aside, StaleSize, Kmalloced, StaleIn, Fetched, Stretched, Stuck, Overruns;
      hide Untouched;
      hide Realloc, Copied, BytesOutside, SameBytes, TooBig;
      ghost var m2 := mem;
      OldAddress(h, i);
      SettledBlock(h, i, size);
      MoveOutcome(h, i, size);
      ghost var b3, b4;
      k, b3, b4 := CopyFreeSplit(newPtr, ptr, n, size, kk);
      if Absorbed(h.blocks, i, size) {
        AllSteps(h, i, size, b0, m1, m2, b3, b4, mem.bytes);
        AbsorbedDone(h, i, size, b0, m1, m2, b3, b4, mem.bytes);
      } else {
        IntactSize(h, i, size);
        MoveDone(h, i, size, Fetched(h, i, size).0, kk, b0, m1.bytes, m2.bytes, b3, b4, mem.bytes);
      }
    }

    // memcpy, kfree and split_block; b3 and b4 are the bytes between them.
    method CopyFreeSplit(newPtr: int, ptr: int, n: int, size: nat, ghost kk: nat)
      returns (ghost k: nat, ghost b3: map<int, Byte>, ghost b4: map<int, Byte>)
      requires Valid() && kk < |blocks| && blocks[kk] in Live(blocks) && newPtr == blocks[kk].Ptr()
      requires 0 <= n <= blocks[kk].size && 0 <= ptr < TWO_64 && 0 < size
      requires var f := Free(State(), ptr).blocks; var j := FindBlock(f, newPtr);
               j < |f| && f[j].addr == blocks[kk].addr
      modifies this`mem, this`blocks, this`errno
      ensures var f := Free(old(State()), ptr);
              && k == FindBlock(f.blocks, newPtr) && k < |f.blocks|
              && Valid() && State() == f.(blocks := SplitAt(f.blocks, k, size)) && newPtr == PtrOf(blocks, k)
              && Untouched(b4, mem.bytes, Live(f.blocks) - {f.blocks[k]})
              && SameBytes(b4, mem.bytes, newPtr, Min(newPtr + size, f.blocks[k].End()))
      ensures newPtr <= ptr || ptr + n <= newPtr ==> Copied(old(mem.bytes), ptr, b3, newPtr, n)
      ensures BytesOutside(old(mem.bytes), b3, newPtr, newPtr + n)
      ensures Untouched(b3, b4, Live(old(blocks))) && OnlyHeaders(b3, b4, old(blocks), 0, 0)
    {
      hide Free, Tiled, Chain, SplitAt, FindBlock, Untouched, OnlyHeaders, Copied, BytesOutside, SameBytes;
      b3 := CopyAndFree(newPtr, ptr, n, kk);
      b4 := mem.bytes;
      k := FindBlock(blocks, newPtr);
      SplitAtBlock(blocks, k, size);
      SplitListed(newPtr - HEADER_SIZE, size, k);
    }

    // kmalloc, and the size read back from the old header; NULL where the source goes on with NULL, copies over the end
    // of the new block or reads past the break.
    method Relocate(b: int, ptr: int, size: nat, totalSize: nat, ghost i: nat, ghost h: Heap)
      returns (newPtr: int, n: int, ghost k: int)
      requires Shape(h) && i < |h.blocks| && !h.blocks[i].free && b == h.blocks[i].addr && ptr == h.blocks[i].Ptr()
      requires 0 < size && !TooBig(size) && totalSize == Total(size)
      requires !Shrinks(h.blocks, i, size) && !GrowsInPlace(h.blocks, i, size)
      requires Valid() && State() == Before(h, i, size) && (Absorbed(h.blocks, i, size) ==> StaleIn(h, i, size, mem))
      modifies this`head, this`mem, this`brk, this`blocks, this`errno
      ensures Valid() && Untouched(old(mem.bytes), mem.bytes, Live(old(blocks)))
      ensures newPtr == NULL <==> Stuck(h, i, size) || Overruns(h, i, size)
      ensures newPtr != NULL ==>
                && (State(), k) == Fetched(h, i, size) && 0 <= k && newPtr == PtrOf(blocks, k)
                && blocks[k] in Live(blocks)
                && n == StaleSize(h, i, size) && 0 <= n <= blocks[k].size && Kmalloced(h, i, size, old(mem), mem)
                && (!Absorbed(h.blocks, i, size) ==> newPtr <= ptr || ptr + n <= newPtr)
    {
      hide Tiled, Coalesced, Malloc, Vacated, Shrinks, GrowsInPlace, Absorbed, Widened, StaleSize, Aside, StaleIn;
      ghost var hv, m := State(), mem;
      n := 0;
      newPtr, k := KMalloc(totalSize);
      FetchedIs(h, i, size);
      if k >= 0 { Linked(k); }
      if newPtr == NULL {
        return;
      }
      assert blocks[k] in Live(blocks) by { MallocMeaning(hv, totalSize); }
      if Absorbed(h.blocks, i, size) { SwallowedSize(h, i, size, m, mem); } else { SizeReads(h, i, size); }
      n := Word32(mem.bytes, b + SIZE_OFFSET);
      if n > mem.hdr[newPtr - HEADER_SIZE].size || ptr + n > brk {
        newPtr := NULL;
      }
    }

    /** Where nothing swallowed it, the old block's header still stands, and the new block lies apart from it. */
    lemma SizeReads(h: Heap, i: nat, size: nat)
      requires Shape(h) && i < |h.blocks| && !h.blocks[i].free && 0 < size && !TooBig(size)
      requires !Shrinks(h.blocks, i, size) && !GrowsInPlace(h.blocks, i, size) && !Absorbed(h.blocks, i, size)
      requires Valid() && State() == Fetched(h, i, size).0 && Fetched(h, i, size).1 >= 0
      ensures SizeAt(mem.bytes, h.blocks[i].addr, StaleSize(h, i, size))
      ensures var p, q := h.blocks[i].Ptr(), blocks[Fetched(h, i, size).1].Ptr();
              q <= p || p + StaleSize(h, i, size) <= q
    {
      hide Tiled, Coalesced, Malloc, Absorbed, Widened, Stretched, Chain, StaleSize, Spelled;
      var hv := Before(h, i, size);
      StretchedListed(h, hv, i, size);
      IntactSize(h, i, size);
      StretchedFits(h, i);
      HeaderSize(mem, h.blocks[i].addr);
    }

    // memcpy(new_ptr, ptr, n); kfree(ptr). Returns the bytes between the two.
    method CopyAndFree(newPtr: int, ptr: int, n: int, ghost k: nat) returns (ghost b3: map<int, Byte>)
      requires Valid() && k < |blocks| && blocks[k] in Live(blocks) && newPtr == blocks[k].Ptr()
      requires 0 <= n <= blocks[k].size && 0 <= ptr < TWO_64
      modifies this`mem, this`blocks, this`errno
      ensures Valid() && State() == Free(old(State()), ptr)
      ensures newPtr <= ptr || ptr + n <= newPtr ==> Copied(old(mem.bytes), ptr, b3, newPtr, n)
      ensures BytesOutside(old(mem.bytes), b3, newPtr, newPtr + n)
      ensures Untouched(b3, mem.bytes, Live(old(blocks))) && OnlyHeaders(b3, mem.bytes, old(blocks), 0, 0)
    {
      hide Free, Tiled, Chain;
      Memcpy(newPtr, ptr, n, blocks[k]);
      b3 := mem.bytes;
      KFree(ptr);
    }

    /** The old block is still in the list, with what it gained, and apart from the new one. */
    lemma StretchedListed(h: Heap, hv: Heap, i: nat, size: nat)
      requires Shape(h) && i < |h.blocks| && !h.blocks[i].free && !Absorbed(h.blocks, i, size)
      requires !Shrinks(h.blocks, i, size) && !GrowsInPlace(h.blocks, i, size)
      requires hv == h.(blocks := Vacated(h.blocks, i, size))
      requires Valid() && Malloc(hv, Total(size)).0 == State() && Malloc(hv, Total(size)).1 >= 0 && 0 < size
               && !TooBig(size)
      ensures var b, s, x := h.blocks[i].addr, Stretched(h.blocks, i), blocks[Malloc(hv, Total(size)).1];
              && b in mem.hdr && mem.hdr[b].size == s.size < x.size
              && (x.Ptr() <= h.blocks[i].Ptr() || h.blocks[i].Ptr() + s.size <= x.Ptr())
    {
      hide Tiled, Coalesced, Malloc, Vacated, Shrinks, GrowsInPlace, Absorbed, Widened;
      VacatedShape(h, i, size);
      VacatedLive(h, i, size);
      NotEnough(h.blocks, i, size);
      MallocMeaning(hv, Total(size));
      var s := Stretched(h.blocks, i);
      assert s.Ptr() == h.blocks[i].Ptr();
      FindLive(State(), s);
      Linked(FindBlock(blocks, s.Ptr()));
      OneBeforeTheOther(State(), s, blocks[Malloc(hv, Total(size)).1]);
    }

    // krealloc where the block is not shrunk: grow it where it is, or move it.
    method Enlarge(ptr: int, size: nat, totalSize: nat, ghost i: nat) returns (r: Reallocated, ghost k: int)
      requires Valid() && Coalesced(blocks) && i < |blocks| && !blocks[i].free && ptr == blocks[i].Ptr() < TWO_64
      requires 0 < size && !TooBig(size) && totalSize == Total(size) && !Shrinks(blocks, i, size)
      modifies this`head, this`mem, this`brk, this`blocks, this`errno
      ensures r.Lost? <==> Stuck(old(State()), i, size) || Overruns(old(State()), i, size)
      ensures r.Pointer? ==>
              Valid() && k >= 0 && (State(), At(k)) == Realloc(old(State()), i, size) && r.ptr == PtrOf(blocks, k)
      ensures r.Pointer? && Absorbed(old(blocks), i, size) ==>
                Delivered(old(State()), i, size, old(mem.bytes), mem.bytes, r.ptr)
      ensures r.Pointer? && !Absorbed(old(blocks), i, size) ==>
              Moved(old(State()), i, size, old(mem.bytes), mem.bytes, r.ptr)
    {
      TiledMember(blocks, KHEAP_START, brk, blocks[i]);
      hide Tiled, Coalesced, Malloc, Free, SplitAt, Vacated, Refused, Widened, Moved, Realloc, Stuck, Absorbed;
      hide Shrinks, Untouched;
      ghost var h, b0 := State(), mem.bytes;
      var b := ptr - HEADER_SIZE;
      var newPtr := Vacate(b, totalSize, i, size);
      if newPtr == NULL {
        r, k := Move(ptr, b, size, totalSize, i, h, b0);
      } else {
        StayPut(newPtr, size, i, h, b0);
        r, k := Pointer(newPtr), i;
      }
    }

    // The block has grown where it is: split off what is too much. h and b0 are the heap and the bytes krealloc began
    // with.
    method StayPut(newPtr: int, size: nat, ghost i: nat, ghost h: Heap, ghost b0: map<int, Byte>)
      requires Shape(h) && Coalesced(h.blocks) && i < |h.blocks| && !h.blocks[i].free && newPtr == h.blocks[i].Ptr()
      requires 0 < size && !TooBig(size) && !Shrinks(h.blocks, i, size) && GrowsInPlace(h.blocks, i, size)
      requires Valid() && State() == h.(blocks := Vacated(h.blocks, i, size))
               && Untouched(b0, mem.bytes, Live(h.blocks))
      modifies this`mem, this`blocks
      ensures Valid() && (State(), At(i)) == Realloc(h, i, size) && i < |blocks| && newPtr == PtrOf(blocks, i)
      ensures Moved(h, i, size, b0, mem.bytes, newPtr)
    {
      hide Tiled, Coalesced, SplitAt, Vacated, Shrinks, GrowsInPlace, Untouched, Moved;
      GrownInPlace(h, i, size);
      ghost var v, b1 := blocks[i], mem.bytes;
      SplitAtBlock(blocks, i, size);
      SplitListed(newPtr - HEADER_SIZE, size, i);
      GrownContents(h, i, size, v, b0, b1, mem.bytes);
    }

    /** i is the index of the block ptr was returned for. */
    method KRealloc(ptr: int, size: nat, ghost i: int) returns (r: Reallocated, ghost k: int)
      requires Valid() && Coalesced(blocks) && size < TWO_64 && 0 <= ptr < TWO_64
      requires ptr != NULL ==> 0 <= i < |blocks| && !blocks[i].free && blocks[i].Ptr() == ptr
      modifies this`head, this`mem, this`brk, this`blocks, this`errno
      ensures ptr == NULL ==> Valid() && (State(), k) == Malloc(old(State()), size) && r == Pointer(PtrOf(blocks, k))
      ensures ptr != NULL && size == 0 ==> Valid() && State() == Free(old(State()), ptr) && r == Pointer(NULL)
      ensures ptr != NULL && size > 0 && TooBig(size) ==>
                Valid() && r == Pointer(NULL) && State() == old(State()) && mem == old(mem) && errno == ENOMEM
      ensures ptr == NULL || size == 0 ==> Untouched(old(mem.bytes), mem.bytes, Live(old(blocks)))
      // On every other call the heap becomes what Realloc says, ...
      ensures ptr != NULL && size > 0 && !TooBig(size) && r.Pointer? ==>
                Valid() && k >= 0 && (State(), At(k)) == Realloc(old(State()), i, size) && r.ptr == PtrOf(blocks, k)
      // ... and krealloc is lost exactly where kmalloc finds no memory or the copy runs over, ...
      ensures ptr != NULL && size > 0 && !TooBig(size) ==>
                (r.Lost? <==> Stuck(old(State()), i, size) || Overruns(old(State()), i, size))
      // ... and nobody else's contents change, while the block's own come along unless the previous block swallows it;
      // ...
      ensures ptr != NULL && size > 0 && !TooBig(size) && !Absorbed(old(blocks), i, size) && r.Pointer? ==>
                Moved(old(State()), i, size, old(mem.bytes), mem.bytes, r.ptr)
      // ... then each byte is the one that Result gives.
      ensures ptr != NULL && size > 0 && !TooBig(size) && Absorbed(old(blocks), i, size) && r.Pointer? ==>
                Delivered(old(State()), i, size, old(mem.bytes), mem.bytes, r.ptr)
      // So they come along wherever they can be relied on to.
      ensures ptr != NULL && size > 0 && !TooBig(size) && Delivers(old(State()), i, size) ==>
                r.Pointer? && Moved(old(State()), i, size, old(mem.bytes), mem.bytes, r.ptr)
    {
      hide Tiled, Coalesced, Malloc, Free, Vacated, Refused, Widened, SplitAt, Delivers, Overruns, Stuck, Absorbed;
      k := -1;
      if ptr == NULL {
        var p;
        p, k := KMalloc(size);
        return Pointer(p), k;
      }
      if size == 0 {
        KFree(ptr);
        return Pointer(NULL), -1;
      }
      var totalSize := RoundUp64(size, ALIGN_SIZE);
      if size > UINT32_MAX || totalSize > UINT32_MAX {
        errno := ENOMEM;
        return Pointer(NULL), -1;
      }
      TotalFacts(size);
      Linked(i);
      ghost var h, b0 := State(), mem.bytes;
      if totalSize < mem.hdr[ptr - HEADER_SIZE].size {
        SplitAtBlock(blocks, i, totalSize);
        SplitListed(ptr - HEADER_SIZE, totalSize, i);
        GrownContents(h, i, size, h.blocks[i], b0, b0, mem.bytes);
        JustShrunk(h, i, size);
        return Pointer(ptr), i;
      }
      r, k := Enlarge(ptr, size, totalSize, i);
      if Delivers(h, i, size) { ComesAlong(h, i, size, b0, mem.bytes, r); }
    }

    // kfree of a block with one behind it.
    method SweepBlock(ptr: int, ghost i: nat)
      requires Valid() && Coalesced(blocks) && Aligned(blocks) && i + 1 < |blocks| && !blocks[i].free
               && ptr == blocks[i].Ptr()
      requires i > 0 ==> blocks[0].free
      modifies this`mem, this`blocks, this`errno
      ensures Valid() && Coalesced(blocks) && Aligned(blocks) && brk == old(brk)
      ensures blocks != [] && blocks[0].free
      ensures Live(blocks) <= Live(old(blocks)) && |Live(blocks)| == |Live(old(blocks))| - 1
    {
      hide Free, Refused, Tiled, Chain, Coalesced, Aligned, Live;
      ghost var live := Live(blocks);
      SweepStep(State(), i);
      OldAddress(State(), i);
      KFree(ptr);
    }

    /** The sweep of kmalloc_cleanup: free every block but the last, starting over at the head each time. */
    method Sweep() returns (unfreed: nat)
      requires Valid() && Coalesced(blocks) && Aligned(blocks)
      modifies this`mem, this`blocks, this`errno
      ensures Valid() && Coalesced(blocks) && Aligned(blocks) && brk == old(brk)
      ensures |blocks| <= 2 && (|blocks| == 2 ==> blocks[0].free)
      ensures Live(blocks) <= Live(old(blocks)) && unfreed == |Live(old(blocks))| - |Live(blocks)|
      ensures forall x | x in Live(blocks) :: x.End() == brk
    {
      hide Free, Refused, Tiled, Chain, Coalesced, Aligned;
      unfreed := 0;
      HeadIsNull();
      if head == NULL {
        return;
      }
      var b := head;
      ghost var i := 0;
      Linked(0);
      while b != NULL && mem.hdr[b].next != NULL
        invariant Valid() && Coalesced(blocks) && Aligned(blocks) && brk == old(brk)
        invariant 0 <= i <= |blocks| && blocks != [] && b == AddrOf(blocks, i) && (b != NULL ==> b in mem.hdr)
        invariant i < |blocks| ==> b != NULL && (mem.hdr[b].next == NULL <==> i + 1 == |blocks|)
        invariant forall j | 0 <= j < i :: blocks[j].free
        invariant Live(blocks) <= Live(old(blocks)) && unfreed == |Live(old(blocks))| - |Live(blocks)|
        decreases |Live(blocks)|, |blocks| - i
      {
        Linked(i);
        if !mem.hdr[b].free {
          unfreed := unfreed + 1;
          SweepBlock(mem.hdr[b].ptr, i);
          b := head;
          i := 0;
          Linked(0);
        }
        b := mem.hdr[b].next;
        i := i + 1;
        if i < |blocks| { Linked(i); }
      }
      if |blocks| > 2 { NotBothFree(blocks, 0); }
      TiledBounds(blocks, KHEAP_START, brk);
    }
  }

  /** The header of the swallowed block still names its neighbours. */
  lemma StaleLinks(h: Heap, i: nat, size: nat)
    requires Shape(h) && i < |h.blocks| && Absorbed(h.blocks, i, size)
    ensures var (pre, freed) := (h.blocks[..i], Widened(h.blocks, i));
            StaleHeader(h, i, size) ==
              Header(h.blocks[i].Ptr(), freed[0].size, false, First(freed[1..], NULL), Last(pre, NULL))
  {
    var pre, bs, freed := h.blocks[..i], h.blocks, Widened(h.blocks, i);
    var m := [bs[i - 1]] + freed;
    WidenedFacts(h, i);
    assert FreeAt(bs, i) == bs[..i - 1] + MergeFirst(m);
    assert MergeFirst(m)[1..] == m[2..] == freed[1..];
  }

  lemma JustShrunk(h: Heap, i: nat, size: nat)
    requires i < |h.blocks| && Shrinks(h.blocks, i, size)
    ensures !Absorbed(h.blocks, i, size) && !Stuck(h, i, size) && !Overruns(h, i, size)
  {
  }

  lemma ComesAlong(h: Heap, i: nat, size: nat, b: map<int, Byte>, c: map<int, Byte>, r: Reallocated)
    requires Shape(h) && i < |h.blocks| && !h.blocks[i].free && 0 < size && !TooBig(size) && Delivers(h, i, size)
    requires r.Lost? <==> Stuck(h, i, size) || Overruns(h, i, size)
    requires r.Pointer? && Absorbed(h.blocks, i, size) ==> Delivered(h, i, size, b, c, r.ptr)
    requires r.Pointer? && !Absorbed(h.blocks, i, size) ==> Moved(h, i, size, b, c, r.ptr)
    ensures r.Pointer? && Moved(h, i, size, b, c, r.ptr)
  {
    hide Stuck, Overruns, ReturnsLive, ContentsKept, FreesItsResult, CopiesAll, HitsContents;
    DeliversIff(h, i, size);
    if Absorbed(h.blocks, i, size) { KeptBytes(h, i, size, b, c, r.ptr); }
  }

  lemma OldAddress(h: Heap, i: nat)
    requires Shape(h) && i < |h.blocks|
    ensures 0 <= h.blocks[i].Ptr() < TWO_64
  {
    TiledMember(h.blocks, KHEAP_START, h.brk, h.blocks[i]);
  }

  lemma FetchedIs(h: Heap, i: nat, size: nat)
    requires i < |h.blocks|
    ensures Fetched(h, i, size) == Malloc(Before(h, i, size), Total(size))
  {
  }

  lemma IntactSize(h: Heap, i: nat, size: nat)
    requires Shape(h) && i < |h.blocks| && !h.blocks[i].free && !Absorbed(h.blocks, i, size)
    ensures StaleSize(h, i, size) == Stretched(h.blocks, i).size
  {
    StaleIntact(h, i, size);
  }

  /** The size of a header that stands, read from the bytes. */
  lemma HeaderSize(m: Store, a: int)
    requires a in m.hdr && 0 <= m.hdr[a].size < HEAP_MAX
    ensures SizeAt(m.bytes, a, m.hdr[a].size)
  {
    hide Le;
    assert Spelled(m.bytes, a, m.hdr[a]);
    assert FieldAt(a, a + 8) && FieldAt(a, a + 9) && FieldAt(a, a + 10) && FieldAt(a, a + 11);
    JoinLe(m.hdr[a].size);
  }

  lemma AllSteps(h: Heap, i: nat, size: nat, b0: map<int, Byte>, m: Store, n: Store,
                 b3: map<int, Byte>, b4: map<int, Byte>, b5: map<int, Byte>)
    requires i < |h.blocks| && 0 < size
    requires OnlyHeaders(b0, m.bytes, h.blocks, 0, 0) && StaleIn(h, i, size, m) && Kmalloced(h, i, size, m, n)
    requires var (g, k) := Fetched(h, i, size);
             var p, q, c := h.blocks[i].Ptr(), g.blocks[k].Ptr(), StaleSize(h, i, size);
             && (q <= p || p + c <= q ==> Copied(n.bytes, p, b3, q, c)) && BytesOutside(n.bytes, b3, q, q + c)
             && OnlyHeaders(b3, b4, g.blocks, 0, 0)
             && exists end :: q + size <= end && SameBytes(b4, b5, q, end)
    ensures Steps(h, i, size, b0, m, n, b3, b4, b5)
  {
    hide OnlyHeaders, StaleIn, Kmalloced, StaleSize;
  }

  lemma GrownInPlace(h: Heap, i: nat, size: nat)
    requires Shape(h) && i < |h.blocks| && !h.blocks[i].free && GrowsInPlace(h.blocks, i, size)
    ensures var v := Vacated(h.blocks, i, size);
            && i < |v| && v[i] == Stretched(h.blocks, i)
            && v[i].addr == h.blocks[i].addr && !v[i].free && h.blocks[i].size <= v[i].size
            && Live(v) - {v[i]} == Live(h.blocks) - {h.blocks[i]}
  {
    VacatedShape(h, i, size);
    VacatedLive(h, i, size);
    NotElsewhere(h, i, Stretched(h.blocks, i));
  }

  /** The contents have come along, and no other live payload has changed. */
  ghost predicate Moved(h: Heap, i: nat, size: nat, b: map<int, Byte>, c: map<int, Byte>, p: int)
    requires i < |h.blocks|
  {
    && Copied(b, h.blocks[i].Ptr(), c, p, Min(h.blocks[i].size, size))
    && Untouched(b, c, Live(h.blocks) - {h.blocks[i]})
  }

  lemma GrownContents(h: Heap, i: nat, size: nat, v: Block, b0: map<int, Byte>, b1: map<int, Byte>, b2: map<int, Byte>)
    requires i < |h.blocks| && h.blocks[i] in Live(h.blocks)
    requires v.Ptr() == h.blocks[i].Ptr() && h.blocks[i].size <= v.size
    requires Untouched(b0, b1, Live(h.blocks)) && Untouched(b1, b2, Live(h.blocks) - {h.blocks[i]})
    requires SameBytes(b1, b2, v.Ptr(), Min(v.Ptr() + size, v.End()))
    ensures Moved(h, i, size, b0, b2, v.Ptr())
  {
    SamePayload(b0, b1, Live(h.blocks), h.blocks[i]);
    forall c, a | c in Live(h.blocks) - {h.blocks[i]} && c.InPayload(a) ensures Same(b0, b2, a) {
      assert Same(b0, b1, a) && Same(b1, b2, a);
    }
  }

  /** The five steps of a move: b0 to b5 are the bytes before, between and after them. */
  ghost predicate MoveSteps(h: Heap, g: Heap, i: nat, size: nat, s: Block, x: Block, n: int,
                            b0: map<int, Byte>, b1: map<int, Byte>, b2: map<int, Byte>,
                            b3: map<int, Byte>, b4: map<int, Byte>, b5: map<int, Byte>)
    requires i < |h.blocks|
  {
    var rest := Live(h.blocks) - {h.blocks[i]};
    && h.blocks[i] in Live(h.blocks) && s == h.blocks[i].(size := n) && h.blocks[i].size <= n <= x.size
    && size <= x.size
    && Shape(g) && Live(g.blocks) == rest + {s, x} && x !in rest + {s}
    && Untouched(b0, b1, Live(h.blocks)) && Untouched(b1, b2, rest + {s})
    && Copied(b2, s.Ptr(), b3, x.Ptr(), n) && BytesOutside(b2, b3, x.Ptr(), x.Ptr() + n)
    && Untouched(b3, b4, Live(g.blocks)) && Untouched(b4, b5, rest)
    && SameBytes(b4, b5, x.Ptr(), Min(x.Ptr() + size, x.End()))
  }

  lemma MovedContents(h: Heap, g: Heap, i: nat, size: nat, s: Block, x: Block, n: int,
                      b0: map<int, Byte>, b1: map<int, Byte>, b2: map<int, Byte>,
                      b3: map<int, Byte>, b4: map<int, Byte>, b5: map<int, Byte>)
    requires i < |h.blocks| && MoveSteps(h, g, i, size, s, x, n, b0, b1, b2, b3, b4, b5)
    ensures Moved(h, i, size, b0, b5, x.Ptr())
  {
    var b, rest := h.blocks[i], Live(h.blocks) - {h.blocks[i]};
    SamePayload(b0, b1, Live(h.blocks), b);
    SamePayload(b1, b2, rest + {s}, s);
    SamePayload(b3, b4, Live(g.blocks), x);
    forall c, a | c in rest && c.InPayload(a) ensures Same(b0, b5, a) {
      assert !x.InPayload(a) by { if x.Holds(a) { TiledDisjoint(g.blocks, KHEAP_START, g.brk, c, x, a); } }
      assert Same(b0, b1, a) && Same(b1, b2, a) && Same(b2, b3, a) && Same(b3, b4, a) && Same(b4, b5, a);
    }
  }

  /** The steps of Move put together. */
  lemma MoveDone(h: Heap, i: nat, size: nat, g: Heap, k: nat, b0: map<int, Byte>, b1: map<int, Byte>,
                 b2: map<int, Byte>,
                 b3: map<int, Byte>, b4: map<int, Byte>, b5: map<int, Byte>)
    requires Shape(h) && i < |h.blocks| && !h.blocks[i].free && 0 < size && !TooBig(size)
             && !Absorbed(h.blocks, i, size)
    requires !Shrinks(h.blocks, i, size) && !GrowsInPlace(h.blocks, i, size)
    requires k < |g.blocks| && (g, k) == Fetched(h, i, size)
    requires Untouched(b0, b1, Live(h.blocks)) && Untouched(b1, b2, Live(Before(h, i, size).blocks))
    requires var n := Stretched(h.blocks, i).size;
             && Copied(b2, h.blocks[i].Ptr(), b3, g.blocks[k].Ptr(), n)
             && BytesOutside(b2, b3, g.blocks[k].Ptr(), g.blocks[k].Ptr() + n)
    requires Untouched(b3, b4, Live(g.blocks))
    requires var f := Free(g, h.blocks[i].Ptr()).blocks;
             var j := FindBlock(f, g.blocks[k].Ptr());
             && j < |f| && Untouched(b4, b5, Live(f) - {f[j]})
             && SameBytes(b4, b5, f[j].Ptr(), Min(f[j].Ptr() + size, f[j].End()))
    ensures Moved(h, i, size, b0, b5, g.blocks[k].Ptr())
  {
    hide Tiled, Coalesced, Malloc, Free, Vacated, Refused, Shrinks, GrowsInPlace, Absorbed, Widened, FindBlock, Moved;
    var s, x, hv := Stretched(h.blocks, i), g.blocks[k], h.(blocks := Vacated(h.blocks, i, size));
    TotalFacts(size);
    VacatedShape(h, i, size);
    VacatedLive(h, i, size);
    NotElsewhere(h, i, s);
    NotEnough(h.blocks, i, size);
    MallocMeaning(hv, Total(size));
    FreeOne(g, s);
    FindLive(Free(g, s.Ptr()), x);
    assert h.blocks[i] in Live(h.blocks);
    var rest := Live(h.blocks) - {h.blocks[i]};
    assert rest <= Live(Free(g, s.Ptr()).blocks) - {x};
    assert MoveSteps(h, g, i, size, s, x, s.size, b0, b1, b2, b3, b4, b5);
    MovedContents(h, g, i, size, s, x, s.size, b0, b1, b2, b3, b4, b5);
  }

  /** A block does not start inside another one. */
  lemma OneBeforeTheOther(g: Heap, s: Block, x: Block)
    requires Shape(g) && s in Live(g.blocks) && x in Live(g.blocks) && s != x
    ensures x.Ptr() <= s.Ptr() || s.End() <= x.Ptr()
  {
    TiledMember(g.blocks, KHEAP_START, g.brk, x);
    if s.Holds(x.Ptr()) { TiledDisjoint(g.blocks, KHEAP_START, g.brk, s, x, x.Ptr()); }
  }

  /** The list while the block is marked free. */
  function Loosened(bs: seq<Block>, i: nat, size: nat): seq<Block>
    requires i < |bs|
  {
    if Absorbed(bs, i, size) then FreeAt(bs, i) else bs[..i] + Widened(bs, i)
  }

  lemma HeadKept(h: Heap, i: nat, size: nat)
    requires Shape(h) && i < |h.blocks|
    ensures First(Vacated(h.blocks, i, size), NULL) == First(h.blocks, NULL)
  {
    FreeShape(h, i);
    FreeAtLive(h.blocks, i);
    WidenedFacts(h, i);
  }

  function Min(x: int, y: int): int { if x <= y then x else y }

  /**
   * NULL or a pointer; Lost where the source copies to NULL, over the end of the new block, or from above the break.
   */
  datatype Reallocated = Pointer(ptr: int) | Lost

  /** Below the old break, the search adds no headers. */
  lemma OldHeaders(h: Heap, o: Heap, size: nat)
    requires Shape(h) && o == Opened(h) && 0 < size <= UINT32_MAX
    ensures h.brk <= o.brk <= Choose(o, size).0.brk
    ensures forall a | a < h.brk && InHeaders(o.blocks, a) :: InHeaders(h.blocks, a)
    ensures forall a | a < h.brk && InHeaders(Choose(o, size).0.blocks, a) :: InHeaders(h.blocks, a)
  {
    hide Tiled, RoundUp, Extension, FirstExact, LastOversized, InHeaders, Coalesced, Aligned, Live;
    OpenedFacts(h);
    RoundUpFacts(size, BIN_SIZE);
    RoundUpFacts(BIN_SIZE, BIN_SIZE);
    GrownHeaders(h, BIN_SIZE);
    GrownHeaders(o, size);
  }

  lemma GrownHeaders(h: Heap, size: nat)
    requires Shape(h) && 0 < size <= UINT32_MAX
    ensures forall a | a < h.brk && InHeaders(Grow(h, size).blocks, a) :: InHeaders(h.blocks, a)
  {
    hide Tiled, RoundUp, Extension, InHeaders, Coalesced, Aligned, Live;
    RoundUpFacts(size, BIN_SIZE);
    ExtensionFacts(h.brk, size);
    forall a | a < h.brk && InHeaders(Grow(h, size).blocks, a) ensures InHeaders(h.blocks, a) {
      EitherHeaders(h.blocks, Extension(h.brk, size), a);
      HeadersInside(Extension(h.brk, size), h.brk, h.brk + RoundUp(size, BIN_SIZE) + HEADER_SIZE, a);
    }
  }

  lemma QuietSplit(h: Heap, k: nat, size: nat, m0: Memory, m1: Memory)
    requires Shape(h) && k < |h.blocks| && 0 < size
    requires OnlyHeaders(m0.bytes, m1.bytes, h.blocks[k..] + SplitFirst(h.blocks[k..], size), 0, 0)
    ensures Untouched(m0.bytes, m1.bytes, Live(h.blocks) - {h.blocks[k]})
    ensures SameBytes(m0.bytes, m1.bytes, h.blocks[k].Ptr(), Min(h.blocks[k].Ptr() + size, h.blocks[k].End()))
  {
    var x, pre, seg, bs := h.blocks[k], h.blocks[..k], h.blocks[k..], SplitAt(h.blocks, k, size);
    var g := h.(blocks := bs);
    assert h.blocks == pre + seg && bs == pre + SplitFirst(seg, size);
    hide Tiled, SplitFirst, Coalesced, Aligned, SplitAt, OnlyHeaders, SameBytes, Same;
    WiderHeaders(m0.bytes, m1.bytes, pre, seg, SplitFirst(seg, size));
    SplitAtShape(h, k, size);
    SplitAtBlock(h.blocks, k, size);
    StillLive(h, k, size);
    QuietBoth(m0.bytes, m1.bytes, h, g);
    forall c, a | c in Live(h.blocks) - {x} && c.InPayload(a) ensures Same(m0.bytes, m1.bytes, a) {
      assert c in Live(h.blocks) * Live(g.blocks);
    }
    KeptFront(h, g, k, m0, m1, Min(x.Ptr() + size, x.End()));
  }

  lemma KeptFront(h: Heap, g: Heap, k: nat, m0: Memory, m1: Memory, end: int)
    requires Shape(h) && Shape(g) && k < |h.blocks| && k < |g.blocks| && g.blocks[k].addr == h.blocks[k].addr
    requires end <= h.blocks[k].End() && end <= g.blocks[k].End()
             && OnlyHeaders(m0.bytes, m1.bytes, h.blocks + g.blocks, 0, 0)
    ensures SameBytes(m0.bytes, m1.bytes, h.blocks[k].Ptr(), end)
  {
    hide Tiled, InHeaders;
    forall a | h.blocks[k].Ptr() <= a < end ensures !InHeaders(h.blocks + g.blocks, a) {
      OwnPayloadApart(h, h.blocks[k], a);
      OwnPayloadApart(g, g.blocks[k], a);
      EitherHeaders(h.blocks, g.blocks, a);
    }
  }

  lemma StillLive(h: Heap, k: nat, size: nat)
    requires Shape(h) && k < |h.blocks| && 0 < size
    ensures Live(h.blocks) - {h.blocks[k]} <= Live(SplitAt(h.blocks, k, size))
  {
    var pre, seg := h.blocks[..k], h.blocks[k..];
    SplitFirstFacts(seg, size);
    assert h.blocks == pre + ([seg[0]] + seg[1..]);
    var r := SplitFirst(seg, size);
    assert SplitAt(h.blocks, k, size) == pre + ([r[0]] + r[1..]);
    LiveAround(pre, seg[0], seg[1..]);
    LiveAround(pre, r[0], r[1..]);
  }

  /** The header of a swallowed block is written to once more, inside the free block that swallowed it. */
  lemma VacatedByAbsorbing(h: Heap, i: nat, m0: Memory, m1: Memory)
    requires Shape(h) && 0 < i < |h.blocks| && h.blocks[i - 1].free
    requires var b := h.blocks[i].addr;
             && Chain(m0.hdr, FreeAt(h.blocks, i), NULL, NULL)
             && HeadersOutside(m0.hdr, m1.hdr, b, b + HEADER_BYTES)
    ensures Shape(h.(blocks := FreeAt(h.blocks, i)))
    ensures Chain(m1.hdr, FreeAt(h.blocks, i), NULL, NULL)
  {
    FreeShape(h, i);
    var y := SwallowingBlock(h, i);
    StaleWrite(m0.hdr, m1.hdr, FreeAt(h.blocks, i), KHEAP_START, h.brk, y, h.blocks[i].addr);
  }

  lemma SwallowingBlock(h: Heap, i: nat) returns (y: Block)
    requires Shape(h) && 0 < i < |h.blocks| && h.blocks[i - 1].free
    ensures y in FreeAt(h.blocks, i) && y.Ptr() <= h.blocks[i].addr && h.blocks[i].Ptr() <= y.End()
  {
    var bs := h.blocks;
    var m := [bs[i - 1]] + MergeFirst([bs[i].(free := true)] + bs[i + 1..]);
    MergeFirstFacts([bs[i].(free := true)] + bs[i + 1..]);
    WidenedFacts(h, i);
    y := MergeFirst(m)[0];
    var r := FreeAt(bs, i);
    assert r == bs[..i - 1] + MergeFirst(m) && r[i - 1] == y;
    assert bs == bs[..i - 1] + bs[i - 1..];
    TiledCut(bs[..i - 1], bs[i - 1..], KHEAP_START, h.brk);
    assert bs[i - 1..][1..] == bs[i..];
    TiledMember(bs, KHEAP_START, h.brk, bs[i]);
    TiledMember(bs, KHEAP_START, h.brk, bs[i - 1]);
  }

  lemma QuietRelease(h: Heap, i: nat, m0: Memory, m1: Memory)
    requires Shape(h) && i < |h.blocks| && OnlyHeaders(m0.bytes, m1.bytes, h.blocks[i..], 0, 0)
    ensures OnlyHeaders(m0.bytes, m1.bytes, h.blocks, 0, 0)
  {
    forall a | !InHeaders(h.blocks, a) ensures !InHeaders(h.blocks[i..], a) {
      MoreHeaders(h.blocks[i..], h.blocks, a);
    }
  }

  /** The headers of the list after that are among those before. */
  lemma QuietMerge(h: Heap, i: nat, m0: Memory, m1: Memory, m2: Memory)
    requires Shape(h) && i < |h.blocks| && OnlyHeaders(m0.bytes, m1.bytes, h.blocks, 0, 0)
    requires var seg := h.blocks[i..];
             OnlyHeaders(m1.bytes, m2.bytes, h.blocks[..i] + MergeFirst([seg[0].(free := true)] + seg[1..]), 0, 0)
    ensures OnlyHeaders(m0.bytes, m2.bytes, h.blocks, 0, 0)
  {
    var f := [h.blocks[i..][0].(free := true)] + h.blocks[i..][1..];
    forall a | !InHeaders(h.blocks, a) ensures !InHeaders(h.blocks[..i] + MergeFirst(f), a) {
      forall x | x in h.blocks[..i] + MergeFirst(f) ensures !FieldAt(x.addr, a) {
        assert x in h.blocks || x.addr == h.blocks[i].addr;
        assert !FieldAt(h.blocks[i].addr, a);
      }
    }
  }

  lemma QuietVacate(h: Heap, i: nat, m0: Memory, m1: Memory, m2: Memory)
    requires Shape(h) && i < |h.blocks| && OnlyHeaders(m0.bytes, m1.bytes, h.blocks, 0, 0)
    requires FieldsOnly(m1.bytes, m2.bytes, h.blocks[i].addr)
    ensures OnlyHeaders(m0.bytes, m2.bytes, h.blocks, 0, 0)
    ensures Untouched(m0.bytes, m2.bytes, Live(h.blocks))
  {
    forall a | !InHeaders(h.blocks, a) ensures !FieldAt(h.blocks[i].addr, a) {
      assert h.blocks[i] in h.blocks;
    }
    HeaderWritesAreQuiet(m0.bytes, m2.bytes, h, h.blocks, 0, 0);
  }

  lemma TakenFirst(h: Heap, k: nat, size: nat)
    requires k < |h.blocks|
    ensures First(Take(h, k, size).blocks, NULL) == First(SplitAt(h.blocks, k, size), NULL)
  {
  }

  /** The flag of the first block does not matter to where headers are. */
  lemma SameWhenUsed(seg: seq<Block>, r: seq<Block>, a: int)
    requires seg != [] && r != [] && !InHeaders(seg + Used(r), a)
    ensures !InHeaders(seg + r, a) && !FieldAt(seg[0].addr, a)
  {
    hide FieldAt;
    assert seg[0] in seg + Used(r) && Used(r)[0] in seg + Used(r);
    forall y | y in seg + r ensures !FieldAt(y.addr, a) {
      assert y in seg + Used(r) || y.addr == Used(r)[0].addr;
    }
  }

  /** What split_block reads before it writes: the block's own header, and where the rest will go. */
  lemma FirstLink(h: map<int, Header>, seg: seq<Block>, prev: int, size: nat, hi: int)
    requires seg != [] && seg[0].addr > 0 && Tiled(seg, seg[0].addr, hi) && Chain(h, seg, prev, NULL)
    requires 0 < size && seg[0].size >= size + MIN_BLK_SIZE
    ensures seg[0].addr in h
            && h[seg[0].addr] == Header(seg[0].Ptr(), seg[0].size, seg[0].free, First(seg[1..], NULL), prev)
    ensures Chain(h, seg[1..], seg[0].addr, NULL) && Tiled(seg[1..], seg[0].End(), hi)
    ensures seg[1..] != [] ==> 0 < seg[1].addr
  {
  }

  lemma QuietCarve(m0: Memory, m1: Memory, m2: Memory, rest: Block, post: seq<Block>)
    requires rest.free && FieldsOnly(m0.bytes, m1.bytes, rest.addr)
    requires m1 == m2 || OnlyHeaders(m1.bytes, m2.bytes, [rest] + post, 0, 0)
    ensures OnlyHeaders(m0.bytes, m2.bytes, post + MergeFirst([rest] + post), 0, 0)
  {
    forall a | !InHeaders(post + MergeFirst([rest] + post), a)
      ensures !InHeaders([rest] + post, a) && !FieldAt(rest.addr, a)
    {
      CarvedHeaders(post, rest, a);
    }
  }

  lemma AloneLinked(h: map<int, Header>, rest: Block, prev: int)
    requires rest.free && rest.addr in h && h[rest.addr] == Header(rest.Ptr(), rest.size, true, NULL, prev)
    ensures Chain(h, MergeFirst([rest] + []), prev, NULL)
  {
    assert [rest][1..] == [] && [rest] + [] == [rest];
  }

  lemma SplitRest(seg: seq<Block>, size: int)
    requires seg != [] && seg[0].size >= size + MIN_BLK_SIZE
    ensures SplitFirst(seg, size)[1..] ==
            MergeFirst([Block(seg[0].Ptr() + size, seg[0].size - size - HEADER_SIZE, true)] + seg[1..])
  {
  }

  lemma QuietHandOut(h: Heap, k: nat, size: nat, m0: Memory, m1: Memory, m2: Memory)
    requires Shape(h) && k < |h.blocks| && h.blocks[k].free && 0 < size <= h.blocks[k].size
    requires OnlyHeaders(m0.bytes, m1.bytes, h.blocks[k..] + SplitFirst(h.blocks[k..], size), 0, 0)
    requires FieldsOnly(m1.bytes, m2.bytes, h.blocks[k].addr)
    ensures Aside(m0.bytes, m2.bytes, h.blocks, Take(h, k, size).blocks, h.brk)
    ensures Untouched(m0.bytes, m2.bytes, Live(h.blocks))
  {
    hide Tiled, FieldAt, SplitFirst, Coalesced, Aligned;
    var x, pre, seg, g := h.blocks[k], h.blocks[..k], h.blocks[k..], Take(h, k, size);
    var r := SplitFirst(seg, size);
    SplitFirstFacts(seg, size);
    assert h.blocks == pre + seg && g.blocks == pre + Used(r);
    forall a | !InHeaders(seg + Used(r), a) ensures !InHeaders(seg + r, a) && !FieldAt(x.addr, a) {
      SameWhenUsed(seg, r, a);
    }
    WiderHeaders(m0.bytes, m2.bytes, pre, seg, Used(r));
    TakeFacts(h, k, size);
    QuietBoth(m0.bytes, m2.bytes, h, g);
    assert Live(h.blocks) * Live(g.blocks) == Live(h.blocks);
    forall a | !InHeaders(h.blocks, a) && !InHeaders(g.blocks, a) ensures !InHeaders(h.blocks + g.blocks, a) {
      EitherHeaders(h.blocks, g.blocks, a);
    }
  }

  lemma TailGrown(h: Heap, ext: seq<Block>, top: int, m0: Memory, m1: Memory, m2: Memory)
    requires Shape(h) && h.blocks != [] && ext != [] && Tiled(ext, h.brk, top)
    requires Chain(m0.hdr, h.blocks, NULL, NULL)
    requires var b := h.blocks[|h.blocks| - 1].addr;
             && Chain(m1.hdr, ext, b, NULL)
             && HeadersBelow(m0.hdr, m1.hdr, h.brk) && OnlyHeaders(m0.bytes, m1.bytes, [], h.brk, top)
             && b in m0.hdr && HeaderStored(m1, m2, b, m0.hdr[b].(next := h.brk))
    ensures Chain(m2.hdr, h.blocks + ext, NULL, NULL)
    ensures Untouched(m0.bytes, m2.bytes, Live(h.blocks)) && Aside(m0.bytes, m2.bytes, h.blocks, [], h.brk)
  {
    var front, last := h.blocks[..|h.blocks| - 1], h.blocks[|h.blocks| - 1];
    assert h.blocks == front + [last];
    TiledBounds(h.blocks, KHEAP_START, h.brk);
    TiledMember(h.blocks, KHEAP_START, h.brk, last);
    ChainFrame(m1.hdr, m2.hdr, ext, last.addr, NULL, h.brk, top);
    AppendTail(m0.hdr, m2.hdr, front, last, ext, KHEAP_START, top);
    QuietTail(h, top, m0, m1, m2);
  }

  lemma QuietTail(h: Heap, top: int, m0: Memory, m1: Memory, m2: Memory)
    requires Shape(h) && h.blocks != []
    requires OnlyHeaders(m0.bytes, m1.bytes, [], h.brk, top)
    requires FieldsOnly(m1.bytes, m2.bytes, h.blocks[|h.blocks| - 1].addr)
    ensures Untouched(m0.bytes, m2.bytes, Live(h.blocks)) && Aside(m0.bytes, m2.bytes, h.blocks, [], h.brk)
  {
    var last := h.blocks[|h.blocks| - 1];
    forall a | !InHeaders([last], a) && !(h.brk <= a < top)
      ensures !InHeaders([], a) && !FieldAt(last.addr, a)
    {
      assert last in [last];
    }
    HeaderWritesAreQuiet(m0.bytes, m2.bytes, h, [last], h.brk, top);
    forall a | !InHeaders(h.blocks, a) ensures !InHeaders([last], a) { MoreHeaders([last], h.blocks, a); }
  }

  lemma TailKept(h: Heap, m0: Memory, m1: Memory)
    requires Shape(h) && h.blocks != [] && Chain(m0.hdr, h.blocks, NULL, NULL)
    requires var b := h.blocks[|h.blocks| - 1].addr;
             b in m0.hdr && HeaderStored(m0, m1, b, m0.hdr[b].(next := NULL))
    ensures Chain(m1.hdr, h.blocks, NULL, NULL)
    ensures Untouched(m0.bytes, m1.bytes, Live(h.blocks)) && Aside(m0.bytes, m1.bytes, h.blocks, [], h.brk)
  {
    var front, last := h.blocks[..|h.blocks| - 1], h.blocks[|h.blocks| - 1];
    assert h.blocks == front + [last] == front + [last] + [];
    TiledBounds(h.blocks, KHEAP_START, h.brk);
    AppendTail(m0.hdr, m1.hdr, front, last, [], KHEAP_START, h.brk);
    QuietTail(h, h.brk, m0, m0, m1);
  }
}
