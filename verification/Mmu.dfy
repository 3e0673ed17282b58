// mmu_driver.c: the physical frame allocator, the page tables built on demand, and pages that get their
// frame when they are first touched. A halt of the kernel is the result ok == false.
module Mmu {
  import opened FrameSupply
  import opened PageTable

  const NULL := 0
  const PHYS_END := 0x00FF_FFFF_FFFF
  const MAP_INIT_SIZE := 0x20_0000
  const BOOT_MAPPED := 0x4000_0000   // boot.asm maps the first GiB to itself

  datatype Region = KHEAP | UHEAP

  function RegionStart(r: Region): nat { if r == KHEAP then 0x0100_0000_0000 else 0x2000_0000_0000 }

  /** The first address behind a region. */
  function RegionEnd(r: Region): nat { if r == KHEAP then 0x0200_0000_0000 else 0x1_0000_0000_0000 }

  /** What a physical frame is in use as. */
  datatype Owner = Fresh | Free | TableOf(n: Node) | PageFor(v: nat) | Held

  // ---------- What the kernel can touch ----------

  /** Pages 0 to 512, which MMU_init maps to themselves. */
  predicate Identity(v: nat) { v <= MAP_INIT_SIZE / PAGE_SIZE }

  /**
   * The driver reads and writes frames at their own addresses: by the boot tables, and by its own once CR3 is loaded.
   */
  predicate Reached(loaded: bool, f: int) {
    0 <= f && if loaded then Identity(f / PAGE_SIZE) else f < BOOT_MAPPED
  }

  ghost predicate AllReached(loaded: bool, frames: seq<int>) {
    forall f | f in frames :: Reached(loaded, f)
  }

  ghost predicate TablesReached(loaded: bool, tbl: map<Node, int>) {
    forall n | n in tbl :: Reached(loaded, tbl[n])
  }

  /**
   * k tables can be made of the frames in this order: the last frame is
   * never handed out, and each table must be reached.
   */
  ghost predicate Enough(loaded: bool, pool: seq<int>, k: nat) {
    k < |pool| && AllReached(loaded, pool[..k])
  }

  lemma EnoughMore(loaded: bool, pool: seq<int>, a: nat, b: nat)
    ensures Enough(loaded, pool, a + b) <==> Enough(loaded, pool, a) && Enough(loaded, pool[a..], b)
    ensures Enough(loaded, pool, a + b) ==> a + b < |pool| && pool[a..][b..] == pool[a + b..]
  {
    if a + b < |pool| {
      assert pool[..a + b] == pool[..a] + pool[a..][..b];
    }
  }

  lemma EnoughBetween(loaded: bool, pool: seq<int>, a: nat, b: nat, c: nat)
    requires a <= b <= c && Enough(loaded, pool, a)
    ensures a < |pool| && (Enough(loaded, pool, b) <==> Enough(loaded, pool[a..], b - a))
    ensures Enough(loaded, pool, c) ==> Enough(loaded, pool, b)
    ensures Enough(loaded, pool, b) ==> b < |pool| && pool[a..][b - a..] == pool[b..]
  {
    EnoughMore(loaded, pool, a, b - a);
    EnoughMore(loaded, pool, b, c - b);
  }

  lemma ReachedToo(loaded: bool, f: int, frames: seq<int>)
    requires Reached(loaded, f) && AllReached(loaded, frames)
    ensures AllReached(loaded, [f] + frames)
  {
  }

  lemma EnoughNone(loaded: bool, pool: seq<int>)
    ensures Enough(loaded, pool, 0) <==> pool != []
    ensures Enough(loaded, pool, 1) <==> |pool| > 1 && Reached(loaded, pool[0])
    ensures pool[0..] == pool
  {
    if pool != [] { assert pool[..1] == [pool[0]]; }
  }

  // ---------- The parts of the state ----------

  ghost predicate SupplyOk(ranges: seq<Range>, curr: nat) {
    && curr < |ranges| && Usable(ranges[curr..]) && NoDup(AllFrames(ranges[curr..]))
  }

  /** The free list, linked through the frames themselves. */
  ghost predicate FreeList(phys: Phys, head: int, free: seq<int>)
    decreases free
  {
    if free == [] then head == NULL
    else head == free[0] && head != NULL && head in phys && phys[head].Link?
         && FreeList(phys, phys[head].next, free[1..])
  }

  /** Each frame has one owner, and the owners agree with the lists and the tree. */
  ghost predicate Owned(owner: map<int, Owner>, remaining: seq<int>, free: seq<int>, tbl: map<Node, int>) {
    && (forall f | f in owner :: FrameAddress(f) && f <= PHYS_END)
    && (forall f :: f in remaining <==> f in owner && owner[f] == Fresh)
    && (forall f :: f in free <==> f in owner && owner[f] == Free)
    && NoDup(free)
    && (forall n | n in tbl :: tbl[n] in owner && owner[tbl[n]] == TableOf(n))
    && (forall f | f in owner && owner[f].TableOf? :: owner[f].n in tbl && tbl[owner[f].n] == f)
  }

  lemma FreeListFrame(phys: Phys, phys': Phys, head: int, free: seq<int>)
    requires FreeList(phys, head, free)
    requires forall f | f in free && f in phys :: f in phys' && phys'[f] == phys[f]
    ensures FreeList(phys', head, free)
    decreases free
  {
    if free != [] {
      FreeListFrame(phys, phys', phys[head].next, free[1..]);
    }
  }

  lemma FirstOut(r: Range, later: seq<Range>)
    requires r.curr < r.end && Usable([r] + later)
    ensures var r' := r.(curr := r.curr + PAGE_SIZE);
            var rest := if r'.curr < r.end then [r'] + later else later;
            && AllFrames([r] + later) == [r.curr] + AllFrames(rest)
            && (r'.curr >= r.end ==> (later == [] <==> AllFrames(rest) == []))
            && (r'.curr < r.end ==> AllFrames(rest) != [])
  {
    var r' := r.(curr := r.curr + PAGE_SIZE);
    assert ([r] + later)[1..] == later && ([r'] + later)[1..] == later;
    Regroup([r.curr], Pages(r'.curr, r.end), AllFrames(later));
    assert [] + AllFrames(later) == AllFrames(later);
    if later != [] { assert later[0] in [r] + later && later == [later[0]] + later[1..]; }
  }

  /** Taking the first frame of range r off the front of the list. */
  lemma PopFrame(r: Range, later: seq<Range>)
    requires Usable([r] + later) && NoDup(AllFrames([r] + later))
    ensures var r' := r.(curr := r.curr + PAGE_SIZE);
            var rest := if r'.curr < r.end then [r'] + later else later;
            && AllFrames([r] + later) == [r.curr] + AllFrames(rest)
            && Usable(rest) && NoDup(AllFrames(rest))
            && (r'.curr >= r.end ==> (later == [] <==> AllFrames(rest) == []))
            && (r'.curr < r.end ==> AllFrames(rest) != [])
  {
    var r' := r.(curr := r.curr + PAGE_SIZE);
    assert r in [r] + later && forall x | x in later :: x in [r] + later;
    assert ([r] + later)[1..] == later && ([r'] + later)[1..] == later;
    FirstOut(r, later);
    hide AllFrames, NoDup;
    NoDupCut([r.curr], AllFrames(if r'.curr < r.end then [r'] + later else later));
  }

  lemma NoDupSupply(ranges: seq<Range>, curr: nat)
    requires SupplyOk(ranges, curr)
    ensures curr < |ranges| && NoDup(AllFrames(ranges[curr..])) && |AllFrames(ranges[curr..])| > 0
  {
    assert ranges[curr..][0] in ranges[curr..];
  }

  lemma TakeFresh(owner: map<int, Owner>, pf: int, rest: seq<int>, free: seq<int>, tbl: map<Node, int>)
    requires Owned(owner, [pf] + rest, free, tbl) && NoDup([pf] + rest)
    ensures pf in owner && FrameAddress(pf) && owner[pf] == Fresh && Owned(owner[pf := Held], rest, free, tbl)
  {
    NoDupCut([pf], rest);
    assert [pf][0] == pf && pf in [pf] + rest;
  }

  lemma TakeFree(owner: map<int, Owner>, remaining: seq<int>, pf: int, rest: seq<int>, tbl: map<Node, int>)
    requires Owned(owner, remaining, [pf] + rest, tbl)
    ensures pf in owner && FrameAddress(pf) && owner[pf] == Free && Owned(owner[pf := Held], remaining, rest, tbl)
  {
    NoDupCut([pf], rest);
    assert [pf][0] == pf && pf in [pf] + rest;
  }

  lemma GiveBack(owner: map<int, Owner>, remaining: seq<int>, pf: int, free: seq<int>, tbl: map<Node, int>)
    requires Owned(owner, remaining, free, tbl) && pf in owner && owner[pf] == Held
    ensures pf !in free && Owned(owner[pf := Free], remaining, [pf] + free, tbl)
  {
    NoDupCut([pf], free);
    assert [pf][0] == pf;
  }

  lemma Pushed(phys: Phys, head: int, free: seq<int>, pf: int)
    requires FreeList(phys, head, free) && pf !in free && pf != NULL
    ensures FreeList(phys[pf := Link(head)], pf, [pf] + free)
  {
    FreeListFrame(phys, phys[pf := Link(head)], head, free);
    assert ([pf] + free)[1..] == free;
  }

  /** Free or fresh frames have become tables; nothing else has changed hands. */
  ghost predicate OnlyTables(a: map<int, Owner>, b: map<int, Owner>) {
    a.Keys == b.Keys && forall f | f in a :: b[f] == a[f] || (a[f] in {Fresh, Free} && b[f].TableOf?)
  }

  ghost predicate SameLeaves(phys: Phys, tbl: map<Node, int>, phys': Phys, tbl': map<Node, int>) {
    forall w: nat {:trigger Leaf(phys, tbl, w)} {:trigger Leaf(phys', tbl', w)} ::
      Leaf(phys', tbl', w) == Leaf(phys, tbl, w)
  }

  ghost predicate SameLeavesBut(phys: Phys, tbl: map<Node, int>, phys': Phys, tbl': map<Node, int>, v: nat) {
    forall w: nat {:trigger Leaf(phys, tbl, w)} {:trigger Leaf(phys', tbl', w)} | w != v ::
      Leaf(phys', tbl', w) == Leaf(phys, tbl, w)
  }

  /** The frames to be handed out, those of them on the free list, who owns which frame, and the tables. */
  datatype Tables = Tables(pool: seq<int>, free: seq<int>, owner: map<int, Owner>, phys: Phys, tbl: map<Node, int>)

  /**
   * k frames off the front of the pool have become the missing ones of these tables, and no page's entry has changed.
   */
  ghost predicate Grown(a: Tables, b: Tables, nodes: set<Node>, k: nat) {
    && k <= |a.pool| && b.pool == a.pool[k..] && b.tbl.Keys == a.tbl.Keys + nodes
    && OnlyTables(a.owner, b.owner) && SameLeaves(a.phys, a.tbl, b.phys, b.tbl)
    && (k == 0 ==> b == a)
  }

  lemma GrownNone(a: Tables, nodes: set<Node>)
    requires nodes <= a.tbl.Keys
    ensures Grown(a, a, nodes, 0)
  {
    assert a.tbl.Keys + nodes == a.tbl.Keys;
  }

  lemma GrownKeys(a: Tables, b: Tables, nodes: set<Node>, k: nat)
    requires Grown(a, b, nodes, k)
    ensures k <= |a.pool| && b.pool == a.pool[k..] && b.tbl.Keys == a.tbl.Keys + nodes
  {
  }

  lemma GrownTrans(a: Tables, b: Tables, c: Tables, nodes: set<Node>, more: set<Node>, k: nat, l: nat)
    requires Grown(a, b, nodes, k) && Grown(b, c, more, l)
    ensures Grown(a, c, nodes + more, k + l)
  {
    hide Leaf;
    OnlyTablesTrans(a.owner, b.owner, c.owner);
    assert a.pool[k..][l..] == a.pool[k + l..];
    forall w: nat ensures Leaf(c.phys, c.tbl, w) == Leaf(a.phys, a.tbl, w) {
      assert Leaf(b.phys, b.tbl, w) == Leaf(a.phys, a.tbl, w);
    }
  }

  /** An entry written into a page table: the flat map changes at one page. */
  lemma WriteLeaf(phys: Phys, tbl: map<Node, int>, v: nat, e: Entry)
    requires Tree(phys, tbl) && NodeFor(v, 0) in tbl
    ensures var t := tbl[NodeFor(v, 0)];
            var phys' := phys[t := Table(phys[t].entries[Index(v, 0) := e])];
            && Tree(phys', tbl)
            && Leaf(phys', tbl, v) == e && SameLeavesBut(phys, tbl, phys', tbl, v)
  {
    var n := NodeFor(v, 0);
    var t := tbl[n];
    var phys' := phys[t := Table(phys[t].entries[Index(v, 0) := e])];
    forall m, j | m in tbl && m.level > 0 && 0 <= j < ENTRIES ensures LinkOk(phys', tbl, m, j) {
      assert LinkOk(phys, tbl, m, j) && tbl[m] != t;
    }
    forall w: nat | w != v ensures Leaf(phys', tbl, w) == Leaf(phys, tbl, w) {
      if NodeFor(w, 0) == n && Index(w, 0) == Index(v, 0) { PlaceOf(v, w); }
    }
  }

  /** A fresh table hung into the tree: the flat map does not change. */
  lemma HangTable(phys: Phys, tbl: map<Node, int>, n: Node, i: nat, f: int, e: Entry)
    requires Tree(phys, tbl) && n in tbl && n.level > 0 && i < ENTRIES && Child(n, i) !in tbl
    requires FrameAddress(f) && (forall m | m in tbl :: tbl[m] != f) && e.present && e.writable && !e.alloc
             && ReadFrame(e) == f
    ensures var phys' := phys[f := Table(seq(ENTRIES, _ => ZERO))];
            var phys'' := phys'[tbl[n] := Table(phys'[tbl[n]].entries[i := e])];
            var tbl' := tbl[Child(n, i) := f];
            && Tree(phys'', tbl')
            && SameLeaves(phys, tbl, phys'', tbl')
  {
    var c := Child(n, i);
    var phys' := phys[f := Table(seq(ENTRIES, _ => ZERO))];
    var phys'' := phys'[tbl[n] := Table(phys'[tbl[n]].entries[i := e])];
    var tbl' := tbl[c := f];
    forall m, j | m in tbl' && m.level > 0 && 0 <= j < ENTRIES ensures LinkOk(phys'', tbl', m, j) {
      if Child(m, j) == c { ChildInjective(m, j, n, i); }
      if m == c {
        assert Parent(Child(m, j)) == m;
      } else {
        assert LinkOk(phys, tbl, m, j);
      }
    }
    assert Parent(c) == n;
  }

  // ---------- Start-up ----------

  lemma NoRecords(kernelEnd: nat)
    ensures Ranges([], kernelEnd) == [] && RecordsFit([], kernelEnd)
  {
  }

  lemma FirstMoved(rs: seq<Range>)
    ensures FromPageTwo(rs) == if rs == [] then [Range(0, FIRST_FRAME, 0)] else rs[0 := rs[0].(curr := FIRST_FRAME)]
  {
  }

  lemma OneMore(es: seq<MmapEntry>, i: nat, kernelEnd: nat)
    requires i < |es|
    ensures Ranges(es[..i + 1], kernelEnd) == Ranges(es[..i], kernelEnd) + EntryRanges(es[i], kernelEnd)
    ensures RecordsFit(es[..i + 1], kernelEnd) <==>
            RecordsFit(es[..i], kernelEnd)
              && (es[i].available ==> RECORD_SIZE * |Ranges(es[..i], kernelEnd)| <= PAGE_SIZE)
    ensures !es[i].available ==> EntryRanges(es[i], kernelEnd) == []
  {
    assert es[..i + 1][..i] == es[..i];
    FitFront(es[..i + 1], kernelEnd);
  }

  lemma FitPrefix(es: seq<MmapEntry>, n: nat, kernelEnd: nat)
    requires n <= |es| && !RecordsFit(es[..n], kernelEnd)
    ensures !RecordsFit(es, kernelEnd)
  {
    forall i | 0 <= i < n ensures es[..n][..i] == es[..i] {}
  }

  lemma SupplyStarts(es: seq<MmapEntry>, kernelEnd: nat, owner: map<int, Owner>, phys: Phys)
    requires GoodMap(es) && KernelPlaced(es, kernelEnd)
    requires forall e | e in es && e.available :: e.End() <= PHYS_END + 1
    requires var frames := AllFrames(FromPageTwo(Ranges(es, kernelEnd)));
             owner == map f | f in frames :: Fresh
    ensures var rs := FromPageTwo(Ranges(es, kernelEnd));
            && SupplyOk(rs, 0) && rs[0..] == rs && Owned(owner, AllFrames(rs), [], map[])
            && NoDup(AllFrames(rs)) && forall f :: f in owner <==> Available(es, kernelEnd, f)
  {
    hide GoodMap, KernelPlaced, Ranges, AllFrames, FromPageTwo;
    var rs := FromPageTwo(Ranges(es, kernelEnd));
    SupplyMeaning(es, kernelEnd);
    SupplyUsable(es, kernelEnd);
    assert rs[0..] == rs;
    assert rs != [] by { SomeRange(Ranges(es, kernelEnd)); }
    forall f | f in owner ensures FrameAddress(f) && f <= PHYS_END {
      assert Available(es, kernelEnd, f);
    }
  }

  lemma SomeRange(rs: seq<Range>)
    ensures FromPageTwo(rs) != []
  {
  }

  /** A cleared frame as the root: no page has an entry yet. */
  lemma FirstTable(phys: Phys, f: int)
    requires FrameAddress(f)
    ensures var phys', tbl := phys[f := Table(seq(ENTRIES, _ => ZERO))], map[ROOT := f];
            Tree(phys', tbl) && forall w: nat :: Leaf(phys', tbl, w) == ZERO
  {
    var phys', tbl := phys[f := Table(seq(ENTRIES, _ => ZERO))], map[ROOT := f];
    forall n, i | n in tbl && n.level > 0 && 0 <= i < ENTRIES ensures LinkOk(phys', tbl, n, i) {}
  }

  /** The tables, besides the root, that the first p pages need. */
  function LowTables(p: nat): set<Node> {
    if p == 0 then {}
    else if p <= 512 then {Node(2, 0)} + {Node(1, 0)} + {Node(0, 0)}
    else {Node(2, 0)} + {Node(1, 0)} + {Node(0, 0)} + {Node(0, 1)}
  }

  function LowCost(p: nat): nat { if p == 0 then 0 else if p <= 512 then 3 else 4 }

  lemma LowStep(tbl: map<Node, int>, p: nat)
    requires p <= 512 && tbl.Keys == {ROOT} + LowTables(p)
    ensures Missing(tbl, p) == LowCost(p + 1) - LowCost(p) && tbl.Keys + Path(p) == {ROOT} + LowTables(p + 1)
    ensures PageOf(p * PAGE_SIZE) == p && FrameNumber(p * PAGE_SIZE) == p
  {
    Keys(p);
  }

  ghost predicate LowMapped(phys: Phys, tbl: map<Node, int>, p: nat) {
    forall w: nat {:trigger Leaf(phys, tbl, w)} ::
      Leaf(phys, tbl, w) == if w < p then Entry(true, true, false, w) else ZERO
  }

  lemma LowGrows(phys: Phys, tbl: map<Node, int>, phys': Phys, tbl': map<Node, int>, p: nat)
    requires LowMapped(phys, tbl, p) && SameLeavesBut(phys, tbl, phys', tbl', p)
             && Leaf(phys', tbl', p) == Entry(true, true, false, p)
    ensures LowMapped(phys', tbl', p + 1)
  {
  }

  lemma NoLowTables()
    ensures {ROOT} + LowTables(0) == {ROOT}
  {
  }

  lemma LowPresent(phys: Phys, tbl: map<Node, int>, p: nat)
    requires 1 <= p < 512 && tbl.Keys == {ROOT} + LowTables(513) && LowMapped(phys, tbl, 513)
    ensures PageOf(p * PAGE_SIZE) == p && Missing(tbl, p) == 0
    ensures Leaf(phys, tbl, p).present && ReadFrame(Leaf(phys, tbl, p)) == p * PAGE_SIZE
  {
    hide Leaf;
    Keys(p);
  }

  /** The frames addr_map_init leaves to be handed out, in order. */
  ghost function Supply(es: seq<MmapEntry>, kernelEnd: nat): seq<int> { AllFrames(FromPageTwo(Ranges(es, kernelEnd))) }

  lemma Something(s: seq<int>)
    requires s != []
    ensures exists x :: x in s
  {
    var x: int := s[0];
    assert x in s;
  }

  /** When only tables have been made, they are in the first frames of the supply. */
  lemma TablesFirst(owner: map<int, Owner>, pool: seq<int>, rest: seq<int>, free: seq<int>, tbl: map<Node, int>)
    requires Owned(owner, rest, free, tbl) && NoDup(pool) && |pool| > 5 && free + rest == pool[5..]
    requires (forall f :: f in owner <==> f in pool) && forall f | f in owner :: owner[f] == Fresh || owner[f].TableOf?
    ensures free == [] && (TablesReached(true, tbl) <==> Enough(true, pool, 5))
  {
    if free != [] { Something(free); }
    assert pool == pool[..5] + rest;
    NoDupCut(pool[..5], rest);
    forall f | f in pool[..5] ensures exists n :: n in tbl && tbl[n] == f {
      assert f in owner && f !in rest;
      assert owner[f].n in tbl;
    }
    forall n | n in tbl ensures tbl[n] in pool[..5] {
      var f := tbl[n];
      assert f in owner && owner[f] == TableOf(n);
      assert f in pool && f !in rest;
    }
  }

  lemma InitFacts(es: seq<MmapEntry>, kernelEnd: nat)
    requires GoodMap(es) && KernelPlaced(es, kernelEnd)
    ensures es != [] && es[0].addr == 0 && kernelEnd > KERNEL_START
  {
  }

  lemma LowPages(owner: map<int, Owner>, phys: Phys, tbl: map<Node, int>, bank: map<Region, nat>)
    requires LowMapped(phys, tbl, 513) && bank == map[KHEAP := RegionStart(KHEAP), UHEAP := RegionStart(UHEAP)]
    requires forall f | f in owner :: !owner[f].PageFor?
    ensures PagesOk(owner, phys, tbl) && BanksOk(bank, phys, tbl)
    ensures forall w: nat :: Leaf(phys, tbl, w) == if Identity(w) then Entry(true, true, false, w) else ZERO
  {
    hide Leaf;
    forall r: Region ensures r in bank && bank[r] == RegionStart(r) {
      assert r == KHEAP || r == UHEAP;
    }
  }

  class Mmu {
    var ranges: seq<Range>      // the list of address ranges, and where addr_range_curr stands in it
    var rangeCurr: nat
    var freeHead: int           // pf_free_list_head
    var phys: Phys
    var pml4: int
    var loaded: bool            // CR3 holds pml4
    var bank: map<Region, nat>  // virt_addr_bank
    ghost var free: seq<int>
    ghost var tbl: map<Node, int>
    ghost var owner: map<int, Owner>

    ghost function Remaining(): seq<int>
      reads `ranges, `rangeCurr
    {
      if rangeCurr <= |ranges| then AllFrames(ranges[rangeCurr..]) else []
    }

    /** The frames in the order in which they will be handed out; the kernel halts at the last. */
    ghost function Pool(): seq<int>
      reads `ranges, `rangeCurr, `free
    {
      free + Remaining()
    }

    ghost function Now(): Tables
      reads `ranges, `rangeCurr, `phys, `free, `tbl, `owner
    {
      Tables(Pool(), free, owner, phys, tbl)
    }

    /** k tables can still be made. */
    ghost predicate Supplies(k: nat)
      reads `ranges, `rangeCurr, `free, `loaded
    {
      Enough(loaded, Pool(), k)
    }

    ghost function Flat(v: nat): Entry
      reads `phys, `tbl
    {
      Leaf(phys, tbl, v)
    }

    /** The allocator in order, before and after there are page tables. */
    ghost predicate FramesOk()
      reads `ranges, `rangeCurr, `freeHead, `phys, `loaded, `free, `tbl, `owner
    {
      && SupplyOk(ranges, rangeCurr)
      && FreeList(phys, freeHead, free) && AllReached(loaded, free)
      && Owned(owner, Remaining(), free, tbl)
    }

    ghost predicate Core()
      reads `ranges, `rangeCurr, `freeHead, `phys, `pml4, `loaded, `free, `tbl, `owner
    {
      FramesOk() && Tree(phys, tbl) && pml4 == tbl[ROOT] && TablesReached(loaded, tbl)
    }

    /** Everything in order once MMU_init has run. */
    ghost predicate Valid()
      reads this
    {
      Core() && loaded && PagesOk(owner, phys, tbl) && BanksOk(bank, phys, tbl)
    }

    // ---------- Start-up ----------

    constructor ()
      ensures freeHead == NULL && free == [] && tbl == map[] && owner == map[] && phys == map[]
      ensures !loaded && bank == map[KHEAP := RegionStart(KHEAP), UHEAP := RegionStart(UHEAP)]
    {
      loaded := false;
      ranges, rangeCurr, freeHead, phys, pml4 := [], 0, NULL, map[], NULL;
      bank := map[KHEAP := RegionStart(KHEAP), UHEAP := RegionStart(UHEAP)];
      free, tbl, owner := [], map[], map[];
    }

    method AddrMapInit(es: seq<MmapEntry>, kernelStart: nat, kernelEnd: nat) returns (ok: bool)
      modifies this`ranges, this`rangeCurr
      ensures ok <==> && es != [] && kernelStart < kernelEnd && kernelStart == KERNEL_START
                      && es[0].addr == 0 && RecordsFit(es, kernelEnd)
      ensures ok ==> ranges == FromPageTwo(Ranges(es, kernelEnd)) && rangeCurr == 0
    {
      if es == [] || kernelStart >= kernelEnd || kernelStart != KERNEL_START || es[0].addr != 0 {
        return false;
      }
      hide RecordsFit, EntryRanges, Ranges, FromPageTwo;
      ranges := [];
      var localHeapPtr := LOCAL_HEAP;
      NoRecords(kernelEnd);
      assert es[..0] == [];
      var i := 0;
      while i < |es|
        invariant 0 <= i <= |es| && ranges == Ranges(es[..i], kernelEnd)
        invariant localHeapPtr == LOCAL_HEAP + RECORD_SIZE * |ranges| && RecordsFit(es[..i], kernelEnd)
      {
        var e := es[i];
        OneMore(es, i, kernelEnd);
        if e.available {
          if localHeapPtr > LOCAL_HEAP + PAGE_SIZE {
            FitPrefix(es, i + 1, kernelEnd);
            return false;
          }
          localHeapPtr := AddRanges(e, kernelStart, kernelEnd, localHeapPtr);
        }
        i := i + 1;
      }
      assert es[..i] == es;
      rangeCurr := 0;
      FirstMoved(ranges);
      ranges := if ranges == [] then [Range(0, FIRST_FRAME, 0)] else ranges[0 := ranges[0].(curr := FIRST_FRAME)];
      ok := true;
    }

    // The records of one available entry.
    method AddRanges(e: MmapEntry, kernelStart: nat, kernelEnd: nat, localHeapPtr: nat) returns (heapPtr: nat)
      requires e.available && kernelStart == KERNEL_START
      modifies this`ranges
      ensures ranges == old(ranges) + EntryRanges(e, kernelEnd)
      ensures heapPtr == localHeapPtr + RECORD_SIZE * |EntryRanges(e, kernelEnd)|
    {
      heapPtr := localHeapPtr;
      if e.addr <= kernelStart && kernelEnd <= e.End() {
        if kernelStart != e.addr {
          ranges := ranges + [Range(e.addr, e.addr, kernelStart)];
          heapPtr := heapPtr + RECORD_SIZE;
        }
        ranges := ranges + [Range(PageAlign(kernelEnd), PageAlign(kernelEnd), e.End())];
      } else {
        ranges := ranges + [Range(e.addr, e.addr, e.End())];
      }
      heapPtr := heapPtr + RECORD_SIZE;
      assert ranges == old(ranges) + EntryRanges(e, kernelEnd);
    }

    /**
     * MMU_init. The records of the ranges are to stay within page 1, and the memory map within the 1 TiB set aside for
     * it. It succeeds if there are five frames for its tables that the boot tables map; all is in order then exactly if
     * its own tables map them as well.
     */
    method Init(es: seq<MmapEntry>, kernelStart: nat, kernelEnd: nat) returns (ok: bool)
      requires freeHead == NULL && free == [] && tbl == map[]
               && bank == map[KHEAP := RegionStart(KHEAP), UHEAP := RegionStart(UHEAP)]
      requires !loaded && GoodMap(es) && KernelPlaced(es, kernelEnd)
               && RECORD_SIZE * |Ranges(es, kernelEnd)| <= PAGE_SIZE
      requires forall e | e in es && e.available :: e.End() <= PHYS_END + 1
      modifies this
      ensures ok <==> kernelStart == KERNEL_START && Enough(false, Supply(es, kernelEnd), 5)
      ensures ok ==>
                && loaded && (Valid() <==> Enough(true, Supply(es, kernelEnd), 5))
                && Pool() == Supply(es, kernelEnd)[5..]
                && (forall f :: f in owner <==> Available(es, kernelEnd, f))
                && (forall f | f in owner :: owner[f] == Fresh || owner[f].TableOf?)
                && bank == old(bank) && tbl.Keys == {ROOT} + LowTables(513)
                && forall w: nat :: Flat(w) == if Identity(w) then Entry(true, true, false, w) else ZERO
    {
      hide GoodMap, KernelPlaced, Ranges, AllFrames, FromPageTwo, Available, Leaf, Tree, SupplyOk, Owned, PagesOk;
      hide BanksOk;
      hide Enough, Pool, Remaining, TablesReached, LowTables, OnlyTables, NoDup, Supply;
      RecordsInPage(es, kernelEnd);
      assert es != [] && es[0].addr == 0 && kernelEnd > KERNEL_START by { InitFacts(es, kernelEnd); }
      ok := AddrMapInit(es, kernelStart, kernelEnd);
      if !ok {
        return;
      }
      owner := map f | f in AllFrames(ranges) :: Fresh;
      StartPool(es, kernelEnd);
      SupplyStarts(es, kernelEnd, owner, phys);
      ok := BuildTables();
      if !ok {
        return;
      }
      LowPages(owner, phys, tbl, bank);
      loaded := true;
    }

    // The part of MMU_init between the memory map and the load of CR3.
    method BuildTables() returns (ok: bool)
      requires FramesOk() && free == [] && tbl == map[] && !loaded && NoDup(Pool())
      requires (forall f :: f in owner <==> f in Pool()) && forall f | f in owner :: owner[f] == Fresh
      modifies this`ranges, this`rangeCurr, this`freeHead, this`phys, this`pml4, this`free, this`tbl, this`owner
      ensures ok <==> old(Supplies(5))
      ensures ok ==>
                && FramesOk() && free == [] && Tree(phys, tbl) && pml4 == tbl[ROOT] && Pool() == old(Pool())[5..]
                && owner.Keys == old(owner).Keys && (forall f | f in owner :: owner[f] == Fresh || owner[f].TableOf?)
                && (TablesReached(true, tbl) <==> Enough(true, old(Pool()), 5))
                && LowMapped(phys, tbl, 513) && tbl.Keys == {ROOT} + LowTables(513)
    {
      hide Leaf, Tree, SupplyOk, Owned, Enough, Pool, Remaining, TablesReached, LowTables, NoDup, FreeList;
      ghost var pool := Pool();
      EnoughMore(false, pool, 1, 4);
      ok := FirstRoot();
      if !ok {
        return;
      }
      ghost var owner1 := owner;
      ok := MapLow();
      if !ok {
        return;
      }
      ok := CheckLow();
      PoolIs();
      TablesFirst(owner, pool, Remaining(), free, tbl);
    }

    lemma PoolIs()
      ensures Pool() == free + Remaining()
    {
    }

    lemma StartPool(es: seq<MmapEntry>, kernelEnd: nat)
      requires ranges == FromPageTwo(Ranges(es, kernelEnd)) && rangeCurr == 0 && free == []
      ensures Pool() == Remaining() == AllFrames(ranges) == Supply(es, kernelEnd) && ranges[rangeCurr..] == ranges
    {
    }

    // The PML4 of MMU_init.
    method FirstRoot() returns (ok: bool)
      requires FramesOk() && free == [] && tbl == map[]
      modifies this`ranges, this`rangeCurr, this`freeHead, this`phys, this`pml4, this`free, this`tbl, this`owner
      ensures ok <==> old(Supplies(1))
      ensures ok ==>
                && Core() && Pool() == old(Pool())[1..] && tbl.Keys == {ROOT}
                && OnlyTables(old(owner), owner) && LowMapped(phys, tbl, 0)
    {
      hide Leaf, Tree, SupplyOk, Owned, AllFrames;
      EnoughNone(loaded, Pool());
      var table;
      ok, table := PfAlloc();
      if !ok || !Reached(loaded, table) {
        return false;
      }
      NewTable(owner, Remaining(), free, tbl, table, ROOT);
      FirstTable(phys, table);
      pml4 := table;
      phys := phys[table := Table(seq(ENTRIES, _ => ZERO))];
      tbl := map[ROOT := table];
      owner := owner[table := TableOf(ROOT)];
    }

    // The loop of MMU_init that maps the first 2 MiB, and one page more, to themselves.
    method MapLow() returns (ok: bool)
      requires Core() && tbl.Keys == {ROOT} && LowMapped(phys, tbl, 0)
      modifies this`ranges, this`rangeCurr, this`freeHead, this`phys, this`free, this`tbl, this`owner
      ensures ok <==> old(Supplies(4))
      ensures ok ==>
                && Core() && Pool() == old(Pool())[4..] && OnlyTables(old(owner), owner)
                && tbl.Keys == {ROOT} + LowTables(513) && LowMapped(phys, tbl, 513)
    {
      hide Core, Leaf, OnlyTables, SameLeavesBut, LowTables, Path, Missing, Enough, Pool;
      OnlyTablesRefl(owner);
      EnoughNone(loaded, Pool());
      ghost var pool := Pool();
      assert {ROOT} + LowTables(0) == {ROOT} by { NoLowTables(); }
      RootIn();
      ok := true;
      var i := 0;
      ghost var p := 0;
      while i <= MAP_INIT_SIZE
        invariant i == p * PAGE_SIZE && p <= 513 && Core() && ok
        invariant OnlyTables(old(owner), owner) && tbl.Keys == {ROOT} + LowTables(p)
        invariant LowCost(p) < |pool| && Enough(loaded, pool, LowCost(p)) && Pool() == pool[LowCost(p)..]
                  && LowMapped(phys, tbl, p)
      {
        ghost var owner1, phys1, tbl1 := owner, phys, tbl;
        LowStep(tbl, p);
        EnoughBetween(loaded, pool, LowCost(p), LowCost(p + 1), 4);
        ok := MapPage(i, i);
        if !ok {
          return;
        }
        OnlyTablesTrans(old(owner), owner1, owner);
        LowGrows(phys1, tbl1, phys, tbl, p);
        RootIn();
        i, p := i + PAGE_SIZE, p + 1;
      }
    }

    // The loop of MMU_init that checks the kernel's pages: it never finds a mismatch.
    method CheckLow() returns (ok: bool)
      requires Core() && tbl.Keys == {ROOT} + LowTables(513) && LowMapped(phys, tbl, 513)
      modifies this`ranges, this`rangeCurr, this`freeHead, this`phys, this`free, this`tbl, this`owner
      ensures ok && Core() && Pool() == old(Pool()) && owner == old(owner) && phys == old(phys) && tbl == old(tbl)
    {
      hide Core, Leaf, OnlyTables, SameLeaves, LowTables, Path, Enough, Pool;
      var i := PAGE_SIZE;
      ghost var p := 1;
      while i < MAP_INIT_SIZE
        invariant i == p * PAGE_SIZE && 1 <= p <= 512 && Core()
        invariant Pool() == old(Pool()) && owner == old(owner) && phys == old(phys) && tbl == old(tbl)
      {
        LowPresent(phys, tbl, p);
        RootIn();
        EnoughNone(loaded, Pool());
        var temp;
        ok, temp := VirtToPhys(i);
        if !ok || i != temp {
          return false;
        }
        i, p := i + PAGE_SIZE, p + 1;
      }
      ok := true;
    }

    // ---------- Page frames ----------

    method AllocNewPf() returns (ok: bool, pf: int)
      requires SupplyOk(ranges, rangeCurr)
      modifies this`ranges, this`rangeCurr
      ensures ok <==> |old(Remaining())| > 1
      ensures ok ==> SupplyOk(ranges, rangeCurr) && pf == old(Remaining())[0] && Remaining() == old(Remaining())[1..]
    {
      ghost var later := ranges[rangeCurr + 1..];
      var r := ranges[rangeCurr];
      assert ranges[rangeCurr..] == [r] + later;
      PopFrame(r, later);
      pf := r.curr;
      var next := r.curr + PAGE_SIZE;
      ranges := ranges[rangeCurr := r.(curr := next)];
      assert ranges[rangeCurr..] == [r.(curr := next)] + later;
      if next >= r.end {
        if rangeCurr + 1 == |ranges| {
          return false, NULL;
        }
        rangeCurr := rangeCurr + 1;
      }
      ok := true;
    }

    method PfAlloc() returns (ok: bool, pf: int)
      requires FramesOk()
      modifies this`ranges, this`rangeCurr, this`freeHead, this`free, this`owner
      ensures ok <==> |old(Pool())| > 1
      ensures ok ==>
                && FramesOk() && pf == old(Pool())[0] && Pool() == old(Pool())[1..]
                && pf in old(owner) && FrameAddress(pf) && old(owner)[pf] == (if old(free) == [] then Fresh else Free)
                && owner == old(owner)[pf := Held]
                && (if old(free) == [] then free == [] && old(Remaining()) == [pf] + Remaining()
                    else old(free) == [pf] + free && Remaining() == old(Remaining()))
    {
      hide SupplyOk, Owned, AllFrames;
      if freeHead == NULL {
        assert free == [];
        ghost var before := Remaining();
        assert NoDup(before) by { NoDupSupply(ranges, rangeCurr); }
        ok, pf := AllocNewPf();
        if ok {
          assert before == [pf] + Remaining();
          TakeFresh(owner, pf, Remaining(), free, tbl);
          owner := owner[pf := Held];
          assert [] + before == before && [] + Remaining() == Remaining();
        }
        return;
      }
      ghost var rest := free[1..];
      assert free == [freeHead] + rest;
      assert |Remaining()| > 0 by { NoDupSupply(ranges, rangeCurr); }
      TakeFree(owner, Remaining(), freeHead, rest, tbl);
      pf := freeHead;
      freeHead := phys[freeHead].next;
      free := rest;
      owner := owner[pf := Held];
      assert ([pf] + rest) + Remaining() == [pf] + (rest + Remaining());
      ok := true;
    }

    method PfFree(pf: nat) returns (ok: bool)
      requires FramesOk()
      requires pf % PAGE_SIZE == 0 && pf != NULL ==> pf in owner && owner[pf] == Held
      modifies this`phys, this`freeHead, this`free, this`owner
      ensures ok <==> pf % PAGE_SIZE == 0 && pf != NULL && pf <= PHYS_END && Reached(loaded, pf)
      ensures ok ==>
                && FramesOk() && free == [pf] + old(free) && owner == old(owner)[pf := Free]
                && phys == old(phys)[pf := Link(old(freeHead))]
    {
      hide SupplyOk, Owned, AllFrames, FreeList, NoDup, Remaining, Reached, AllReached, Tree, Leaf;
      if pf % PAGE_SIZE != 0 || pf == NULL || pf > PHYS_END {
        return false;
      }
      if !Reached(loaded, pf) {   // the store to pf->next faults for good
        return false;
      }
      ReachedToo(loaded, pf, free);
      GiveBack(owner, Remaining(), pf, free, tbl);
      Pushed(phys, freeHead, free, pf);
      phys := phys[pf := Link(freeHead)];
      freeHead := pf;
      free := [pf] + free;
      owner := owner[pf := Free];
      ok := true;
    }

    // ---------- Page tables ----------

    method WriteEntry(table: int, index: nat, e: Entry)
      requires IsTable(phys, table) && index < ENTRIES
      modifies this`phys
      ensures phys == old(phys)[table := Table(old(phys)[table].entries[index := e])]
    {
      phys := phys[table := Table(phys[table].entries[index := e])];
    }

    // alloc_table_entry, on the entry at `index` of the table in frame `table`.
    method AllocTableEntry(table: int, index: nat, ghost n: Node) returns (ok: bool)
      requires Core() && n in tbl && tbl[n] == table && n.level > 0 && index < ENTRIES && Child(n, index) !in tbl
      modifies this`ranges, this`rangeCurr, this`freeHead, this`phys, this`free, this`tbl, this`owner
      ensures ok <==> old(Supplies(1))
      ensures ok ==> Core() && Grown(old(Now()), Now(), {Child(n, index)}, 1) && n in tbl && tbl[n] == table
    {
      hide FramesOk, Tree, Enough, TablesReached, SameLeaves, Pool, Remaining;
      TableFramesOwned();
      EnoughNone(loaded, Pool());
      var newPd;
      ok, newPd := PfAlloc();
      if !ok || !Reached(loaded, newPd) {   // the new table is cleared at its own address
        return false;
      }
      HookTable(table, index, newPd, n);
    }

    lemma TableFramesOwned()
      requires Core()
      ensures forall n | n in tbl :: tbl[n] in owner && owner[tbl[n]] == TableOf(n)
    {
    }

    method HookTable(table: int, index: nat, newPd: int, ghost n: Node)
      requires FramesOk() && Tree(phys, tbl) && pml4 == tbl[ROOT] && newPd in owner && owner[newPd] == Held
      requires TablesReached(loaded, tbl) && Reached(loaded, newPd)
      requires n in tbl && tbl[n] == table && n.level > 0 && index < ENTRIES && Child(n, index) !in tbl
      modifies this`phys, this`tbl, this`owner
      ensures FramesOk() && Tree(phys, tbl) && pml4 == tbl[ROOT] && TablesReached(loaded, tbl)
      ensures tbl == old(tbl)[Child(n, index) := newPd] && owner == old(owner)[newPd := TableOf(Child(n, index))]
      ensures SameLeaves(old(phys), old(tbl), phys, tbl)
    {
      hide Tree, Leaf, SupplyOk, FreeList, Owned, LinkOk;
      ghost var phys0, tbl0 := phys, tbl;
      NewTable(owner, Remaining(), free, tbl, newPd, Child(n, index));
      TableHere(phys, tbl, n);
      Unhooked(phys, tbl, n, index);
      phys := phys[newPd := Table(seq(ENTRIES, _ => ZERO))];
      ghost var phys1 := phys;
      var e := phys[table].entries[index];
      var d := e.(frame := FrameNumber(newPd), present := true);
      WriteEntry(table, index, d);
      // Set by the caller right after the call, in each of its three copies.
      e := phys[table].entries[index];
      WriteEntry(table, index, e.(writable := true));
      SetTwice(phys1, table, index, d, d.(writable := true));
      Hooked(phys0, tbl0, n, index, newPd, d.(writable := true), phys, freeHead, free);
      tbl := tbl[Child(n, index) := newPd];
      owner := owner[newPd := TableOf(Child(n, index))];
    }

    // One of the three repeated steps of get_pt_entry: make the table below an entry if there is none yet.
    method ChildTable(table: int, index: nat, ghost n: Node) returns (ok: bool, child: int)
      requires Core() && n in tbl && tbl[n] == table && n.level > 0 && index < ENTRIES
      modifies this`ranges, this`rangeCurr, this`freeHead, this`phys, this`free, this`tbl, this`owner
      ensures ok <==> old(Supplies(Lacks(tbl, Child(n, index))))
      ensures ok ==>
                && Core() && Grown(old(Now()), Now(), {Child(n, index)}, Lacks(old(tbl), Child(n, index)))
                && Child(n, index) in tbl && child == tbl[Child(n, index)]
    {
      hide FramesOk, Leaf, Enough, TablesReached;
      LinkHere(phys, tbl, n, index);
      RootIn();
      EnoughNone(loaded, Pool());
      ok := true;
      if !phys[table].entries[index].present {
        ok := AllocTableEntry(table, index, n);
        if !ok {
          return false, NULL;
        }
        LinkHere(phys, tbl, n, index);
      } else {
        GrownNone(Now(), {Child(n, index)});
      }
      child := ReadFrame(phys[table].entries[index]);
    }

    /** The entry of a page, at an index of the page table in a frame; missing tables are made on the way. */
    method GetPtEntry(virt: nat) returns (ok: bool, table: int, index: nat)
      requires Core()
      modifies this`ranges, this`rangeCurr, this`freeHead, this`phys, this`free, this`tbl, this`owner
      ensures ok <==> virt % PAGE_SIZE == 0 && old(Supplies(Missing(tbl, PageOf(virt))))
      ensures ok ==>
                && Core() && Grown(old(Now()), Now(), Path(PageOf(virt)), Missing(old(tbl), PageOf(virt)))
                && NodeFor(PageOf(virt), 0) in tbl && table == tbl[NodeFor(PageOf(virt), 0)]
                && index == Index(PageOf(virt), 0)
    {
      hide Core, Leaf, Key, Index, Enough, Grown, Pool, Remaining, OnlyTables, SameLeaves;
      table, index := pml4, 0;
      if virt % PAGE_SIZE != 0 {
        return false, table, index;
      }
      ghost var v := PageOf(virt);
      ghost var now, n2, n1, n0 := Now(), NodeFor(v, 2), NodeFor(v, 1), NodeFor(v, 0);
      ghost var k2, k1, k0 := Lacks(tbl, n2), Lacks(tbl, n1), Lacks(tbl, n0);
      IndexMacros(virt);
      PathOf(v);
      RootIn();
      EnoughMore(loaded, Pool(), k2, k1);
      EnoughMore(loaded, Pool(), k2 + k1, k0);
      ok, table := ChildTable(pml4, Pml4Index(virt), ROOT);
      if !ok { return; }
      ghost var now2 := Now();
      GrownKeys(now, now2, {n2}, k2);
      ok, table := ChildTable(table, PdptIndex(virt), n2);
      if !ok { return; }
      ghost var now1 := Now();
      GrownKeys(now2, now1, {n1}, k1);
      GrownTrans(now, now2, now1, {n2}, {n1}, k2, k1);
      ok, table := ChildTable(table, PdIndex(virt), n1);
      if !ok { return; }
      GrownTrans(now, now1, Now(), {n2} + {n1}, {n0}, k2 + k1, k0);
      index := PtIndex(virt);
    }

    method MapPage(physAddr: nat, virt: nat) returns (ok: bool)
      requires Core()
      modifies this`ranges, this`rangeCurr, this`freeHead, this`phys, this`free, this`tbl, this`owner
      ensures ok <==> && physAddr % PAGE_SIZE == 0 && virt % PAGE_SIZE == 0
                      && old(Supplies(Missing(tbl, PageOf(virt)))) && !old(Flat(PageOf(virt))).present
      ensures ok ==>
                && Core() && Pool() == old(Pool())[Missing(old(tbl), PageOf(virt))..] && OnlyTables(old(owner), owner)
                && NodeFor(PageOf(virt), 0) in tbl && tbl.Keys == old(tbl).Keys + Path(PageOf(virt))
                && Flat(PageOf(virt)) == Entry(true, true, false, FrameNumber(physAddr))
                && SameLeavesBut(old(phys), old(tbl), phys, tbl, PageOf(virt))
                && (Missing(old(tbl), PageOf(virt)) == 0 ==>
                     owner == old(owner) && tbl == old(tbl) && free == old(free))
    {
      hide Core, Leaf, Index, NodeFor, Enough, Pool, Remaining, Path, Missing;
      if physAddr % PAGE_SIZE != 0 {
        return false;
      }
      var table, index;
      ok, table, index := GetPtEntry(virt);
      if !ok {
        return;
      }
      ghost var v := PageOf(virt);
      InCore(v);
      if phys[table].entries[index].present {
        return false;
      }
      SetLeaf(v, Entry(true, true, false, FrameNumber(physAddr)), table, index);
    }

    // Assign the entry that get_pt_entry found for page v.
    method SetLeaf(ghost v: nat, e: Entry, table: int, index: nat)
      requires Core() && NodeFor(v, 0) in tbl && table == tbl[NodeFor(v, 0)] && index == Index(v, 0)
      modifies this`phys
      ensures Core() && Flat(v) == e && SameLeavesBut(old(phys), old(tbl), phys, tbl, v)
      ensures forall f | f in owner && !owner[f].TableOf? ::
                (f in phys <==> f in old(phys)) && (f in phys ==> phys[f] == old(phys)[f])
    {
      hide Tree, Leaf, SupplyOk;
      TableHere(phys, tbl, NodeFor(v, 0));
      WriteLeaf(phys, tbl, v, e);
      ghost var phys0 := phys;
      assert owner[table] == TableOf(NodeFor(v, 0));
      WriteEntry(table, index, e);
      FreeListFrame(phys0, phys, freeHead, free);
    }

    method VirtToPhys(virt: nat) returns (ok: bool, addr: nat)
      requires Core()
      modifies this`ranges, this`rangeCurr, this`freeHead, this`phys, this`free, this`tbl, this`owner
      ensures ok <==> virt % PAGE_SIZE == 0 && old(Supplies(Missing(tbl, PageOf(virt))))
      ensures ok ==>
                && Core() && Grown(old(Now()), Now(), Path(PageOf(virt)), Missing(old(tbl), PageOf(virt)))
                && addr == (if Flat(PageOf(virt)).present then ReadFrame(Flat(PageOf(virt))) else NULL)
    {
      hide Core, Leaf, Index, NodeFor, Enough, Grown, Pool, Missing, Path;
      var table, index;
      ok, table, index := GetPtEntry(virt);
      if !ok {
        return false, NULL;
      }
      InCore(PageOf(virt));
      if !phys[table].entries[index].present {
        return true, NULL;
      }
      addr := ReadFrame(phys[table].entries[index]) + virt % PAGE_SIZE;
    }

    // ---------- Pages on demand ----------

    method AllocPage(region: Region) returns (ok: bool, page: nat)
      requires Valid() && bank[region] < RegionEnd(region)
      modifies this`ranges, this`rangeCurr, this`freeHead, this`phys, this`bank, this`free, this`tbl, this`owner
      ensures page == old(bank[region])
      ensures ok <==> old(Supplies(Missing(tbl, PageOf(bank[region]))))
      ensures ok ==>
                && Valid() && bank == old(bank)[region := page + PAGE_SIZE]
                && tbl.Keys == old(tbl).Keys + Path(PageOf(page))
                && Pool() == old(Pool())[Missing(old(tbl), PageOf(page))..] && OnlyTables(old(owner), owner)
                && old(Flat(PageOf(page))) == ZERO && Flat(PageOf(page)) == RESERVED
                && SameLeavesBut(old(phys), old(tbl), phys, tbl, PageOf(page))
    {
      hide Core, Leaf, Index, NodeFor, PagesOk, BanksOk, Enough, Pool, Path, Missing;
      HasBank(bank, phys, tbl, region);
      page := bank[region];
      NextPage(bank, phys, tbl, region);
      ghost var v := PageOf(page);
      var table, index;
      ok, table, index := GetPtEntry(page);
      if !ok {
        return;
      }
      InCore(v);
      SetLeaf(v, phys[table].entries[index].(alloc := true), table, index);
      InCore(v);
      SetLeaf(v, phys[table].entries[index].(present := false), table, index);
      NotOwned(old(owner), old(phys), old(tbl), v);
      PagesAfter(old(owner), old(phys), old(tbl), owner, phys, tbl, v);
      BanksAdvanced(bank, old(phys), old(tbl), phys, tbl, region);
      bank := bank[region := page + PAGE_SIZE];
    }

    lemma InCore(v: nat)
      requires Core() && NodeFor(v, 0) in tbl
      ensures IsTable(phys, tbl[NodeFor(v, 0)]) && Flat(v) == phys[tbl[NodeFor(v, 0)]].entries[Index(v, 0)]
    {
      LeafHere(phys, tbl, v);
    }

    /** The exception handler for page faults; cr2 is the faulting address. */
    method PageFault(cr2: nat) returns (ok: bool, ghost f: int)
      requires Valid()
      modifies this`ranges, this`rangeCurr, this`freeHead, this`phys, this`free, this`tbl, this`owner
      ensures ok <==> old(Flat(PageOf(cr2))) == RESERVED && |old(Pool())| > 1
      ensures ok ==>
                && Valid() && f == old(Pool())[0] && Pool() == old(Pool())[1..]
                && f in old(owner) && old(owner)[f] in {Fresh, Free} && owner == old(owner)[f := PageFor(PageOf(cr2))]
                && Flat(PageOf(cr2)) == Entry(true, true, false, FrameNumber(f)) && ReadFrame(Flat(PageOf(cr2))) == f
                && SameLeavesBut(old(phys), old(tbl), phys, tbl, PageOf(cr2))
    {
      hide FramesOk, Tree, Leaf, Index, NodeFor, PagesOk, BanksOk, Missing;
      f := NULL;
      var virt := cr2 - cr2 % PAGE_SIZE;
      ghost var v := PageOf(virt);
      SamePage(cr2);
      PageState(owner, phys, tbl, v);
      if Flat(v) != ZERO { NothingMissing(v); }
      RootIn();
      var table, index;
      ok, table, index := GetPtEntry(virt);
      if !ok {
        return;
      }
      InCore(v);
      if phys[table].entries[index].present || !phys[table].entries[index].alloc {
        return false, f;
      }
      ok, f := Resolve(virt, table, index);
    }

    // The part of the handler that gives the page its frame.
    method Resolve(virt: nat, table: int, index: nat) returns (ok: bool, ghost f: int)
      requires Valid() && virt % PAGE_SIZE == 0
      requires var v := PageOf(virt);
               && Flat(v) == RESERVED && Missing(tbl, v) == 0 && NodeFor(v, 0) in tbl
               && table == tbl[NodeFor(v, 0)] && index == Index(v, 0)
      modifies this`ranges, this`rangeCurr, this`freeHead, this`phys, this`free, this`tbl, this`owner
      ensures ok <==> |old(Pool())| > 1
      ensures ok ==>
                && Valid() && f == old(Pool())[0] && Pool() == old(Pool())[1..]
                && f in old(owner) && old(owner)[f] in {Fresh, Free} && owner == old(owner)[f := PageFor(PageOf(virt))]
                && Flat(PageOf(virt)) == Entry(true, true, false, FrameNumber(f)) && ReadFrame(Flat(PageOf(virt))) == f
                && SameLeavesBut(old(phys), old(tbl), phys, tbl, PageOf(virt))
    {
      hide SupplyOk, FreeList, Owned, Tree, Leaf, Index, NodeFor, PagesOk, BanksOk, Missing;
      ghost var v := PageOf(virt);
      PageState(owner, phys, tbl, v);
      ok, f := MapFresh(virt, table, index);
      if !ok {
        return;
      }
      Rename(owner, Remaining(), free, tbl, f, PageFor(v));
      owner := owner[f := PageFor(v)];
      assert owner == old(owner)[f := PageFor(v)];
      NotOwned(old(owner), old(phys), old(tbl), v);
      PagesAfter(old(owner), old(phys), old(tbl), owner, phys, tbl, v);
      BanksKept(bank, old(phys), old(tbl), phys, tbl, v);
    }

    method MapFresh(virt: nat, table: int, index: nat) returns (ok: bool, ghost f: int)
      requires Core() && virt % PAGE_SIZE == 0
      requires var v := PageOf(virt);
               && !Flat(v).present && Missing(tbl, v) == 0 && NodeFor(v, 0) in tbl
               && table == tbl[NodeFor(v, 0)] && index == Index(v, 0)
      modifies this`ranges, this`rangeCurr, this`freeHead, this`phys, this`free, this`tbl, this`owner
      ensures ok <==> |old(Pool())| > 1
      ensures ok ==>
                && Core() && f == old(Pool())[0] && Pool() == old(Pool())[1..]
                && f in old(owner) && old(owner)[f] in {Fresh, Free} && owner == old(owner)[f := Held]
                && Flat(PageOf(virt)) == Entry(true, true, false, FrameNumber(f)) && ReadFrame(Flat(PageOf(virt))) == f
                && SameLeavesBut(old(phys), old(tbl), phys, tbl, PageOf(virt))
    {
      hide FramesOk, Tree, Leaf, Index, NodeFor, Missing;
      CoreFrames();
      ghost var v := PageOf(virt);
      f := NULL;
      var pf;
      ok, pf := PfAlloc();
      if !ok {
        return;
      }
      f := pf;
      FrameRoundTrip(pf);
      RootIn();
      ok := MapPage(pf, virt);
      InCore(v);
      SetLeaf(v, phys[table].entries[index].(alloc := false), table, index);
      InCore(v);
      SetLeaf(v, phys[table].entries[index].(writable := true), table, index);
    }

    lemma CoreFrames()
      requires Core()
      ensures FramesOk()
    {
    }

    /** The tables of a page with an entry of its own exist. */
    lemma NothingMissing(v: nat)
      requires Core() && v < PAGES && Flat(v) != ZERO
      ensures Missing(tbl, v) == 0 && NodeFor(v, 0) in tbl
    {
      AncestorsIn(phys, tbl, v, 1);
      AncestorsIn(phys, tbl, v, 2);
    }

    /** Give a page back. Identity-mapped pages are not MMU_alloc_page's to free. */
    method FreePage(page: nat) returns (ok: bool)
      requires Valid() && !Identity(PageOf(page))
      modifies this`ranges, this`rangeCurr, this`freeHead, this`phys, this`free, this`tbl, this`owner
      ensures ok <==>
              page % PAGE_SIZE == 0 && old(Flat(PageOf(page))).present
              && Reached(true, ReadFrame(old(Flat(PageOf(page)))))
      ensures ok ==>
                && var f := ReadFrame(old(Flat(PageOf(page))));
                && Valid() && free == [f] + old(free)
                && f in old(owner) && old(owner)[f] == PageFor(PageOf(page)) && owner == old(owner)[f := Free]
                && Flat(PageOf(page)) == ZERO && SameLeavesBut(old(phys), old(tbl), phys, tbl, PageOf(page))
    {
      hide Core, Leaf, Index, NodeFor, PagesOk, BanksOk, Pool, Remaining, Enough, Path;
      if page % PAGE_SIZE != 0 {
        return false;
      }
      ghost var v := PageOf(page);
      PageState(owner, phys, tbl, v);
      if Flat(v) != ZERO { NothingMissing(v); }
      RootIn();
      EnoughNone(loaded, Pool());
      var table, index;
      ok, table, index := GetPtEntry(page);
      if !ok {
        return;
      }
      InCore(v);
      var pf := ReadFrame(phys[table].entries[index]);
      if !phys[table].entries[index].present {
        CoreFrames();
        ok := PfFree(pf);   // frame 0: a halt
        return;
      }
      ok := Unmap(v, pf, table, index);
    }

    // Free the frame and clear the entry of a present page.
    method Unmap(ghost v: nat, pf: int, table: int, index: nat) returns (ok: bool)
      requires Valid() && v < PAGES && !Identity(v) && Flat(v).present && NodeFor(v, 0) in tbl
      requires pf == ReadFrame(Flat(v)) && table == tbl[NodeFor(v, 0)] && index == Index(v, 0)
      modifies this`phys, this`freeHead, this`free, this`tbl, this`owner
      ensures ok <==> Reached(true, pf)
      ensures ok ==>
                && Valid() && free == [pf] + old(free)
                && pf in old(owner) && old(owner)[pf] == PageFor(v) && owner == old(owner)[pf := Free]
                && Flat(v) == ZERO && SameLeavesBut(old(phys), old(tbl), phys, tbl, v)
    {
      hide SupplyOk, FreeList, Owned, Tree, Leaf, Index, NodeFor, PagesOk, BanksOk, AllReached, TablesReached;
      PageState(owner, phys, tbl, v);
      Rename(owner, Remaining(), free, tbl, pf, Held);
      owner := owner[pf := Held];
      ok := PfFree(pf);
      if !ok {
        return;
      }
      FreedApart(old(owner), old(Remaining()), old(free), old(phys), tbl, pf, phys);
      InCore(v);
      SetLeaf(v, ZERO, table, index);
      assert owner == old(owner)[pf := Free];
      OwnsOne(old(owner), old(phys), old(tbl), v);
      PagesAfter(old(owner), old(phys), old(tbl), owner, phys, tbl, v);
      BanksKept(bank, old(phys), old(tbl), phys, tbl, v);
    }

    method AllocPages(numPages: nat, region: Region) returns (ok: bool, first: nat)
      requires Valid() && bank[region] + numPages * PAGE_SIZE <= RegionEnd(region)
      modifies this`ranges, this`rangeCurr, this`freeHead, this`phys, this`bank, this`free, this`tbl, this`owner
      ensures first == old(bank[region])
      ensures ok <==> old(Supplies(|Paths(bank[region], numPages) - tbl.Keys|))
      ensures ok ==>
                && Valid() && bank == old(bank)[region := first + numPages * PAGE_SIZE] && OnlyTables(old(owner), owner)
                && Pool() == old(Pool())[|Paths(first, numPages) - old(tbl).Keys|..]
                && forall w: nat :: Flat(w) == if InRun(w, first, numPages) then RESERVED else old(Flat(w))
    {
      hide Core, Leaf, PagesOk, BanksOk, OnlyTables, SameLeavesBut, Missing, Path, Paths, RunReserved, Pool, Enough;
      hide RunPaid, InRun, RegionEnd, RegionStart, NodeFor, SupplyOk, Owned, FreeList, Tree, FramesOk, PageOf;
      HasBank(bank, phys, tbl, region);
      RootIn();
      first := bank[region];
      ok := true;
      NoPaths(first, tbl.Keys);
      RunStarts(phys, tbl, first);
      OnlyTablesRefl(owner);
      ghost var nodes, pool := tbl.Keys, Pool();
      RunFree(loaded, pool, first, nodes);
      var i := 0;
      while i < numPages
        invariant 0 <= i <= numPages && Valid() && bank == old(bank)[region := first + i * PAGE_SIZE] && ok
        invariant OnlyTables(old(owner), owner) && tbl.Keys == nodes + Paths(first, i)
        invariant RunPaid(loaded, pool, Pool(), first, i, nodes)
        invariant RunReserved(old(phys), old(tbl), phys, tbl, first, i)
      {
        ghost var owner1, phys1, tbl1 := owner, phys, tbl;
        NextPage(bank, phys, tbl, region);
        RunPays(loaded, pool, Pool(), first, i, numPages, nodes, tbl);
        var page;
        ok, page := AllocPage(region);
        if !ok {
          return;
        }
        OnlyTablesTrans(old(owner), owner1, owner);
        RunGrows(old(phys), old(tbl), phys1, tbl1, phys, tbl, first, i);
        i := i + 1;
      }
      RunCost(loaded, pool, Pool(), first, numPages, nodes);
      RunMeaning(old(phys), old(tbl), phys, tbl, first, numPages);
    }

    /** kbrk and sbrk: the break moves by the whole pages of the increment only. */
    method Brk(increment: nat, region: Region) returns (ok: bool, oldBrk: nat)
      requires Valid() && bank[region] + increment <= RegionEnd(region)
      modifies this`ranges, this`rangeCurr, this`freeHead, this`phys, this`bank, this`free, this`tbl, this`owner
      ensures oldBrk == old(bank[region])
      ensures ok <==> old(Supplies(|Paths(bank[region], increment / PAGE_SIZE) - tbl.Keys|))
      ensures ok ==>
                && Valid() && bank.Keys == old(bank).Keys
                && (forall r | r in bank && r != region :: bank[r] == old(bank)[r])
                && region in bank && bank[region] - oldBrk <= increment < bank[region] - oldBrk + PAGE_SIZE
                && (bank[region] == oldBrk + increment <==> increment % PAGE_SIZE == 0)
                && forall w: nat :: Flat(w) == if oldBrk <= w * PAGE_SIZE < bank[region] then RESERVED else old(Flat(w))
    {
      hide Core, Leaf, PagesOk, BanksOk, OnlyTables, Enough, Pool;
      HasBank(bank, phys, tbl, region);
      oldBrk := bank[region];
      RootIn();
      NoPaths(oldBrk, tbl.Keys);
      EnoughNone(loaded, Pool());
      if increment == 0 {
        return true, oldBrk;
      }
      var pages := increment / PAGE_SIZE;
      var first;
      ok, first := AllocPages(pages, region);
    }

    method FreePages(page: nat, numPages: nat) returns (ok: bool)
      requires Valid() && forall i | 0 <= i < numPages :: !Identity(PageOf(page + i * PAGE_SIZE))
      modifies this`ranges, this`rangeCurr, this`freeHead, this`phys, this`free, this`tbl, this`owner
      ensures ok <==>
              numPages == 0
              || (page % PAGE_SIZE == 0 && numPages <= PAGES && AllMapped(old(phys), old(tbl), page, numPages))
      ensures ok ==> Valid() && forall w: nat :: Flat(w) == if Among(w, page, numPages) then ZERO else old(Flat(w))
      ensures ok ==> FreedAmong(old(owner), owner, page, numPages)
    {
      hide Core, Leaf, PagesOk, BanksOk, Among, PageOf;
      ok := true;
      NoneAmong(page);
      var i := 0;
      while i < numPages
        invariant 0 <= i <= numPages && Valid() && ok
        invariant i == 0 || (page % PAGE_SIZE == 0 && i <= PAGES && AllMapped(old(phys), old(tbl), page, i))
        invariant forall w: nat {:trigger Leaf(phys, tbl, w)} ::
                    Leaf(phys, tbl, w) == if Among(w, page, i) then ZERO else old(Flat(w))
        invariant FreedAmong(old(owner), owner, page, i)
      {
        ghost var owner1, phys1, tbl1, v := owner, phys, tbl, PageOf(page + i * PAGE_SIZE);
        OwnsOne(owner, phys, tbl, v);
        AmongEarlier(page, i);
        assert i < PAGES ==> (MappedAt(old(phys), old(tbl), page, i) <==>
                              Flat(v).present && Reached(true, ReadFrame(Flat(v))));
        ok := FreePage(page + i * PAGE_SIZE);
        if !ok {
          return;
        }
        AmongStep(page, i);
        i := i + 1;
      }
    }

    /** A program writes to a page it has mapped, or to a frame it holds: nothing here depends on such contents. */
    method Touch(addr: nat) returns (ok: bool)
      requires Valid()
      requires Flat(PageOf(addr)).present ==>
                 var f := ReadFrame(Flat(PageOf(addr))); f in owner && (owner[f].PageFor? || owner[f] == Held)
      modifies this`phys
      ensures ok <==> old(Flat(PageOf(addr))).present
      ensures Valid() && SameLeaves(old(phys), tbl, phys, tbl)
    {
      hide SupplyOk, Tree, Leaf, PagesOk, BanksOk;
      ghost var v := PageOf(addr);
      RootIn();
      RootOnPath(v);
      WalkIsLeaf(phys, tbl, v, 3);
      MayWriteIff(phys, tbl, v, 3);
      PageState(owner, phys, tbl, v);
      if !MayWrite(phys, pml4, PageOf(addr), 3) {
        return false;
      }
      var f := ReadFrame(Walk(phys, pml4, PageOf(addr), 3));
      FreedApart(owner, Remaining(), free, phys, tbl, f, phys[f := Data]);
      FreeListFrame(phys, phys[f := Data], freeHead, free);
      phys := phys[f := Data];
      PagesSame(owner, old(phys), tbl, phys, tbl);
      BanksSame(bank, old(phys), tbl, phys, tbl);
      ok := true;
    }

    lemma RootIn()
      requires Core()
      ensures ROOT in tbl && pml4 == tbl[ROOT] && Pool() != []
    {
      NoDupSupply(ranges, rangeCurr);
    }
  }

  /** The tables between the root and page v. */
  ghost function Path(v: nat): set<Node> { {NodeFor(v, 2)} + {NodeFor(v, 1)} + {NodeFor(v, 0)} }

  /** The tables between the root and a run of pages. */
  ghost function Paths(first: nat, n: nat): set<Node> {
    if n == 0 then {} else Paths(first, n - 1) + Path(PageOf(first + (n - 1) * PAGE_SIZE))
  }

  ghost function Outside(a: Node, nodes: set<Node>): nat { if a in nodes then 0 else 1 }

  lemma OneLess(a: Node, s: set<Node>, nodes: set<Node>)
    requires a !in s
    ensures |(s + {a}) - nodes| == Outside(a, nodes) + |s - nodes|
  {
    if a in nodes {
      assert (s + {a}) - nodes == s - nodes;
    } else {
      assert (s + {a}) - nodes == (s - nodes) + {a};
    }
  }

  lemma ThreeLess(a: Node, b: Node, c: Node, nodes: set<Node>)
    requires a != b && b != c && a != c
    ensures |({a} + {b} + {c}) - nodes| == Outside(a, nodes) + Outside(b, nodes) + Outside(c, nodes)
  {
    assert |{a} - nodes| == Outside(a, nodes) by {
      assert {a} - nodes == if a in nodes then {} else {a};
    }
    OneLess(b, {a}, nodes);
    OneLess(c, {a} + {b}, nodes);
  }

  lemma MissingCount(tbl: map<Node, int>, v: nat)
    ensures Missing(tbl, v) == |Path(v) - tbl.Keys|
  {
    hide Key;
    ThreeLess(NodeFor(v, 2), NodeFor(v, 1), NodeFor(v, 0), tbl.Keys);
  }

  lemma PathsStep(first: nat, n: nat, nodes: set<Node>)
    ensures var path := Path(PageOf(first + n * PAGE_SIZE));
            |Paths(first, n + 1) - nodes| == |Paths(first, n) - nodes| + |path - (nodes + Paths(first, n))|
  {
    hide Path;
    var path := Path(PageOf(first + n * PAGE_SIZE));
    assert Paths(first, n + 1) - nodes == (Paths(first, n) - nodes) + (path - (nodes + Paths(first, n)));
  }

  lemma NoPaths(first: nat, nodes: set<Node>)
    ensures |Paths(first, 0) - nodes| == 0 && nodes + Paths(first, 0) == nodes
  {
    assert Paths(first, 0) == {};
  }

  /** The tables that page n of a run adds to those made for the pages before it. */
  lemma PathsNext(first: nat, n: nat, m: nat, nodes: set<Node>, tbl: map<Node, int>)
    requires n < m && tbl.Keys == nodes + Paths(first, n)
    ensures var v := PageOf(first + n * PAGE_SIZE);
            && tbl.Keys + Path(v) == nodes + Paths(first, n + 1)
            && |Paths(first, n + 1) - nodes| == |Paths(first, n) - nodes| + Missing(tbl, v)
            && |Paths(first, n + 1) - nodes| <= |Paths(first, m) - nodes|
  {
    hide Path, PageOf, Missing;
    MissingCount(tbl, PageOf(first + n * PAGE_SIZE));
    PathsStep(first, n, nodes);
    PathsGrow(first, n + 1, m, nodes);
  }

  /** The tables made so far for a run of pages came off the front of the pool. */
  ghost predicate RunPaid(loaded: bool, pool: seq<int>, now: seq<int>, first: nat, n: nat, nodes: set<Node>) {
    var c := |Paths(first, n) - nodes|;
    c < |pool| && Enough(loaded, pool, c) && now == pool[c..]
  }

  lemma RunFree(loaded: bool, pool: seq<int>, first: nat, nodes: set<Node>)
    requires pool != []
    ensures RunPaid(loaded, pool, pool, first, 0, nodes)
  {
    NoPaths(first, nodes);
    EnoughNone(loaded, pool);
  }

  lemma RunCost(loaded: bool, pool: seq<int>, now: seq<int>, first: nat, n: nat, nodes: set<Node>)
    requires RunPaid(loaded, pool, now, first, n, nodes)
    ensures var c := |Paths(first, n) - nodes|; c < |pool| && Enough(loaded, pool, c) && now == pool[c..]
  {
  }

  lemma RunPays(loaded: bool, pool: seq<int>, now: seq<int>, first: nat, n: nat, m: nat, nodes: set<Node>,
                tbl: map<Node, int>)
    requires n < m && tbl.Keys == nodes + Paths(first, n) && RunPaid(loaded, pool, now, first, n, nodes)
    ensures var v := PageOf(first + n * PAGE_SIZE);
            && tbl.Keys + Path(v) == nodes + Paths(first, n + 1)
            && (Enough(loaded, pool, |Paths(first, m) - nodes|) ==> Enough(loaded, now, Missing(tbl, v)))
            && (Enough(loaded, now, Missing(tbl, v)) ==>
                  Missing(tbl, v) < |now| && RunPaid(loaded, pool, now[Missing(tbl, v)..], first, n + 1, nodes))
  {
    hide Paths, Path, Missing, Enough;
    PathsNext(first, n, m, nodes, tbl);
    EnoughBetween(loaded, pool, |Paths(first, n) - nodes|, |Paths(first, n + 1) - nodes|, |Paths(first, m) - nodes|);
  }

  lemma {:induction false} PathsGrow(first: nat, n: nat, m: nat, nodes: set<Node>)
    requires n <= m
    ensures |Paths(first, n) - nodes| <= |Paths(first, m) - nodes|
    decreases m
  {
    hide Path, PageOf;
    if n < m {
      PathsGrow(first, n, m - 1, nodes);
      PathsStep(first, m - 1, nodes);
    }
  }

  ghost function Lacks(tbl: map<Node, int>, n: Node): nat { if n in tbl then 0 else 1 }

  /** How many tables on the way to page v do not exist yet. */
  ghost function Missing(tbl: map<Node, int>, v: nat): nat {
    Lacks(tbl, NodeFor(v, 2)) + Lacks(tbl, NodeFor(v, 1)) + Lacks(tbl, NodeFor(v, 0))
  }

  lemma PathOf(v: nat)
    requires v < PAGES
    ensures NodeFor(v, 3) == ROOT && NodeFor(v, 2).level == 2 && NodeFor(v, 1).level == 1 && NodeFor(v, 0).level == 0
    ensures Child(ROOT, Index(v, 3)) == NodeFor(v, 2)
    ensures Child(NodeFor(v, 2), Index(v, 2)) == NodeFor(v, 1) && Child(NodeFor(v, 1), Index(v, 1)) == NodeFor(v, 0)
  {
    RootOnPath(v);
    ChildOnPath(v, 3);
    ChildOnPath(v, 2);
    ChildOnPath(v, 1);
  }

  lemma OnlyTablesTrans(a: map<int, Owner>, b: map<int, Owner>, c: map<int, Owner>)
    requires OnlyTables(a, b) && OnlyTables(b, c)
    ensures OnlyTables(a, c)
  {
  }

  lemma LeafHere(phys: Phys, tbl: map<Node, int>, v: nat)
    requires Tree(phys, tbl) && NodeFor(v, 0) in tbl
    ensures var t := tbl[NodeFor(v, 0)]; IsTable(phys, t) && Leaf(phys, tbl, v) == phys[t].entries[Index(v, 0)]
  {
  }

  const RESERVED := Entry(false, false, true, 0)

  /** Every present page but the identity-mapped ones has a frame of its own, and reserved pages have none. */
  ghost predicate PagesOk(owner: map<int, Owner>, phys: Phys, tbl: map<Node, int>) {
    && (forall v: nat {:trigger Leaf(phys, tbl, v)} | v < PAGES :: PageOk(owner, Leaf(phys, tbl, v), v))
    && (forall f | f in owner && owner[f].PageFor? ::
          var v := owner[f].v;
          v < PAGES && !Identity(v) && Leaf(phys, tbl, v).present && ReadFrame(Leaf(phys, tbl, v)) == f)
  }

  predicate PageOk(owner: map<int, Owner>, e: Entry, v: nat) {
    if Identity(v) then e == Entry(true, true, false, v)
    else if v * PAGE_SIZE <= PHYS_END then e == ZERO
    else if e.present then e.writable && !e.alloc && ReadFrame(e) in owner && owner[ReadFrame(e)] == PageFor(v)
    else e == ZERO || e == RESERVED
  }

  /** From its bank on, a region is untouched. */
  ghost predicate BanksOk(bank: map<Region, nat>, phys: Phys, tbl: map<Node, int>) {
    forall r: Region ::
      && r in bank && bank[r] % PAGE_SIZE == 0 && RegionStart(r) <= bank[r] <= RegionEnd(r)
      && forall v: nat {:trigger Leaf(phys, tbl, v)} | bank[r] <= v * PAGE_SIZE < RegionEnd(r) ::
           Leaf(phys, tbl, v) == ZERO
  }

  /** The state of one page has changed, and with it the frames it owns. */
  lemma PagesAfter(owner: map<int, Owner>, phys: Phys, tbl: map<Node, int>,
                   owner': map<int, Owner>, phys': Phys, tbl': map<Node, int>, v: nat)
    requires PagesOk(owner, phys, tbl) && v < PAGES && !Identity(v)
    requires SameLeavesBut(phys, tbl, phys', tbl', v)
    requires PageOk(owner', Leaf(phys', tbl', v), v)
    requires forall f | f in owner && owner[f].PageFor? && owner[f].v != v :: f in owner' && owner'[f] == owner[f]
    requires forall f | f in owner' && owner'[f].PageFor? ::
               if owner'[f].v == v then Leaf(phys', tbl', v).present && ReadFrame(Leaf(phys', tbl', v)) == f
               else f in owner && owner[f] == owner'[f]
    ensures PagesOk(owner', phys', tbl')
  {
    forall w: nat | w < PAGES ensures PageOk(owner', Leaf(phys', tbl', w), w) {
      assert PageOk(owner, Leaf(phys, tbl, w), w);
    }
    forall f | f in owner' && owner'[f].PageFor?
      ensures var w := owner'[f].v;
              w < PAGES && !Identity(w) && Leaf(phys', tbl', w).present && ReadFrame(Leaf(phys', tbl', w)) == f
    {
      if owner'[f].v != v { assert owner[f] == owner'[f]; }
    }
  }

  /** A page that is not beyond its bank has changed. */
  lemma BanksKept(bank: map<Region, nat>, phys: Phys, tbl: map<Node, int>, phys': Phys, tbl': map<Node, int>, v: nat)
    requires BanksOk(bank, phys, tbl) && SameLeavesBut(phys, tbl, phys', tbl', v)
    requires Leaf(phys, tbl, v) != ZERO
    ensures BanksOk(bank, phys', tbl')
  {
  }

  lemma BanksAdvanced(bank: map<Region, nat>, phys: Phys, tbl: map<Node, int>, phys': Phys, tbl': map<Node, int>,
                      region: Region)
    requires BanksOk(bank, phys, tbl) && bank[region] < RegionEnd(region)
    requires SameLeavesBut(phys, tbl, phys', tbl', PageOf(bank[region]))
    ensures BanksOk(bank[region := bank[region] + PAGE_SIZE], phys', tbl')
  {
    NextPage(bank, phys, tbl, region);
  }

  lemma HasBank(bank: map<Region, nat>, phys: Phys, tbl: map<Node, int>, region: Region)
    requires BanksOk(bank, phys, tbl)
    ensures region in bank
  {
  }

  lemma NextPage(bank: map<Region, nat>, phys: Phys, tbl: map<Node, int>, region: Region)
    requires BanksOk(bank, phys, tbl) && bank[region] < RegionEnd(region)
    ensures var v := PageOf(bank[region]);
            && v * PAGE_SIZE == bank[region] > PHYS_END && v < PAGES && !Identity(v) && Leaf(phys, tbl, v) == ZERO
            && bank[region] % PAGE_SIZE == 0 && bank[region] + PAGE_SIZE <= RegionEnd(region)
            && forall r: Region | r != region :: !(bank[r] <= v * PAGE_SIZE < RegionEnd(r))
  {
  }

  lemma SamePage(addr: nat)
    ensures (addr - addr % PAGE_SIZE) % PAGE_SIZE == 0 && PageOf(addr - addr % PAGE_SIZE) == PageOf(addr)
  {
  }

  lemma PageState(owner: map<int, Owner>, phys: Phys, tbl: map<Node, int>, v: nat)
    requires PagesOk(owner, phys, tbl) && v < PAGES
    ensures PageOk(owner, Leaf(phys, tbl, v), v)
  {
  }

  lemma Rename(owner: map<int, Owner>, remaining: seq<int>, free: seq<int>, tbl: map<Node, int>, f: int, o: Owner)
    requires Owned(owner, remaining, free, tbl) && f in owner
    requires (owner[f].Held? || owner[f].PageFor?) && (o.Held? || o.PageFor?)
    ensures FrameAddress(f) && Owned(owner[f := o], remaining, free, tbl)
  {
  }

  /** A page without a frame owns none. */
  lemma NotOwned(owner: map<int, Owner>, phys: Phys, tbl: map<Node, int>, v: nat)
    requires PagesOk(owner, phys, tbl) && !Leaf(phys, tbl, v).present
    ensures forall f | f in owner :: owner[f] != PageFor(v)
  {
  }

  lemma OwnsOne(owner: map<int, Owner>, phys: Phys, tbl: map<Node, int>, v: nat)
    requires PagesOk(owner, phys, tbl)
    ensures forall f | f in owner && owner[f] == PageFor(v) :: f == ReadFrame(Leaf(phys, tbl, v))
  {
  }

  predicate InRun(w: nat, first: nat, n: nat) { first <= w * PAGE_SIZE < first + n * PAGE_SIZE }

  ghost predicate Among(w: nat, page: nat, n: nat) {
    exists i :: 0 <= i < n && w == PageOf(page + i * PAGE_SIZE)
  }

  /** Each of a run of pages has a frame that the kernel reaches. */
  ghost predicate AllMapped(phys: Phys, tbl: map<Node, int>, page: nat, n: nat) {
    forall i | 0 <= i < n :: MappedAt(phys, tbl, page, i)
  }

  ghost predicate MappedAt(phys: Phys, tbl: map<Node, int>, page: nat, i: nat) {
    var e := Leaf(phys, tbl, PageOf(page + i * PAGE_SIZE));
    e.present && Reached(true, ReadFrame(e))
  }

  /** Page n of a run has come up before only after a full turn through the page numbers. */
  lemma AmongEarlier(page: nat, n: nat)
    ensures n < PAGES ==> !Among(PageOf(page + n * PAGE_SIZE), page, n)
    ensures n == PAGES ==> Among(PageOf(page + n * PAGE_SIZE), page, n)
  {
    if n < PAGES && Among(PageOf(page + n * PAGE_SIZE), page, n) {
      var i :| 0 <= i < n && PageOf(page + n * PAGE_SIZE) == PageOf(page + i * PAGE_SIZE);
      PageShift(page, i);
      PageShift(page, n);
      ModApart(page / PAGE_SIZE, i, n);
    }
    if n == PAGES {
      PageShift(page, n);
      assert PageOf(page + 0 * PAGE_SIZE) == PageOf(page + n * PAGE_SIZE);
    }
  }

  lemma ModApart(q: nat, i: nat, n: nat)
    requires i < n < PAGES
    ensures (q + i) % PAGES != (q + n) % PAGES
  {
    assert q + n == (q + i) + (n - i);
    var r := (q + i) % PAGES;
    assert (q + n) == (q + i) / PAGES * PAGES + r + (n - i);
  }

  lemma PageShift(page: nat, i: nat)
    ensures PageOf(page + i * PAGE_SIZE) == (page / PAGE_SIZE + i) % PAGES
  {
  }

  /** The frames of the first n pages have become free, and nothing else has changed hands. */
  ghost predicate FreedAmong(a: map<int, Owner>, b: map<int, Owner>, page: nat, n: nat) {
    && a.Keys == b.Keys
    && forall f | f in a :: b[f] == (if a[f].PageFor? && Among(a[f].v, page, n) then Free else a[f])
  }

  lemma NoneAmong(page: nat)
    ensures forall w: nat :: !Among(w, page, 0)
  {
  }

  lemma AmongStep(page: nat, n: nat)
    ensures forall w: nat :: Among(w, page, n + 1) <==> Among(w, page, n) || w == PageOf(page + n * PAGE_SIZE)
  {
    forall w: nat ensures Among(w, page, n + 1) <==> Among(w, page, n) || w == PageOf(page + n * PAGE_SIZE) {
      if Among(w, page, n + 1) {
        var i :| 0 <= i < n + 1 && w == PageOf(page + i * PAGE_SIZE);
      }
      if Among(w, page, n) {
        var i :| 0 <= i < n && w == PageOf(page + i * PAGE_SIZE);
        assert i < n + 1;
      }
    }
  }

  /** The flat map after the first n of a run of pages have been reserved. */
  ghost predicate RunReserved(phys: Phys, tbl: map<Node, int>, phys': Phys, tbl': map<Node, int>, first: nat, n: nat) {
    forall w: nat {:trigger Leaf(phys', tbl', w)} ::
      Leaf(phys', tbl', w) == if InRun(w, first, n) then RESERVED else Leaf(phys, tbl, w)
  }

  lemma RunStarts(phys: Phys, tbl: map<Node, int>, first: nat)
    ensures RunReserved(phys, tbl, phys, tbl, first, 0)
  {
  }

  lemma RunMeaning(phys: Phys, tbl: map<Node, int>, phys': Phys, tbl': map<Node, int>, first: nat, n: nat)
    requires RunReserved(phys, tbl, phys', tbl', first, n)
    ensures forall w: nat :: Leaf(phys', tbl', w) == if InRun(w, first, n) then RESERVED else Leaf(phys, tbl, w)
  {
  }

  lemma RunGrows(phys: Phys, tbl: map<Node, int>, phys1: Phys, tbl1: map<Node, int>, phys2: Phys, tbl2: map<Node, int>,
                 first: nat, n: nat)
    requires RunReserved(phys, tbl, phys1, tbl1, first, n)
    requires var v := PageOf(first + n * PAGE_SIZE);
             && v * PAGE_SIZE == first + n * PAGE_SIZE
             && SameLeavesBut(phys1, tbl1, phys2, tbl2, v) && Leaf(phys2, tbl2, v) == RESERVED
    ensures RunReserved(phys, tbl, phys2, tbl2, first, n + 1)
  {
    hide Leaf;
    var v := PageOf(first + n * PAGE_SIZE);
    forall w: nat
      ensures Leaf(phys2, tbl2, w) == if InRun(w, first, n + 1) then RESERVED else Leaf(phys, tbl, w)
    {
      if w != v {
        assert Leaf(phys1, tbl1, w) == Leaf(phys2, tbl2, w);
        assert InRun(w, first, n + 1) <==> InRun(w, first, n);
      }
    }
  }

  lemma OnlyTablesRefl(a: map<int, Owner>)
    ensures OnlyTables(a, a)
  {
  }

  lemma PagesSame(owner: map<int, Owner>, phys: Phys, tbl: map<Node, int>, phys': Phys, tbl': map<Node, int>)
    requires PagesOk(owner, phys, tbl) && SameLeaves(phys, tbl, phys', tbl')
    ensures PagesOk(owner, phys', tbl')
  {
    forall w: nat | w < PAGES ensures PageOk(owner, Leaf(phys', tbl', w), w) {
      assert PageOk(owner, Leaf(phys, tbl, w), w);
    }
  }

  lemma BanksSame(bank: map<Region, nat>, phys: Phys, tbl: map<Node, int>, phys': Phys, tbl': map<Node, int>)
    requires BanksOk(bank, phys, tbl) && SameLeaves(phys, tbl, phys', tbl')
    ensures BanksOk(bank, phys', tbl')
  {
  }

  /** Linking a frame that is no table into the free list leaves the tables alone. */
  lemma FreedApart(owner: map<int, Owner>, remaining: seq<int>, free: seq<int>, phys: Phys, tbl: map<Node, int>, f: int,
                   phys': Phys)
    requires Owned(owner, remaining, free, tbl) && Tree(phys, tbl) && f in owner && !owner[f].TableOf?
    requires f in phys' && phys' == phys[f := phys'[f]]
    ensures Tree(phys', tbl) && SameLeaves(phys, tbl, phys', tbl)
  {
    forall n | n in tbl ensures tbl[n] != f { assert owner[tbl[n]] == TableOf(n); }
    forall n, i | n in tbl && n.level > 0 && 0 <= i < ENTRIES ensures LinkOk(phys', tbl, n, i) {
      assert LinkOk(phys, tbl, n, i);
    }
  }

  lemma LinkHere(phys: Phys, tbl: map<Node, int>, n: Node, i: nat)
    requires Tree(phys, tbl) && n in tbl && n.level > 0 && i < ENTRIES
    ensures IsTable(phys, tbl[n]) && LinkOk(phys, tbl, n, i)
  {
  }

  lemma Hooked(phys: Phys, tbl: map<Node, int>, n: Node, i: nat, f: int, e: Entry, phys'': Phys, head: int,
               free: seq<int>)
    requires Tree(phys, tbl) && n in tbl && n.level > 0 && i < ENTRIES && Child(n, i) !in tbl
    requires FrameAddress(f) && f !in free && (forall m | m in tbl :: tbl[m] != f && tbl[m] !in free)
    requires e.present && e.writable && !e.alloc && e.frame == FrameNumber(f) && FreeList(phys, head, free)
    requires var phys' := phys[f := Table(seq(ENTRIES, _ => ZERO))];
             phys'' == phys'[tbl[n] := Table(phys'[tbl[n]].entries[i := e])]
    ensures Tree(phys'', tbl[Child(n, i) := f]) && FreeList(phys'', head, free)
    ensures SameLeaves(phys, tbl, phys'', tbl[Child(n, i) := f])
  {
    hide Tree, Leaf;
    FrameRoundTrip(f);
    HangTable(phys, tbl, n, i, f, e);
    FreeListFrame(phys, phys'', head, free);
  }

  lemma TableHere(phys: Phys, tbl: map<Node, int>, n: Node)
    requires Tree(phys, tbl) && n in tbl
    ensures IsTable(phys, tbl[n]) && FrameAddress(tbl[n]) && ROOT in tbl
  {
  }

  lemma Unhooked(phys: Phys, tbl: map<Node, int>, n: Node, i: nat)
    requires Tree(phys, tbl) && n in tbl && n.level > 0 && i < ENTRIES && Child(n, i) !in tbl
    ensures IsTable(phys, tbl[n]) && phys[tbl[n]].entries[i] == ZERO
  {
    assert LinkOk(phys, tbl, n, i);
  }

  /** Writing an entry twice leaves the second value. */
  lemma SetTwice(phys: Phys, f: int, i: nat, d: Entry, e: Entry)
    requires IsTable(phys, f) && i < ENTRIES
    ensures var once := phys[f := Table(phys[f].entries[i := d])];
            once[f := Table(once[f].entries[i := e])] == phys[f := Table(phys[f].entries[i := e])]
  {
    assert phys[f].entries[i := d][i := e] == phys[f].entries[i := e];
  }

  lemma NewTable(owner: map<int, Owner>, remaining: seq<int>, free: seq<int>, tbl: map<Node, int>, f: int, c: Node)
    requires Owned(owner, remaining, free, tbl) && f in owner && owner[f] == Held && c !in tbl
    ensures Owned(owner[f := TableOf(c)], remaining, free, tbl[c := f])
    ensures f !in free && FrameAddress(f)
    ensures forall m | m in tbl :: tbl[m] != f && tbl[m] !in free
  {
    forall m | m in tbl ensures tbl[m] != f && tbl[m] !in free {
      assert owner[tbl[m]] == TableOf(m);
    }
  }
}
