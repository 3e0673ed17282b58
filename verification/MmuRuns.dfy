// Whole runs of the memory manager: what holds between any two moments, whatever calls and faults come in between.
module MmuRuns {
  import opened FrameSupply
  import opened PageTable
  import opened Mmu

  /** Who owns each frame, and the entry of each page. */
  datatype View = View(owner: map<int, Owner>, flat: nat -> Entry)

  datatype Event =
    | Reserve(v: nat)            // MMU_alloc_page
    | Fault(v: nat, f: int)      // a page fault that was resolved
    | Unmap(v: nat, f: int)      // MMU_free_page
    | Take(f: int)               // a direct MMU_pf_alloc
    | Give(f: int)               // and its MMU_pf_free
    | Write(f: int)              // a write to a mapped or held frame

  ghost predicate SameBut(a: View, b: View, v: nat) {
    forall w: nat {:trigger a.flat(w)} {:trigger b.flat(w)} | w != v :: b.flat(w) == a.flat(w)
  }

  ghost predicate SameFlat(a: View, b: View) {
    forall w: nat {:trigger a.flat(w)} {:trigger b.flat(w)} :: b.flat(w) == a.flat(w)
  }

  predicate Unused(owner: map<int, Owner>, f: int) { f in owner && (owner[f].Fresh? || owner[f].Free?) }

  ghost predicate Step(a: View, e: Event, b: View) {
    match e
    case Reserve(v) =>
      && PHYS_END / PAGE_SIZE < v < PAGES && a.flat(v) == ZERO && b.flat(v) == RESERVED && SameBut(a, b, v)
      && OnlyTables(a.owner, b.owner)
    case Fault(v, f) =>
      && v < PAGES && !Identity(v) && a.flat(v) == RESERVED && SameBut(a, b, v)
      && Unused(a.owner, f) && b.owner == a.owner[f := PageFor(v)]
      && b.flat(v).present && b.flat(v).writable && !b.flat(v).alloc && ReadFrame(b.flat(v)) == f
    case Unmap(v, f) =>
      && v < PAGES && !Identity(v) && a.flat(v).present && ReadFrame(a.flat(v)) == f && b.flat(v) == ZERO
      && SameBut(a, b, v)
      && f in a.owner && a.owner[f] == PageFor(v) && b.owner == a.owner[f := Free]
    case Take(f) => SameFlat(a, b) && Unused(a.owner, f) && b.owner == a.owner[f := Held]
    case Give(f) => SameFlat(a, b) && f in a.owner && a.owner[f] == Held && b.owner == a.owner[f := Free]
    case Write(f) => SameFlat(a, b) && f in a.owner && (a.owner[f] == Held || a.owner[f].PageFor?) && b.owner == a.owner
  }

  ghost predicate Run(views: seq<View>, events: seq<Event>) {
    |views| == |events| + 1 && forall i | 0 <= i < |events| :: Step(views[i], events[i], views[i + 1])
  }

  lemma RunFront(views: seq<View>, events: seq<Event>)
    requires Run(views, events) && events != []
    ensures Run(views[..|events|], events[..|events| - 1])
    ensures Step(views[|events| - 1], events[|events| - 1], views[|events|])
  {
  }

  // ---------- Over every run ----------

  ghost predicate ViewOk(a: View) {
    && (forall v: nat {:trigger a.flat(v)} | v < PAGES :: PageOk(a.owner, a.flat(v), v))
    && (forall f | f in a.owner && a.owner[f].PageFor? ::
          var v := a.owner[f].v; v < PAGES && !Identity(v) && a.flat(v).present && ReadFrame(a.flat(v)) == f)
  }

  /** No frame serves two pages. */
  lemma PagesApart(a: View, v: nat, w: nat)
    requires ViewOk(a) && v < PAGES && w < PAGES && !Identity(v) && !Identity(w)
    requires a.flat(v).present && a.flat(w).present && ReadFrame(a.flat(v)) == ReadFrame(a.flat(w))
    ensures v == w
  {
    assert PageOk(a.owner, a.flat(v), v) && PageOk(a.owner, a.flat(w), w);
  }

  lemma StepKeeps(a: View, e: Event, b: View)
    requires ViewOk(a) && Step(a, e, b)
    ensures ViewOk(b)
  {
    forall w: nat | w < PAGES ensures PageOk(b.owner, b.flat(w), w) {
      assert PageOk(a.owner, a.flat(w), w);
    }
    forall f | f in b.owner && b.owner[f].PageFor?
      ensures var w := b.owner[f].v; w < PAGES && !Identity(w) && b.flat(w).present && ReadFrame(b.flat(w)) == f
    {
      if f in a.owner && a.owner[f].PageFor? { assert PageOk(a.owner, a.flat(a.owner[f].v), a.owner[f].v); }
    }
  }

  /** No frame is lost or invented, and a table is never given up. */
  ghost predicate FramesKept(a: map<int, Owner>, b: map<int, Owner>) {
    a.Keys == b.Keys && forall f | f in a && a[f].TableOf? :: b[f] == a[f]
  }

  lemma {:induction false} RunKeeps(views: seq<View>, events: seq<Event>)
    requires Run(views, events) && ViewOk(views[0])
    ensures ViewOk(views[|events|]) && FramesKept(views[0].owner, views[|events|].owner)
    decreases |events|
  {
    if events != [] {
      RunFront(views, events);
      RunKeeps(views[..|events|], events[..|events| - 1]);
      StepKeeps(views[|events| - 1], events[|events| - 1], views[|events|]);
    }
  }

  datatype Status = Absent | Reserved | Mapped

  function StatusOf(e: Entry): Status {
    if e.present then Mapped else if e.alloc then Reserved else Absent
  }

  /** What the calls and faults on page v alone make of it. */
  function After(s: Status, events: seq<Event>, v: nat): Status {
    if events == [] then s
    else match events[|events| - 1]
      case Reserve(w) => if w == v then Reserved else After(s, events[..|events| - 1], v)
      case Fault(w, _) => if w == v then Mapped else After(s, events[..|events| - 1], v)
      case Unmap(w, _) => if w == v then Absent else After(s, events[..|events| - 1], v)
      case _ => After(s, events[..|events| - 1], v)
  }

  /**
   * Demand paging: reserved by MMU_alloc_page, mapped by the first fault, gone
   * with MMU_free_page, and nothing else matters.
   */
  lemma {:induction false} StatusOfRun(views: seq<View>, events: seq<Event>, v: nat)
    requires Run(views, events)
    ensures StatusOf(views[|events|].flat(v)) == After(StatusOf(views[0].flat(v)), events, v)
    decreases |events|
  {
    if events != [] {
      RunFront(views, events);
      StatusOfRun(views[..|events|], events[..|events| - 1], v);
    }
  }

  /** A mapped page keeps its entry, and its frame to itself, until it is freed. */
  lemma {:induction false} MappedStays(views: seq<View>, events: seq<Event>, v: nat)
    requires Run(views, events) && ViewOk(views[0]) && v < PAGES && !Identity(v) && views[0].flat(v).present
    requires forall i | 0 <= i < |events| :: !(events[i].Unmap? && events[i].v == v)
    ensures var f := ReadFrame(views[0].flat(v));
            && views[|events|].flat(v) == views[0].flat(v)
            && f in views[|events|].owner && views[|events|].owner[f] == PageFor(v)
            && forall i | 0 <= i < |events| :: events[i] != Take(f) && !(events[i].Fault? && events[i].f == f)
    decreases |events|
  {
    assert PageOk(views[0].owner, views[0].flat(v), v);
    if events != [] {
      RunFront(views, events);
      MappedStays(views[..|events|], events[..|events| - 1], v);
    }
  }

  // ---------- What memory says ----------

  /** The processor, walking the tables in memory from CR3, sees the flat map. */
  lemma HardwareWalk(m: Mmu, v: nat)
    requires m.Valid() && v < PAGES
    ensures Walk(m.phys, m.pml4, v, 3) == ViewOf(m).flat(v)
  {
    RootOnPath(v);
    WalkIsLeaf(m.phys, m.tbl, v, 3);
  }

  /** In every state each entry above the page tables that names a table lets the pages below be written, ... */
  lemma UpperEntries(m: Mmu, n: Node, i: nat)
    requires m.Valid() && n in m.tbl && n.level > 0 && i < ENTRIES
    ensures IsTable(m.phys, m.tbl[n])
    ensures var e := m.phys[m.tbl[n]].entries[i];
            && (e.present <==> Child(n, i) in m.tbl)
            && if e.present then e.writable && !e.alloc && ReadFrame(e) == m.tbl[Child(n, i)] else e == ZERO
  {
    hide SupplyOk, FreeList, Owned, PagesOk, BanksOk, Leaf;
    assert LinkOk(m.phys, m.tbl, n, i);
  }

  /** ... so that the processor may write to a page exactly if the flat map has a frame for it. */
  lemma HardwareWrites(m: Mmu, v: nat)
    requires m.Valid() && v < PAGES
    ensures MayWrite(m.phys, m.pml4, v, 3) <==> ViewOf(m).flat(v).present
  {
    hide Tree, SupplyOk, FreeList, BanksOk, Leaf;
    m.RootIn();
    RootOnPath(v);
    MayWriteIff(m.phys, m.tbl, v, 3);
    PageState(m.owner, m.phys, m.tbl, v);
    assert ViewOf(m).flat(v) == m.Flat(v);
  }

  /** Below 1 TiB the processor finds pages 0 to 512 mapped to themselves, for writing, and nothing else. */
  lemma LowWalk(m: Mmu, v: nat)
    requires m.Valid() && v < 0x1000_0000
    ensures Walk(m.phys, m.pml4, v, 3) == if v <= 512 then Entry(true, true, false, v) else ZERO
    ensures MayWrite(m.phys, m.pml4, v, 3) <==> v <= 512
  {
    hide Tree, SupplyOk, FreeList, BanksOk, Leaf;
    HardwareWalk(m, v);
    HardwareWrites(m, v);
    PageState(m.owner, m.phys, m.tbl, v);
    assert ViewOf(m).flat(v) == m.Flat(v);
  }

  /** Frames are reached at their own addresses exactly through pages 0 to 512; at any other, the fault is a halt. */
  lemma ReachedThroughTables(m: Mmu, f: int)
    requires m.Valid() && f in m.owner
    ensures Walk(m.phys, m.pml4, PageOf(f), 3) ==
            if Reached(true, f) then Entry(true, true, false, FrameNumber(f)) else ZERO
    ensures Reached(true, f) ==> ReadFrame(Walk(m.phys, m.pml4, PageOf(f), 3)) == f
  {
    hide Tree, SupplyOk, FreeList, BanksOk;
    assert FrameAddress(f) && f <= PHYS_END;
    var v: nat := f / 4096;
    assert v == PageOf(f) < PAGES && ViewOf(m).flat(v) == m.Flat(v);
    HardwareWalk(m, v);
    PageState(m.owner, m.phys, m.tbl, v);
  }

  /** What the driver itself works on it reaches: the free list and every table. */
  lemma AlwaysReached(m: Mmu, f: int)
    requires m.Valid() && f in m.owner && (m.owner[f].Free? || m.owner[f].TableOf?)
    ensures Reached(true, f)
  {
    hide Tree, SupplyOk, FreeList, PagesOk, BanksOk;
    assert m.owner[f].TableOf? ==> m.tbl[m.owner[f].n] == f;
  }

  /**
   * What a frame is in use as, read off the allocator, the tables in memory
   * and the flat map: one use each, as owner says.
   */
  lemma OneUse(m: Mmu, f: int)
    requires m.Valid() && f in m.owner
    ensures f in m.Remaining() <==> m.owner[f].Fresh?
    ensures f in m.free <==> m.owner[f].Free?
    ensures (exists n :: n in m.tbl && m.tbl[n] == f) <==> m.owner[f].TableOf?
    ensures (exists v: nat {:trigger m.Flat(v)} ::
               v < PAGES && !Identity(v) && m.Flat(v).present && ReadFrame(m.Flat(v)) == f)
            <==> m.owner[f].PageFor?
    ensures forall v: nat, w: nat {:trigger m.Flat(v), m.Flat(w)} |
              v < PAGES && w < PAGES && !Identity(v) && !Identity(w) && m.Flat(v).present && m.Flat(w).present
              && ReadFrame(m.Flat(v)) == f == ReadFrame(m.Flat(w)) :: v == w
    ensures NoDup(m.free)
  {
    forall v: nat, w: nat |
      v < PAGES && w < PAGES && !Identity(v) && !Identity(w) && m.Flat(v).present && m.Flat(w).present
      && ReadFrame(m.Flat(v)) == f == ReadFrame(m.Flat(w))
      ensures v == w
    {
      ViewIsOk(m);
      PagesApart(ViewOf(m), v, w);
    }
    hide SupplyOk, FreeList, Tree, BanksOk, Leaf;
    if m.owner[f].PageFor? {
      var v := m.owner[f].v;
      assert v < PAGES && m.Flat(v).present;
    }
    if v: nat :| v < PAGES && !Identity(v) && m.Flat(v).present && ReadFrame(m.Flat(v)) == f {
      assert PageOk(m.owner, Leaf(m.phys, m.tbl, v), v);
    }
  }

  /** No two pages share a place in memory for their entries. */
  lemma EntriesApart(m: Mmu, v: nat, w: nat)
    requires m.Valid() && NodeFor(v, 0) in m.tbl && NodeFor(w, 0) in m.tbl
    requires m.tbl[NodeFor(v, 0)] == m.tbl[NodeFor(w, 0)] && Index(v, 0) == Index(w, 0)
    ensures v == w
  {
    PlaceOf(v, w);
  }

  lemma ViewIsOk(m: Mmu)
    requires m.Valid()
    ensures ViewOk(ViewOf(m))
  {
    hide m.Core, BanksOk, Leaf;
    forall v: nat | v < PAGES ensures PageOk(m.owner, ViewOf(m).flat(v), v) {
      assert ViewOf(m).flat(v) == Leaf(m.phys, m.tbl, v);
    }
  }

  // ---------- The driver takes exactly these steps ----------

  ghost function ViewOf(m: Mmu): View
    reads m
  {
    var phys, tbl := m.phys, m.tbl;
    View(m.owner, (w: nat) => Leaf(phys, tbl, w))
  }

  datatype Call =
    | AllocPage(region: Region)
    | PageFault(cr2: nat)
    | FreePage(page: nat)
    | PfAlloc
    | PfFree(pf: nat)
    | Store(addr: nat)

  /** What the callers of the driver keep to; a fault can come at any address. */
  ghost predicate Behaves(m: Mmu, call: Call)
    reads m
  {
    match call
    case AllocPage(region) => region in m.bank && m.bank[region] < RegionEnd(region)
    case FreePage(page) => !Identity(PageOf(page))
    case PfFree(pf) => pf in m.owner && m.owner[pf] == Held
    case Store(addr) =>
      m.Flat(PageOf(addr)).present ==>
        var f := ReadFrame(m.Flat(PageOf(addr))); f in m.owner && (m.owner[f].PageFor? || m.owner[f] == Held)
    case _ => true
  }

  predicate EventOf(call: Call, e: Event) {
    match call
    case AllocPage(_) => e.Reserve?
    case PageFault(cr2) => e.Fault? && e.v == PageOf(cr2)
    case FreePage(page) => e.Unmap? && e.v == PageOf(page)
    case PfAlloc => e.Take?
    case PfFree(pf) => e == Give(pf)
    case Store(_) => e.Write?
  }

  /** A frame that is no page's changes hands, but not to a page. */
  lemma OtherFrame(owner: map<int, Owner>, phys: Phys, tbl: map<Node, int>, f: int, o: Owner)
    requires PagesOk(owner, phys, tbl) && f in owner && !owner[f].PageFor? && !o.PageFor?
    ensures PagesOk(owner[f := o], phys, tbl)
  {
    hide Leaf;
    var owner' := owner[f := o];
    forall v: nat | v < PAGES ensures PageOk(owner', Leaf(phys, tbl, v), v) {
      assert PageOk(owner, Leaf(phys, tbl, v), v);
    }
  }

  method TakeFrame(m: Mmu) returns (ok: bool, ghost e: Event)
    requires m.Valid()
    modifies m
    ensures ok <==> |old(m.Pool())| > 1
    ensures ok ==> m.Valid() && e.Take? && Step(old(ViewOf(m)), e, ViewOf(m))
  {
    hide m.FramesOk, PagesOk, BanksOk, Leaf, Tree, TablesReached, m.Pool, m.Remaining;
    var pf;
    ok, pf := m.PfAlloc();
    e := Take(pf);
    if ok {
      OtherFrame(old(m.owner), m.phys, m.tbl, pf, Held);
    }
  }

  method GiveFrame(m: Mmu, pf: nat) returns (ok: bool)
    requires m.Valid() && pf in m.owner && m.owner[pf] == Held
    modifies m
    ensures ok <==> Reached(true, pf)
    ensures ok ==> m.Valid() && Step(old(ViewOf(m)), Give(pf), ViewOf(m))
  {
    hide SupplyOk, FreeList, PagesOk, BanksOk, Leaf, Tree;
    FreedApart(m.owner, m.Remaining(), m.free, m.phys, m.tbl, pf, m.phys[pf := Link(m.freeHead)]);
    ok := m.PfFree(pf);
    if ok {
      PagesSame(old(m.owner), old(m.phys), m.tbl, m.phys, m.tbl);
      OtherFrame(old(m.owner), m.phys, m.tbl, pf, Free);
      BanksSame(m.bank, old(m.phys), m.tbl, m.phys, m.tbl);
    }
  }

  method Perform(m: Mmu, call: Call) returns (ok: bool, ghost e: Event)
    requires m.Valid() && Behaves(m, call)
    modifies m
    ensures ok ==> m.Valid() && EventOf(call, e) && Step(old(ViewOf(m)), e, ViewOf(m))
    ensures ViewOk(old(ViewOf(m))) && (ok ==> ViewOk(ViewOf(m)))
  {
    ViewIsOk(m);
    ok, e := Do(m, call);
    if ok { ViewIsOk(m); }
  }

  method Do(m: Mmu, call: Call) returns (ok: bool, ghost e: Event)
    requires m.Valid() && Behaves(m, call)
    modifies m
    ensures ok ==> m.Valid() && EventOf(call, e) && Step(old(ViewOf(m)), e, ViewOf(m))
  {
    hide m.Core, PagesOk, BanksOk, Leaf;
    match call
    case AllocPage(region) =>
      var page;
      NextPage(m.bank, m.phys, m.tbl, region);
      ok, page := m.AllocPage(region);
      e := Reserve(PageOf(page));
    case PageFault(cr2) =>
      ghost var f;
      PageState(m.owner, m.phys, m.tbl, PageOf(cr2));
      ok, f := m.PageFault(cr2);
      e := Fault(PageOf(cr2), f);
    case FreePage(page) =>
      e := Unmap(PageOf(page), ReadFrame(m.Flat(PageOf(page))));
      ok := m.FreePage(page);
    case PfAlloc =>
      ok, e := TakeFrame(m);
    case PfFree(pf) =>
      e := Give(pf);
      ok := GiveFrame(m, pf);
    case Store(addr) =>
      e := Write(ReadFrame(m.Flat(PageOf(addr))));
      ok := m.Touch(addr);
  }

  // ---------- Where the driver stops for good ----------

  const SMALL_MAP := [MmapEntry(0, 0xA000, true), MmapEntry(KERNEL_START, 0x40_0000, true)]
  const SMALL_END := 0x20_0800

  lemma SmallSupply()
    ensures GoodMap(SMALL_MAP) && KernelPlaced(SMALL_MAP, SMALL_END) && |Ranges(SMALL_MAP, SMALL_END)| == 2
    ensures var s := Supply(SMALL_MAP, SMALL_END);
            && |s| > 9 && (forall i | 0 <= i < 8 :: s[i] == FIRST_FRAME + i * PAGE_SIZE) && s[8] == 0x20_1000
  {
    var low, high := SMALL_MAP[0], SMALL_MAP[1];
    assert high in SMALL_MAP && HoldsKernel(high, SMALL_END) && PageAlign(SMALL_END) == 0x20_1000;
    assert SMALL_MAP[..1] == [low] && SMALL_MAP[..1][..0] == [];
    assert Ranges(SMALL_MAP[..1], SMALL_END) == [Range(0, 0, 0xA000)];
    var first, second := Range(0, FIRST_FRAME, 0xA000), Range(0x20_1000, 0x20_1000, high.End());
    assert FromPageTwo(Ranges(SMALL_MAP, SMALL_END)) == [first] + [second];
    AllFramesOf(first, second);
    assert Supply(SMALL_MAP, SMALL_END) == Pages(FIRST_FRAME, 0xA000) + Pages(0x20_1000, high.End());
    FirstPages(FIRST_FRAME, 0xA000, 8);
    FirstPages(0x20_1000, high.End(), 2);
  }

  lemma {:induction false} FirstPages(a: nat, b: nat, n: nat)
    requires a + n * PAGE_SIZE <= b && (a + n * PAGE_SIZE == b || n > 0)
    ensures |Pages(a, b)| >= n && (forall i | 0 <= i < n :: Pages(a, b)[i] == a + i * PAGE_SIZE)
    ensures a + n * PAGE_SIZE == b ==> |Pages(a, b)| == n
    decreases n
  {
    if n > 0 {
      if n > 1 || a + PAGE_SIZE == b { FirstPages(a + PAGE_SIZE, b, n - 1); }
      assert Pages(a, b) == [a] + Pages(a + PAGE_SIZE, b);
    }
  }

  lemma HeapTables(tbl: map<Node, int>)
    requires tbl.Keys == {ROOT} + LowTables(513)
    ensures Missing(tbl, PageOf(RegionStart(KHEAP))) == 3
  {
    Keys(PageOf(RegionStart(KHEAP)));
  }

  /**
   * Start the driver on 4 MiB and a little, allocate a page of the kernel heap and touch it: all goes well. Freeing it
   * halts the kernel, because its frame is the one behind the pages that the tables map to themselves.
   */
  method FreeHighFrame() returns (started: bool, reserved: bool, touched: bool, freed: bool, ghost frame: int)
    ensures started && reserved && touched && !freed && frame == 0x20_1000
  {
    hide Supply, GoodMap, KernelPlaced, Missing, LowTables, Leaf, Available, Ranges, PagesOk, BanksOk, OnlyTables;
    hide SameLeavesBut, Path;
    SmallSupply();
    var m := new Mmu();
    ghost var pool := Supply(SMALL_MAP, SMALL_END);
    started := m.Init(SMALL_MAP, KERNEL_START, SMALL_END);
    assert m.Valid();
    HeapTables(m.tbl);
    var page;
    reserved, page := m.AllocPage(KHEAP);
    assert reserved;
    touched, frame := m.PageFault(page);
    assert touched && frame == pool[8];
    freed := m.FreePage(page);
  }
}
