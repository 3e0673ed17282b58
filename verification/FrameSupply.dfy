// mmu_driver.c, physical side: addr_map_init turns the memory map into a list of ranges, and
// alloc_new_pf takes page frames off the front of it.
module FrameSupply {

  const PAGE_SIZE := 4096
  const KERNEL_START := 0x10_0000
  const FIRST_FRAME := 0x2000       // pages 0 and 1 are never handed out
  const RECORD_SIZE := 32
  const LOCAL_HEAP := PAGE_SIZE     // the range records live in page 1

  datatype MmapEntry = MmapEntry(addr: nat, len: nat, available: bool) {
    function End(): nat { addr + len }
  }

  datatype Range = Range(start: nat, curr: nat, end: nat)

  function PageAlign(a: nat): nat
  {
    (a + PAGE_SIZE - 1) / PAGE_SIZE * PAGE_SIZE
  }

  // ---------- Sequences of frames ----------

  ghost predicate NoDup(s: seq<int>) {
    forall i, j | 0 <= i < j < |s| :: s[i] != s[j]
  }

  lemma NoDupCut(a: seq<int>, b: seq<int>)
    ensures NoDup(a + b) <==> NoDup(a) && NoDup(b) && forall x :: !(x in a && x in b)
  {
    if NoDup(a + b) {
      forall i, j | 0 <= i < j < |a| ensures a[i] != a[j] { assert (a + b)[i] == a[i] && (a + b)[j] == a[j]; }
      forall i, j | 0 <= i < j < |b| ensures b[i] != b[j] {
        assert (a + b)[|a| + i] == b[i] && (a + b)[|a| + j] == b[j];
      }
      forall x | x in a ensures x !in b {
        var i :| 0 <= i < |a| && a[i] == x;
        forall j | 0 <= j < |b| ensures b[j] != x { assert (a + b)[i] == x && (a + b)[|a| + j] == b[j]; }
      }
    }
    if NoDup(a) && NoDup(b) && forall x :: !(x in a && x in b) {
      forall i, j | 0 <= i < j < |a + b| ensures (a + b)[i] != (a + b)[j] {
        if i < |a| { assert (a + b)[i] in a; }
        if j >= |a| { assert (a + b)[j] in b; }
      }
    }
  }

  /** The page frames of [a, b), in order. */
  function Pages(a: nat, b: nat): (s: seq<int>)
    ensures s == [] <==> b <= a
    decreases b - a
  {
    if b <= a then [] else [a] + Pages(a + PAGE_SIZE, b)
  }

  lemma {:induction false} PagesMeaning(a: nat, b: nat, f: int)
    requires a % PAGE_SIZE == 0
    ensures f in Pages(a, b) <==> a <= f < b && f % PAGE_SIZE == 0
    decreases b - a
  {
    if a < b {
      PagesMeaning(a + PAGE_SIZE, b, f);
    }
  }

  lemma {:induction false} PagesDistinct(a: nat, b: nat)
    requires a % PAGE_SIZE == 0
    ensures NoDup(Pages(a, b))
    decreases b - a
  {
    if a < b {
      PagesDistinct(a + PAGE_SIZE, b);
      PagesMeaning(a + PAGE_SIZE, b, a);
      NoDupCut([a], Pages(a + PAGE_SIZE, b));
    }
  }

  // ---------- The list of ranges ----------

  function RangeFrames(r: Range): seq<int> { Pages(r.curr, r.end) }

  function AllFrames(rs: seq<Range>): seq<int> {
    if rs == [] then [] else RangeFrames(rs[0]) + AllFrames(rs[1..])
  }

  lemma AllFramesCut(a: seq<Range>, b: seq<Range>)
    ensures AllFrames(a + b) == AllFrames(a) + AllFrames(b)
  {
    if a == [] {
      assert a + b == b;
    } else {
      assert (a + b)[1..] == a[1..] + b;
      AllFramesCut(a[1..], b);
    }
  }

  /** What addr_map_init makes of one memory map entry. */
  function EntryRanges(e: MmapEntry, kernelEnd: nat): seq<Range> {
    if !e.available then []
    else if e.addr <= KERNEL_START && kernelEnd <= e.End() then
      (if e.addr != KERNEL_START then [Range(e.addr, e.addr, KERNEL_START)] else [])
      + [Range(PageAlign(kernelEnd), PageAlign(kernelEnd), e.End())]
    else [Range(e.addr, e.addr, e.End())]
  }

  function Ranges(es: seq<MmapEntry>, kernelEnd: nat): seq<Range> {
    if es == [] then [] else Ranges(es[..|es| - 1], kernelEnd) + EntryRanges(es[|es| - 1], kernelEnd)
  }

  /** addr_map_init halts when, before an available entry, its record pointer has passed the end of page 1. */
  ghost predicate RecordsFit(es: seq<MmapEntry>, kernelEnd: nat) {
    forall i | 0 <= i < |es| && es[i].available ::
      LOCAL_HEAP + RECORD_SIZE * |Ranges(es[..i], kernelEnd)| <= LOCAL_HEAP + PAGE_SIZE
  }

  /** Once all records fit into page 1 the check passes; what passes it may overrun the page by two records. */
  lemma {:induction false} RecordsInPage(es: seq<MmapEntry>, kernelEnd: nat)
    ensures LOCAL_HEAP + RECORD_SIZE * |Ranges(es, kernelEnd)| <= LOCAL_HEAP + PAGE_SIZE ==> RecordsFit(es, kernelEnd)
    ensures RecordsFit(es, kernelEnd) ==> RECORD_SIZE * |Ranges(es, kernelEnd)| <= PAGE_SIZE + 2 * RECORD_SIZE
  {
    if es != [] {
      var front := es[..|es| - 1];
      RecordsInPage(front, kernelEnd);
      FitFront(es, kernelEnd);
    }
  }

  /** The address of record k, and how many records are there before the last available entry. */
  function RecordAt(k: nat): nat { LOCAL_HEAP + RECORD_SIZE * k }

  function BeforeLast(es: seq<MmapEntry>, kernelEnd: nat): nat {
    if es == [] then 0
    else if es[|es| - 1].available then |Ranges(es[..|es| - 1], kernelEnd)|
    else BeforeLast(es[..|es| - 1], kernelEnd)
  }

  /** The check passes exactly if at most 128 records come before the last available entry. */
  lemma {:induction false} RecordsFitIff(es: seq<MmapEntry>, kernelEnd: nat)
    ensures RecordsFit(es, kernelEnd) <==> BeforeLast(es, kernelEnd) <= 128
    ensures |Ranges(es, kernelEnd)| <= BeforeLast(es, kernelEnd) + 2
    ensures BeforeLast(es, kernelEnd) <= |Ranges(es, kernelEnd)|
  {
    if es != [] {
      RecordsFitIff(es[..|es| - 1], kernelEnd);
      FitFront(es, kernelEnd);
    }
  }

  /**
   * It lets a record lie behind page 1 exactly if there are more than 128;
   * the frame it lies in is the first handed out.
   */
  lemma RecordBehindPage(es: seq<MmapEntry>, kernelEnd: nat)
    requires GoodMap(es) && KernelPlaced(es, kernelEnd)
    ensures RecordsFit(es, kernelEnd)
            && (exists k: nat :: k < |Ranges(es, kernelEnd)| && RecordAt(k) >= LOCAL_HEAP + PAGE_SIZE)
            <==> BeforeLast(es, kernelEnd) <= 128 < |Ranges(es, kernelEnd)|
    ensures var frames := AllFrames(FromPageTwo(Ranges(es, kernelEnd)));
            frames != [] && frames[0] == RecordAt(128) == FIRST_FRAME
  {
    RecordsFitIff(es, kernelEnd);
    assert |Ranges(es, kernelEnd)| > 128 ==> RecordAt(128) >= LOCAL_HEAP + PAGE_SIZE;
    FirstRange(es, kernelEnd);
  }

  /** Scattered low memory: n entries that end before the kernel starts, three pages and then one page each. */
  function Scattered(n: nat): (es: seq<MmapEntry>)
    ensures |es| == n
  {
    if n == 0 then []
    else Scattered(n - 1) + [if n == 1 then MmapEntry(0, 0x3000, true)
                             else MmapEntry((n + 1) * PAGE_SIZE, PAGE_SIZE, true)]
  }

  lemma {:induction false} ScatteredMap(n: nat, kernelEnd: nat)
    requires n <= 128 && kernelEnd > KERNEL_START
    ensures |Ranges(Scattered(n), kernelEnd)| == n
    ensures forall i | 0 <= i < n ::
              Scattered(n)[i] ==
                if i == 0 then MmapEntry(0, 0x3000, true) else MmapEntry((i + 2) * PAGE_SIZE, PAGE_SIZE, true)
  {
    if n > 0 {
      ScatteredMap(n - 1, kernelEnd);
      assert Scattered(n)[..n - 1] == Scattered(n - 1);
    }
  }

  /** Such a map with 128 of them, and the entry that holds the kernel last. */
  function FullMap(kernelEntry: nat): (es: seq<MmapEntry>)
    requires kernelEntry <= KERNEL_START
    ensures |es| == 129
  {
    Scattered(128) + [MmapEntry(kernelEntry, 0x20_0000 - kernelEntry, true)]
  }

  /**
   * With the kernel at the start of its entry it leaves 129 records, and with room in front 130: both pass the check.
   */
  lemma RecordsBehindPageOnce(kernelEntry: nat)
    requires kernelEntry in {0xF_0000, KERNEL_START}
    ensures var es := FullMap(kernelEntry);
            && GoodMap(es) && KernelPlaced(es, 0x18_0000) && RecordsFit(es, 0x18_0000)
            && |Ranges(es, 0x18_0000)| == if kernelEntry == KERNEL_START then 129 else 130
  {
    hide Scattered, GoodMap;
    var es := FullMap(kernelEntry);
    ScatteredMap(128, 0x18_0000);
    FullMapGood(kernelEntry);
    assert es[..128] == Scattered(128);
    RecordsFitIff(es, 0x18_0000);
    assert HoldsKernel(es[128], 0x18_0000);
  }

  lemma FullMapGood(kernelEntry: nat)
    requires kernelEntry in {0xF_0000, KERNEL_START}
    ensures GoodMap(FullMap(kernelEntry))
  {
    hide Scattered, PageAlign;
    var es := FullMap(kernelEntry);
    ScatteredMap(128, 0x18_0000);
    forall i | 0 <= i < 129 ensures es[i] == Slot(kernelEntry, i) {
      assert i < 128 ==> es[i] == Scattered(128)[i];
    }
    hide FullMap;
    forall i | 0 <= i < 129 ensures es[i].addr % PAGE_SIZE == 0 && es[i].len > 0 {
      SlotAligned(kernelEntry, i);
    }
    forall i, j | 0 <= i < j < 129 ensures es[i].End() <= es[j].addr {}
  }

  /** Entry i of that map. */
  function Slot(kernelEntry: nat, i: nat): MmapEntry
    requires kernelEntry <= KERNEL_START
  {
    if i == 0 then MmapEntry(0, 0x3000, true)
    else if i < 128 then MmapEntry((i + 2) * PAGE_SIZE, PAGE_SIZE, true)
    else MmapEntry(kernelEntry, 0x20_0000 - kernelEntry, true)
  }

  lemma SlotAligned(kernelEntry: nat, i: nat)
    requires kernelEntry in {0xF_0000, KERNEL_START}
    ensures Slot(kernelEntry, i).addr % PAGE_SIZE == 0
  {
  }

  lemma FitFront(es: seq<MmapEntry>, kernelEnd: nat)
    requires es != []
    ensures var front := es[..|es| - 1];
            RecordsFit(es, kernelEnd) <==>
            RecordsFit(front, kernelEnd)
              && (es[|es| - 1].available ==> RECORD_SIZE * |Ranges(front, kernelEnd)| <= PAGE_SIZE)
  {
    hide Ranges;
    var front := es[..|es| - 1];
    forall i | 0 <= i < |front| ensures front[..i] == es[..i] && front[i] == es[i] {}
  }

  // ---------- What the frames are ----------

  /** The available entries are not empty, start on a page and are disjoint. */
  ghost predicate Orderly(es: seq<MmapEntry>) {
    && (forall e | e in es && e.available :: e.addr % PAGE_SIZE == 0 && e.len > 0)
    && (forall i, j | 0 <= i < j < |es| && es[i].available && es[j].available ::
          es[i].End() <= es[j].addr || es[j].End() <= es[i].addr)
  }

  /** The memory map is as the boot loader gives it, and starts with usable low memory. */
  ghost predicate GoodMap(es: seq<MmapEntry>) {
    es != [] && es[0].available && es[0].addr == 0 && es[0].End() > FIRST_FRAME && Orderly(es)
  }

  predicate HoldsKernel(e: MmapEntry, kernelEnd: nat) {
    e.available && e.addr <= KERNEL_START && kernelEnd <= e.End()
  }

  /** A frame of e that is not the kernel's, if e holds the kernel. */
  ghost predicate FrameOf(e: MmapEntry, kernelEnd: nat, f: int) {
    && e.available && e.addr <= f < e.End() && f % PAGE_SIZE == 0
    && !(HoldsKernel(e, kernelEnd) && KERNEL_START <= f < PageAlign(kernelEnd))
  }

  lemma AllFramesOf(a: Range, b: Range)
    ensures AllFrames([a]) == RangeFrames(a) && AllFrames([a] + [b]) == RangeFrames(a) + RangeFrames(b)
  {
    assert [a][1..] == [] && [b][1..] == [];
    assert AllFrames([a]) == RangeFrames(a) + [] && AllFrames([b]) == RangeFrames(b) + [];
    AllFramesCut([a], [b]);
  }

  lemma EntryFrames(e: MmapEntry, kernelEnd: nat, f: int)
    requires (e.available ==> e.addr % PAGE_SIZE == 0) && kernelEnd > KERNEL_START
    ensures f in AllFrames(EntryRanges(e, kernelEnd)) <==> FrameOf(e, kernelEnd, f)
  {
    if !e.available { return; }
    var low, high := Range(e.addr, e.addr, KERNEL_START), Range(PageAlign(kernelEnd), PageAlign(kernelEnd), e.End());
    var whole := Range(e.addr, e.addr, e.End());
    PagesMeaning(e.addr, KERNEL_START, f);
    PagesMeaning(PageAlign(kernelEnd), e.End(), f);
    PagesMeaning(e.addr, e.End(), f);
    AllFramesOf(low, high);
    AllFramesOf(high, low);
    AllFramesOf(whole, whole);
    assert [] + [high] == [high];
  }

  lemma EntryDistinct(e: MmapEntry, kernelEnd: nat)
    requires (e.available ==> e.addr % PAGE_SIZE == 0) && kernelEnd > KERNEL_START
    ensures NoDup(AllFrames(EntryRanges(e, kernelEnd)))
  {
    if !e.available { return; }
    var low, high := Range(e.addr, e.addr, KERNEL_START), Range(PageAlign(kernelEnd), PageAlign(kernelEnd), e.End());
    var whole := Range(e.addr, e.addr, e.End());
    PagesDistinct(e.addr, KERNEL_START);
    PagesDistinct(PageAlign(kernelEnd), e.End());
    PagesDistinct(e.addr, e.End());
    forall f ensures !(f in RangeFrames(low) && f in RangeFrames(high)) {
      PagesMeaning(e.addr, KERNEL_START, f);
      PagesMeaning(PageAlign(kernelEnd), e.End(), f);
    }
    NoDupCut(RangeFrames(low), RangeFrames(high));
    AllFramesOf(low, high);
    AllFramesOf(high, low);
    AllFramesOf(whole, whole);
    assert [] + [high] == [high];
  }

  /**
   * Before the first two pages are taken off: exactly the frames of available entries, less the kernel's, each once.
   */
  lemma {:induction false} RangesMeaning(es: seq<MmapEntry>, kernelEnd: nat)
    requires kernelEnd > KERNEL_START && Orderly(es)
    ensures forall f :: f in AllFrames(Ranges(es, kernelEnd)) <==> exists e :: e in es && FrameOf(e, kernelEnd, f)
    ensures NoDup(AllFrames(Ranges(es, kernelEnd)))
  {
    if es != [] {
      hide AllFrames, EntryRanges, FrameOf, NoDup, Orderly;
      var front, e := es[..|es| - 1], es[|es| - 1];
      var before, added := AllFrames(Ranges(front, kernelEnd)), AllFrames(EntryRanges(e, kernelEnd));
      OrderlyFront(es, kernelEnd);
      RangesMeaning(front, kernelEnd);
      AllFramesCut(Ranges(front, kernelEnd), EntryRanges(e, kernelEnd));
      forall f ensures f in added <==> FrameOf(e, kernelEnd, f) {
        EntryFrames(e, kernelEnd, f);
      }
      EntryDistinct(e, kernelEnd);
      NoDupCut(before, added);
      assert AllFrames(Ranges(es, kernelEnd)) == before + added;
      forall f
        ensures f in AllFrames(Ranges(es, kernelEnd)) <==> exists x :: x in es && FrameOf(x, kernelEnd, f)
      {
        SomeFrame(es, kernelEnd, f);
      }
    }
  }

  lemma SomeFrame(es: seq<MmapEntry>, kernelEnd: nat, f: int)
    requires es != []
    ensures var front, e := es[..|es| - 1], es[|es| - 1];
            (exists x :: x in es && FrameOf(x, kernelEnd, f)) <==>
            FrameOf(e, kernelEnd, f) || exists x :: x in front && FrameOf(x, kernelEnd, f)
  {
    hide FrameOf;
    assert es == es[..|es| - 1] + [es[|es| - 1]];
  }

  lemma OrderlyFront(es: seq<MmapEntry>, kernelEnd: nat)
    requires Orderly(es) && es != []
    ensures var front, e := es[..|es| - 1], es[|es| - 1];
            && Orderly(front) && (e.available ==> e.addr % PAGE_SIZE == 0)
            && forall x, f | x in front && FrameOf(x, kernelEnd, f) :: !FrameOf(e, kernelEnd, f)
  {
  }

  /** The last step of addr_map_init: the first range starts on page 2. */
  function FromPageTwo(rs: seq<Range>): seq<Range> {
    if rs == [] then [Range(0, FIRST_FRAME, 0)] else [rs[0].(curr := FIRST_FRAME)] + rs[1..]
  }

  lemma PagesFromZero(b: nat)
    requires b > FIRST_FRAME
    ensures Pages(0, b) == [0, PAGE_SIZE] + Pages(FIRST_FRAME, b)
  {
    assert Pages(PAGE_SIZE, b) == [PAGE_SIZE] + Pages(FIRST_FRAME, b);
  }

  lemma SkipFirst(rs: seq<Range>)
    requires rs != [] && rs[0].curr == 0
    ensures AllFrames(rs) == Pages(0, rs[0].end) + AllFrames(rs[1..])
    ensures AllFrames(FromPageTwo(rs)) == Pages(FIRST_FRAME, rs[0].end) + AllFrames(rs[1..])
  {
    assert FromPageTwo(rs)[1..] == rs[1..];
  }

  lemma Regroup(a: seq<int>, b: seq<int>, c: seq<int>)
    ensures (a + b) + c == a + (b + c)
  {
  }

  lemma SkipTwo(rs: seq<Range>)
    requires rs != [] && rs[0].curr == 0 && rs[0].end > FIRST_FRAME
    ensures AllFrames(rs) == [0, PAGE_SIZE] + AllFrames(FromPageTwo(rs))
  {
    hide Pages, AllFrames, FromPageTwo;
    PagesFromZero(rs[0].end);
    SkipFirst(rs);
    Regroup([0, PAGE_SIZE], Pages(FIRST_FRAME, rs[0].end), AllFrames(rs[1..]));
  }

  /** Ranges alloc_new_pf can work through. */
  ghost predicate Usable(rs: seq<Range>) {
    forall r | r in rs :: 0 < r.curr < r.end && r.curr % PAGE_SIZE == 0
  }

  lemma FirstRange(es: seq<MmapEntry>, kernelEnd: nat)
    requires GoodMap(es) && kernelEnd > KERNEL_START
    ensures var rs := Ranges(es, kernelEnd); rs != [] && rs[0].curr == 0 && rs[0].end > FIRST_FRAME
  {
    if |es| > 1 {
      FirstRange(es[..|es| - 1], kernelEnd);
    } else {
      assert Ranges(es[..0], kernelEnd) == [];
    }
  }

  /** The kernel lies in one available entry, with room after it. */
  ghost predicate KernelPlaced(es: seq<MmapEntry>, kernelEnd: nat) {
    kernelEnd > KERNEL_START && exists e :: e in es && HoldsKernel(e, kernelEnd) && PageAlign(kernelEnd) < e.End()
  }

  lemma {:induction false} RangesUsable(es: seq<MmapEntry>, kernelEnd: nat, h: MmapEntry)
    requires kernelEnd > KERNEL_START && HoldsKernel(h, kernelEnd) && PageAlign(kernelEnd) < h.End()
    requires forall e | e in es && e.available ::
               e.addr % PAGE_SIZE == 0 && e.len > 0 && (e.End() <= h.addr || h.End() <= e.addr || e == h)
    ensures forall r | r in Ranges(es, kernelEnd) :: r.curr < r.end && r.curr % PAGE_SIZE == 0
    ensures forall r | r in Ranges(es, kernelEnd) :: r.curr == 0 ==> exists e :: e in es && e.addr == 0 && e.available
  {
    if es != [] {
      var front, e := es[..|es| - 1], es[|es| - 1];
      RangesUsable(front, kernelEnd, h);
      assert e in es && forall x | x in front :: x in es;
      assert HoldsKernel(e, kernelEnd) ==> e == h;
    }
  }

  /** Frames of available memory but pages 0 and 1 and the kernel's. */
  ghost predicate Available(es: seq<MmapEntry>, kernelEnd: nat, f: int) {
    && f >= FIRST_FRAME && f % PAGE_SIZE == 0 && !(KERNEL_START <= f < PageAlign(kernelEnd))
    && exists e :: e in es && e.available && e.addr <= f < e.End()
  }

  /** The frames handed out after addr_map_init are exactly the available ones, each once. */
  lemma SupplyMeaning(es: seq<MmapEntry>, kernelEnd: nat)
    requires GoodMap(es) && KernelPlaced(es, kernelEnd)
    ensures var frames := AllFrames(FromPageTwo(Ranges(es, kernelEnd)));
            NoDup(frames) && forall f :: f in frames <==> Available(es, kernelEnd, f)
  {
    hide GoodMap, NoDup, AllFrames, Ranges, FrameOf;
    var h :| h in es && HoldsKernel(h, kernelEnd) && PageAlign(kernelEnd) < h.End();
    SupplyList(es, kernelEnd);
    forall f ensures f in AllFrames(FromPageTwo(Ranges(es, kernelEnd))) <==> Available(es, kernelEnd, f) {
      InSupply(es, kernelEnd, h, f);
    }
  }

  lemma SupplyList(es: seq<MmapEntry>, kernelEnd: nat)
    requires GoodMap(es) && kernelEnd > KERNEL_START
    ensures var frames := AllFrames(FromPageTwo(Ranges(es, kernelEnd)));
            NoDup(frames) && forall f ::
              f in frames <==> f >= FIRST_FRAME && exists e :: e in es && FrameOf(e, kernelEnd, f)
  {
    hide AllFrames, Ranges, FromPageTwo, NoDup;
    var rs := Ranges(es, kernelEnd);
    var frames := AllFrames(FromPageTwo(rs));
    FirstRange(es, kernelEnd);
    SkipTwo(rs);
    RangesMeaning(es, kernelEnd);
    NoDupCut([0, PAGE_SIZE], frames);
    forall f ensures f in frames <==> f >= FIRST_FRAME && f in AllFrames(rs) {
      assert f in AllFrames(rs) <==> f in [0, PAGE_SIZE] || f in frames;
      assert [0, PAGE_SIZE][0] == 0 && [0, PAGE_SIZE][1] == PAGE_SIZE;
    }
  }

  lemma OnlyThere(es: seq<MmapEntry>, e: MmapEntry, h: MmapEntry, f: int)
    requires Orderly(es) && e in es && h in es && e.available && h.available
    requires e.addr <= f < e.End() && h.addr <= f < h.End()
    ensures e == h
  {
    var i :| 0 <= i < |es| && es[i] == e;
    var j :| 0 <= j < |es| && es[j] == h;
    assert i == j;
  }

  lemma InSupply(es: seq<MmapEntry>, kernelEnd: nat, h: MmapEntry, f: int)
    requires GoodMap(es) && h in es && HoldsKernel(h, kernelEnd) && PageAlign(kernelEnd) < h.End()
    ensures f >= FIRST_FRAME && (exists e :: e in es && FrameOf(e, kernelEnd, f)) <==> Available(es, kernelEnd, f)
  {
    forall e | e in es && e.available && e.addr <= f < e.End() && h.addr <= f < h.End() ensures e == h {
      OnlyThere(es, e, h, f);
    }
    if Available(es, kernelEnd, f) {
      var e :| e in es && e.available && e.addr <= f < e.End();
      assert FrameOf(e, kernelEnd, f);
    }
  }

  /** Without that placement the kernel's own frames are handed out: exactly those of an entry that holds part of it. */
  lemma KernelFramesLeak(es: seq<MmapEntry>, kernelEnd: nat, f: int)
    requires GoodMap(es) && kernelEnd > KERNEL_START && KERNEL_START <= f < PageAlign(kernelEnd) && f % PAGE_SIZE == 0
    ensures f in AllFrames(FromPageTwo(Ranges(es, kernelEnd))) <==>
            exists e :: e in es && e.available && e.addr <= f < e.End() && !HoldsKernel(e, kernelEnd)
  {
    SupplyList(es, kernelEnd);
    if e :| e in es && FrameOf(e, kernelEnd, f) {
      assert !HoldsKernel(e, kernelEnd);
    }
    if e :| e in es && e.available && e.addr <= f < e.End() && !HoldsKernel(e, kernelEnd) {
      assert FrameOf(e, kernelEnd, f);
    }
  }

  /** The page at f shares a byte with the kernel. */
  predicate Overlaps(f: int, kernelEnd: nat) { f < kernelEnd && f + 0x1000 > 0x10_0000 }

  /** In bytes: of the pages that start in available memory, from page 2 on, all and only those clear of the kernel. */
  lemma SupplyExact(es: seq<MmapEntry>, kernelEnd: nat, f: int)
    requires GoodMap(es) && KernelPlaced(es, kernelEnd)
    ensures f in AllFrames(FromPageTwo(Ranges(es, kernelEnd))) <==>
            && f >= 0x2000 && f % 0x1000 == 0 && !Overlaps(f, kernelEnd)
            && exists e :: e in es && e.available && e.addr <= f < e.addr + e.len
  {
    hide Ranges, AllFrames, FromPageTwo, GoodMap, PageAlign;
    SupplyMeaning(es, kernelEnd);
    if f % PAGE_SIZE == 0 { PageAlignIs(kernelEnd, f); }
  }

  lemma PageAlignIs(a: nat, f: int)
    requires f % PAGE_SIZE == 0
    ensures f < PageAlign(a) <==> f < a
  {
  }

  lemma SupplyUsable(es: seq<MmapEntry>, kernelEnd: nat)
    requires GoodMap(es) && KernelPlaced(es, kernelEnd)
    ensures Usable(FromPageTwo(Ranges(es, kernelEnd)))
  {
    var h :| h in es && HoldsKernel(h, kernelEnd) && PageAlign(kernelEnd) < h.End();
    forall e | e in es && e.available ensures e.End() <= h.addr || h.End() <= e.addr || e == h {
      if e.addr < h.End() && h.addr < e.End() {
        OnlyThere(es, e, h, if e.addr < h.addr then h.addr else e.addr);
      }
    }
    RangesUsable(es, kernelEnd, h);
    FirstRange(es, kernelEnd);
    LaterRanges(es, kernelEnd);
  }

  lemma GoodFront(es: seq<MmapEntry>)
    requires GoodMap(es) && |es| > 1
    ensures GoodMap(es[..|es| - 1]) && (es[|es| - 1].available ==> es[|es| - 1].addr > 0)
  {
    var front, e := es[..|es| - 1], es[|es| - 1];
    if e.available {
      assert e in es && 0 < e.len;
      assert es[0].End() <= e.addr;
    }
    forall x | x in front ensures x in es {}
  }

  /** Only the first range can start at 0. */
  lemma {:induction false} LaterRanges(es: seq<MmapEntry>, kernelEnd: nat)
    requires GoodMap(es) && kernelEnd > KERNEL_START
    ensures Ranges(es, kernelEnd) != [] && forall r | r in Ranges(es, kernelEnd)[1..] :: r.curr > 0
  {
    if |es| == 1 {
      assert Ranges(es[..0], kernelEnd) == [];
      assert Ranges(es, kernelEnd) == EntryRanges(es[0], kernelEnd);
    } else {
      hide GoodMap, EntryRanges;
      var front, e := es[..|es| - 1], es[|es| - 1];
      GoodFront(es);
      LaterRanges(front, kernelEnd);
      assert Ranges(es, kernelEnd)[1..] == Ranges(front, kernelEnd)[1..] + EntryRanges(e, kernelEnd);
      AboveZero(e, kernelEnd);
    }
  }

  lemma AboveZero(e: MmapEntry, kernelEnd: nat)
    requires (e.available ==> e.addr > 0) && kernelEnd > KERNEL_START
    ensures forall r | r in EntryRanges(e, kernelEnd) :: r.curr > 0
  {
  }

  // ---------- What the driver takes for memory and is not ----------

  ghost predicate InAvailable(es: seq<MmapEntry>, a: int) {
    exists e :: e in es && e.available && e.addr <= a < e.End()
  }

  /** A frame handed out lies wholly in available memory exactly if its entry reaches to the end of it. */
  lemma WholeFrame(es: seq<MmapEntry>, kernelEnd: nat, e: MmapEntry, f: int)
    requires GoodMap(es) && KernelPlaced(es, kernelEnd) && f in AllFrames(FromPageTwo(Ranges(es, kernelEnd)))
    requires e in es && e.available && e.addr <= f < e.End()
    ensures (forall a | f <= a < f + PAGE_SIZE :: InAvailable(es, a)) <==> f + PAGE_SIZE <= e.End()
  {
    hide Ranges, AllFrames, FromPageTwo, KernelPlaced;
    SupplyMeaning(es, kernelEnd);
    forall x | x in es && x.available && x.addr <= f < x.End() ensures x == e {
      OnlyThere(es, x, e, f);
    }
    forall x | x in es && x.available && x.addr > f ensures x.addr >= f + PAGE_SIZE {
      NextPageOn(x.addr, f);
    }
    assert f + PAGE_SIZE > e.End() ==> !InAvailable(es, e.End());
  }

  lemma NextPageOn(a: int, f: int)
    requires a % PAGE_SIZE == 0 && f % PAGE_SIZE == 0 && a > f
    ensures a >= f + PAGE_SIZE
  {
  }

  /** What a PC with 128 MiB reports. */
  const PC_MAP: seq<MmapEntry> := [
    MmapEntry(0, 0x9_FC00, true), MmapEntry(0x9_FC00, 0x400, false), MmapEntry(0xF_0000, 0x1_0000, false),
    MmapEntry(KERNEL_START, 0x7EE_0000, true), MmapEntry(0x7FE_0000, 0x2_0000, false),
    MmapEntry(0xFFFC_0000, 0x4_0000, false)]

  /** Its frame 0x9F000 is handed out, and the last KiB of it is reserved. */
  lemma PartlyReserved()
    ensures GoodMap(PC_MAP) && KernelPlaced(PC_MAP, 0x18_0000) && |Ranges(PC_MAP, 0x18_0000)| <= 3
    ensures 0x9_F000 in AllFrames(FromPageTwo(Ranges(PC_MAP, 0x18_0000)))
    ensures !InAvailable(PC_MAP, 0x9_FC00)
  {
    var low, high := PC_MAP[0], PC_MAP[3];
    assert low in PC_MAP && high in PC_MAP && HoldsKernel(high, 0x18_0000);
    assert Available(PC_MAP, 0x18_0000, 0x9_F000);
    PcRanges();
    hide Ranges;
    SupplyMeaning(PC_MAP, 0x18_0000);
  }

  lemma PcRanges()
    ensures |Ranges(PC_MAP, 0x18_0000)| <= 3
  {
    assert PC_MAP[..5][..4] == PC_MAP[..4] && PC_MAP[..4][..3] == PC_MAP[..3] && PC_MAP[..3][..2] == PC_MAP[..2];
    assert PC_MAP[..2][..1] == PC_MAP[..1] && PC_MAP[..1][..0] == [];
    assert |Ranges(PC_MAP[..2], 0x18_0000)| == |Ranges(PC_MAP[..1], 0x18_0000)| <= 1;
    assert |Ranges(PC_MAP[..4], 0x18_0000)| == |Ranges(PC_MAP[..3], 0x18_0000)| + 1;
  }

  lemma SecondPart(rs: seq<Range>)
    requires rs != []
    ensures AllFrames(FromPageTwo(rs)) == Pages(FIRST_FRAME, rs[0].end) + AllFrames(rs[1..])
    ensures AllFrames(rs) == RangeFrames(rs[0]) + AllFrames(rs[1..])
  {
    assert FromPageTwo(rs)[1..] == rs[1..];
  }

  /**
   * Whatever the entry at address 0 is: a page that is no frame of an available entry is handed out exactly if it lies
   * from page 2 on below the first range, because the start of that range is moved down to page 2.
   */
  lemma GapHandedOut(es: seq<MmapEntry>, kernelEnd: nat, f: int)
    requires Orderly(es) && kernelEnd > KERNEL_START && Ranges(es, kernelEnd) != [] && f % PAGE_SIZE == 0
    requires !exists e :: e in es && FrameOf(e, kernelEnd, f)
    ensures var rs := Ranges(es, kernelEnd);
            f in AllFrames(FromPageTwo(rs)) <==> FIRST_FRAME <= f < rs[0].curr && f < rs[0].end
  {
    hide Orderly, Ranges, AllFrames, FromPageTwo, Pages, FrameOf;
    var rs := Ranges(es, kernelEnd);
    RangesMeaning(es, kernelEnd);
    assert f !in AllFrames(rs) && rs[0] in rs;
    SecondPart(rs);
    PagesMeaning(FIRST_FRAME, rs[0].end, f);
    RangesAligned(es, kernelEnd);
    PagesMeaning(rs[0].curr, rs[0].end, f);
  }

  lemma {:induction false} RangesAligned(es: seq<MmapEntry>, kernelEnd: nat)
    requires Orderly(es)
    ensures forall r | r in Ranges(es, kernelEnd) :: r.curr % PAGE_SIZE == 0
  {
    if es != [] {
      hide Orderly, EntryRanges;
      var front, e := es[..|es| - 1], es[|es| - 1];
      OrderlyFront(es, kernelEnd);
      RangesAligned(front, kernelEnd);
      EntryAligned(e, kernelEnd);
    }
  }

  lemma EntryAligned(e: MmapEntry, kernelEnd: nat)
    requires e.available ==> e.addr % PAGE_SIZE == 0
    ensures forall r | r in EntryRanges(e, kernelEnd) :: r.curr % PAGE_SIZE == 0
  {
  }

  /** The first 64 KiB reserved, the rest of low memory and the kernel's entry behind it. */
  const RESERVED_LOW: seq<MmapEntry> := [
    MmapEntry(0, 0x1_0000, false), MmapEntry(0x1_0000, 0x9_0000, true), MmapEntry(KERNEL_START, 0x100_0000, true)]

  /** Its frames from 0x2000 on are handed out all the same. */
  lemma ReservedHandedOut(f: nat)
    requires FIRST_FRAME <= f < 0x1_0000 && f % PAGE_SIZE == 0
    ensures RESERVED_LOW[0].addr == 0 && Orderly(RESERVED_LOW) && KernelPlaced(RESERVED_LOW, 0x18_0000)
    ensures !InAvailable(RESERVED_LOW, f) && f in AllFrames(FromPageTwo(Ranges(RESERVED_LOW, 0x18_0000)))
  {
    var es := RESERVED_LOW;
    assert es[2] in es && HoldsKernel(es[2], 0x18_0000);
    assert es[..2][..1] == es[..1] && es[..1][..0] == [];
    assert es[..1][0] == es[0] && es[..2][1] == es[1];
    assert Ranges(es[..1], 0x18_0000) == [];
    assert Ranges(es[..2], 0x18_0000) == [Range(0x1_0000, 0x1_0000, 0xA_0000)];
    assert Ranges(es, 0x18_0000)[0] == Range(0x1_0000, 0x1_0000, 0xA_0000);
    hide Ranges;
    GapHandedOut(es, 0x18_0000, f);
  }
}
