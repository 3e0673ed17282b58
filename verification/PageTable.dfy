// Four-level page tables in physical memory (section 4.5 of the Intel SDM, volume 3A) and the flat map
// from page numbers to entries that they stand for.
module PageTable {

  const ENTRIES := 512
  const PAGES := 0x10_0000_0000       // 36-bit page numbers
  const FRAME_LIMIT := 0x100_0000_0000 // 40-bit frame numbers

  /** The bits of a table entry that the driver writes. */
  datatype Entry = Entry(present: bool, writable: bool, alloc: bool, frame: nat)

  const ZERO := Entry(false, false, false, 0)

  /** What a page frame holds: a link of the free list, a table, or anything else. */
  datatype Frame = Link(next: int) | Table(entries: seq<Entry>) | Data

  type Phys = map<int, Frame>

  predicate IsTable(phys: Phys, f: int) {
    f in phys && phys[f].Table? && |phys[f].entries| == ENTRIES
  }

  function ReadFrame(e: Entry): nat { e.frame * 4096 }

  function FrameNumber(addr: nat): nat { addr / 4096 % FRAME_LIMIT }

  predicate FrameAddress(f: int) {
    0 < f && f % 4096 == 0 && f / 4096 < FRAME_LIMIT
  }

  lemma FrameRoundTrip(f: int)
    requires FrameAddress(f)
    ensures FrameNumber(f) * 4096 == f
  {
  }

  // ---------- Virtual addresses ----------

  function PageOf(addr: nat): nat { addr / 4096 % PAGES }

  function Pml4Index(addr: nat): nat { addr / 0x80_0000_0000 % ENTRIES }

  function PdptIndex(addr: nat): nat { addr / 0x4000_0000 % ENTRIES }

  function PdIndex(addr: nat): nat { addr / 0x20_0000 % ENTRIES }

  function PtIndex(addr: nat): nat { addr / 0x1000 % ENTRIES }

  /** A table: its level, 3 for the PML4 and 0 for a page table, and the part of the page number that leads to it. */
  datatype Node = Node(level: nat, key: nat)

  const ROOT := Node(3, 0)

  function Key(v: nat, level: nat): nat {
    if level == 0 then v / ENTRIES else Key(v, level - 1) / ENTRIES
  }

  lemma Keys(v: nat)
    ensures Key(v, 0) == v / ENTRIES
    ensures Key(v, 1) == v / ENTRIES / ENTRIES
    ensures Key(v, 2) == v / ENTRIES / ENTRIES / ENTRIES
  {
    assert Key(v, 1) == Key(v, 0) / ENTRIES;
    assert Key(v, 2) == Key(v, 1) / ENTRIES;
  }

  /** The index of page v in its table at a level. */
  function Index(v: nat, level: nat): (i: nat)
    ensures i < ENTRIES
  {
    if level == 0 then v % ENTRIES else Key(v, level - 1) % ENTRIES
  }

  function NodeFor(v: nat, level: nat): Node { Node(level, Key(v, level)) }

  function Child(n: Node, i: nat): Node
    requires n.level > 0
  {
    Node(n.level - 1, n.key * ENTRIES + i)
  }

  function Parent(n: Node): Node { Node(n.level + 1, n.key / ENTRIES) }

  lemma ChildOnPath(v: nat, level: nat)
    requires level > 0
    ensures Child(NodeFor(v, level), Index(v, level)) == NodeFor(v, level - 1)
  {
  }

  lemma RootOnPath(v: nat)
    requires v < PAGES
    ensures NodeFor(v, 3) == ROOT
  {
    assert Key(v, 0) < 0x800_0000 && Key(v, 1) < 0x4_0000 && Key(v, 2) < ENTRIES;
  }

  /** Table and index tell pages apart. */
  lemma PlaceOf(v: nat, w: nat)
    requires NodeFor(v, 0) == NodeFor(w, 0) && Index(v, 0) == Index(w, 0)
    ensures v == w
  {
  }

  lemma ChildInjective(n: Node, i: nat, m: Node, j: nat)
    requires n.level > 0 && m.level > 0 && i < ENTRIES && j < ENTRIES && Child(n, i) == Child(m, j)
    ensures n == m && i == j
  {
    assert (n.key * ENTRIES + i) / ENTRIES == n.key && (m.key * ENTRIES + j) / ENTRIES == m.key;
  }

  lemma NestedShift(q: nat)
    ensures q / 512 / 512 == q / 0x4_0000 && q / 512 / 512 / 512 == q / 0x800_0000
  {
  }

  lemma ModPlus(a: nat, v: nat)
    ensures (a * 512 + v) % 512 == v % 512
  {
  }

  lemma DivPlus(a: nat, v: nat)
    ensures (a * 512 + v) / 512 == a + v / 512 && (a * 0x4_0000 + v) / 0x4_0000 == a + v / 0x4_0000
    ensures (a * 0x800_0000 + v) / 0x800_0000 == a + v / 0x800_0000
  {
  }

  lemma LowPt(m: nat, v: nat)
    ensures (m * PAGES + v) % 512 == v % 512 && (m * PAGES + v) / 512 % 512 == v / 512 % 512
  {
    ModPlus(m * 0x800_0000, v);
    DivPlus(m * 0x800_0000, v);
    ModPlus(m * 0x4_0000, v / 512);
  }

  lemma LowPd(m: nat, v: nat)
    ensures (m * PAGES + v) / 0x4_0000 % 512 == v / 0x4_0000 % 512
  {
    DivPlus(m * 0x4_0000, v);
    ModPlus(m * 512, v / 0x4_0000);
  }

  lemma LowPml4(m: nat, v: nat)
    requires v < PAGES
    ensures (m * PAGES + v) / 0x800_0000 % 512 == v / 0x800_0000
  {
    DivPlus(m * 512, v);
    ModPlus(m, v / 0x800_0000);
  }

  lemma LowBits(q: nat)
    ensures var v := q % PAGES;
            && q / 512 % 512 == v / 512 % 512 && q / 0x4_0000 % 512 == v / 0x4_0000 % 512
            && q / 0x800_0000 % 512 == v / 0x800_0000 && q % 512 == v % 512
  {
    var v, m := q % PAGES, q / PAGES;
    assert q == m * PAGES + v;
    LowPt(m, v);
    LowPd(m, v);
    LowPml4(m, v);
  }

  /** The index macros read off the four parts of the page number; bits 48 and up are ignored. */
  lemma IndexMacros(addr: nat)
    ensures PtIndex(addr) == Index(PageOf(addr), 0) && PdIndex(addr) == Index(PageOf(addr), 1)
    ensures PdptIndex(addr) == Index(PageOf(addr), 2) && Pml4Index(addr) == Index(PageOf(addr), 3)
  {
    var q := addr / 4096;
    LowBits(q);
    NestedShift(q % PAGES);
    assert addr / 0x20_0000 == q / 512 && addr / 0x4000_0000 == q / 0x4_0000 && addr / 0x80_0000_0000 == q / 0x800_0000;
  }

  // ---------- The tree and the flat map ----------

  /** Entry i of table n names the table below it, exactly when there is one, and lets pages below be written. */
  ghost predicate LinkOk(phys: Phys, tbl: map<Node, int>, n: Node, i: nat)
    requires n in tbl && IsTable(phys, tbl[n]) && n.level > 0 && i < ENTRIES
  {
    var e := phys[tbl[n]].entries[i];
    && (e.present <==> Child(n, i) in tbl)
    && if e.present then e.writable && !e.alloc && ReadFrame(e) == tbl[Child(n, i)] else e == ZERO
  }

  /** tbl says which frame holds each table of the tree; no two share a frame, and each but the root has a parent. */
  ghost predicate Tree(phys: Phys, tbl: map<Node, int>) {
    && ROOT in tbl
    && (forall n | n in tbl ::
          n.level <= 3 && (n != ROOT ==> n.level < 3) && IsTable(phys, tbl[n]) && FrameAddress(tbl[n]))
    && (forall n, m | n in tbl && m in tbl && tbl[n] == tbl[m] :: n == m)
    && (forall n {:trigger Parent(n)} | n in tbl && n != ROOT :: Parent(n) in tbl)
    && (forall n, i {:trigger LinkOk(phys, tbl, n, i)} | n in tbl && n.level > 0 && 0 <= i < ENTRIES ::
          LinkOk(phys, tbl, n, i))
  }

  /** The entry of page v; pages without a page table have the zero entry. */
  function Leaf(phys: Phys, tbl: map<Node, int>, v: nat): Entry {
    var n := NodeFor(v, 0);
    if n in tbl && IsTable(phys, tbl[n]) then phys[tbl[n]].entries[Index(v, 0)] else ZERO
  }

  /** Follow the page tables in physical memory from frame f at a level, as the processor does. */
  function Walk(phys: Phys, f: int, v: nat, level: nat): Entry
    decreases level
  {
    if !IsTable(phys, f) then ZERO
    else
      var e := phys[f].entries[Index(v, level)];
      if level == 0 then e
      else if e.present then Walk(phys, ReadFrame(e), v, level - 1)
      else ZERO
  }

  /** The walk through memory reads the flat map. */
  lemma {:induction false} WalkIsLeaf(phys: Phys, tbl: map<Node, int>, v: nat, level: nat)
    requires Tree(phys, tbl) && v < PAGES && level <= 3 && NodeFor(v, level) in tbl
    ensures Walk(phys, tbl[NodeFor(v, level)], v, level) == Leaf(phys, tbl, v)
    decreases level
  {
    if level > 0 {
      ChildOnPath(v, level);
      var n, i := NodeFor(v, level), Index(v, level);
      assert Child(n, i) == NodeFor(v, level - 1) && LinkOk(phys, tbl, n, i);
      if Child(n, i) in tbl {
        WalkIsLeaf(phys, tbl, v, level - 1);
      } else {
        if NodeFor(v, 0) in tbl { AncestorsIn(phys, tbl, v, level - 1); }
      }
    }
  }

  /** May the processor write to page v? It takes the present and the writable bit in the entries of all levels. */
  predicate MayWrite(phys: Phys, f: int, v: nat, level: nat)
    decreases level
  {
    IsTable(phys, f) &&
    var e := phys[f].entries[Index(v, level)];
    e.present && e.writable && (level > 0 ==> MayWrite(phys, ReadFrame(e), v, level - 1))
  }

  /** It may exactly if the flat map says so. */
  lemma {:induction false} MayWriteIff(phys: Phys, tbl: map<Node, int>, v: nat, level: nat)
    requires Tree(phys, tbl) && v < PAGES && level <= 3 && NodeFor(v, level) in tbl
    ensures MayWrite(phys, tbl[NodeFor(v, level)], v, level) <==>
            Leaf(phys, tbl, v).present && Leaf(phys, tbl, v).writable
    decreases level
  {
    if level > 0 {
      ChildOnPath(v, level);
      var n, i := NodeFor(v, level), Index(v, level);
      assert Child(n, i) == NodeFor(v, level - 1) && LinkOk(phys, tbl, n, i);
      if Child(n, i) in tbl {
        MayWriteIff(phys, tbl, v, level - 1);
      } else {
        if NodeFor(v, 0) in tbl { AncestorsIn(phys, tbl, v, level - 1); }
      }
    }
  }

  lemma {:induction false} AncestorsIn(phys: Phys, tbl: map<Node, int>, v: nat, level: nat)
    requires Tree(phys, tbl) && v < PAGES && level <= 3 && NodeFor(v, 0) in tbl
    ensures NodeFor(v, level) in tbl
  {
    if level > 0 {
      AncestorsIn(phys, tbl, v, level - 1);
      assert Parent(NodeFor(v, level - 1)) == NodeFor(v, level);
    }
  }
}
