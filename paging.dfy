/**
 * The x86-64 four-level page-table mapper (Intel SDM Vol. 3A, section 4.5).
 *
 * A page table is a 4096-byte frame of 512 entries of 64 bits.  The model
 * keeps every table reachable from the PML4 as a map from its frame address
 * to its 512 entries; the walk of a virtual address through that map is a
 * pure function, and mapping or unmapping a page are methods that rewrite
 * entries of the map.  PML4 slot 510 points back at the PML4 itself (the
 * recursive mapping), which is how the kernel reaches the tables through
 * virtual "windows"; the window arithmetic is stated separately.
 */
module Paging {
  import opened Wrappers

  const ENTRIES: nat := 512
  const RECURSIVE_INDEX: nat := 510
  const PAGE_BYTES: bv64 := 0x1000

  /** `PAGE_MASK` (~0xFFF) and `PAGE_OFFSET_MASK` (0xFFF). */
  const PAGE_MASK: bv64 := 0xFFFF_FFFF_FFFF_F000
  const PAGE_OFFSET_MASK: bv64 := 0xFFF
  /** Bits 12..51 of an entry: the frame address the hardware uses. */
  const ADDR_MASK: bv64 := 0x000F_FFFF_FFFF_F000

  /** Entry bits as the mapper writes them. */
  const PF_PRESENT: bv64 := 0x1
  const PF_WRITABLE: bv64 := 0x2
  const PF_USER: bv64 := 0x4
  const PF_WRITE_THROUGH: bv64 := 0x8
  const PF_CACHE_DISABLE: bv64 := 0x10
  const PF_GLOBAL: bv64 := 0x100
  const PF_NX: bv64 := 0x8000_0000_0000_0000

  /** The caller's flags (`PTE_*` of the memory header). */
  const PTE_WRITABLE: bv64 := 0x2
  const PTE_USER: bv64 := 0x4
  const PTE_PWT: bv64 := 0x8
  const PTE_PCD: bv64 := 0x10
  const PTE_GLOBAL: bv64 := 0x100
  const PTE_NX: bv64 := 0x8000_0000_0000_0000

  /** Virtual bases of the recursive windows. */
  const PML4_SELF_REF: bv64 := 0xFFFF_FF7F_BFDF_E000
  const PDP_SELF_REF: bv64 := 0xFFFF_FF7F_BFC0_0000
  const PD_SELF_REF: bv64 := 0xFFFF_FF7F_8000_0000
  const PT_SELF_REF: bv64 := 0xFFFF_FF00_0000_0000

  // ---------------------------------------------------------------------
  // Indices of a virtual address
  // ---------------------------------------------------------------------

  /** The low nine bits of `x`, as a table index. */
  function Idx(x: bv64): (r: nat)
    ensures r < ENTRIES
  {
    ((x & 0x1FF) as bv9) as nat
  }

  function I4(v: bv64): nat { Idx(v >> 39) }
  function I3(v: bv64): nat { Idx(v >> 30) }
  function I2(v: bv64): nat { Idx(v >> 21) }
  function I1(v: bv64): nat { Idx(v >> 12) }

  /** The bits that name a 4 KiB page of the 48-bit address space. */
  function PageKey(v: bv64): bv64 { v & 0x0000_FFFF_FFFF_F000 }

  lemma IdxInjective(a: bv64, b: bv64)
    ensures Idx(a) == Idx(b) <==> a & 0x1FF == b & 0x1FF
  {
    var x, y := (a & 0x1FF) as bv9, (b & 0x1FF) as bv9;
    assert x as bv64 == a & 0x1FF && y as bv64 == b & 0x1FF;
    if x as nat == y as nat {
      assert x == y;
    }
  }

  lemma PageKeyToBits(v: bv64, w: bv64)
    requires PageKey(v) == PageKey(w)
    ensures (v >> 39) & 0x1FF == (w >> 39) & 0x1FF && (v >> 30) & 0x1FF == (w >> 30) & 0x1FF
    ensures (v >> 21) & 0x1FF == (w >> 21) & 0x1FF && (v >> 12) & 0x1FF == (w >> 12) & 0x1FF
  {
  }

  lemma BitsToPageKey(v: bv64, w: bv64)
    requires (v >> 39) & 0x1FF == (w >> 39) & 0x1FF && (v >> 30) & 0x1FF == (w >> 30) & 0x1FF
    requires (v >> 21) & 0x1FF == (w >> 21) & 0x1FF && (v >> 12) & 0x1FF == (w >> 12) & 0x1FF
    ensures PageKey(v) == PageKey(w)
  {
  }

  lemma SameIndicesSamePage(v: bv64, w: bv64)
    requires I4(v) == I4(w) && I3(v) == I3(w) && I2(v) == I2(w) && I1(v) == I1(w)
    ensures PageKey(v) == PageKey(w)
  {
    IdxInjective(v >> 39, w >> 39);
    IdxInjective(v >> 30, w >> 30);
    IdxInjective(v >> 21, w >> 21);
    IdxInjective(v >> 12, w >> 12);
    BitsToPageKey(v, w);
  }

  lemma SamePageSameIndices(v: bv64, w: bv64)
    requires PageKey(v) == PageKey(w)
    ensures I4(v) == I4(w) && I3(v) == I3(w) && I2(v) == I2(w) && I1(v) == I1(w)
  {
    PageKeyToBits(v, w);
    IdxInjective(v >> 39, w >> 39);
    IdxInjective(v >> 30, w >> 30);
    IdxInjective(v >> 21, w >> 21);
    IdxInjective(v >> 12, w >> 12);
  }

  /** Two addresses lie in the same page exactly when all four indices agree. */
  lemma SamePageIffSameIndices(v: bv64, w: bv64)
    ensures PageKey(v) == PageKey(w) <==>
            (I4(v) == I4(w) && I3(v) == I3(w) && I2(v) == I2(w) && I1(v) == I1(w))
  {
    if PageKey(v) == PageKey(w) {
      SamePageSameIndices(v, w);
    } else if I4(v) == I4(w) && I3(v) == I3(w) && I2(v) == I2(w) && I1(v) == I1(w) {
      SameIndicesSamePage(v, w);
    }
  }

  /** A byte offset inside an aligned page does not change the page or its indices. */
  lemma OffsetKeepsPage(v: bv64, k: bv64)
    requires v & PAGE_OFFSET_MASK == 0 && k < PAGE_BYTES
    ensures PageKey(v + k) == PageKey(v)
    ensures I4(v + k) == I4(v) && I3(v + k) == I3(v) && I2(v + k) == I2(v) && I1(v + k) == I1(v)
  {
    assert v + k == v | k;
    SamePageIffSameIndices(v + k, v);
  }

  /** Masking an address down to its page keeps every index. */
  lemma MaskKeepsIndices(v: bv64)
    ensures I4(v & PAGE_MASK) == I4(v) && I3(v & PAGE_MASK) == I3(v)
    ensures I2(v & PAGE_MASK) == I2(v) && I1(v & PAGE_MASK) == I1(v)
  {
    SamePageIffSameIndices(v & PAGE_MASK, v);
  }

  // ---------------------------------------------------------------------
  // Entries
  // ---------------------------------------------------------------------

  predicate Present(e: bv64) { e & PF_PRESENT != 0 }

  /** The frame an entry points to. */
  function Addr(e: bv64): bv64 { e & ADDR_MASK }

  /** A frame address the hardware can hold in an entry: 4 KiB aligned, below 2^52. */
  predicate Aligned(f: bv64) { f & !ADDR_MASK == 0 }

  /** The entry that installs a new intermediate table. */
  function TableEntry(f: bv64): (e: bv64)
    ensures Aligned(f) ==> Present(e) && Addr(e) == f
  {
    f | PF_PRESENT | PF_WRITABLE | PF_USER
  }

  function ZeroTable(): (t: seq<bv64>)
    ensures |t| == ENTRIES && forall i :: 0 <= i < ENTRIES ==> !Present(t[i])
  {
    seq(ENTRIES, _ => 0)
  }

  /** The flag conversion of `map_page`: PRESENT always, and each of six caller
    * flags switches on the entry bit of the same value. */
  function EntryFlags(flags: bv64): (r: bv64)
  {
    var f := PF_PRESENT;
    var f := if flags & PTE_WRITABLE != 0 then f | PF_WRITABLE else f;
    var f := if flags & PTE_USER != 0 then f | PF_USER else f;
    var f := if flags & PTE_PWT != 0 then f | PF_WRITE_THROUGH else f;
    var f := if flags & PTE_PCD != 0 then f | PF_CACHE_DISABLE else f;
    var f := if flags & PTE_GLOBAL != 0 then f | PF_GLOBAL else f;
    if flags & PTE_NX != 0 then f | PF_NX else f
  }

  /** The converted flags are PRESENT plus exactly the six passable caller
    * bits, so no other bit (address bits included) is ever set. */
  lemma EntryFlagsExact(flags: bv64)
    ensures EntryFlags(flags) == PF_PRESENT | (flags & (PTE_WRITABLE | PTE_USER | PTE_PWT | PTE_PCD | PTE_GLOBAL | PTE_NX))
    ensures Present(EntryFlags(flags)) && EntryFlags(flags) & ADDR_MASK == 0
  {
  }

  // ---------------------------------------------------------------------
  // The walk
  // ---------------------------------------------------------------------

  /** A physical frame that holds a table, named by its address. */
  datatype Frame = Frame(addr: bv64)

  type Tables = map<Frame, seq<bv64>>

  predicate WellSized(tables: Tables)
  {
    forall t :: t in tables ==> |tables[t]| == ENTRIES
  }

  /** The table that slot `i` of table `t` leads to, if the slot is present. */
  function Next(tables: Tables, t: Frame, i: nat): (r: Option<Frame>)
    requires WellSized(tables) && t in tables && i < ENTRIES
    ensures r.Some? ==> r.value in tables
  {
    var e := tables[t][i];
    if Present(e) && Frame(Addr(e)) in tables then Some(Frame(Addr(e))) else None
  }

  /** The page table (level 1) reached through slot `a` of the PML4, slot `b`
    * of the PDP table and slot `c` of the page directory. */
  function WalkTo(tables: Tables, root: Frame, a: nat, b: nat, c: nat): (r: Option<Frame>)
    requires WellSized(tables) && root in tables && a < ENTRIES && b < ENTRIES && c < ENTRIES
    ensures r.Some? ==> r.value in tables
  {
    match Next(tables, root, a)
    case None => None
    case Some(t3) =>
      match Next(tables, t3, b)
      case None => None
      case Some(t2) => Next(tables, t2, c)
  }

  /** What the walk reports for an entry it finds in the last table. */
  function AsLeaf(e: bv64): (r: Option<bv64>)
    ensures r.Some? <==> Present(e)
    ensures r.Some? ==> r.value == e
  {
    if Present(e) then Some(e) else None
  }

  /** The present last-level entry at slots a, b, c, d, if the walk gets that far. */
  function EntryAt(tables: Tables, root: Frame, a: nat, b: nat, c: nat, d: nat): (r: Option<bv64>)
    requires WellSized(tables) && root in tables && a < ENTRIES && b < ENTRIES && c < ENTRIES && d < ENTRIES
  {
    match WalkTo(tables, root, a, b, c)
    case None => None
    case Some(t1) => AsLeaf(tables[t1][d])
  }

  /** The page table that the walk of `v` reaches. */
  function LeafTable(tables: Tables, root: Frame, v: bv64): (r: Option<Frame>)
    requires WellSized(tables) && root in tables
    ensures r.Some? ==> r.value in tables
  {
    WalkTo(tables, root, I4(v), I3(v), I2(v))
  }

  /** The present last-level entry for `v`: what `is_page_mapped` and
    * `virtual_to_physical` read. */
  function LeafEntry(tables: Tables, root: Frame, v: bv64): (r: Option<bv64>)
    requires WellSized(tables) && root in tables
  {
    EntryAt(tables, root, I4(v), I3(v), I2(v), I1(v))
  }

  // ---------------------------------------------------------------------
  // The table hierarchy invariant
  // ---------------------------------------------------------------------

  /** Slot `i` of `t` leads to a table one level down whose parent slot is (t, i). */
  ghost predicate Links(tables: Tables, level: map<Frame, nat>, parent: map<Frame, (Frame, nat)>, t: Frame, i: nat)
    requires WellSized(tables) && t in tables && t in level && i < ENTRIES
  {
    var c := Frame(Addr(tables[t][i]));
    c in tables && c in level && level[t] as int == level[c] as int + 1 && c in parent && parent[c] == (t, i)
  }

  /**
   * Every table has 512 entries and a level (4 for the PML4, 1 for page
   * tables); every present entry of a table above level 1 other than the
   * recursive slot leads to a table exactly one level down, and each table
   * remembers the one slot that leads to it.  Entries of level-1 tables are
   * mappings and unconstrained.
   */
  ghost predicate Hierarchy(tables: Tables, root: Frame, level: map<Frame, nat>, parent: map<Frame, (Frame, nat)>)
  {
    WellSized(tables) && root in tables && root in level && level[root] == 4
    && (forall t :: t in tables ==> t in level && 1 <= level[t] <= 4)
    && (forall t, i :: (t in tables && 0 <= i < ENTRIES && level[t] >= 2 && !(t == root && i == RECURSIVE_INDEX)
                        && Present(tables[t][i])) ==> Links(tables, level, parent, t, i))
  }

  /** PML4 slot 510 is present and points at the PML4 itself. */
  predicate RecursiveSlot(tables: Tables, root: Frame)
    requires WellSized(tables) && root in tables
  {
    Present(tables[root][RECURSIVE_INDEX]) && Addr(tables[root][RECURSIVE_INDEX]) == root.addr
  }

  ghost predicate Sound(tables: Tables, root: Frame, level: map<Frame, nat>, parent: map<Frame, (Frame, nat)>)
  {
    Hierarchy(tables, root, level, parent) && RecursiveSlot(tables, root)
  }

  /** A table reached from a table of level >= 2 is one level down, with that
    * slot as its parent, unless the slot was the recursive one. */
  lemma NextLevel(tables: Tables, root: Frame, level: map<Frame, nat>, parent: map<Frame, (Frame, nat)>, t: Frame, i: nat)
    requires Sound(tables, root, level, parent) && t in tables && i < ENTRIES && level[t] >= 2
    requires Next(tables, t, i).Some?
    ensures var c := Next(tables, t, i).value;
            if t == root && i == RECURSIVE_INDEX then c == root
            else level[t] as int == level[c] as int + 1 && parent[c] == (t, i)
  {
    if !(t == root && i == RECURSIVE_INDEX) {
      assert Links(tables, level, parent, t, i);
    }
  }

  /** Outside slot 510, the walk visits tables of levels 3, 2 and 1, each
    * through the slot it names. */
  lemma WalkOutsideWindow(tables: Tables, root: Frame, level: map<Frame, nat>, parent: map<Frame, (Frame, nat)>,
                          a: nat, b: nat, c: nat)
    requires Sound(tables, root, level, parent) && a < ENTRIES && b < ENTRIES && c < ENTRIES
    requires a != RECURSIVE_INDEX && WalkTo(tables, root, a, b, c).Some?
    ensures var t3 := Next(tables, root, a).value;
            var t2 := Next(tables, t3, b).value;
            var t1 := WalkTo(tables, root, a, b, c).value;
            level[t3] == 3 && parent[t3] == (root, a)
            && level[t2] == 2 && parent[t2] == (t3, b)
            && level[t1] == 1 && parent[t1] == (t2, c)
  {
    var t3 := Next(tables, root, a).value;
    NextLevel(tables, root, level, parent, root, a);
    var t2 := Next(tables, t3, b).value;
    NextLevel(tables, root, level, parent, t3, b);
    NextLevel(tables, root, level, parent, t2, c);
  }

  /** Every walk, even one through the recursive slot, looks up its second
    * and third slots in tables above level 1. */
  lemma WalkUpperLevels(tables: Tables, root: Frame, level: map<Frame, nat>, parent: map<Frame, (Frame, nat)>,
                        a: nat, b: nat)
    requires Sound(tables, root, level, parent) && a < ENTRIES && b < ENTRIES
    requires Next(tables, root, a).Some?
    ensures level[Next(tables, root, a).value] >= 3
    ensures Next(tables, Next(tables, root, a).value, b).Some? ==>
              level[Next(tables, Next(tables, root, a).value, b).value] >= 2
  {
    var t3 := Next(tables, root, a).value;
    NextLevel(tables, root, level, parent, root, a);
    if Next(tables, t3, b).Some? {
      NextLevel(tables, root, level, parent, t3, b);
    }
  }

  /** A walk through slot 510 never ends in a page table (level 1). */
  lemma WindowWalkAvoidsPageTables(tables: Tables, root: Frame, level: map<Frame, nat>, parent: map<Frame, (Frame, nat)>,
                                   b: nat, c: nat)
    requires Sound(tables, root, level, parent) && b < ENTRIES && c < ENTRIES
    requires WalkTo(tables, root, RECURSIVE_INDEX, b, c).Some?
    ensures level[WalkTo(tables, root, RECURSIVE_INDEX, b, c).value] >= 2
  {
    WalkUpperLevels(tables, root, level, parent, RECURSIVE_INDEX, b);
    var t2 := Next(tables, root, b).value;
    NextLevel(tables, root, level, parent, t2, c);
  }

  /** Outside slot 510, two walks that end in the same page table went
    * through the same three slots: distinct prefixes reach distinct tables. */
  lemma SameLeafTableSamePrefix(tables: Tables, root: Frame, level: map<Frame, nat>, parent: map<Frame, (Frame, nat)>,
                                a: nat, b: nat, c: nat, a': nat, b': nat, c': nat)
    requires Sound(tables, root, level, parent)
    requires a < ENTRIES && b < ENTRIES && c < ENTRIES && a' < ENTRIES && b' < ENTRIES && c' < ENTRIES
    requires a != RECURSIVE_INDEX && a' != RECURSIVE_INDEX
    requires WalkTo(tables, root, a, b, c).Some? && WalkTo(tables, root, a', b', c') == WalkTo(tables, root, a, b, c)
    ensures a == a' && b == b' && c == c'
  {
    WalkOutsideWindow(tables, root, level, parent, a, b, c);
    WalkOutsideWindow(tables, root, level, parent, a', b', c');
  }

  // ---------------------------------------------------------------------
  // The two writes the mapper makes
  // ---------------------------------------------------------------------

  /** Replacing one table by another of 512 entries keeps every table 512 entries long. */
  lemma WellSizedUpdate(tables: Tables, t: Frame, s: seq<bv64>)
    requires WellSized(tables) && |s| == ENTRIES
    ensures WellSized(tables[t := s]) && tables[t := s].Keys == tables.Keys + {t}
  {
  }

  /** A slot whose entry is unchanged leads where it did. */
  lemma NextUnchanged(tables: Tables, after: Tables, x: Frame, j: nat)
    requires WellSized(tables) && WellSized(after) && tables.Keys == after.Keys
    requires x in tables && j < ENTRIES && after[x][j] == tables[x][j]
    ensures Next(after, x, j) == Next(tables, x, j)
  {
  }

  /** Rewriting a page table (level 1) leaves every walk's choice of page table alone. */
  lemma PageTableWriteKeepsWalk(tables: Tables, root: Frame, level: map<Frame, nat>, parent: map<Frame, (Frame, nat)>,
                                t1: Frame, s: seq<bv64>, a: nat, b: nat, c: nat)
    requires Sound(tables, root, level, parent) && t1 in tables && level[t1] == 1 && |s| == ENTRIES
    requires a < ENTRIES && b < ENTRIES && c < ENTRIES
    ensures WellSized(tables[t1 := s])
    ensures WalkTo(tables[t1 := s], root, a, b, c) == WalkTo(tables, root, a, b, c)
  {
    var after := tables[t1 := s];
    WellSizedUpdate(tables, t1, s);
    NextUnchanged(tables, after, root, a);
    if Next(tables, root, a).Some? {
      WalkUpperLevels(tables, root, level, parent, a, b);
      var t3 := Next(tables, root, a).value;
      NextUnchanged(tables, after, t3, b);
      if Next(tables, t3, b).Some? {
        var t2 := Next(tables, t3, b).value;
        NextUnchanged(tables, after, t2, c);
      }
    }
  }

  /** A write to slot d of the page table at a, b, c (outside slot 510)
    * changes what no other slot sequence reads. */
  lemma LeafWriteOther(tables: Tables, root: Frame, level: map<Frame, nat>, parent: map<Frame, (Frame, nat)>,
                       a: nat, b: nat, c: nat, d: nat, e: bv64, a': nat, b': nat, c': nat, d': nat)
    requires Sound(tables, root, level, parent)
    requires a < ENTRIES && b < ENTRIES && c < ENTRIES && d < ENTRIES
    requires a' < ENTRIES && b' < ENTRIES && c' < ENTRIES && d' < ENTRIES
    requires a != RECURSIVE_INDEX && WalkTo(tables, root, a, b, c).Some?
    requires (a, b, c, d) != (a', b', c', d')
    ensures var t1 := WalkTo(tables, root, a, b, c).value;
            WellSized(tables[t1 := tables[t1][d := e]])
            && EntryAt(tables[t1 := tables[t1][d := e]], root, a', b', c', d') == EntryAt(tables, root, a', b', c', d')
  {
    var t1 := WalkTo(tables, root, a, b, c).value;
    var after := tables[t1 := tables[t1][d := e]];
    WalkOutsideWindow(tables, root, level, parent, a, b, c);
    PageTableWriteKeepsWalk(tables, root, level, parent, t1, tables[t1][d := e], a', b', c');
    if WalkTo(tables, root, a', b', c') == Some(t1) {
      if a' == RECURSIVE_INDEX {
        WindowWalkAvoidsPageTables(tables, root, level, parent, b', c');
      } else {
        SameLeafTableSamePrefix(tables, root, level, parent, a, b, c, a', b', c');
        assert after[t1][d'] == tables[t1][d'];
      }
    }
  }

  /** A write to a page table keeps the hierarchy: page-table entries are unconstrained. */
  lemma PageTableWriteSound(tables: Tables, root: Frame, level: map<Frame, nat>, parent: map<Frame, (Frame, nat)>,
                            t1: Frame, d: nat, e: bv64)
    requires Sound(tables, root, level, parent) && t1 in tables && level[t1] == 1 && d < ENTRIES
    ensures Sound(tables[t1 := tables[t1][d := e]], root, level, parent)
  {
    var after := tables[t1 := tables[t1][d := e]];
    WellSizedUpdate(tables, t1, tables[t1][d := e]);
    forall t, i | t in after && 0 <= i < ENTRIES && level[t] >= 2 && !(t == root && i == RECURSIVE_INDEX)
                  && Present(after[t][i])
      ensures Links(after, level, parent, t, i)
    {
      assert after[t] == tables[t];
      assert Links(tables, level, parent, t, i);
    }
  }

  /**
   * Writing entry `e` into the last-level slot of `v` (outside slot 510)
   * keeps the hierarchy, makes the walk of `v` report `e`, and changes the
   * walk of no other page.
   */
  lemma LeafWriteEffect(tables: Tables, root: Frame, level: map<Frame, nat>, parent: map<Frame, (Frame, nat)>,
                        v: bv64, e: bv64)
    requires Sound(tables, root, level, parent) && I4(v) != RECURSIVE_INDEX && LeafTable(tables, root, v).Some?
    ensures var t1 := LeafTable(tables, root, v).value;
            var after := tables[t1 := tables[t1][I1(v) := e]];
            Sound(after, root, level, parent)
            && LeafEntry(after, root, v) == AsLeaf(e)
            && forall w :: PageKey(w) != PageKey(v) ==> LeafEntry(after, root, w) == LeafEntry(tables, root, w)
  {
    var t1 := LeafTable(tables, root, v).value;
    var after := tables[t1 := tables[t1][I1(v) := e]];
    WalkOutsideWindow(tables, root, level, parent, I4(v), I3(v), I2(v));
    PageTableWriteSound(tables, root, level, parent, t1, I1(v), e);
    PageTableWriteKeepsWalk(tables, root, level, parent, t1, tables[t1][I1(v) := e], I4(v), I3(v), I2(v));
    forall w | PageKey(w) != PageKey(v)
      ensures LeafEntry(after, root, w) == LeafEntry(tables, root, w)
    {
      SamePageIffSameIndices(v, w);
      LeafWriteOther(tables, root, level, parent, I4(v), I3(v), I2(v), I1(v), e, I4(w), I3(w), I2(w), I1(w));
    }
  }

  /** `tables` after frame `f` is installed at slot `i` of `t` and cleared. */
  function Install(tables: Tables, t: Frame, i: nat, f: Frame): (after: Tables)
    requires WellSized(tables) && t in tables && i < ENTRIES
    ensures WellSized(after) && after.Keys == tables.Keys + {f}
  {
    WellSizedUpdate(tables, t, tables[t][i := TableEntry(f.addr)]);
    WellSizedUpdate(tables[t := tables[t][i := TableEntry(f.addr)]], f, ZeroTable());
    tables[t := tables[t][i := TableEntry(f.addr)]][f := ZeroTable()]
  }

  /** After an install, `Next` from a table above level 1 differs only at the
    * new slot, and nothing leads on from the cleared table. */
  lemma NextAfterInstall(tables: Tables, root: Frame, level: map<Frame, nat>, parent: map<Frame, (Frame, nat)>,
                         t: Frame, i: nat, f: Frame, x: Frame, j: nat)
    requires Sound(tables, root, level, parent)
    requires t in tables && i < ENTRIES && f !in tables && Aligned(f.addr)
    requires x in tables && j < ENTRIES && level[x] >= 2
    ensures Next(Install(tables, t, i, f), x, j) == if x == t && j == i then Some(f) else Next(tables, x, j)
    ensures Next(Install(tables, t, i, f), f, j) == None
    ensures !Present(Install(tables, t, i, f)[f][j])
  {
    var after := Install(tables, t, i, f);
    if !(x == root && j == RECURSIVE_INDEX) && Present(tables[x][j]) {
      assert Links(tables, level, parent, x, j);
    }
  }

  /** An install leaves every other present slot's link in place. */
  lemma InstallKeepsLink(tables: Tables, root: Frame, level: map<Frame, nat>, parent: map<Frame, (Frame, nat)>,
                         t: Frame, i: nat, f: Frame, x: Frame, j: nat)
    requires Sound(tables, root, level, parent)
    requires t in tables && i < ENTRIES && level[t] >= 2 && f !in tables
    requires x in tables && j < ENTRIES && level[x] >= 2 && !(x == root && j == RECURSIVE_INDEX)
    requires (x, j) != (t, i) && Present(tables[x][j])
    ensures Install(tables, t, i, f)[x][j] == tables[x][j]
    ensures Links(Install(tables, t, i, f), level[f := level[t] - 1], parent[f := (t, i)], x, j)
  {
    assert Links(tables, level, parent, x, j);
  }

  /** After an install every present slot above level 1, the new one included, links one level down. */
  lemma InstallLinks(tables: Tables, root: Frame, level: map<Frame, nat>, parent: map<Frame, (Frame, nat)>,
                     t: Frame, i: nat, f: Frame)
    requires Sound(tables, root, level, parent)
    requires t in tables && i < ENTRIES && level[t] >= 2 && !Present(tables[t][i])
    requires f !in tables && Aligned(f.addr)
    ensures var after, level', parent' := Install(tables, t, i, f), level[f := level[t] - 1], parent[f := (t, i)];
            forall x, j :: (x in after && 0 <= j < ENTRIES && level'[x] >= 2 && !(x == root && j == RECURSIVE_INDEX)
                            && Present(after[x][j])) ==> Links(after, level', parent', x, j)
  {
    var after := Install(tables, t, i, f);
    var level', parent' := level[f := level[t] - 1], parent[f := (t, i)];
    InstallNewLink(tables, root, level, parent, t, i, f);
    assert after[f] == ZeroTable();
    forall x, j | x in after && 0 <= j < ENTRIES && level'[x] >= 2 && !(x == root && j == RECURSIVE_INDEX)
                  && Present(after[x][j])
      ensures Links(after, level', parent', x, j)
    {
      if x != f && (x, j) != (t, i) {
        InstallKeepsLink(tables, root, level, parent, t, i, f, x, j);
      }
    }
  }

  /** The installed slot links to the new frame. */
  lemma InstallNewLink(tables: Tables, root: Frame, level: map<Frame, nat>, parent: map<Frame, (Frame, nat)>,
                       t: Frame, i: nat, f: Frame)
    requires Sound(tables, root, level, parent)
    requires t in tables && i < ENTRIES && level[t] >= 2 && !Present(tables[t][i])
    requires f !in tables && Aligned(f.addr)
    ensures Links(Install(tables, t, i, f), level[f := level[t] - 1], parent[f := (t, i)], t, i)
  {
  }

  /** Installing a cleared frame at an absent slot of a table above level 1
    * keeps the hierarchy, the frame one level down with that slot as its parent. */
  lemma InstallSound(tables: Tables, root: Frame, level: map<Frame, nat>, parent: map<Frame, (Frame, nat)>,
                     t: Frame, i: nat, f: Frame)
    requires Sound(tables, root, level, parent)
    requires t in tables && i < ENTRIES && level[t] >= 2 && !Present(tables[t][i])
    requires f !in tables && Aligned(f.addr)
    ensures Sound(Install(tables, t, i, f), root, level[f := level[t] - 1], parent[f := (t, i)])
  {
    InstallLinks(tables, root, level, parent, t, i, f);
  }

  /**
   * Installing a cleared frame at an absent slot of a table above level 1
   * keeps the hierarchy, links the slot to the frame, and changes the walk
   * of no address outside slot 510.
   */
  lemma InstallEffect(tables: Tables, root: Frame, level: map<Frame, nat>, parent: map<Frame, (Frame, nat)>,
                      t: Frame, i: nat, f: Frame)
    requires Sound(tables, root, level, parent)
    requires t in tables && i < ENTRIES && level[t] >= 2 && !Present(tables[t][i])
    requires f !in tables && Aligned(f.addr)
    ensures Sound(Install(tables, t, i, f), root, level[f := level[t] - 1], parent[f := (t, i)])
    ensures Next(Install(tables, t, i, f), t, i) == Some(f)
    ensures forall w :: I4(w) != RECURSIVE_INDEX ==>
              LeafEntry(Install(tables, t, i, f), root, w) == LeafEntry(tables, root, w)
  {
    InstallSound(tables, root, level, parent, t, i, f);
    NextAfterInstall(tables, root, level, parent, t, i, f, t, i);
    forall w | I4(w) != RECURSIVE_INDEX
      ensures LeafEntry(Install(tables, t, i, f), root, w) == LeafEntry(tables, root, w)
    {
      InstallOther(tables, root, level, parent, t, i, f, I4(w), I3(w), I2(w), I1(w));
    }
  }

  /** The walk through slots a, b, c, d (a outside 510) reads the same entry
    * after an install as before. */
  lemma InstallOther(tables: Tables, root: Frame, level: map<Frame, nat>, parent: map<Frame, (Frame, nat)>,
                     t: Frame, i: nat, f: Frame, a: nat, b: nat, c: nat, d: nat)
    requires Sound(tables, root, level, parent)
    requires t in tables && i < ENTRIES && level[t] >= 2 && !Present(tables[t][i])
    requires f !in tables && Aligned(f.addr)
    requires a < ENTRIES && b < ENTRIES && c < ENTRIES && d < ENTRIES && a != RECURSIVE_INDEX
    ensures EntryAt(Install(tables, t, i, f), root, a, b, c, d) == EntryAt(tables, root, a, b, c, d)
  {
    var after := Install(tables, t, i, f);
    NextAfterInstall(tables, root, level, parent, t, i, f, root, a);
    if root == t && a == i {
      assert WalkTo(after, root, a, b, c) == None;
    } else if Next(tables, root, a).Some? {
      NextLevel(tables, root, level, parent, root, a);
      InstallOtherBelowPml4(tables, root, level, parent, t, i, f, a, b, c, d);
    }
  }

  lemma InstallOtherBelowPml4(tables: Tables, root: Frame, level: map<Frame, nat>, parent: map<Frame, (Frame, nat)>,
                              t: Frame, i: nat, f: Frame, a: nat, b: nat, c: nat, d: nat)
    requires Sound(tables, root, level, parent)
    requires t in tables && i < ENTRIES && level[t] >= 2 && !Present(tables[t][i])
    requires f !in tables && Aligned(f.addr)
    requires a < ENTRIES && b < ENTRIES && c < ENTRIES && d < ENTRIES && a != RECURSIVE_INDEX
    requires !(root == t && a == i) && Next(tables, root, a).Some? && level[Next(tables, root, a).value] == 3
    ensures EntryAt(Install(tables, t, i, f), root, a, b, c, d) == EntryAt(tables, root, a, b, c, d)
  {
    var after := Install(tables, t, i, f);
    var t3 := Next(tables, root, a).value;
    NextAfterInstall(tables, root, level, parent, t, i, f, root, a);
    NextAfterInstall(tables, root, level, parent, t, i, f, t3, b);
    if t3 == t && b == i {
      assert WalkTo(after, root, a, b, c) == None;
    } else if Next(tables, t3, b).Some? {
      NextLevel(tables, root, level, parent, t3, b);
      InstallOtherBelowPdp(tables, root, level, parent, t, i, f, a, b, c, d);
    }
  }

  lemma InstallOtherBelowPdp(tables: Tables, root: Frame, level: map<Frame, nat>, parent: map<Frame, (Frame, nat)>,
                             t: Frame, i: nat, f: Frame, a: nat, b: nat, c: nat, d: nat)
    requires Sound(tables, root, level, parent)
    requires t in tables && i < ENTRIES && level[t] >= 2 && !Present(tables[t][i])
    requires f !in tables && Aligned(f.addr)
    requires a < ENTRIES && b < ENTRIES && c < ENTRIES && d < ENTRIES && a != RECURSIVE_INDEX
    requires !(root == t && a == i) && Next(tables, root, a).Some?
    requires var t3 := Next(tables, root, a).value;
             !(t3 == t && b == i) && Next(tables, t3, b).Some? && level[Next(tables, t3, b).value] == 2
    ensures EntryAt(Install(tables, t, i, f), root, a, b, c, d) == EntryAt(tables, root, a, b, c, d)
  {
    var after := Install(tables, t, i, f);
    var t3 := Next(tables, root, a).value;
    var t2 := Next(tables, t3, b).value;
    NextAfterInstall(tables, root, level, parent, t, i, f, root, a);
    NextAfterInstall(tables, root, level, parent, t, i, f, t3, b);
    NextAfterInstall(tables, root, level, parent, t, i, f, t2, c);
    if t2 == t && c == i {
      assert WalkTo(after, root, a, b, c) == Some(f);
    } else if Next(tables, t2, c).Some? {
      var t1 := Next(tables, t2, c).value;
      NextLevel(tables, root, level, parent, t2, c);
      assert WalkTo(after, root, a, b, c) == Some(t1);
      assert after[t1] == tables[t1];
    }
  }

  // ---------------------------------------------------------------------
  // The recursive windows
  // ---------------------------------------------------------------------

  /** The windows as `get_pdp_entry`, `get_pd_entry` and `get_pt_entry` (and the
    * table clearing in `map_page_internal`) compute them. */
  function PdpWindowAsWritten(v: bv64): bv64 { PDP_SELF_REF + ((v >> 39) & 0xFF8) }
  function PdWindowAsWritten(v: bv64): bv64 { PD_SELF_REF + ((v >> 30) & 0x3F_FFF8) }
  function PtWindowAsWritten(v: bv64): bv64 { PT_SELF_REF + ((v >> 21) & 0x7FFF_FFF8) }

  /** The as-written PDP window of addresses 0 and 2^39 coincide although their
    * PML4 indices differ: both land on the same table. */
  lemma PdpWindowCollides()
    ensures I4(0) != I4(0x80_0000_0000) && PdpWindowAsWritten(0) == PdpWindowAsWritten(0x80_0000_0000)
  {
    assert (0x80_0000_0000 as bv64 >> 39) & 0x1FF == 1;
    IdxInjective(0 >> 39, 0x80_0000_0000 >> 39);
  }

  /** Likewise for the PD window: 0 and 2^30 differ in their PDP index. */
  lemma PdWindowCollides()
    ensures I3(0) != I3(0x4000_0000) && PdWindowAsWritten(0) == PdWindowAsWritten(0x4000_0000)
  {
    assert (0x4000_0000 as bv64 >> 30) & 0x1FF == 1;
    IdxInjective(0 >> 30, 0x4000_0000 >> 30);
  }

  /** Likewise for the PT window: 0 and 2^21 differ in their PD index. */
  lemma PtWindowCollides()
    ensures I2(0) != I2(0x20_0000) && PtWindowAsWritten(0) == PtWindowAsWritten(0x20_0000)
  {
    assert (0x20_0000 as bv64 >> 21) & 0x1FF == 1;
    IdxInjective(0 >> 21, 0x20_0000 >> 21);
  }

  /** The corrected windows: each index of the prefix moves one level down in
    * the address, so the window is a whole page per table. */
  function PdpWindow(v: bv64): bv64 { PDP_SELF_REF + ((v >> 27) & 0x1F_F000) }
  function PdWindow(v: bv64): bv64 { PD_SELF_REF + ((v >> 18) & 0x3FFF_F000) }
  function PtWindow(v: bv64): bv64 { PT_SELF_REF + ((v >> 9) & 0x7F_FFFF_F000) }

  /** Two values with the same low nine bits give the same index. */
  lemma IdxEq(x: bv64, y: bv64)
    requires x & 0x1FF == y & 0x1FF
    ensures Idx(x) == Idx(y)
  {
  }

  /** An index field equal to 510 reads as the recursive index. */
  lemma IdxRecursive(x: bv64)
    requires x & 0x1FF == 0x1FE
    ensures Idx(x) == RECURSIVE_INDEX
  {
  }

  lemma PdpWindowBits12(v: bv64) ensures (PdpWindow(v) >> 12) & 0x1FF == (v >> 39) & 0x1FF {}
  lemma PdWindowBits21(v: bv64) ensures (PdWindow(v) >> 21) & 0x1FF == (v >> 39) & 0x1FF {}
  lemma PdWindowBits12(v: bv64) ensures (PdWindow(v) >> 12) & 0x1FF == (v >> 30) & 0x1FF {}
  lemma PtWindowBits30(v: bv64) ensures (PtWindow(v) >> 30) & 0x1FF == (v >> 39) & 0x1FF {}
  lemma PtWindowBits21(v: bv64) ensures (PtWindow(v) >> 21) & 0x1FF == (v >> 30) & 0x1FF {}
  lemma PtWindowBits12(v: bv64) ensures (PtWindow(v) >> 12) & 0x1FF == (v >> 21) & 0x1FF {}

  /** The PDP window of `v` is the page at slots 510, 510, 510, I4(v). */
  lemma PdpWindowDecodes(v: bv64)
    ensures I4(PdpWindow(v)) == RECURSIVE_INDEX && I3(PdpWindow(v)) == RECURSIVE_INDEX
    ensures I2(PdpWindow(v)) == RECURSIVE_INDEX && I1(PdpWindow(v)) == I4(v)
  {
    var x := PdpWindow(v);
    assert (x >> 39) & 0x1FF == 0x1FE && (x >> 30) & 0x1FF == 0x1FE && (x >> 21) & 0x1FF == 0x1FE;
    IdxRecursive(x >> 39);
    IdxRecursive(x >> 30);
    IdxRecursive(x >> 21);
    PdpWindowLow(v);
  }

  lemma PdpWindowLow(v: bv64)
    ensures I1(PdpWindow(v)) == I4(v)
  {
    PdpWindowBits12(v);
    IdxEq(PdpWindow(v) >> 12, v >> 39);
  }

  /** The PD window of `v` is the page at slots 510, 510, I4(v), I3(v). */
  lemma PdWindowDecodes(v: bv64)
    ensures I4(PdWindow(v)) == RECURSIVE_INDEX && I3(PdWindow(v)) == RECURSIVE_INDEX
    ensures I2(PdWindow(v)) == I4(v) && I1(PdWindow(v)) == I3(v)
  {
    var x := PdWindow(v);
    assert (x >> 39) & 0x1FF == 0x1FE && (x >> 30) & 0x1FF == 0x1FE;
    IdxRecursive(x >> 39);
    IdxRecursive(x >> 30);
    PdWindowLow(v);
  }

  lemma PdWindowLow(v: bv64)
    ensures I2(PdWindow(v)) == I4(v) && I1(PdWindow(v)) == I3(v)
  {
    PdWindowI2(v);
    PdWindowI1(v);
  }

  lemma PdWindowI2(v: bv64)
    ensures I2(PdWindow(v)) == I4(v)
  {
    PdWindowBits21(v);
    IdxEq(PdWindow(v) >> 21, v >> 39);
  }

  lemma PdWindowI1(v: bv64)
    ensures I1(PdWindow(v)) == I3(v)
  {
    PdWindowBits12(v);
    IdxEq(PdWindow(v) >> 12, v >> 30);
  }

  /** The PT window of `v` is the page at slots 510, I4(v), I3(v), I2(v). */
  lemma PtWindowDecodes(v: bv64)
    ensures I4(PtWindow(v)) == RECURSIVE_INDEX && I3(PtWindow(v)) == I4(v)
    ensures I2(PtWindow(v)) == I3(v) && I1(PtWindow(v)) == I2(v)
  {
    assert (PtWindow(v) >> 39) & 0x1FF == 0x1FE;
    IdxRecursive(PtWindow(v) >> 39);
    PtWindowMid(v);
    PtWindowLow(v);
  }

  lemma PtWindowMid(v: bv64)
    ensures I3(PtWindow(v)) == I4(v)
  {
    PtWindowBits30(v);
    IdxEq(PtWindow(v) >> 30, v >> 39);
  }

  lemma PtWindowLow(v: bv64)
    ensures I2(PtWindow(v)) == I3(v) && I1(PtWindow(v)) == I2(v)
  {
    PtWindowI2(v);
    PtWindowI1(v);
  }

  lemma PtWindowI2(v: bv64)
    ensures I2(PtWindow(v)) == I3(v)
  {
    PtWindowBits21(v);
    IdxEq(PtWindow(v) >> 21, v >> 30);
  }

  lemma PtWindowI1(v: bv64)
    ensures I1(PtWindow(v)) == I2(v)
  {
    PtWindowBits12(v);
    IdxEq(PtWindow(v) >> 12, v >> 21);
  }

  lemma PtWindowFromBits(v: bv64, w: bv64)
    requires (v >> 39) & 0x1FF == (w >> 39) & 0x1FF && (v >> 30) & 0x1FF == (w >> 30) & 0x1FF
    requires (v >> 21) & 0x1FF == (w >> 21) & 0x1FF
    ensures PtWindow(v) == PtWindow(w)
  {
  }

  /** Two addresses share a PT window exactly when they share the PML4, PDP
    * and PD indices: distinct prefixes reach distinct windows. */
  lemma PtWindowInjective(v: bv64, w: bv64)
    ensures PtWindow(v) == PtWindow(w) <==> (I4(v) == I4(w) && I3(v) == I3(w) && I2(v) == I2(w))
  {
    PtWindowDecodes(v);
    PtWindowDecodes(w);
    if I4(v) == I4(w) && I3(v) == I3(w) && I2(v) == I2(w) {
      IdxInjective(v >> 39, w >> 39);
      IdxInjective(v >> 30, w >> 30);
      IdxInjective(v >> 21, w >> 21);
      PtWindowFromBits(v, w);
    }
  }

  lemma PdWindowFromBits(v: bv64, w: bv64)
    requires (v >> 39) & 0x1FF == (w >> 39) & 0x1FF && (v >> 30) & 0x1FF == (w >> 30) & 0x1FF
    ensures PdWindow(v) == PdWindow(w)
  {
  }

  /** Two addresses share a PD window exactly when they share the PML4 and PDP indices. */
  lemma PdWindowInjective(v: bv64, w: bv64)
    ensures PdWindow(v) == PdWindow(w) <==> (I4(v) == I4(w) && I3(v) == I3(w))
  {
    PdWindowDecodes(v);
    PdWindowDecodes(w);
    if I4(v) == I4(w) && I3(v) == I3(w) {
      IdxInjective(v >> 39, w >> 39);
      IdxInjective(v >> 30, w >> 30);
      PdWindowFromBits(v, w);
    }
  }

  lemma PdpWindowFromBits(v: bv64, w: bv64)
    requires (v >> 39) & 0x1FF == (w >> 39) & 0x1FF
    ensures PdpWindow(v) == PdpWindow(w)
  {
  }

  /** Two addresses share a PDP window exactly when they share the PML4 index. */
  lemma PdpWindowInjective(v: bv64, w: bv64)
    ensures PdpWindow(v) == PdpWindow(w) <==> I4(v) == I4(w)
  {
    PdpWindowDecodes(v);
    PdpWindowDecodes(w);
    if I4(v) == I4(w) {
      IdxInjective(v >> 39, w >> 39);
      PdpWindowFromBits(v, w);
    }
  }

  /** With the recursive slot in place, the walk of the PT window of `v` ends
    * in the page that v's page directory entry names: v's own page table. */
  lemma PtWindowReachesTable(tables: Tables, root: Frame, v: bv64)
    requires WellSized(tables) && root in tables && RecursiveSlot(tables, root)
    requires LeafTable(tables, root, v).Some?
    ensures LeafEntry(tables, root, PtWindow(v)).Some?
    ensures Addr(LeafEntry(tables, root, PtWindow(v)).value) == LeafTable(tables, root, v).value.addr
  {
    PtWindowDecodes(v);
    assert Next(tables, root, RECURSIVE_INDEX) == Some(root);
  }

  /** The PD window of `v` ends in v's page directory. */
  lemma PdWindowReachesTable(tables: Tables, root: Frame, v: bv64)
    requires WellSized(tables) && root in tables && RecursiveSlot(tables, root)
    requires Next(tables, root, I4(v)).Some? && Next(tables, Next(tables, root, I4(v)).value, I3(v)).Some?
    ensures LeafEntry(tables, root, PdWindow(v)).Some?
    ensures Addr(LeafEntry(tables, root, PdWindow(v)).value) == Next(tables, Next(tables, root, I4(v)).value, I3(v)).value.addr
  {
    PdWindowDecodes(v);
    assert Next(tables, root, RECURSIVE_INDEX) == Some(root);
  }

  /** The PDP window of `v` ends in v's PDP table. */
  lemma PdpWindowReachesTable(tables: Tables, root: Frame, v: bv64)
    requires WellSized(tables) && root in tables && RecursiveSlot(tables, root)
    requires Next(tables, root, I4(v)).Some?
    ensures LeafEntry(tables, root, PdpWindow(v)).Some?
    ensures Addr(LeafEntry(tables, root, PdpWindow(v)).value) == Next(tables, root, I4(v)).value.addr
  {
    PdpWindowDecodes(v);
    assert Next(tables, root, RECURSIVE_INDEX) == Some(root);
  }

  // ---------------------------------------------------------------------
  // The address space: the tables and the mapper's operations
  // ---------------------------------------------------------------------

  // ---------------------------------------------------------------------
  // The mapper's state and operations
  // ---------------------------------------------------------------------

  /** The entry `vm_init` writes into PML4 slot 510. */
  function SelfEntry(f: bv64): (e: bv64)
    ensures Aligned(f) ==> Present(e) && Addr(e) == f
  {
    f | PF_PRESENT | PF_WRITABLE
  }

  /** The entry `map_page_internal` writes for a page. */
  function MappedEntry(phys: bv64, flags: bv64): bv64
  {
    (phys & PAGE_MASK) | flags
  }

  /**
   * What the mapper works on: the PML4 frame, every table reachable from it,
   * and the frames the physical allocator can still hand out for new tables,
   * each with whatever 512 entries it held before.
   */
  datatype Space = Space(root: Frame, tables: Tables, pool: map<Frame, seq<bv64>>)

  /** Pool frames are not tables already, are nonzero (0 is the allocator's
    * failure value), page aligned and 512 entries long. */
  ghost predicate PoolOk(tables: Tables, pool: map<Frame, seq<bv64>>)
  {
    forall f :: f in pool ==> f !in tables && f.addr != 0 && Aligned(f.addr) && |pool[f]| == ENTRIES
  }

  ghost predicate Valid(s: Space, level: map<Frame, nat>, parent: map<Frame, (Frame, nat)>)
  {
    Sound(s.tables, s.root, level, parent) && PoolOk(s.tables, s.pool)
  }

  /**
   * `s'` grows `s`: tables are only added, each taken from the pool; old
   * tables keep their level; every slot that led somewhere still leads
   * there; and no address outside slot 510 reads a different entry.
   */
  ghost predicate Extends(s: Space, s': Space, level: map<Frame, nat>, level': map<Frame, nat>)
  {
    WellSized(s.tables) && WellSized(s'.tables) && s'.root == s.root && s.root in s.tables && s.root in s'.tables
    && s.tables.Keys <= s'.tables.Keys && s'.pool.Keys <= s.pool.Keys
    && s'.tables.Keys - s.tables.Keys == s.pool.Keys - s'.pool.Keys
    && (forall x :: x in s.tables ==> x in level && x in level' && level'[x] == level[x])
    && (forall x, j :: x in s.tables && 0 <= j < ENTRIES && Next(s.tables, x, j).Some? ==>
          Next(s'.tables, x, j) == Next(s.tables, x, j))
    && (forall a, b, c, d :: (0 <= a < ENTRIES && 0 <= b < ENTRIES && 0 <= c < ENTRIES && 0 <= d < ENTRIES
                              && a != RECURSIVE_INDEX) ==>
          EntryAt(s'.tables, s.root, a, b, c, d) == EntryAt(s.tables, s.root, a, b, c, d))
  }

  lemma ExtendsRefl(s: Space, level: map<Frame, nat>, parent: map<Frame, (Frame, nat)>)
    requires Valid(s, level, parent)
    ensures Extends(s, s, level, level)
  {
  }

  lemma ExtendsTrans(s1: Space, s2: Space, s3: Space, l1: map<Frame, nat>, l2: map<Frame, nat>, l3: map<Frame, nat>)
    requires Extends(s1, s2, l1, l2) && Extends(s2, s3, l2, l3)
    ensures Extends(s1, s3, l1, l3)
  {
    assert s3.tables.Keys - s1.tables.Keys == (s3.tables.Keys - s2.tables.Keys) + (s2.tables.Keys - s1.tables.Keys);
    assert s1.pool.Keys - s3.pool.Keys == (s2.pool.Keys - s3.pool.Keys) + (s1.pool.Keys - s2.pool.Keys);
    forall x, j | x in s1.tables && 0 <= j < ENTRIES && Next(s1.tables, x, j).Some?
      ensures Next(s3.tables, x, j) == Next(s1.tables, x, j)
    {
      assert Next(s2.tables, x, j) == Next(s1.tables, x, j);
    }
    forall a, b, c, d | 0 <= a < ENTRIES && 0 <= b < ENTRIES && 0 <= c < ENTRIES && 0 <= d < ENTRIES && a != RECURSIVE_INDEX
      ensures EntryAt(s3.tables, s1.root, a, b, c, d) == EntryAt(s1.tables, s1.root, a, b, c, d)
    {
      assert EntryAt(s2.tables, s1.root, a, b, c, d) == EntryAt(s1.tables, s1.root, a, b, c, d);
    }
  }

  /** Installing a pool frame at an absent slot extends the space. */
  lemma InstallExtends(s: Space, level: map<Frame, nat>, parent: map<Frame, (Frame, nat)>, t: Frame, i: nat, f: Frame)
    requires Valid(s, level, parent) && t in s.tables && i < ENTRIES && level[t] >= 2 && !Present(s.tables[t][i])
    requires f in s.pool
    ensures Valid(Space(s.root, Install(s.tables, t, i, f), s.pool - {f}), level[f := level[t] - 1], parent[f := (t, i)])
    ensures Extends(s, Space(s.root, Install(s.tables, t, i, f), s.pool - {f}), level, level[f := level[t] - 1])
  {
    var after := Install(s.tables, t, i, f);
    InstallSound(s.tables, s.root, level, parent, t, i, f);
    PoolAfterInstall(s.tables, s.pool, t, i, f);
    forall a, b, c, d | 0 <= a < ENTRIES && 0 <= b < ENTRIES && 0 <= c < ENTRIES && 0 <= d < ENTRIES && a != RECURSIVE_INDEX
      ensures EntryAt(after, s.root, a, b, c, d) == EntryAt(s.tables, s.root, a, b, c, d)
    {
      InstallOther(s.tables, s.root, level, parent, t, i, f, a, b, c, d);
    }
    forall x, j | x in s.tables && 0 <= j < ENTRIES && Next(s.tables, x, j).Some?
      ensures Next(after, x, j) == Next(s.tables, x, j)
    {
      assert after[x][j] == s.tables[x][j];
    }
  }

  /** Installing a pool frame leaves the rest of the pool usable. */
  lemma PoolAfterInstall(tables: Tables, pool: map<Frame, seq<bv64>>, t: Frame, i: nat, f: Frame)
    requires PoolOk(tables, pool) && f in pool && WellSized(tables) && t in tables && i < ENTRIES
    ensures PoolOk(Install(tables, t, i, f), pool - {f})
  {
  }

  /** Overwriting PML4 slot 510 with the self entry keeps the hierarchy and
    * establishes the recursive slot. */
  lemma SelfSlotSound(tables: Tables, root: Frame, level: map<Frame, nat>, parent: map<Frame, (Frame, nat)>)
    requires Hierarchy(tables, root, level, parent) && Aligned(root.addr)
    ensures Sound(tables[root := tables[root][RECURSIVE_INDEX := SelfEntry(root.addr)]], root, level, parent)
  {
    var after := tables[root := tables[root][RECURSIVE_INDEX := SelfEntry(root.addr)]];
    WellSizedUpdate(tables, root, tables[root][RECURSIVE_INDEX := SelfEntry(root.addr)]);
    forall t, j | t in after && 0 <= j < ENTRIES && level[t] >= 2 && !(t == root && j == RECURSIVE_INDEX)
                  && Present(after[t][j])
      ensures Links(after, level, parent, t, j)
    {
      assert after[t][j] == tables[t][j];
      assert Links(tables, level, parent, t, j);
    }
  }

  /**
   * `vm_init`: take over the boot tables rooted at `root` and point PML4
   * slot 510 back at the PML4 itself, which makes the space valid.
   */
  function VmInit(root: Frame, boot: Tables, pool: map<Frame, seq<bv64>>,
                  ghost level: map<Frame, nat>, ghost parent: map<Frame, (Frame, nat)>): (s: Space)
    requires Hierarchy(boot, root, level, parent) && Aligned(root.addr) && PoolOk(boot, pool)
    ensures Valid(s, level, parent) && s.root == root && s.pool == pool
    ensures s.tables[root][RECURSIVE_INDEX] == SelfEntry(root.addr)
    ensures forall t :: t in boot && t != root ==> t in s.tables && s.tables[t] == boot[t]
    ensures forall j :: 0 <= j < ENTRIES && j != RECURSIVE_INDEX ==> s.tables[root][j] == boot[root][j]
  {
    SelfSlotSound(boot, root, level, parent);
    Space(root, boot[root := boot[root][RECURSIVE_INDEX := SelfEntry(root.addr)]], pool)
  }

  /** The four-level presence check of `is_page_mapped`, top down, stopping
    * at the first absent entry. */
  function PresentAt(tables: Tables, root: Frame, a: nat, b: nat, c: nat, d: nat): (r: bool)
    requires WellSized(tables) && root in tables && a < ENTRIES && b < ENTRIES && c < ENTRIES && d < ENTRIES
    ensures r <==> EntryAt(tables, root, a, b, c, d).Some?
  {
    match Next(tables, root, a)
    case None => false
    case Some(t3) =>
      match Next(tables, t3, b)
      case None => false
      case Some(t2) =>
        match Next(tables, t2, c)
        case None => false
        case Some(t1) => Present(tables[t1][d])
  }

  /** `is_page_mapped`. */
  function IsPageMapped(s: Space, v: bv64): (r: bool)
    requires WellSized(s.tables) && s.root in s.tables
    ensures r <==> LeafEntry(s.tables, s.root, v).Some?
  {
    PresentAt(s.tables, s.root, I4(v), I3(v), I2(v), I1(v))
  }

  /** `virtual_to_physical`: 0 for an unmapped page, otherwise the entry with
    * its low 12 bits replaced by the offset of `v`. */
  function VirtualToPhysical(s: Space, v: bv64): (r: bv64)
    requires WellSized(s.tables) && s.root in s.tables
    ensures LeafEntry(s.tables, s.root, v).None? ==> r == 0
  {
    if !IsPageMapped(s, v) then 0
    else (LeafEntry(s.tables, s.root, v).value & PAGE_MASK) | (v & PAGE_OFFSET_MASK)
  }

  /** The corrected translation, which keeps only the address bits of the entry. */
  function VirtualToPhysicalFixed(s: Space, v: bv64): (r: bv64)
    requires WellSized(s.tables) && s.root in s.tables
    ensures LeafEntry(s.tables, s.root, v).None? ==> r == 0
  {
    if !IsPageMapped(s, v) then 0
    else Addr(LeafEntry(s.tables, s.root, v).value) | (v & PAGE_OFFSET_MASK)
  }

  /** The clearing loop of `map_page_internal`: all 512 entries become 0. */
  method ClearTable(stale: seq<bv64>) returns (entries: seq<bv64>)
    requires |stale| == ENTRIES
    ensures entries == ZeroTable()
  {
    entries := stale;
    var k := 0;
    while k < ENTRIES
      invariant 0 <= k <= ENTRIES && |entries| == ENTRIES
      invariant forall j :: 0 <= j < k ==> entries[j] == 0
    {
      entries := entries[k := 0];
      k := k + 1;
    }
  }

  /**
   * One "create the missing table" step of `map_page_internal`: take a frame
   * from the allocator (0 when it has none), write the table entry into
   * slot `i` of `t`, then clear the frame's 512 entries.
   */
  method InstallTable(s: Space, t: Frame, i: nat, ghost level: map<Frame, nat>, ghost parent: map<Frame, (Frame, nat)>)
    returns (f: bv64, s': Space, ghost level': map<Frame, nat>, ghost parent': map<Frame, (Frame, nat)>)
    requires Valid(s, level, parent) && t in s.tables && i < ENTRIES && level[t] >= 2 && !Present(s.tables[t][i])
    ensures Valid(s', level', parent') && Extends(s, s', level, level')
    ensures f == 0 <==> s.pool == map[]
    ensures f == 0 ==> s' == s && level' == level && parent' == parent
    ensures f != 0 ==> Frame(f) in s.pool && s'.pool == s.pool - {Frame(f)}
                       && s'.tables == Install(s.tables, t, i, Frame(f))
                       && level' == level[Frame(f) := level[t] - 1] && parent' == parent[Frame(f) := (t, i)]
  {
    if s.pool == map[] {
      ExtendsRefl(s, level, parent);
      return 0, s, level, parent;
    }
    var fr :| fr in s.pool;
    f := fr.addr;
    assert Frame(f) == fr;
    var linked := s.tables[t := s.tables[t][i := TableEntry(fr.addr)]];
    var entries := ClearTable(s.pool[fr]);
    s' := Space(s.root, linked[fr := entries], s.pool - {fr});
    level', parent' := level[fr := level[t] - 1], parent[fr := (t, i)];
    InstallExtends(s, level, parent, t, i, fr);
  }

  /**
   * Get or create the table below slot `i` of `t` (one of the three blocks
   * of `map_page_internal`): a present slot leads on; an absent one gets a
   * frame from the allocator, and fails with -1 when there is none.
   */
  method EnsureTable(s: Space, t: Frame, i: nat, ghost level: map<Frame, nat>, ghost parent: map<Frame, (Frame, nat)>)
    returns (r: int, next: Frame, s': Space, ghost level': map<Frame, nat>, ghost parent': map<Frame, (Frame, nat)>)
    requires Valid(s, level, parent) && t in s.tables && i < ENTRIES && level[t] >= 2
    requires !(t == s.root && i == RECURSIVE_INDEX)
    ensures Valid(s', level', parent') && Extends(s, s', level, level')
    ensures r == 0 || r == -1
    ensures r == -1 <==> !Present(s.tables[t][i]) && s.pool == map[]
    ensures r == -1 || Present(s.tables[t][i]) ==> s' == s && level' == level
    ensures r == 0 ==> Next(s'.tables, t, i) == Some(next) && next in level' && level'[next] == level[t] - 1
  {
    if Present(s.tables[t][i]) {
      next := Frame(Addr(s.tables[t][i]));
      assert Links(s.tables, level, parent, t, i);
      ExtendsRefl(s, level, parent);
      return 0, next, s, level, parent;
    }
    var f;
    f, s', level', parent' := InstallTable(s, t, i, level, parent);
    if f == 0 {
      return -1, s.root, s', level', parent';
    }
    next := Frame(f);
    NextAfterInstall(s.tables, s.root, level, parent, t, i, next, t, i);
    r := 0;
  }

  /**
   * The three get-or-create blocks of `map_page_internal` for the slots
   * a, b, c of an address: on success the walk reaches page table `t1`; on
   * failure the allocator ran dry, and the tables created before stay
   * installed.
   */
  method EnsureWalk(s: Space, a: nat, b: nat, c: nat, ghost level: map<Frame, nat>, ghost parent: map<Frame, (Frame, nat)>)
    returns (r: int, t1: Frame, s': Space, ghost level': map<Frame, nat>, ghost parent': map<Frame, (Frame, nat)>)
    requires Valid(s, level, parent) && a < ENTRIES && b < ENTRIES && c < ENTRIES && a != RECURSIVE_INDEX
    ensures Valid(s', level', parent') && Extends(s, s', level, level')
    ensures r == 0 || r == -1
    ensures r == 0 ==> WalkTo(s'.tables, s'.root, a, b, c) == Some(t1)
    ensures r == -1 ==> s'.pool == map[]
  {
    var t3, s3;
    ghost var l3, p3;
    r, t3, s3, l3, p3 := EnsureTable(s, s.root, a, level, parent);
    if r != 0 {
      return r, s.root, s3, l3, p3;
    }
    r, t1, s', level', parent' := EnsureBelow(s3, t3, b, c, l3, p3);
    ExtendsTrans(s, s3, s', level, l3, level');
  }

  /** The PDP and PD blocks of `map_page_internal`, below PDP table `t`. */
  method EnsureBelow(s: Space, t: Frame, b: nat, c: nat, ghost level: map<Frame, nat>, ghost parent: map<Frame, (Frame, nat)>)
    returns (r: int, t1: Frame, s': Space, ghost level': map<Frame, nat>, ghost parent': map<Frame, (Frame, nat)>)
    requires Valid(s, level, parent) && t in s.tables && level[t] == 3 && b < ENTRIES && c < ENTRIES
    ensures Valid(s', level', parent') && Extends(s, s', level, level')
    ensures r == 0 || r == -1
    ensures r == 0 ==> Next(s'.tables, t, b).Some? && Next(s'.tables, Next(s'.tables, t, b).value, c) == Some(t1)
    ensures r == -1 ==> s'.pool == map[]
  {
    var t2, s2;
    ghost var l2, p2;
    r, t2, s2, l2, p2 := EnsureTable(s, t, b, level, parent);
    if r != 0 {
      return r, t, s2, l2, p2;
    }
    r, t1, s', level', parent' := EnsureTable(s2, t2, c, l2, p2);
    ExtendsTrans(s, s2, s', level, l2, level');
  }

  /** A space extension changes no address outside slot 510. */
  lemma ExtendsLeaf(s: Space, s': Space, level: map<Frame, nat>, level': map<Frame, nat>, w: bv64)
    requires Extends(s, s', level, level') && I4(w) != RECURSIVE_INDEX
    ensures LeafEntry(s'.tables, s.root, w) == LeafEntry(s.tables, s.root, w)
  {
    assert EntryAt(s'.tables, s.root, I4(w), I3(w), I2(w), I1(w)) == EntryAt(s.tables, s.root, I4(w), I3(w), I2(w), I1(w));
  }

  /** A space extension changes no address outside slot 510. */
  lemma ExtendsFrame(s: Space, s': Space, level: map<Frame, nat>, level': map<Frame, nat>)
    requires Extends(s, s', level, level')
    ensures s.tables.Keys <= s'.tables.Keys && s'.pool.Keys <= s.pool.Keys
    ensures s'.tables.Keys - s.tables.Keys == s.pool.Keys - s'.pool.Keys
    ensures forall w :: I4(w) != RECURSIVE_INDEX ==> LeafEntry(s'.tables, s.root, w) == LeafEntry(s.tables, s.root, w)
  {
    forall w | I4(w) != RECURSIVE_INDEX
      ensures LeafEntry(s'.tables, s.root, w) == LeafEntry(s.tables, s.root, w)
    {
      ExtendsLeaf(s, s', level, level', w);
    }
  }

  /** The page-table write at the end of `map_page_internal` and in `unmap_page`. */
  function WriteLeaf(s: Space, t1: Frame, virt: bv64, e: bv64): (s': Space)
    requires t1 in s.tables && |s.tables[t1]| == ENTRIES
    ensures s'.root == s.root && s'.pool == s.pool && s'.tables.Keys == s.tables.Keys
  {
    s.(tables := s.tables[t1 := s.tables[t1][I1(virt) := e]])
  }

  /**
   * `map_page_internal`: an already mapped page is rewritten in place (and,
   * as in the source, not invalidated); otherwise the missing tables are
   * created and the entry is written and invalidated.  -1 means the
   * allocator ran dry, with the tables created so far left installed.
   * `flushed` lists the addresses passed to `invlpg`.
   */
  method MapPageInternal(s: Space, phys: bv64, virt: bv64, flags: bv64,
                         ghost level: map<Frame, nat>, ghost parent: map<Frame, (Frame, nat)>)
    returns (r: int, s': Space, ghost level': map<Frame, nat>, ghost parent': map<Frame, (Frame, nat)>,
             ghost flushed: seq<bv64>)
    requires Valid(s, level, parent) && I4(virt) != RECURSIVE_INDEX
    ensures Valid(s', level', parent') && s'.root == s.root
    ensures r == 0 || r == -1
    ensures r == 0 ==> LeafEntry(s'.tables, s.root, virt) == AsLeaf(MappedEntry(phys, flags))
    ensures r == -1 ==> s'.pool == map[] && LeafEntry(s'.tables, s.root, virt).None? && flushed == []
    ensures LeafEntry(s.tables, s.root, virt).Some? ==> r == 0 && s'.pool == s.pool && flushed == []
    ensures LeafEntry(s.tables, s.root, virt).None? && r == 0 ==> flushed == [virt]
    ensures s.tables.Keys <= s'.tables.Keys && s'.pool.Keys <= s.pool.Keys
    ensures s'.tables.Keys - s.tables.Keys == s.pool.Keys - s'.pool.Keys
    ensures forall w :: I4(w) != RECURSIVE_INDEX && PageKey(w) != PageKey(virt) ==>
              LeafEntry(s'.tables, s.root, w) == LeafEntry(s.tables, s.root, w)
  {
    var e := MappedEntry(phys, flags);
    if IsPageMapped(s, virt) {
      var t1 := LeafTable(s.tables, s.root, virt).value;
      LeafWriteEffect(s.tables, s.root, level, parent, virt, e);
      return 0, WriteLeaf(s, t1, virt, e), level, parent, [];
    }
    r, s', level', parent', flushed := MapUnmapped(s, virt, e, level, parent);
  }

  /** The path of `map_page_internal` for a page not yet mapped: build the walk, then store the leaf. */
  method MapUnmapped(s: Space, virt: bv64, e: bv64, ghost level: map<Frame, nat>, ghost parent: map<Frame, (Frame, nat)>)
    returns (r: int, s': Space, ghost level': map<Frame, nat>, ghost parent': map<Frame, (Frame, nat)>,
             ghost flushed: seq<bv64>)
    requires Valid(s, level, parent) && I4(virt) != RECURSIVE_INDEX && LeafEntry(s.tables, s.root, virt).None?
    ensures Valid(s', level', parent') && s'.root == s.root
    ensures r == 0 || r == -1
    ensures r == 0 ==> LeafEntry(s'.tables, s.root, virt) == AsLeaf(e) && flushed == [virt]
    ensures r == -1 ==> s'.pool == map[] && LeafEntry(s'.tables, s.root, virt).None? && flushed == []
    ensures s.tables.Keys <= s'.tables.Keys && s'.pool.Keys <= s.pool.Keys
    ensures s'.tables.Keys - s.tables.Keys == s.pool.Keys - s'.pool.Keys
    ensures forall w :: I4(w) != RECURSIVE_INDEX && PageKey(w) != PageKey(virt) ==>
              LeafEntry(s'.tables, s.root, w) == LeafEntry(s.tables, s.root, w)
  {
    var t1, s1;
    ghost var l1, p1;
    r, t1, s1, l1, p1 := EnsureWalk(s, I4(virt), I3(virt), I2(virt), level, parent);
    ExtendsFrame(s, s1, level, l1);
    if r != 0 {
      return r, s1, l1, p1, [];
    }
    LeafWriteEffect(s1.tables, s.root, l1, p1, virt, e);
    return 0, WriteLeaf(s1, t1, virt, e), l1, p1, [virt];
  }

  /** Two addresses with the same four indices read the same entry. */
  lemma SameIndicesSameEntry(tables: Tables, root: Frame, v: bv64, w: bv64)
    requires WellSized(tables) && root in tables
    requires I4(v) == I4(w) && I3(v) == I3(w) && I2(v) == I2(w) && I1(v) == I1(w)
    ensures LeafEntry(tables, root, v) == LeafEntry(tables, root, w)
  {
  }

  lemma SamePageSameEntry(tables: Tables, root: Frame, v: bv64, w: bv64)
    requires WellSized(tables) && root in tables && PageKey(v) == PageKey(w)
    ensures LeafEntry(tables, root, v) == LeafEntry(tables, root, w)
  {
    SamePageIffSameIndices(v, w);
  }

  lemma MaskedEntry(phys: bv64, flags: bv64)
    ensures MappedEntry(phys & PAGE_MASK, flags) == MappedEntry(phys, flags)
  {
  }

  /**
   * `map_page`: align both addresses down to a page, convert the caller's
   * flags, and map.  On success the page of `virt` reads the aligned `phys`
   * with the converted flags, which always include PRESENT.
   */
  method MapPage(s: Space, phys: bv64, virt: bv64, flags: bv64,
                 ghost level: map<Frame, nat>, ghost parent: map<Frame, (Frame, nat)>)
    returns (r: int, s': Space, ghost level': map<Frame, nat>, ghost parent': map<Frame, (Frame, nat)>,
             ghost flushed: seq<bv64>)
    requires Valid(s, level, parent) && I4(virt) != RECURSIVE_INDEX
    ensures Valid(s', level', parent') && s'.root == s.root
    ensures r == 0 || r == -1
    ensures r == 0 ==> LeafEntry(s'.tables, s.root, virt) == Some(MappedEntry(phys, EntryFlags(flags)))
    ensures r == -1 ==> s'.pool == map[] && LeafEntry(s'.tables, s.root, virt).None?
    ensures LeafEntry(s.tables, s.root, virt).Some? ==> r == 0 && s'.pool == s.pool
    ensures s.tables.Keys <= s'.tables.Keys && s'.pool.Keys <= s.pool.Keys
    ensures s'.tables.Keys - s.tables.Keys == s.pool.Keys - s'.pool.Keys
    ensures forall w :: I4(w) != RECURSIVE_INDEX && PageKey(w) != PageKey(virt) ==>
              LeafEntry(s'.tables, s.root, w) == LeafEntry(s.tables, s.root, w)
  {
    var v := virt & PAGE_MASK;
    MaskKeepsIndices(virt);
    SameIndicesSameEntry(s.tables, s.root, v, virt);
    SamePageIffSameIndices(v, virt);
    EntryFlagsExact(flags);
    MaskedEntry(phys, EntryFlags(flags));
    r, s', level', parent', flushed := MapPageInternal(s, phys & PAGE_MASK, v, EntryFlags(flags), level, parent);
    SameIndicesSameEntry(s'.tables, s.root, v, virt);
  }

  /**
   * `unmap_page`: -1 when the page is not mapped; otherwise its entry is
   * cleared (and invalidated) and nothing else changes: no table is freed.
   */
  method UnmapPage(s: Space, virt: bv64, ghost level: map<Frame, nat>, ghost parent: map<Frame, (Frame, nat)>)
    returns (r: int, s': Space, ghost flushed: seq<bv64>)
    requires Valid(s, level, parent) && I4(virt) != RECURSIVE_INDEX
    ensures Valid(s', level, parent) && s'.root == s.root && s'.pool == s.pool && s'.tables.Keys == s.tables.Keys
    ensures r == -1 <==> LeafEntry(s.tables, s.root, virt).None?
    ensures r == -1 ==> s' == s && flushed == []
    ensures r == 0 ==> flushed == [virt]
    ensures forall w :: PageKey(w) == PageKey(virt) ==> LeafEntry(s'.tables, s.root, w).None?
    ensures forall w :: PageKey(w) != PageKey(virt) ==> LeafEntry(s'.tables, s.root, w) == LeafEntry(s.tables, s.root, w)
  {
    if !IsPageMapped(s, virt) {
      return -1, s, [];
    }
    var t1 := LeafTable(s.tables, s.root, virt).value;
    LeafWriteEffect(s.tables, s.root, level, parent, virt, 0);
    s' := WriteLeaf(s, t1, virt, 0);
    forall w | PageKey(w) == PageKey(virt)
      ensures LeafEntry(s'.tables, s.root, w).None?
    {
      SamePageSameEntry(s'.tables, s.root, virt, w);
    }
    return 0, s', [virt];
  }

  // ---------------------------------------------------------------------
  // Translation after mapping
  // ---------------------------------------------------------------------

  lemma EntryFlagsBelowPage(flags: bv64)
    requires flags & PTE_NX == 0
    ensures EntryFlags(flags) & PAGE_MASK == 0
  {
    EntryFlagsExact(flags);
  }

  lemma EntryFlagsNx(flags: bv64)
    requires flags & PTE_NX != 0
    ensures EntryFlags(flags) & PAGE_MASK == PF_NX
  {
    EntryFlagsExact(flags);
  }

  lemma EntryFlagsNoAddr(flags: bv64)
    ensures EntryFlags(flags) & ADDR_MASK == 0
  {
    EntryFlagsExact(flags);
  }

  lemma TranslateBits(phys: bv64, f: bv64, virt: bv64, k: bv64)
    requires virt & PAGE_OFFSET_MASK == 0 && k < PAGE_BYTES
    ensures (((phys & PAGE_MASK) | f) & PAGE_MASK) | ((virt + k) & PAGE_OFFSET_MASK)
            == ((phys & PAGE_MASK) + k) | (f & PAGE_MASK)
  {
  }

  lemma TranslateFixedBits(phys: bv64, f: bv64, virt: bv64, k: bv64)
    requires virt & PAGE_OFFSET_MASK == 0 && k < PAGE_BYTES && Aligned(phys & PAGE_MASK) && f & ADDR_MASK == 0
    ensures Addr((phys & PAGE_MASK) | f) | ((virt + k) & PAGE_OFFSET_MASK) == (phys & PAGE_MASK) + k
  {
  }

  /** The entry of a mapped page, read at any byte `k` of the page. */
  lemma EntryAtOffset(s: Space, virt: bv64, k: bv64)
    requires WellSized(s.tables) && s.root in s.tables
    requires virt & PAGE_OFFSET_MASK == 0 && k < PAGE_BYTES
    ensures LeafEntry(s.tables, s.root, virt + k) == LeafEntry(s.tables, s.root, virt)
  {
    OffsetKeepsPage(virt, k);
    SameIndicesSameEntry(s.tables, s.root, virt + k, virt);
  }

  /**
   * After `map_page(phys, virt, flags)` without NX, byte `k` of the page
   * translates to byte `k` of the physical page.
   */
  lemma TranslateMapped(s: Space, phys: bv64, virt: bv64, flags: bv64, k: bv64)
    requires WellSized(s.tables) && s.root in s.tables
    requires LeafEntry(s.tables, s.root, virt) == Some(MappedEntry(phys, EntryFlags(flags)))
    requires virt & PAGE_OFFSET_MASK == 0 && k < PAGE_BYTES && flags & PTE_NX == 0
    ensures VirtualToPhysical(s, virt + k) == (phys & PAGE_MASK) + k
  {
    EntryAtOffset(s, virt, k);
    EntryFlagsBelowPage(flags);
    TranslateBits(phys, EntryFlags(flags), virt, k);
  }

  /**
   * With NX requested, `virtual_to_physical` keeps bit 63 of the entry: the
   * translation of byte `k` is the physical byte with bit 63 set.
   */
  lemma TranslateLeaksNx(s: Space, phys: bv64, virt: bv64, flags: bv64, k: bv64)
    requires WellSized(s.tables) && s.root in s.tables
    requires LeafEntry(s.tables, s.root, virt) == Some(MappedEntry(phys, EntryFlags(flags)))
    requires virt & PAGE_OFFSET_MASK == 0 && k < PAGE_BYTES && flags & PTE_NX != 0
    ensures VirtualToPhysical(s, virt + k) == ((phys & PAGE_MASK) + k) | PF_NX
  {
    EntryAtOffset(s, virt, k);
    EntryFlagsNx(flags);
    TranslateBits(phys, EntryFlags(flags), virt, k);
  }

  /** The corrected translation returns the physical byte whatever the flags,
    * for any physical page the hardware can address. */
  lemma TranslateFixedMapped(s: Space, phys: bv64, virt: bv64, flags: bv64, k: bv64)
    requires WellSized(s.tables) && s.root in s.tables
    requires LeafEntry(s.tables, s.root, virt) == Some(MappedEntry(phys, EntryFlags(flags)))
    requires virt & PAGE_OFFSET_MASK == 0 && k < PAGE_BYTES && Aligned(phys & PAGE_MASK)
    ensures VirtualToPhysicalFixed(s, virt + k) == (phys & PAGE_MASK) + k
  {
    EntryFlagsNoAddr(flags);
    TranslateFixedAt(s, phys, EntryFlags(flags), virt, k);
  }

  lemma TranslateFixedAt(s: Space, phys: bv64, f: bv64, virt: bv64, k: bv64)
    requires WellSized(s.tables) && s.root in s.tables
    requires LeafEntry(s.tables, s.root, virt) == Some(MappedEntry(phys, f))
    requires virt & PAGE_OFFSET_MASK == 0 && k < PAGE_BYTES && Aligned(phys & PAGE_MASK) && f & ADDR_MASK == 0
    ensures VirtualToPhysicalFixed(s, virt + k) == (phys & PAGE_MASK) + k
  {
    EntryAtOffset(s, virt, k);
    TranslateFixedBits(phys, f, virt, k);
  }

  // ---------------------------------------------------------------------
  // Ranges of pages: map_pages and unmap_pages
  // ---------------------------------------------------------------------

  /** The addresses of `n` consecutive pages from `v`, wrapping as the 64-bit sum does. */
  ghost function Pages(v: bv64, n: nat): (r: seq<bv64>)
    ensures |r| == n
    decreases n
  {
    if n == 0 then [] else [v] + Pages(v + PAGE_BYTES, n - 1)
  }

  lemma {:induction false} PagesStep(v: bv64, n: nat, k: nat)
    requires k + 1 < n
    ensures Pages(v, n)[k + 1] == Pages(v, n)[k] + PAGE_BYTES
    decreases n
  {
    if k > 0 {
      PagesStep(v + PAGE_BYTES, n - 1, k - 1);
    }
  }

  lemma PagesStepDown(v: bv64, n: nat, k: nat)
    requires 0 < k < n
    ensures Pages(v, n)[k] - PAGE_BYTES == Pages(v, n)[k - 1]
  {
    PagesStep(v, n, k - 1);
    BackOnePage(Pages(v, n)[k - 1]);
  }

  /** The address one page below page `k` of a run: page `k - 1` when there is one. */
  method PrevPage(x: bv64, ghost base: bv64, ghost pages: seq<bv64>, ghost k: nat) returns (y: bv64)
    requires pages == Pages(base, |pages|) && k < |pages| && x == pages[k]
    ensures 0 < k ==> y == pages[k - 1]
  {
    if 0 < k {
      PagesStepDown(base, |pages|, k);
    }
    y := x - PAGE_BYTES;
  }

  /** The address one page above page `k` of a run: page `k + 1` when there is one. */
  method NextPage(x: bv64, ghost base: bv64, ghost pages: seq<bv64>, ghost k: nat) returns (y: bv64)
    requires pages == Pages(base, |pages|) && k < |pages| && x == pages[k]
    ensures k + 1 < |pages| ==> y == pages[k + 1]
  {
    if k + 1 < |pages| {
      PagesStep(base, |pages|, k);
    }
    y := x + PAGE_BYTES;
  }

  lemma BackOnePage(a: bv64)
    ensures (a + PAGE_BYTES) - PAGE_BYTES == a
  {
  }

  /** None of the pages falls in the recursive window (PML4 slot 510). */
  ghost predicate OffWindow(pages: seq<bv64>)
  {
    forall j :: 0 <= j < |pages| ==> I4(pages[j]) != RECURSIVE_INDEX
  }

  /** The pages occupy pairwise different 4 KiB slots of the address space. */
  ghost predicate Distinct(pages: seq<bv64>)
  {
    forall j, k :: 0 <= j < k < |pages| ==> PageKey(pages[j]) != PageKey(pages[k])
  }

  /** Address `w` lies in none of the pages `lo..hi-1`. */
  ghost predicate Outside(w: bv64, pages: seq<bv64>, lo: nat, hi: nat)
  {
    forall j :: lo <= j < hi && j < |pages| ==> PageKey(pages[j]) != PageKey(w)
  }

  /** Pages `lo..hi-1` map frames `lo..hi-1` with entry flags `f`. */
  ghost predicate MapsRange(s: Space, pages: seq<bv64>, frames: seq<bv64>, f: bv64, lo: nat, hi: nat)
    requires WellSized(s.tables) && s.root in s.tables
    requires hi <= |pages| && hi <= |frames|
  {
    forall j :: lo <= j < hi ==> LeafEntry(s.tables, s.root, pages[j]) == Some(MappedEntry(frames[j], f))
  }

  /** Pages `lo..hi-1` are not mapped. */
  ghost predicate UnmappedRange(s: Space, pages: seq<bv64>, lo: nat, hi: nat)
    requires WellSized(s.tables) && s.root in s.tables && hi <= |pages|
  {
    forall j :: lo <= j < hi ==> LeafEntry(s.tables, s.root, pages[j]).None?
  }

  /** Every page outside `lo..hi-1` (and, when `offWindow`, outside slot 510) reads as in `s0`. */
  ghost predicate SameOutside(s: Space, s0: Space, pages: seq<bv64>, lo: nat, hi: nat, offWindow: bool)
    requires WellSized(s.tables) && s.root in s.tables && WellSized(s0.tables) && s0.root in s0.tables
  {
    forall w :: (!offWindow || I4(w) != RECURSIVE_INDEX) && Outside(w, pages, lo, hi) ==>
      LeafEntry(s.tables, s.root, w) == LeafEntry(s0.tables, s0.root, w)
  }

  /**
   * One more page `k` unmapped, at either end of the range `lo..hi-1`,
   * turns a range unmapped without it into one unmapped with it.
   */
  lemma UnmapStep(s: Space, s1: Space, s2: Space, pages: seq<bv64>, k: nat, lo: nat, hi: nat)
    requires WellSized(s.tables) && s.root in s.tables && s1.root == s.root && s2.root == s.root
    requires WellSized(s1.tables) && s.root in s1.tables && WellSized(s2.tables) && s.root in s2.tables
    requires lo <= k < hi <= |pages| && (k == lo || k == hi - 1)
    requires UnmappedRange(s1, pages, if k == lo then lo + 1 else lo, if k == lo then hi else hi - 1)
    requires SameOutside(s1, s, pages, if k == lo then lo + 1 else lo, if k == lo then hi else hi - 1, false)
    requires forall w :: PageKey(w) == PageKey(pages[k]) ==> LeafEntry(s2.tables, s.root, w).None?
    requires forall w :: PageKey(w) != PageKey(pages[k]) ==>
               LeafEntry(s2.tables, s.root, w) == LeafEntry(s1.tables, s.root, w)
    ensures UnmappedRange(s2, pages, lo, hi) && SameOutside(s2, s, pages, lo, hi, false)
  {
    var lo1, hi1 := if k == lo then lo + 1 else lo, if k == lo then hi else hi - 1;
    forall j | lo <= j < hi
      ensures LeafEntry(s2.tables, s.root, pages[j]).None?
    {
      if PageKey(pages[j]) != PageKey(pages[k]) {
        assert lo1 <= j < hi1;
      }
    }
    forall w | Outside(w, pages, lo, hi)
      ensures LeafEntry(s2.tables, s.root, w) == LeafEntry(s.tables, s.root, w)
    {
      assert PageKey(pages[k]) != PageKey(w);
      assert Outside(w, pages, lo1, hi1);
    }
  }

  /** `unmap_page` on page `k`, at either end of a range whose other pages are already unmapped. */
  method UnmapNext(s: Space, s0: Space, x: bv64, ghost pages: seq<bv64>, ghost k: nat, ghost lo: nat, ghost hi: nat,
                   ghost level: map<Frame, nat>, ghost parent: map<Frame, (Frame, nat)>)
    returns (s': Space)
    requires Valid(s, level, parent) && WellSized(s0.tables) && s0.root == s.root && s.root in s0.tables
    requires lo <= k < hi <= |pages| && (k == lo || k == hi - 1) && x == pages[k] && OffWindow(pages)
    requires UnmappedRange(s, pages, if k == lo then lo + 1 else lo, if k == lo then hi else hi - 1)
    requires SameOutside(s, s0, pages, if k == lo then lo + 1 else lo, if k == lo then hi else hi - 1, false)
    ensures Valid(s', level, parent) && s'.root == s.root && s'.pool == s.pool && s'.tables.Keys == s.tables.Keys
    ensures UnmappedRange(s', pages, lo, hi) && SameOutside(s', s0, pages, lo, hi, false)
  {
    var _, s2, _ := UnmapPage(s, x, level, parent);
    UnmapStep(s0, s, s2, pages, k, lo, hi);
    s' := s2;
  }

  /**
   * The inner rollback loop of `map_pages`, and `unmap_pages` read
   * downwards: unmap `n` pages, from page `top` down to page `top - n + 1`.
   */
  method UnmapDown(s: Space, u: bv64, n: nat, ghost base: bv64, ghost pages: seq<bv64>, ghost top: nat,
                   ghost level: map<Frame, nat>, ghost parent: map<Frame, (Frame, nat)>)
    returns (s': Space)
    requires Valid(s, level, parent) && pages == Pages(base, |pages|) && OffWindow(pages)
    requires top < |pages| && n <= top + 1 && u == pages[top]
    ensures Valid(s', level, parent) && s'.root == s.root && s'.pool == s.pool && s'.tables.Keys == s.tables.Keys
    ensures UnmappedRange(s', pages, top + 1 - n, top + 1)
    ensures SameOutside(s', s, pages, top + 1 - n, top + 1, false)
  {
    s' := s;
    var x := u;
    var j := 0;
    ghost var lo := top + 1;
    while j < n
      invariant j <= n && lo == top + 1 - j
      invariant Valid(s', level, parent) && s'.root == s.root && s'.pool == s.pool && s'.tables.Keys == s.tables.Keys
      invariant j < n ==> 0 < lo && x == pages[lo - 1]
      invariant UnmappedRange(s', pages, lo, top + 1)
      invariant SameOutside(s', s, pages, lo, top + 1, false)
    {
      s' := UnmapNext(s', s, x, pages, lo - 1, lo - 1, top + 1, level, parent);
      x := PrevPage(x, base, pages, lo - 1);
      j := j + 1;
      lo := lo - 1;
    }
  }

  /**
   * `unmap_pages`: align `virt` down, then unmap `count` pages upwards from
   * it, ignoring pages that were not mapped; the result is always 0.
   */
  method UnmapPages(s: Space, virt: bv64, count: nat, ghost level: map<Frame, nat>, ghost parent: map<Frame, (Frame, nat)>)
    returns (r: int, s': Space)
    requires Valid(s, level, parent) && OffWindow(Pages(virt & PAGE_MASK, count))
    ensures r == 0
    ensures Valid(s', level, parent) && s'.root == s.root && s'.pool == s.pool && s'.tables.Keys == s.tables.Keys
    ensures UnmappedRange(s', Pages(virt & PAGE_MASK, count), 0, count)
    ensures SameOutside(s', s, Pages(virt & PAGE_MASK, count), 0, count, false)
  {
    ghost var pages := Pages(virt & PAGE_MASK, count);
    var v := virt & PAGE_MASK;
    s' := s;
    var i := 0;
    while i < count
      invariant i <= count
      invariant Valid(s', level, parent) && s'.root == s.root && s'.pool == s.pool && s'.tables.Keys == s.tables.Keys
      invariant i < count ==> v == pages[i]
      invariant UnmappedRange(s', pages, 0, i)
      invariant SameOutside(s', s, pages, 0, i, false)
    {
      s' := UnmapNext(s', s, v, pages, i, 0, i + 1, level, parent);
      v := NextPage(v, virt & PAGE_MASK, pages, i);
      i := i + 1;
    }
    return 0, s';
  }

  /** The tables grow exactly by the frames taken from the pool. */
  ghost predicate Grows(s: Space, s': Space)
  {
    s.tables.Keys <= s'.tables.Keys && s'.pool.Keys <= s.pool.Keys
    && s'.tables.Keys - s.tables.Keys == s.pool.Keys - s'.pool.Keys
  }

  lemma GrowsTrans(s1: Space, s2: Space, s3: Space)
    requires Grows(s1, s2) && Grows(s2, s3)
    ensures Grows(s1, s3)
  {
    assert s3.tables.Keys - s1.tables.Keys == (s3.tables.Keys - s2.tables.Keys) + (s2.tables.Keys - s1.tables.Keys);
    assert s1.pool.Keys - s3.pool.Keys == (s2.pool.Keys - s3.pool.Keys) + (s1.pool.Keys - s2.pool.Keys);
  }

  /**
   * One `map_page` call of the `map_pages` loop: page `i` of the run is
   * mapped to frame `i`, extending the pages mapped so far; on failure page
   * `i` stays unmapped and the earlier pages keep their mappings.
   */
  method MapNext(s: Space, s0: Space, p: bv64, v: bv64, flags: bv64,
                 ghost pages: seq<bv64>, ghost frames: seq<bv64>, ghost i: nat,
                 ghost level: map<Frame, nat>, ghost parent: map<Frame, (Frame, nat)>)
    returns (r: int, s': Space, ghost level': map<Frame, nat>, ghost parent': map<Frame, (Frame, nat)>)
    requires Valid(s, level, parent) && WellSized(s0.tables) && s0.root == s.root && s.root in s0.tables
    requires i < |pages| <= |frames| && v == pages[i] && p == frames[i] && OffWindow(pages) && Distinct(pages)
    requires MapsRange(s, pages, frames, EntryFlags(flags), 0, i) && SameOutside(s, s0, pages, 0, i, true)
    ensures Valid(s', level', parent') && s'.root == s.root && Grows(s, s')
    ensures r == 0 || r == -1
    ensures r == 0 ==> MapsRange(s', pages, frames, EntryFlags(flags), 0, i + 1)
                       && SameOutside(s', s0, pages, 0, i + 1, true)
    ensures r == -1 ==> s'.pool == map[] && LeafEntry(s'.tables, s.root, v).None?
                        && MapsRange(s', pages, frames, EntryFlags(flags), 0, i)
                        && SameOutside(s', s0, pages, 0, i, true)
  {
    ghost var flushed;
    r, s', level', parent', flushed := MapPage(s, p, v, flags, level, parent);
    MapStep(s0, s, s', pages, frames, EntryFlags(flags), i, r == 0);
  }

  /** What one `map_page` call does to the run of pages mapped so far. */
  lemma MapStep(s0: Space, s1: Space, s2: Space, pages: seq<bv64>, frames: seq<bv64>, f: bv64, i: nat, ok: bool)
    requires WellSized(s0.tables) && s0.root in s0.tables && s1.root == s0.root && s2.root == s0.root
    requires WellSized(s1.tables) && s0.root in s1.tables && WellSized(s2.tables) && s0.root in s2.tables
    requires i < |pages| <= |frames| && OffWindow(pages) && Distinct(pages)
    requires MapsRange(s1, pages, frames, f, 0, i) && SameOutside(s1, s0, pages, 0, i, true)
    requires ok ==> LeafEntry(s2.tables, s0.root, pages[i]) == Some(MappedEntry(frames[i], f))
    requires !ok ==> LeafEntry(s2.tables, s0.root, pages[i]).None? && LeafEntry(s1.tables, s0.root, pages[i]).None?
    requires forall w :: I4(w) != RECURSIVE_INDEX && PageKey(w) != PageKey(pages[i]) ==>
               LeafEntry(s2.tables, s0.root, w) == LeafEntry(s1.tables, s0.root, w)
    ensures ok ==> MapsRange(s2, pages, frames, f, 0, i + 1) && SameOutside(s2, s0, pages, 0, i + 1, true)
    ensures !ok ==> MapsRange(s2, pages, frames, f, 0, i) && SameOutside(s2, s0, pages, 0, i, true)
  {
    forall j | 0 <= j < i
      ensures LeafEntry(s2.tables, s0.root, pages[j]) == Some(MappedEntry(frames[j], f))
    {
      assert PageKey(pages[j]) != PageKey(pages[i]) && I4(pages[j]) != RECURSIVE_INDEX;
    }
    forall w | I4(w) != RECURSIVE_INDEX && Outside(w, pages, 0, i + 1)
      ensures LeafEntry(s2.tables, s0.root, w) == LeafEntry(s0.tables, s0.root, w)
    {
      assert PageKey(pages[i]) != PageKey(w);
      assert Outside(w, pages, 0, i);
    }
    if !ok {
      forall w | I4(w) != RECURSIVE_INDEX && Outside(w, pages, 0, i)
        ensures LeafEntry(s2.tables, s0.root, w) == LeafEntry(s0.tables, s0.root, w)
      {
        if PageKey(w) == PageKey(pages[i]) {
          SamePageSameEntry(s2.tables, s0.root, w, pages[i]);
          SamePageSameEntry(s1.tables, s0.root, w, pages[i]);
        }
      }
    }
  }

  /** The run of `count` pages that `map_pages` and `unmap_pages` cover from `addr`, aligned down. */
  ghost function Run(addr: bv64, count: nat): (r: seq<bv64>)
    ensures |r| == count
  {
    Pages(addr & PAGE_MASK, count)
  }

  /**
   * The rollback loop of `map_pages` as written, entered when page `i`
   * failed: it unmaps `virt_addr - j*4096` for `j < i`, that is pages `i`
   * down to 1.  Page 0, mapped by the first iteration, keeps its mapping.
   */
  method RollbackAsWritten(s0: Space, s: Space, v: bv64, ghost base: bv64, ghost pages: seq<bv64>,
                           ghost frames: seq<bv64>, ghost f: bv64, i: nat,
                           ghost level: map<Frame, nat>, ghost parent: map<Frame, (Frame, nat)>)
    returns (s': Space)
    requires Valid(s, level, parent) && WellSized(s0.tables) && s0.root == s.root && s.root in s0.tables
    requires pages == Pages(base, |pages|) && OffWindow(pages) && Distinct(pages)
    requires i < |pages| <= |frames| && v == pages[i]
    requires MapsRange(s, pages, frames, f, 0, i) && SameOutside(s, s0, pages, 0, i, true)
    requires LeafEntry(s.tables, s.root, pages[i]).None?
    ensures Valid(s', level, parent) && s'.root == s.root && s'.pool == s.pool && s'.tables.Keys == s.tables.Keys
    ensures UnmappedRange(s', pages, 1, i + 1) && LeafEntry(s'.tables, s.root, pages[i]).None?
    ensures 1 <= i ==> MapsRange(s', pages, frames, f, 0, 1)
    ensures SameOutside(s', s0, pages, 0, i + 1, true)
  {
    s' := UnmapDown(s, v, i, base, pages, i, level, parent);
    if i == 0 {
      assert Outside(pages[0], pages, 1, 1);
    } else {
      assert Outside(pages[0], pages, 1, i + 1);
    }
    forall w | I4(w) != RECURSIVE_INDEX && Outside(w, pages, 0, i + 1)
      ensures LeafEntry(s'.tables, s.root, w) == LeafEntry(s0.tables, s.root, w)
    {
      assert Outside(w, pages, 1, i + 1) && Outside(w, pages, 0, i);
    }
  }

  /**
   * The rollback `map_pages` evidently intends, entered when page `i`
   * failed: it unmaps pages `i - 1` down to 0, so no page of `0..i` stays
   * mapped.
   */
  method RollbackFixed(s0: Space, s: Space, v: bv64, ghost base: bv64, ghost pages: seq<bv64>, i: nat,
                       ghost level: map<Frame, nat>, ghost parent: map<Frame, (Frame, nat)>)
    returns (s': Space)
    requires Valid(s, level, parent) && WellSized(s0.tables) && s0.root == s.root && s.root in s0.tables
    requires pages == Pages(base, |pages|) && OffWindow(pages) && Distinct(pages)
    requires i < |pages| && v == pages[i]
    requires SameOutside(s, s0, pages, 0, i, true) && LeafEntry(s.tables, s.root, pages[i]).None?
    ensures Valid(s', level, parent) && s'.root == s.root && s'.pool == s.pool && s'.tables.Keys == s.tables.Keys
    ensures UnmappedRange(s', pages, 0, i + 1)
    ensures SameOutside(s', s0, pages, 0, i + 1, true)
  {
    s' := s;
    if 0 < i {
      var u := PrevPage(v, base, pages, i);
      s' := UnmapDown(s, u, i, base, pages, i - 1, level, parent);
    }
    assert Outside(pages[i], pages, 0, i);
    forall w | I4(w) != RECURSIVE_INDEX && Outside(w, pages, 0, i + 1)
      ensures LeafEntry(s'.tables, s.root, w) == LeafEntry(s0.tables, s.root, w)
    {
      assert Outside(w, pages, 0, i);
    }
  }

  /** One iteration of the `map_pages` loop as written, rollback included. */
  method MapStepAsWritten(s0: Space, s: Space, p: bv64, v: bv64, flags: bv64, ghost base: bv64,
                          ghost pages: seq<bv64>, ghost frames: seq<bv64>, i: nat,
                          ghost level: map<Frame, nat>, ghost parent: map<Frame, (Frame, nat)>)
    returns (r: int, s': Space, ghost level': map<Frame, nat>, ghost parent': map<Frame, (Frame, nat)>)
    requires Valid(s, level, parent) && WellSized(s0.tables) && s0.root == s.root && s.root in s0.tables && Grows(s0, s)
    requires pages == Pages(base, |pages|) && OffWindow(pages) && Distinct(pages)
    requires i < |pages| <= |frames| && v == pages[i] && p == frames[i]
    requires MapsRange(s, pages, frames, EntryFlags(flags), 0, i) && SameOutside(s, s0, pages, 0, i, true)
    ensures Valid(s', level', parent') && s'.root == s.root && Grows(s0, s')
    ensures r == 0 || r == -1
    ensures r == 0 ==> MapsRange(s', pages, frames, EntryFlags(flags), 0, i + 1)
                       && SameOutside(s', s0, pages, 0, i + 1, true)
    ensures r == -1 ==> s'.pool == map[]
                        && UnmappedRange(s', pages, 1, i + 1) && LeafEntry(s'.tables, s.root, pages[i]).None?
                        && (1 <= i ==> MapsRange(s', pages, frames, EntryFlags(flags), 0, 1))
                        && SameOutside(s', s0, pages, 0, i + 1, true)
  {
    r, s', level', parent' := MapNext(s, s0, p, v, flags, pages, frames, i, level, parent);
    GrowsTrans(s0, s, s');
    if r != 0 {
      s' := RollbackAsWritten(s0, s', v, base, pages, frames, EntryFlags(flags), i, level', parent');
    }
  }

  /** One iteration of the `map_pages` loop with the corrected rollback. */
  method MapStepFixed(s0: Space, s: Space, p: bv64, v: bv64, flags: bv64, ghost base: bv64,
                      ghost pages: seq<bv64>, ghost frames: seq<bv64>, i: nat,
                      ghost level: map<Frame, nat>, ghost parent: map<Frame, (Frame, nat)>)
    returns (r: int, s': Space, ghost level': map<Frame, nat>, ghost parent': map<Frame, (Frame, nat)>)
    requires Valid(s, level, parent) && WellSized(s0.tables) && s0.root == s.root && s.root in s0.tables && Grows(s0, s)
    requires pages == Pages(base, |pages|) && OffWindow(pages) && Distinct(pages)
    requires i < |pages| <= |frames| && v == pages[i] && p == frames[i]
    requires MapsRange(s, pages, frames, EntryFlags(flags), 0, i) && SameOutside(s, s0, pages, 0, i, true)
    ensures Valid(s', level', parent') && s'.root == s.root && Grows(s0, s')
    ensures r == 0 || r == -1
    ensures r == 0 ==> MapsRange(s', pages, frames, EntryFlags(flags), 0, i + 1)
                       && SameOutside(s', s0, pages, 0, i + 1, true)
    ensures r == -1 ==> s'.pool == map[] && UnmappedRange(s', pages, 0, i + 1)
                        && SameOutside(s', s0, pages, 0, i + 1, true)
  {
    r, s', level', parent' := MapNext(s, s0, p, v, flags, pages, frames, i, level, parent);
    GrowsTrans(s0, s, s');
    if r != 0 {
      s' := RollbackFixed(s0, s', v, base, pages, i, level', parent');
    }
  }

  /**
   * `map_pages` as written: align both addresses down and map `count`
   * consecutive pages to consecutive frames.  When page `failedAt` cannot
   * be mapped, the rollback unmaps the pages `failedAt`, `failedAt - 1`,
   * ..., 1 (it starts from the failing page), so the first page stays
   * mapped: the range is left partially mapped.
   */
  method MapPages(s: Space, phys: bv64, virt: bv64, count: nat, flags: bv64,
                  ghost level: map<Frame, nat>, ghost parent: map<Frame, (Frame, nat)>)
    returns (r: int, s': Space, ghost level': map<Frame, nat>, ghost parent': map<Frame, (Frame, nat)>,
             ghost failedAt: nat)
    requires Valid(s, level, parent) && OffWindow(Run(virt, count)) && Distinct(Run(virt, count))
    ensures Valid(s', level', parent') && s'.root == s.root && Grows(s, s')
    ensures r == 0 || r == -1
    ensures r == 0 ==> MapsRange(s', Run(virt, count), Run(phys, count), EntryFlags(flags), 0, count)
                       && SameOutside(s', s, Run(virt, count), 0, count, true)
    ensures r == -1 ==> failedAt < count && s'.pool == map[]
                        && UnmappedRange(s', Run(virt, count), 1, failedAt + 1)
                        && LeafEntry(s'.tables, s.root, Run(virt, count)[failedAt]).None?
                        && (1 <= failedAt ==> MapsRange(s', Run(virt, count), Run(phys, count), EntryFlags(flags), 0, 1))
                        && SameOutside(s', s, Run(virt, count), 0, failedAt + 1, true)
  {
    ghost var pages, frames := Run(virt, count), Run(phys, count);
    var pbase, vbase := phys & PAGE_MASK, virt & PAGE_MASK;
    var p, v := pbase, vbase;
    s', level', parent' := s, level, parent;
    var i := 0;
    while i < count
      invariant i <= count
      invariant Valid(s', level', parent') && s'.root == s.root && Grows(s, s')
      invariant i < count ==> v == pages[i] && p == frames[i]
      invariant MapsRange(s', pages, frames, EntryFlags(flags), 0, i) && SameOutside(s', s, pages, 0, i, true)
    {
      r, s', level', parent' := MapStepAsWritten(s, s', p, v, flags, vbase, pages, frames, i, level', parent');
      if r != 0 {
        return r, s', level', parent', i;
      }
      p := NextPage(p, pbase, frames, i);
      v := NextPage(v, vbase, pages, i);
      i := i + 1;
    }
    return 0, s', level', parent', count;
  }

  /**
   * `map_pages` with the rollback it evidently intends: on failure at page
   * `failedAt`, the pages `failedAt - 1` down to 0 are unmapped, so no page
   * of the range is left mapped.
   */
  method MapPagesFixed(s: Space, phys: bv64, virt: bv64, count: nat, flags: bv64,
                       ghost level: map<Frame, nat>, ghost parent: map<Frame, (Frame, nat)>)
    returns (r: int, s': Space, ghost level': map<Frame, nat>, ghost parent': map<Frame, (Frame, nat)>,
             ghost failedAt: nat)
    requires Valid(s, level, parent) && OffWindow(Run(virt, count)) && Distinct(Run(virt, count))
    ensures Valid(s', level', parent') && s'.root == s.root && Grows(s, s')
    ensures r == 0 || r == -1
    ensures r == 0 ==> MapsRange(s', Run(virt, count), Run(phys, count), EntryFlags(flags), 0, count)
                       && SameOutside(s', s, Run(virt, count), 0, count, true)
    ensures r == -1 ==> failedAt < count && s'.pool == map[]
                        && UnmappedRange(s', Run(virt, count), 0, failedAt + 1)
                        && SameOutside(s', s, Run(virt, count), 0, failedAt + 1, true)
  {
    ghost var pages, frames := Run(virt, count), Run(phys, count);
    r, s', level', parent', failedAt := MapRunFixed(s, phys & PAGE_MASK, virt & PAGE_MASK, count, flags, pages, frames, level, parent);
  }

  /** The loop of the corrected `map_pages`, over the page-aligned runs. */
  method MapRunFixed(s: Space, pbase: bv64, vbase: bv64, count: nat, flags: bv64,
                     ghost pages: seq<bv64>, ghost frames: seq<bv64>,
                     ghost level: map<Frame, nat>, ghost parent: map<Frame, (Frame, nat)>)
    returns (r: int, s': Space, ghost level': map<Frame, nat>, ghost parent': map<Frame, (Frame, nat)>,
             ghost failedAt: nat)
    requires Valid(s, level, parent) && pages == Pages(vbase, count) && frames == Pages(pbase, count)
    requires OffWindow(pages) && Distinct(pages)
    ensures Valid(s', level', parent') && s'.root == s.root && Grows(s, s')
    ensures r == 0 || r == -1
    ensures r == 0 ==> MapsRange(s', pages, frames, EntryFlags(flags), 0, count)
                       && SameOutside(s', s, pages, 0, count, true)
    ensures r == -1 ==> failedAt < count && s'.pool == map[]
                        && UnmappedRange(s', pages, 0, failedAt + 1)
                        && SameOutside(s', s, pages, 0, failedAt + 1, true)
  {
    var p, v := pbase, vbase;
    s', level', parent' := s, level, parent;
    var i := 0;
    while i < count
      invariant i <= count
      invariant Valid(s', level', parent') && s'.root == s.root && Grows(s, s')
      invariant i < count ==> v == pages[i] && p == frames[i]
      invariant MapsRange(s', pages, frames, EntryFlags(flags), 0, i) && SameOutside(s', s, pages, 0, i, true)
    {
      r, s', level', parent' := MapStepFixed(s, s', p, v, flags, vbase, pages, frames, i, level', parent');
      if r != 0 {
        return r, s', level', parent', i;
      }
      p := NextPage(p, pbase, frames, i);
      v := NextPage(v, vbase, pages, i);
      i := i + 1;
    }
    return 0, s', level', parent', count;
  }

  // ---------------------------------------------------------------------
  // The entry accesses as written
  // ---------------------------------------------------------------------

  /**
   * A load or store at virtual address `w` whose page is itself a table:
   * that table and the slot of `w` in it.  None when the walk of `w` stops,
   * which is a page fault, or ends in a page that is not a table, which the
   * model does not hold.
   */
  function Slot(tables: Tables, root: Frame, w: bv64): (r: Option<(Frame, nat)>)
    requires WellSized(tables) && root in tables
    ensures r.Some? ==> r.value.0 in tables && r.value.1 < ENTRIES
  {
    match LeafEntry(tables, root, w)
    case None => None
    case Some(e) => if Frame(Addr(e)) in tables then Some((Frame(Addr(e)), Idx(w >> 3))) else None
  }

  /** The 64-bit load at `w`, when `w` lands in a table. */
  function Load(tables: Tables, root: Frame, w: bv64): Option<bv64>
    requires WellSized(tables) && root in tables
  {
    match Slot(tables, root, w)
    case None => None
    case Some(p) => Some(tables[p.0][p.1])
  }

  /** The entry pointers `get_pdp_entry`, `get_pd_entry` and `get_pt_entry`
    * return: the as-written window plus eight bytes per index. */
  function PdpEntryAsWritten(v: bv64): bv64 { PdpWindowAsWritten(v) + (((v >> 30) & 0x1FF) << 3) }
  function PdEntryAsWritten(v: bv64): bv64 { PdWindowAsWritten(v) + (((v >> 21) & 0x1FF) << 3) }
  function PtEntryAsWritten(v: bv64): bv64 { PtWindowAsWritten(v) + (((v >> 12) & 0x1FF) << 3) }

  /**
   * The presence chain of `is_page_mapped` over the PML4 entry and the
   * three loads after it: false at the first absent entry, None when a load
   * that is reached faults.
   */
  function Probe(top: bv64, l3: Option<bv64>, l2: Option<bv64>, l1: Option<bv64>): Option<bool>
  {
    if !Present(top) then Some(false)
    else match l3
    case None => None
    case Some(e3) =>
      if !Present(e3) then Some(false)
      else match l2
      case None => None
      case Some(e2) =>
        if !Present(e2) then Some(false)
        else match l1
        case None => None
        case Some(e1) => Some(Present(e1))
  }

  /**
   * `is_page_mapped` as written: the PML4 entry is read directly, the
   * other three through the as-written windows.  None when one of those
   * reads faults or lands outside the tables.
   */
  function IsPageMappedAsWritten(s: Space, v: bv64): Option<bool>
    requires WellSized(s.tables) && s.root in s.tables
  {
    Probe(s.tables[s.root][I4(v)], Load(s.tables, s.root, PdpEntryAsWritten(v)),
          Load(s.tables, s.root, PdEntryAsWritten(v)), Load(s.tables, s.root, PtEntryAsWritten(v)))
  }

  /** `virtual_to_physical` as written, through the as-written PT window. */
  function VirtualToPhysicalAsWritten(s: Space, v: bv64): Option<bv64>
    requires WellSized(s.tables) && s.root in s.tables
  {
    match IsPageMappedAsWritten(s, v)
    case None => None
    case Some(mapped) =>
      if !mapped then Some(0)
      else match Load(s.tables, s.root, PtEntryAsWritten(v))
      case None => None
      case Some(e) => Some((e & PAGE_MASK) | (v & PAGE_OFFSET_MASK))
  }

  /** `unmap_page` as written: the store of 0 goes through the as-written PT window. */
  function UnmapPageAsWritten(s: Space, v: bv64): Option<(int, Space)>
    requires WellSized(s.tables) && s.root in s.tables
  {
    match IsPageMappedAsWritten(s, v)
    case None => None
    case Some(mapped) =>
      if !mapped then Some((-1, s))
      else match Slot(s.tables, s.root, PtEntryAsWritten(v))
      case None => None
      case Some(p) => Some((0, s.(tables := s.tables[p.0 := s.tables[p.0][p.1 := 0]])))
  }

  /**
   * A load in the recursive region (PML4 index 510) reads a table entry:
   * the walk of the address's next three indices picks the table, and
   * bits 3-11 of the address pick the slot.
   */
  lemma RecursiveRead(tables: Tables, root: Frame, w: bv64)
    requires WellSized(tables) && root in tables && RecursiveSlot(tables, root) && I4(w) == RECURSIVE_INDEX
    ensures Slot(tables, root, w).Some? <==> WalkTo(tables, root, I3(w), I2(w), I1(w)).Some?
    ensures Slot(tables, root, w).Some? ==>
              Slot(tables, root, w).value == (WalkTo(tables, root, I3(w), I2(w), I1(w)).value, Idx(w >> 3))
  {
    assert Next(tables, root, RECURSIVE_INDEX) == Some(root);
  }

  /** The indices of an address below 2 MiB, and where its three window
    * pointers land in the recursive region. */
  lemma LowIndices(v: bv64)
    requires v < 0x20_0000
    ensures I4(v) == 0 && I3(v) == 0 && I2(v) == 0
    ensures var w := PdpEntryAsWritten(v);
      I4(w) == RECURSIVE_INDEX && I3(w) == RECURSIVE_INDEX && I2(w) == RECURSIVE_INDEX && I1(w) == 0 && Idx(w >> 3) == 0
    ensures var w := PdEntryAsWritten(v);
      I4(w) == RECURSIVE_INDEX && I3(w) == RECURSIVE_INDEX && I2(w) == 0 && I1(w) == 0 && Idx(w >> 3) == 0
    ensures var w := PtEntryAsWritten(v);
      I4(w) == RECURSIVE_INDEX && I3(w) == 0 && I2(w) == 0 && I1(w) == 0 && Idx(w >> 3) == I1(v)
  {
  }

  /** Below 2 MiB, the as-written loads of `is_page_mapped` read slot 0 of
    * the PDP table, slot 0 of the page directory and slot I1(v) of the page
    * table that the walk of v passes through. */
  lemma LowLoads(tables: Tables, root: Frame, v: bv64)
    requires WellSized(tables) && root in tables && RecursiveSlot(tables, root) && v < 0x20_0000
    ensures I4(v) == 0 && I3(v) == 0 && I2(v) == 0
    ensures Load(tables, root, PdpEntryAsWritten(v)) ==
              if Next(tables, root, 0).Some? then Some(tables[Next(tables, root, 0).value][0]) else None
    ensures Next(tables, root, 0).Some? ==>
              var t3 := Next(tables, root, 0).value;
              Load(tables, root, PdEntryAsWritten(v)) ==
                if Next(tables, t3, 0).Some? then Some(tables[Next(tables, t3, 0).value][0]) else None
    ensures Load(tables, root, PtEntryAsWritten(v)) ==
              if WalkTo(tables, root, 0, 0, 0).Some? then Some(tables[WalkTo(tables, root, 0, 0, 0).value][I1(v)]) else None
  {
    LowIndices(v);
    RecursiveRead(tables, root, PdpEntryAsWritten(v));
    RecursiveRead(tables, root, PdEntryAsWritten(v));
    RecursiveRead(tables, root, PtEntryAsWritten(v));
    assert Next(tables, root, RECURSIVE_INDEX) == Some(root);
  }

  /**
   * Below 2 MiB every index above the page-table one is 0, so the
   * as-written windows reach v's own tables: `is_page_mapped` and
   * `virtual_to_physical` as written read what the walk reads.
   */
  lemma LowAddressesAgree(s: Space, v: bv64, level: map<Frame, nat>, parent: map<Frame, (Frame, nat)>)
    requires Sound(s.tables, s.root, level, parent) && v < 0x20_0000
    ensures IsPageMappedAsWritten(s, v) == Some(IsPageMapped(s, v))
    ensures VirtualToPhysicalAsWritten(s, v) == Some(VirtualToPhysical(s, v))
  {
    LowMappedAgree(s, v, level, parent);
    LowLoads(s.tables, s.root, v);
  }

  lemma LowMappedAgree(s: Space, v: bv64, level: map<Frame, nat>, parent: map<Frame, (Frame, nat)>)
    requires Sound(s.tables, s.root, level, parent) && v < 0x20_0000
    ensures IsPageMappedAsWritten(s, v) == Some(IsPageMapped(s, v))
  {
    var T, root := s.tables, s.root;
    LowLoads(T, root, v);
    if Present(T[root][0]) {
      assert Links(T, level, parent, root, 0);
      var t3 := Next(T, root, 0).value;
      NextLevel(T, root, level, parent, root, 0);
      if Present(T[t3][0]) {
        assert Links(T, level, parent, t3, 0);
        var t2 := Next(T, t3, 0).value;
        NextLevel(T, root, level, parent, t3, 0);
        if Present(T[t2][0]) {
          assert Links(T, level, parent, t2, 0);
        }
      }
    }
  }

  /** Address 0x200000 has PD index 1, yet `get_pt_entry`'s pointer for it,
    * like the table `map_page_internal` clears for it, is entry 0 of the page
    * table that PD slot 0 names: the table of page 0. */
  lemma TwoMiBWindow(tables: Tables, root: Frame)
    requires WellSized(tables) && root in tables && RecursiveSlot(tables, root)
    ensures I4(0x20_0000) == 0 && I3(0x20_0000) == 0 && I2(0x20_0000) == 1 && I1(0x20_0000) == 0
    ensures PtEntryAsWritten(0x20_0000) == PtWindowAsWritten(0x20_0000) == PtWindowAsWritten(0)
    ensures Slot(tables, root, PtEntryAsWritten(0x20_0000)).Some? <==> WalkTo(tables, root, 0, 0, 0).Some?
    ensures Slot(tables, root, PtEntryAsWritten(0x20_0000)).Some? ==>
              Slot(tables, root, PtEntryAsWritten(0x20_0000)).value == (WalkTo(tables, root, 0, 0, 0).value, 0)
  {
    var w := PtEntryAsWritten(0x20_0000);
    assert w == 0xFFFF_FF00_0000_0000;
    assert I4(w) == RECURSIVE_INDEX && I3(w) == 0 && I2(w) == 0 && I1(w) == 0 && Idx(w >> 3) == 0;
    RecursiveRead(tables, root, w);
  }

  /**
   * With the page tables of pages 0 and 0x200000 both present, the two are
   * different tables; `is_page_mapped(0x200000)` as written reports page 0's
   * entry, and `unmap_page(0x200000)` as written clears page 0's mapping
   * and leaves 0x200000 mapped.
   */
  lemma TwoMiBAsWritten(s: Space, level: map<Frame, nat>, parent: map<Frame, (Frame, nat)>, t0: Frame, t1: Frame)
    requires Sound(s.tables, s.root, level, parent)
    requires WalkTo(s.tables, s.root, 0, 0, 0) == Some(t0) && WalkTo(s.tables, s.root, 0, 0, 1) == Some(t1)
    ensures t0 != t1
    ensures IsPageMapped(s, 0x20_0000) == Present(s.tables[t1][0])
    ensures IsPageMappedAsWritten(s, 0x20_0000) == Some(Present(s.tables[t0][0]))
    ensures Present(s.tables[t0][0]) ==>
              UnmapPageAsWritten(s, 0x20_0000) == Some((0, s.(tables := s.tables[t0 := s.tables[t0][0 := 0]])))
  {
    var T, root, v := s.tables, s.root, 0x20_0000 as bv64;
    TwoMiBWindow(T, root);
    assert PdpEntryAsWritten(v) == PDP_SELF_REF && PdEntryAsWritten(v) == PD_SELF_REF + 8;
    RecursiveRead(T, root, PdpEntryAsWritten(v));
    RecursiveRead(T, root, PdEntryAsWritten(v));
    assert Next(T, root, RECURSIVE_INDEX) == Some(root);
    var t3 := Next(T, root, 0).value;
    var t2 := Next(T, t3, 0).value;
    NextLevel(T, root, level, parent, root, 0);
    NextLevel(T, root, level, parent, t3, 0);
    NextLevel(T, root, level, parent, t2, 0);
    NextLevel(T, root, level, parent, t2, 1);
  }

  /** After that unmap, page 0 reads as unmapped and 0x200000 reads as before. */
  lemma TwoMiBUnmapEffect(s: Space, level: map<Frame, nat>, parent: map<Frame, (Frame, nat)>, t0: Frame, t1: Frame)
    requires Sound(s.tables, s.root, level, parent)
    requires WalkTo(s.tables, s.root, 0, 0, 0) == Some(t0) && WalkTo(s.tables, s.root, 0, 0, 1) == Some(t1)
    requires Present(s.tables[t0][0])
    ensures var after := s.tables[t0 := s.tables[t0][0 := 0]];
      && LeafEntry(after, s.root, 0).None? && LeafEntry(s.tables, s.root, 0).Some?
      && LeafEntry(after, s.root, 0x20_0000) == LeafEntry(s.tables, s.root, 0x20_0000)
  {
    var T, root := s.tables, s.root;
    var after := T[t0 := T[t0][0 := 0]];
    TwoMiBWindow(T, root);
    LowIndices(0);
    var t3 := Next(T, root, 0).value;
    var t2 := Next(T, t3, 0).value;
    NextLevel(T, root, level, parent, root, 0);
    NextLevel(T, root, level, parent, t3, 0);
    NextLevel(T, root, level, parent, t2, 0);
    NextLevel(T, root, level, parent, t2, 1);
    assert t0 != root && t0 != t3 && t0 != t2 && t0 != t1;
    assert Next(after, root, 0) == Some(t3) && Next(after, t3, 0) == Some(t2);
    assert Next(after, t2, 0) == Some(t0) && Next(after, t2, 1) == Some(t1);
  }
}
