/** Four-level page tables in raw memory: the walk, the shape under which tables form a tree, and
    what one leaf store does to the map from virtual pages to leaf entries.
    Tables are numbered by level as in the dump: 0 is the root (P4), 3 holds the leaf slots (P1).
    A page is numbered by bits 12 to 47 of its virtual address, the bits the walk looks at. */
module PageTable {
  import opened Words
  import opened PageEntry

  /** Words of physical memory by physical byte address; a word never written reads as zero. */
  type Memory = map<nat, u64>

  const PAGES: nat := 0x10_0000_0000
  const LOW_HALF: nat := 0x8000_0000_0000

  type Level = l: nat | l <= 3

  function Word(m: Memory, addr: nat): (r: u64) { if addr in m then m[addr] else 0 }

  /** The page the walk sees for the 4096-byte step k of the address space: bits 48 to 63 are ignored. */
  function StepPage(k: nat): (p: nat)
    ensures p < PAGES
  {
    k % PAGES
  }

  // An entry at level 3, 2, 1 or 0 stands for 1, 2^9, 2^18 or 2^27 pages.  These numbers are written out
  // level by level, so that every product and quotient has a constant in it.

  /** Number of pages behind n entries of a table at this level. */
  function Pages(n: nat, level: Level): (r: nat)
  {
    if level == 0 then n * 0x800_0000 else if level == 1 then n * 0x4_0000 else if level == 2 then n * 0x200 else n
  }

  /** The bits of a page number that the walk uses down to this level. */
  function Lead(p: nat, level: Level): (r: nat)
  {
    if level == 0 then p / 0x800_0000 else if level == 1 then p / 0x4_0000 else if level == 2 then p / 0x200 else p
  }

  /** Index of page p in its table at this level (`P4_IDX` .. `P1_IDX`). */
  function Index(p: nat, level: Level): (i: nat)
    ensures i < 512
  {
    Lead(p, level) % 512
  }

  /** The part of a page number that chooses its table at this level. */
  function Prefix(p: nat, level: Level): (r: nat) { Lead(p, level) / 512 }

  function EntryAddr(table: nat, p: nat, level: Level): (r: nat) { table + 8 * Index(p, level) }

  /** Where an entry leads: nowhere, to a large page, or to the next table.  The software walk also
      takes a table at physical address 2^47 for absent, because its pointer wraps to NULL. */
  datatype Hop = Absent | Large | Next(table: nat)

  function Descend(e: u64): (r: Hop)
  {
    if !Present(e) then Absent
    else if LargePage(e) then Large
    else if PteAddr(e) == LOW_HALF then Absent
    else Next(PteAddr(e))
  }

  /** The table of the given level on the walk of page p. */
  function TableAt(m: Memory, root: nat, p: nat, level: Level): (r: Hop)
    decreases level, p
  {
    if level == 0 then Next(root)
    else
      match TableAt(m, root, p, level - 1)
      case Next(t) => Descend(Word(m, EntryAddr(t, p, level - 1)))
      case stop => stop
  }

  predicate HasSlot(m: Memory, root: nat, p: nat) { TableAt(m, root, p, 3).Next? }

  /** Address of the leaf entry of page p. */
  function Slot(m: Memory, root: nat, p: nat): (r: nat)
    requires HasSlot(m, root, p)
  {
    EntryAddr(TableAt(m, root, p, 3).table, p, 3)
  }

  /** The abstract page table: the leaf entry of every page whose walk reaches a leaf slot. */
  ghost function LeafMap(m: Memory, root: nat): (r: map<nat, u64>)
  {
    map p | 0 <= p < PAGES && HasSlot(m, root, p) :: Word(m, Slot(m, root, p))
  }

  /** By the numbers of the raw entries: the first entry of the walk, from a table of this level on, that does
      not lead to a table has bits 0 and 7 set. */
  predicate MeetsLarge(m: Memory, t: nat, p: nat, level: Level)
    requires level < 3
    decreases 3 - level, p
  {
    var e := Word(m, t + 8 * ((if level == 0 then p / 0x800_0000 else if level == 1 then p / 0x4_0000 else p / 0x200) % 512));
    var next := e / 0x1000 % 0x10_0000_0000 * 0x1000;
    e % 2 == 1 && (e / 0x80 % 2 == 1 || (level < 2 && next != 0x8000_0000_0000 && MeetsLarge(m, next, p, level + 1)))
  }

  /** The walk of a page ends at a large page exactly if its entries say so. */
  lemma {:induction false} LargeByEntries(m: Memory, root: nat, p: nat, t: nat, level: Level)
    requires level < 3 && TableAt(m, root, p, level) == Next(t)
    ensures TableAt(m, root, p, 3).Large? <==> MeetsLarge(m, t, p, level)
    decreases 3 - level
  {
    var e := Word(m, EntryAddr(t, p, level));
    assert TableAt(m, root, p, level + 1) == Descend(e);
    if Descend(e).Next? {
      if level < 2 {
        LargeByEntries(m, root, p, PteAddr(e), level + 1);
      }
    } else {
      WalkEnded(m, root, p, level + 1, 3);
    }
  }

  /** A walk that has ended stays ended. */
  lemma {:induction false} WalkEnded(m: Memory, root: nat, q: nat, level: Level, l: Level)
    requires !TableAt(m, root, q, level).Next? && level <= l
    ensures TableAt(m, root, q, l) == TableAt(m, root, q, level)
    decreases l
  {
    if level < l {
      WalkEnded(m, root, q, level, l - 1);
    }
  }

  // ----- The shape of the tables -----

  /** Every table pointer stays inside the direct map of physical memory. */
  ghost predicate InDirectMap(m: Memory, root: nat)
  {
    && root % 0x1000 == 0 && root < LOW_HALF
    && forall p: nat, l: Level :: p < PAGES && l < 3 && TableAt(m, root, p, l).Next? ==>
         PointsBelow(Word(m, EntryAddr(TableAt(m, root, p, l).table, p, l)))
  }

  /** The address field of an entry or of CR3 as the hardware reads it: bits 12 to 51. */
  function HwTable(e: u64): (r: nat) { e / 0x1000 % 0x100_0000_0000 * 0x1000 }

  predicate PointsBelow(e: u64) { Present(e) && !LargePage(e) ==> HwTable(e) < LOW_HALF }

  /** No table is reached twice: not at two levels, and at one level only for one prefix. */
  ghost predicate DistinctTables(m: Memory, root: nat)
  {
    forall p: nat, q: nat, l: Level, k: Level ::
      p < PAGES && q < PAGES && TableAt(m, root, p, l).Next? && TableAt(m, root, p, l) == TableAt(m, root, q, k) ==>
        l == k && Prefix(p, l) == Prefix(q, k)
  }

  /** The tables reachable from the root form a tree (large pages are allowed anywhere below it). */
  ghost predicate TreeShaped(m: Memory, root: nat)
  {
    InDirectMap(m, root) && DistinctTables(m, root)
  }

  // ----- Arithmetic of indices -----

  lemma PrefixUp(p: nat, level: Level)
    requires level > 0
    ensures Prefix(p, level) == Lead(p, level - 1)
  {
  }

  lemma SameParent(p: nat, q: nat, level: Level)
    requires level > 0 && Prefix(p, level) == Prefix(q, level)
    ensures Index(p, level - 1) == Index(q, level - 1) && Prefix(p, level - 1) == Prefix(q, level - 1)
  {
    PrefixUp(p, level);
    PrefixUp(q, level);
  }

  /** The table on a walk depends only on the prefix of the page. */
  lemma {:induction false} TableOfPrefix(m: Memory, root: nat, p: nat, q: nat, level: Level)
    requires Prefix(p, level) == Prefix(q, level)
    ensures TableAt(m, root, p, level) == TableAt(m, root, q, level)
    decreases level
  {
    if level > 0 {
      SameParent(p, q, level);
      TableOfPrefix(m, root, p, q, level - 1);
      SameHop(m, root, p, q, level);
    }
  }

  lemma SameHop(m: Memory, root: nat, p: nat, q: nat, level: Level)
    requires level > 0 && Index(p, level - 1) == Index(q, level - 1)
    requires TableAt(m, root, p, level - 1) == TableAt(m, root, q, level - 1)
    ensures TableAt(m, root, p, level) == TableAt(m, root, q, level)
  {
  }

  lemma HwTableSmall(e: u64)
    requires HwTable(e) < LOW_HALF
    ensures PteAddr(e) == HwTable(e)
  {
    var x := e / 0x1000;
    var q, y := x / 0x100_0000_0000, x % 0x100_0000_0000;
    assert x == (16 * q) * PAGES + y && y < PAGES;
    DropHighPages(16 * q, y);
  }

  lemma DropHighPages(q: nat, y: nat)
    requires y < PAGES
    ensures (q * PAGES + y) % PAGES == y
  {
  }

  lemma TablesAligned(m: Memory, root: nat, p: nat, level: Level)
    requires InDirectMap(m, root) && p < PAGES && TableAt(m, root, p, level).Next?
    ensures TableAt(m, root, p, level).table % 0x1000 == 0
    ensures TableAt(m, root, p, level).table < LOW_HALF
  {
    if level > 0 {
      var above := TableAt(m, root, p, level - 1);
      assert above.Next?;
      HwTableSmall(Word(m, EntryAddr(above.table, p, level - 1)));
    }
  }

  /** Two memories that agree on every table above the leaves and on where the leaf tables are. */
  ghost predicate SameTables(m: Memory, m': Memory, root: nat)
  {
    forall p: nat, l: Level :: p < PAGES ==>
      && TableAt(m', root, p, l) == TableAt(m, root, p, l)
      && (l < 3 && TableAt(m, root, p, l).Next? ==>
            Word(m', EntryAddr(TableAt(m, root, p, l).table, p, l)) == Word(m, EntryAddr(TableAt(m, root, p, l).table, p, l)))
  }

  lemma SameTablesRefl(m: Memory, root: nat)
    ensures SameTables(m, m, root)
  {
  }

  lemma SameTablesTrans(m: Memory, m1: Memory, m2: Memory, root: nat)
    requires SameTables(m, m1, root) && SameTables(m1, m2, root)
    ensures SameTables(m, m2, root)
  {
    forall p: nat, l: Level | p < PAGES
      ensures TableAt(m2, root, p, l) == TableAt(m, root, p, l)
      ensures l < 3 && TableAt(m, root, p, l).Next? ==>
                Word(m2, EntryAddr(TableAt(m, root, p, l).table, p, l)) == Word(m, EntryAddr(TableAt(m, root, p, l).table, p, l))
    {
      assert TableAt(m1, root, p, l) == TableAt(m, root, p, l);
    }
  }

  lemma SameTablesKeepDistinct(m: Memory, m': Memory, root: nat)
    requires SameTables(m, m', root) && DistinctTables(m, root)
    ensures DistinctTables(m', root)
  {
    hide Prefix, TableAt;
    forall p: nat, q: nat, l: Level, k: Level
      | p < PAGES && q < PAGES && TableAt(m', root, p, l).Next? && TableAt(m', root, p, l) == TableAt(m', root, q, k)
      ensures l == k && Prefix(p, l) == Prefix(q, k)
    {
      assert TableAt(m', root, p, l) == TableAt(m, root, p, l);
      assert TableAt(m', root, q, k) == TableAt(m, root, q, k);
    }
  }

  lemma SameTablesKeepShape(m: Memory, m': Memory, root: nat)
    requires SameTables(m, m', root) && TreeShaped(m, root)
    ensures TreeShaped(m', root)
  {
    SameTablesKeepDistinct(m, m', root);
    forall p: nat, l: Level | p < PAGES && l < 3 && TableAt(m', root, p, l).Next?
      ensures PointsBelow(Word(m', EntryAddr(TableAt(m', root, p, l).table, p, l)))
    {
      assert TableAt(m', root, p, l) == TableAt(m, root, p, l);
    }
  }

  // ----- Slots -----

  lemma SameTableAddress(t: nat, u: nat, i: nat, j: nat)
    requires t % 0x1000 == 0 && u % 0x1000 == 0 && i < 512 && j < 512
    requires t + 8 * i == u + 8 * j
    ensures t == u && i == j
  {
  }

  /** A leaf slot lies in no other table than its own: it is an entry of table u only if u is the
      leaf table of that page. */
  lemma SlotInOwnTable(m: Memory, root: nat, p: nat, q: nat, level: Level)
    requires TreeShaped(m, root) && p < PAGES && q < PAGES
    requires HasSlot(m, root, p) && TableAt(m, root, q, level).Next?
    requires EntryAddr(TableAt(m, root, q, level).table, q, level) == Slot(m, root, p)
    ensures level == 3 && q == p
  {
    var t, u := TableAt(m, root, p, 3).table, TableAt(m, root, q, level).table;
    TablesAligned(m, root, p, 3);
    TablesAligned(m, root, q, level);
    SameTableAddress(t, u, Index(p, 3), Index(q, level));
    assert TableAt(m, root, p, 3) == TableAt(m, root, q, level);
    assert 3 == level && Prefix(p, 3) == Prefix(q, 3);
    PageFromParts(p, q);
  }

  lemma PageFromParts(p: nat, q: nat)
    requires Prefix(p, 3) == Prefix(q, 3) && Index(p, 3) == Index(q, 3)
    ensures p == q
  {
  }

  /** Two pages share a leaf slot exactly when they are the same page. */
  lemma SlotInjective(m: Memory, root: nat, p: nat, q: nat)
    requires TreeShaped(m, root) && p < PAGES && q < PAGES && HasSlot(m, root, p) && HasSlot(m, root, q)
    ensures Slot(m, root, p) == Slot(m, root, q) <==> p == q
  {
    if Slot(m, root, p) == Slot(m, root, q) {
      SlotInOwnTable(m, root, p, q, 3);
    }
  }

  /** A leaf store alters no walk. */
  lemma {:induction false} LeafStoreKeepsWalks(m: Memory, m': Memory, root: nat, p: nat, v: u64, q: nat, level: Level)
    requires TreeShaped(m, root) && p < PAGES && q < PAGES && HasSlot(m, root, p) && m' == m[Slot(m, root, p) := v]
    ensures TableAt(m', root, q, level) == TableAt(m, root, q, level)
    decreases level
  {
    if level > 0 {
      LeafStoreKeepsWalks(m, m', root, p, v, q, level - 1);
      var parent := TableAt(m, root, q, level - 1);
      if parent.Next? && EntryAddr(parent.table, q, level - 1) == Slot(m, root, p) {
        SlotInOwnTable(m, root, p, q, level - 1);
        assert false;
      }
    }
  }

  lemma {:induction false} LeafStoreSameTables(m: Memory, root: nat, p: nat, v: u64)
    requires TreeShaped(m, root) && p < PAGES && HasSlot(m, root, p)
    ensures SameTables(m, m[Slot(m, root, p) := v], root)
  {
    hide TreeShaped, TableAt, Slot, EntryAddr;
    var m' := m[Slot(m, root, p) := v];
    forall q: nat, l: Level | q < PAGES
      ensures TableAt(m', root, q, l) == TableAt(m, root, q, l)
      ensures l < 3 && TableAt(m, root, q, l).Next? ==>
                Word(m', EntryAddr(TableAt(m, root, q, l).table, q, l)) == Word(m, EntryAddr(TableAt(m, root, q, l).table, q, l))
    {
      LeafStoreKeepsWalks(m, m', root, p, v, q, l);
      if l < 3 && TableAt(m, root, q, l).Next? && EntryAddr(TableAt(m, root, q, l).table, q, l) == Slot(m, root, p) {
        SlotInOwnTable(m, root, p, q, l);
      }
    }
  }

  /** A leaf store is a single-point update of the abstract map, and keeps the tables a tree. */
  lemma LeafStore(m: Memory, root: nat, p: nat, v: u64)
    requires TreeShaped(m, root) && p < PAGES && HasSlot(m, root, p)
    ensures SameTables(m, m[Slot(m, root, p) := v], root) && TreeShaped(m[Slot(m, root, p) := v], root)
    ensures p in LeafMap(m, root)
    ensures LeafMap(m[Slot(m, root, p) := v], root) == LeafMap(m, root)[p := v]
  {
    hide TreeShaped, TableAt, EntryAddr;
    var m' := m[Slot(m, root, p) := v];
    LeafStoreSameTables(m, root, p, v);
    SameTablesKeepShape(m, m', root);
    forall q: nat | q < PAGES && HasSlot(m, root, q) ensures Slot(m, root, q) == Slot(m, root, p) ==> q == p {
      SlotInjective(m, root, p, q);
    }
    forall q: nat | q < PAGES ensures TableAt(m', root, q, 3) == TableAt(m, root, q, 3) {
    }
  }
}
