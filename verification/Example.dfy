/** Concrete memories: one chain of four tables that leads to a chosen page.  With write permission on the
    way it meets the conditions of the whole-run theorems; other choices are the inputs on which a repair
    or a flush does not do what it is for. */
module Example {
  import opened Words
  import opened PageEntry
  import opened PageTable
  import opened Translation
  import opened Protection
  import opened Paging
  import opened Repair
  import opened Dump
  import opened Enumeration
  import opened Accounting
  import opened BenchStats
  import opened Enclave

  const ROOT: u64 := 0x1000

  /** Tables at 0x1000, 0x2000, 0x3000 and 0x4000, the last one holding the leaf slot of page p0. */
  function Chain(p0: nat, rootFlags: nat, leaf: u64): (m: Memory)
    requires rootFlags < 0x80
  {
    map[EntryAddr(0x1000, p0, 0) := 0x2000 + rootFlags,
        EntryAddr(0x2000, p0, 1) := 0x3003,
        EntryAddr(0x3000, p0, 2) := 0x4003,
        EntryAddr(0x4000, p0, 3) := leaf]
  }

  function ChainEntry(level: Level, rootFlags: nat): (e: u64)
    requires level < 3 && rootFlags < 0x80
  {
    if level == 0 then 0x2000 + rootFlags else if level == 1 then 0x3003 else 0x4003
  }

  lemma ChainWord(p0: nat, rootFlags: nat, leaf: u64, p: nat, level: Level)
    requires rootFlags < 0x80
    ensures level < 3 ==>
              Word(Chain(p0, rootFlags, leaf), EntryAddr(0x1000 * (level + 1), p, level)) ==
              if Index(p, level) == Index(p0, level) then ChainEntry(level, rootFlags) else 0
    ensures Word(Chain(p0, rootFlags, leaf), EntryAddr(0x4000, p0, 3)) == leaf
  {
    hide Index;
  }

  lemma ChainHop(level: Level, rootFlags: nat)
    requires level < 3 && (rootFlags == 1 || rootFlags == 3)
    ensures Descend(ChainEntry(level, rootFlags)) == Next(0x1000 * (level + 2)) && Descend(0) == Absent
    ensures PointsBelow(ChainEntry(level, rootFlags)) && PointsBelow(0)
    ensures Writable(ChainEntry(level, rootFlags)) <==> level > 0 || rootFlags == 3
  {
  }

  lemma SamePrefixStep(p: nat, q: nat, level: Level)
    requires level > 0
    ensures Prefix(p, level) == Prefix(q, level) <==>
            Prefix(p, level - 1) == Prefix(q, level - 1) && Index(p, level - 1) == Index(q, level - 1)
  {
    PrefixUp(p, level);
    PrefixUp(q, level);
    hide Lead;
  }

  lemma SamePrefixAtRoot(p: nat, q: nat)
    requires p < PAGES && q < PAGES
    ensures Prefix(p, 0) == Prefix(q, 0)
  {
  }

  /** A walk goes on exactly for the pages that share the leading indices of p0, and meets one table a
      level; whether the entries above allow writes is up to the root entry. */
  lemma {:induction false} ChainWalk(p0: nat, rootFlags: nat, leaf: u64, p: nat, level: Level)
    requires p0 < PAGES && p < PAGES && (rootFlags == 1 || rootFlags == 3)
    ensures TableAt(Chain(p0, rootFlags, leaf), ROOT, p, level) ==
            if Prefix(p, level) == Prefix(p0, level) then Next(0x1000 * (level + 1)) else Absent
    ensures Prefix(p, level) == Prefix(p0, level) ==>
              (WritableAbove(Chain(p0, rootFlags, leaf), ROOT, p, level) <==> level == 0 || rootFlags == 3)
    decreases level
  {
    hide Prefix, Index, Chain, ChainEntry, Descend, EntryAddr, Word, Writable;
    SamePrefixAtRoot(p, p0);
    if level > 0 {
      ChainWalk(p0, rootFlags, leaf, p, level - 1);
      ChainWord(p0, rootFlags, leaf, p, level - 1);
      ChainHop(level - 1, rootFlags);
      SamePrefixStep(p, p0, level);
    }
  }

  lemma ChainInDirectMap(p0: nat, rootFlags: nat, leaf: u64)
    requires p0 < PAGES && (rootFlags == 1 || rootFlags == 3)
    ensures InDirectMap(Chain(p0, rootFlags, leaf), ROOT)
  {
    hide TableAt, Prefix, Word, PointsBelow, WritableAbove, Chain, ChainEntry, EntryAddr, Index;
    var m := Chain(p0, rootFlags, leaf);
    forall p: nat, l: Level | p < PAGES && l < 3 && TableAt(m, ROOT, p, l).Next?
      ensures PointsBelow(Word(m, EntryAddr(TableAt(m, ROOT, p, l).table, p, l)))
    {
      ChainWalk(p0, rootFlags, leaf, p, l);
      ChainWord(p0, rootFlags, leaf, p, l);
      ChainHop(l, rootFlags);
    }
  }

  /** The chain is a tree, whichever page it leads to. */
  lemma ChainIsTree(p0: nat, rootFlags: nat, leaf: u64)
    requires p0 < PAGES && (rootFlags == 1 || rootFlags == 3)
    ensures TreeShaped(Chain(p0, rootFlags, leaf), ROOT)
  {
    hide TableAt, Prefix, Word, PointsBelow, WritableAbove, InDirectMap, Chain;
    var m := Chain(p0, rootFlags, leaf);
    ChainInDirectMap(p0, rootFlags, leaf);
    forall p: nat, q: nat, l: Level, k: Level |
      p < PAGES && q < PAGES && TableAt(m, ROOT, p, l).Next? && TableAt(m, ROOT, p, l) == TableAt(m, ROOT, q, k)
      ensures l == k && Prefix(p, l) == Prefix(q, k)
    {
      ChainWalk(p0, rootFlags, leaf, p, l);
      ChainWalk(p0, rootFlags, leaf, q, k);
    }
  }

  /** The slot the chain leads to, and what the hardware makes of it. */
  lemma ChainSlot(p0: nat, rootFlags: nat, leaf: u64)
    requires p0 < PAGES && (rootFlags == 1 || rootFlags == 3)
    ensures var m := Chain(p0, rootFlags, leaf);
            && TreeShaped(m, ROOT) && HasSlot(m, ROOT, p0) && Word(m, Slot(m, ROOT, p0)) == leaf
            && (WritableAbove(m, ROOT, p0, 3) <==> rootFlags == 3)
            && (CanWrite(Translate(m, ROOT, p0)) <==> rootFlags == 3 && Present(leaf) && Writable(leaf))
  {
    hide TreeShaped, TableAt, Chain, Word, Translate, Present, Writable, WritableAbove;
    var m := Chain(p0, rootFlags, leaf);
    ChainIsTree(p0, rootFlags, leaf);
    ChainWalk(p0, rootFlags, leaf, p0, 3);
    ChainWord(p0, rootFlags, leaf, p0, 3);
    TreeInDirectMap(m, ROOT);
    HwUsesSlot(m, ROOT, p0);
  }

  /** The conditions of the whole-run theorems can be met: a tree with 512 writable pages. */
  lemma BufferExample(leaf: u64)
    ensures var m := Chain(0, 3, leaf);
            TreeShaped(m, ROOT) && BufferMapped(m, ROOT, 0, 512) && SweepRange(0, 512)
  {
    hide TableAt, TreeShaped, WritableAbove, Chain;
    var m := Chain(0, 3, leaf);
    ChainIsTree(0, 3, leaf);
    forall k: nat | 0 <= k < 512 ensures HasSlot(m, ROOT, StepPage(k)) && WritableAbove(m, ROOT, StepPage(k), 3) {
      ChainWalk(0, 3, leaf, StepPage(k), 3);
    }
  }

  /** They can be met in the upper half of the address space too. */
  lemma HighBufferExample(leaf: u64)
    ensures var m, lo := Chain(0x8_0000_0000, 3, leaf), 0xf_fff8_0000_0000;
            TreeShaped(m, ROOT) && BufferMapped(m, ROOT, lo, lo + 512) && SweepRange(lo, lo + 512)
  {
    hide TableAt, TreeShaped, WritableAbove, Chain;
    var m, lo := Chain(0x8_0000_0000, 3, leaf), 0xf_fff8_0000_0000;
    ChainIsTree(0x8_0000_0000, 3, leaf);
    forall k: nat | lo <= k < lo + 512 ensures HasSlot(m, ROOT, StepPage(k)) && WritableAbove(m, ROOT, StepPage(k), 3) {
      assert StepPage(k) == k - 0xf_fff0_0000_0000;
      ChainWalk(0x8_0000_0000, 3, leaf, StepPage(k), 3);
    }
  }

  /** A slot that does not help: the root entry lacks the write flag.  The handler reports success for a
      write fault at address 0, and the write faults again. */
  lemma ReadOnlyRoot(leaf: u64)
    ensures var m := Chain(0, 1, leaf);
            var r := RepairOnce(m, ROOT, 0);
            && TreeShaped(m, ROOT) && HasSlot(m, ROOT, 0) && PageOf(0) == 0
            && !r.aborted && !CanWrite(Translate(r.mem, ROOT, 0))
  {
    hide TreeShaped, TableAt, Chain, Translate, WritableAbove, RepairOnce;
    ChainSlot(0, 1, leaf);
    SlotIsNotEnough(Chain(0, 1, leaf), ROOT, 0);
  }

  /** The last page of the address space, behind writable entries, with a read-only leaf: the end of the
      range wraps to 0, nothing is rewritten, and the write faults again. */
  lemma LastPageExample()
    ensures var m := Chain(PAGES - 1, 3, 0x5001);
            var fault := 0xffff_ffff_ffff_f000;
            && TreeShaped(m, ROOT) && PageOf(fault) == PAGES - 1
            && HasSlot(m, ROOT, PAGES - 1) && WritableAbove(m, ROOT, PAGES - 1, 3)
            && RepairOnce(m, ROOT, fault) == Effect(m, false) && !CanWrite(Translate(m, ROOT, PAGES - 1))
  {
    hide TreeShaped, TableAt, Chain, Translate, WritableAbove;
    ChainSlot(PAGES - 1, 3, 0x5001);
  }

  /** A stale translation: write permission is removed from a cached page through the non-canonical address
      with bit 47 set and bits 48 to 63 clear.  The tables deny the write, the TLB still grants it. */
  lemma StaleExample()
    ensures var m := Chain(0x8_0000_0000, 3, 0x5003);
            var vaddr := 0x8000_0000_0000;
            var p := PageOf(vaddr);
            var m' := ProtectPage(m, ROOT, p, PTE_P).mem;
            var tlb := CachedOnly(m, ROOT, p);
            && TreeShaped(m, ROOT) && OnlyMapped(tlb) && CoherentExcept(m, ROOT, tlb, {}) && !Canonical(vaddr)
            && p in FlushPage(tlb, vaddr) && CanWrite(FlushPage(tlb, vaddr)[p]) && !CanWrite(Translate(m', ROOT, p))
  {
    var p, vaddr := 0x8_0000_0000, 0x8000_0000_0000;
    assert PageOf(vaddr) == p && !Canonical(vaddr) && Present(0x5003) && Writable(0x5003);
    ReadOnlyFlags(0x5003);
    hide TreeShaped, TableAt, Chain, Translate, WritableAbove, Slot, Rewrite, PageOf, Present, Writable, Canonical;
    var m := Chain(p, 3, 0x5003);
    ChainSlot(p, 3, 0x5003);
    OneCached(m, ROOT, p);
    LeafStoreTranslations(m, ROOT, p, Rewrite(0x5003, PTE_P));
    assert ProtectPage(m, ROOT, p, PTE_P).mem == m[Slot(m, ROOT, p) := Rewrite(0x5003, PTE_P)];
  }

  // ----- A stray entry -----

  lemma FirstEntryListed(m: Memory, table: u64, level: Level, limit: int, x: Line)
    requires Element(m, table, 0) != 0 && x in AtLevel(Chunk(m, 0, level, limit, 0, Element(m, table, 0)), 3)
    ensures x in AtLevel(Listing(m, table, 0, level, limit, 0, 0), 3)
  {
    hide AtLevel, Chunk, Listing, Element;
    ListingStep(m, table, 0, level, limit, 0, 0);
    var rest := if 1 >= limit then [] else Listing(m, table, 0, level, limit, 1, 1);
    AtLevelConcat(Chunk(m, 0, level, limit, 0, Element(m, table, 0)), rest, 3);
  }

  /** A leaf listed for the table behind the first entry is listed for the table with that entry. */
  lemma ListedAbove(m: Memory, table: u64, level: Level, limit: int, x: Line)
    requires level < 3 && Element(m, table, 0) != 0 && !LargePage(Element(m, table, 0))
    requires x in AtLevel(Listing(m, PteAddr(Element(m, table, 0)), 0, level + 1, limit, 0, 0), 3)
    ensures x in AtLevel(Listing(m, table, 0, level, limit, 0, 0), 3)
  {
    hide AtLevel, Chunk, Listing, Element, LargePage, PteAddr, Below, EntryVaddr;
    FirstVaddr(level);
    LinesOfChunk(m, 3, 0, level, limit, 0, Element(m, table, 0));
    BelowEntry(m, Element(m, table, 0), 0, level, limit);
    FirstEntryListed(m, table, level, limit, x);
  }

  lemma FirstVaddr(level: Level)
    ensures EntryVaddr(0, level, 0) == 0
  {
  }

  lemma StrayTables(m: Memory)
    requires m == Chain(0, 2, 0x5003)
    ensures Element(m, 0x1000, 0) == 0x2002 && Element(m, 0x2000, 0) == 0x3003
    ensures Element(m, 0x3000, 0) == 0x4003 && Element(m, 0x4000, 0) == 0x5003
    ensures PteAddr(0x2002) == 0x2000 && PteAddr(0x3003) == 0x3000 && PteAddr(0x4003) == 0x4000
    ensures !LargePage(0x2002) && !LargePage(0x3003) && !LargePage(0x4003) && Descend(0x2002) == Absent
  {
    StrayEntries();
    hide *;
    ElementIsWord(m, 0x1000, 0);
    ElementIsWord(m, 0x2000, 0);
    ElementIsWord(m, 0x3000, 0);
    ElementIsWord(m, 0x4000, 0);
    StrayWords(m);
  }

  lemma StrayWords(m: Memory)
    requires m == Chain(0, 2, 0x5003)
    ensures Word(m, 0x1000) == 0x2002 && Word(m, 0x2000) == 0x3003 && Word(m, 0x3000) == 0x4003 && Word(m, 0x4000) == 0x5003
  {
    assert forall level: Level :: Index(0, level) == 0;
    hide Index;
  }

  lemma StrayEntries()
    ensures PteAddr(0x2002) == 0x2000 && PteAddr(0x3003) == 0x3000 && PteAddr(0x4003) == 0x4000 && 0x5000 <= TWO64
    ensures !LargePage(0x2002) && !LargePage(0x3003) && !LargePage(0x4003) && Descend(0x2002) == Absent
  {
  }

  lemma StrayListed(m: Memory, limit: int)
    requires m == Chain(0, 2, 0x5003)
    ensures Line(3, 0, 0, 0x5003) in AtLevel(DumpPgtable(m, ROOT, limit), 3)
  {
    StrayTables(m);
    hide AtLevel, Listing, Element, LargePage, PteAddr, Chunk, Chain, Descend;
    FirstVaddr(3);
    LinesOfChunk(m, 3, 0, 3, limit, 0, 0x5003);
    FirstEntryListed(m, 0x4000, 3, limit, Line(3, 0, 0, 0x5003));
    ListedAbove(m, 0x3000, 2, limit, Line(3, 0, 0, 0x5003));
    ListedAbove(m, 0x2000, 1, limit, Line(3, 0, 0, 0x5003));
    ListedAbove(m, 0x1000, 0, limit, Line(3, 0, 0, 0x5003));
  }

  /** Where dump and walk disagree: a root entry with an address but neither the present nor the large-page
      flag.  The dump lists the leaf entry of page 0 behind it; the walk of page 0 finds nothing. */
  lemma StrayExample(limit: int)
    ensures var m := Chain(0, 2, 0x5003);
            && Line(3, 0, 0, 0x5003) in AtLevel(DumpPgtable(m, ROOT, limit), 3) && !HasSlot(m, ROOT, 0) && !NoStrayEntries(m, ROOT, 3)
  {
    var m := Chain(0, 2, 0x5003);
    StrayListed(m, limit);
    StrayListed(m, 512);
    StrayTables(m);
    hide AtLevel, Chain, Descend, Element, NoStrayEntries, DumpPgtable, TableAt;
    StrayWalk(m, 0x2002);
    assert !ShowsEntry(m, ROOT, Line(3, 0, 0, 0x5003)) by { assert PageOf(0) == 0; }
    hide ShowsEntry;
    DumpEnumerates(m, ROOT, 512, 3);
  }

  lemma StrayWalk(m: Memory, e: u64)
    requires Element(m, 0x1000, 0) == e && Descend(e) == Absent
    ensures !HasSlot(m, ROOT, 0) && TableAt(m, ROOT, 0, 3) == Absent
  {
    ElementIsWord(m, 0x1000, 0);
    hide Descend, Element;
    assert Index(0, 0) == 0;
    assert TableAt(m, ROOT, 0, 0) == Next(0x1000);
    assert TableAt(m, ROOT, 0, 1) == Absent;
    WalkEnded(m, ROOT, 0, 1, 3);
  }

  // ----- Flags with address bits, a table at 2^47, an offset above the median, a wrapping median -----

  /** Flags that carry address bits: the frame 5 of the entry becomes the frame 7. */
  lemma FrameLost()
    ensures FrameNumber(0x5003) == 5 && FrameNumber(Rewrite(0x5003, 0x2003)) == 7
  {
    FrameNumbers();
    hide Rewrite, FrameNumber;
    RewriteFields(0x5003, 0x2003);
    assert BitOr(5, 2) == 7;
  }

  lemma FrameNumbers()
    ensures FrameNumber(0x5003) == 5 && FrameNumber(0x2003) == 2
  {
  }

  /** Page 0 mapped through a table at 2^47. */
  function HighTable(): (m: Memory) { map[0x1000 := 0x8000_0000_0003, 0x8000_0000_0000 := 0x3003, 0x3000 := 0x4003, 0x4000 := 0x5003] }

  /** The hardware maps page 0 writable; `get_entry` finds no entry for it. */
  lemma HighTableExample()
    ensures TableAt(HighTable(), ROOT, 0, 3) == Absent
    ensures Translate(HighTable(), ROOT, 0) == Mapped(0x5003, 3, true)
  {
    HighEntries();
    ElementIsWord(HighTable(), 0x1000, 0);
    assert Word(HighTable(), 0x1000) == 0x8000_0000_0003;
    hide *;
    StrayWalk(HighTable(), 0x8000_0000_0003);
    HighWalk(HighTable());
  }

  lemma HighWalk(m: Memory)
    requires m == HighTable()
    ensures Translate(m, ROOT, 0) == Mapped(0x5003, 3, true)
  {
    HighEntries();
    HighWords(m);
    hide Word, EntryAddr, Present, Writable, LargePage, HwTable;
    assert HwWalk(m, 0x4000, 0, 3, true) == Mapped(0x5003, 3, true);
    assert HwWalk(m, 0x3000, 0, 2, true) == HwWalk(m, 0x4000, 0, 3, true);
    assert HwWalk(m, 0x8000_0000_0000, 0, 1, true) == HwWalk(m, 0x3000, 0, 2, true);
    assert HwWalk(m, 0x1000, 0, 0, true) == HwWalk(m, 0x8000_0000_0000, 0, 1, true);
  }

  lemma HighWords(m: Memory)
    requires m == HighTable()
    ensures Word(m, EntryAddr(0x1000, 0, 0)) == 0x8000_0000_0003 && Word(m, EntryAddr(0x8000_0000_0000, 0, 1)) == 0x3003
    ensures Word(m, EntryAddr(0x3000, 0, 2)) == 0x4003 && Word(m, EntryAddr(0x4000, 0, 3)) == 0x5003
  {
    assert forall level: Level :: Index(0, level) == 0;
    hide Index;
  }

  lemma HighEntries()
    ensures forall e: u64 :: e == 0x8000_0000_0003 || e == 0x3003 || e == 0x4003 || e == 0x5003 ==>
              Present(e) && Writable(e) && !LargePage(e)
    ensures HwTable(0x8000_0000_0003) == 0x8000_0000_0000 && HwTable(0x3003) == 0x3000 && HwTable(0x4003) == 0x4000
    ensures HwTable(ROOT) == 0x1000 && Descend(0x8000_0000_0003) == Absent
  {
  }

  /** A large page, its frame above 2^47: the entry at level 1 on the walk of page 0 has bits 0 and 7 set.
      Beside it an absent entry holds other bits. */
  function LargeTable(): (m: Memory) { map[0x1000 := 0x2003, 0x1008 := 0xf_ffff_ffff_f002, 0x2000 := 0x8_0000_4000_0083] }

  /** The tables are a tree and the hardware maps page 0 writable by the large page; the walk, a repair and
      any protection of it end in abort, and nothing is stored. */
  lemma LargePageExample(flags: u64)
    ensures var m := LargeTable();
            && TreeShaped(m, ROOT)
            && Translate(m, ROOT, 0) == Mapped(0x8_0000_4000_0083, 1, true) && MeetsLarge(m, ROOT, 0, 0)
            && NextTable(0x8_0000_4000_0083) == AbortWalk
            && ProtectPage(m, ROOT, 0, flags) == Effect(m, true) && RepairOnce(m, ROOT, 0) == Effect(m, true)
  {
    var m := LargeTable();
    assert PageOf(0) == 0 && !LastPage(0) && NextTable(0x8_0000_4000_0083) == AbortWalk;
    hide Translate, TableAt, MeetsLarge, Rewrite, PageOf, LastPage, NextTable, LargeTable, TreeShaped;
    LargeIsTree(m);
    LargeHw(m);
    LargeWalk(m);
    WalkStarts(m, ROOT, 0);
    LargeByEntries(m, ROOT, 0, ROOT, 0);
  }

  /** Every walk of it: one table at level 0, one at level 1 for the pages of the first root entry, none below. */
  lemma LargeTables(m: Memory, p: nat, level: Level)
    requires m == LargeTable() && p < PAGES
    ensures level == 0 ==> TableAt(m, ROOT, p, level) == Next(0x1000)
    ensures level == 1 ==> TableAt(m, ROOT, p, level) == if Index(p, 0) == 0 then Next(0x2000) else Absent
    ensures level > 1 ==> !TableAt(m, ROOT, p, level).Next?
  {
    LargeEntries();
    EntryOfIndex(0x1000, p, 0);
    EntryOfIndex(0x2000, p, 1);
    hide Index, Descend, EntryAddr;
    assert TableAt(m, ROOT, p, 0) == Next(0x1000);
    assert TableAt(m, ROOT, p, 1) == Descend(Word(m, EntryAddr(0x1000, p, 0)));
    if Index(p, 0) == 0 {
      assert TableAt(m, ROOT, p, 2) == Descend(Word(m, EntryAddr(0x2000, p, 1)));
    }
    if level > 1 {
      assert !TableAt(m, ROOT, p, 2).Next?;
      WalkEnded(m, ROOT, p, 2, level);
    }
  }

  lemma LargeIsTree(m: Memory)
    requires m == LargeTable()
    ensures TreeShaped(m, ROOT)
  {
    hide TableAt, PointsBelow;
    forall p: nat, l: Level | p < PAGES && l < 3 && TableAt(m, ROOT, p, l).Next?
      ensures PointsBelow(Word(m, EntryAddr(TableAt(m, ROOT, p, l).table, p, l)))
    {
      LargeTables(m, p, l);
      EntryOfIndex(TableAt(m, ROOT, p, l).table, p, l);
      LargePoints();
      hide Index, EntryAddr;
    }
    forall p: nat, q: nat, l: Level, k: Level |
      p < PAGES && q < PAGES && TableAt(m, ROOT, p, l).Next? && TableAt(m, ROOT, p, l) == TableAt(m, ROOT, q, k)
      ensures l == k && Prefix(p, l) == Prefix(q, k)
    {
      LargeTables(m, p, l);
      LargeTables(m, q, k);
      SamePrefixAtRoot(p, q);
      SamePrefixStep(p, q, 1);
    }
  }

  lemma LargePoints()
    ensures PointsBelow(0) && PointsBelow(0x2003) && PointsBelow(0xf_ffff_ffff_f002) && PointsBelow(0x8_0000_4000_0083)
  {
  }

  lemma LargeHw(m: Memory)
    requires m == LargeTable()
    ensures Translate(m, ROOT, 0) == Mapped(0x8_0000_4000_0083, 1, true)
  {
    LargeEntries();
    LargeWords(m);
    hide Word, EntryAddr, Present, Writable, LargePage, HwTable;
    assert HwWalk(m, 0x2000, 0, 1, true) == Mapped(0x8_0000_4000_0083, 1, true);
    assert HwWalk(m, 0x1000, 0, 0, true) == HwWalk(m, 0x2000, 0, 1, true);
  }

  lemma LargeWalk(m: Memory)
    requires m == LargeTable()
    ensures TableAt(m, ROOT, 0, 3) == Large
  {
    LargeEntries();
    LargeWords(m);
    hide Word, EntryAddr, Descend;
    assert TableAt(m, ROOT, 0, 0) == Next(0x1000);
    assert TableAt(m, ROOT, 0, 1) == Next(0x2000);
    assert TableAt(m, ROOT, 0, 2) == Large;
    WalkEnded(m, ROOT, 0, 2, 3);
  }

  lemma LargeWords(m: Memory)
    requires m == LargeTable()
    ensures Word(m, EntryAddr(0x1000, 0, 0)) == 0x2003 && Word(m, EntryAddr(0x2000, 0, 1)) == 0x8_0000_4000_0083
  {
    assert forall level: Level :: Index(0, level) == 0;
    hide Index;
  }

  lemma LargeEntries()
    ensures Present(0x2003) && Writable(0x2003) && !LargePage(0x2003)
    ensures Present(0x8_0000_4000_0083) && Writable(0x8_0000_4000_0083) && LargePage(0x8_0000_4000_0083)
    ensures HwTable(ROOT) == 0x1000 && HwTable(0x2003) == 0x2000 && Descend(0x2003) == Next(0x2000) && Descend(0) == Absent && Descend(0xf_ffff_ffff_f002) == Absent && Descend(0x8_0000_4000_0083) == Large
  {
  }

  lemma OneSample(x: u64)
    ensures SortSeq([x]) == [x] && Twice([x]) == 2 * x && Median([x]) == x as real && (MiddleFits([x]) <==> x < 0x8000_0000_0000_0000)
  {
    assert [x][1..] == [];
  }

  /** `bench_stats` on a single sample: with sample 10 and offset 11 the median is reported as -1 and 0 is
      returned; with sample 2^63 and offset 0 the median is reported as 0. */
  method OneSampleReport(x: u64, offset: u64) returns (r: Report, result: u64)
    ensures x < 0x8000_0000_0000_0000 ==> r.median == x as real - offset as real
    ensures x == 10 && offset == 11 ==> r.median == -1.0 && result == 0
    ensures x == 0x8000_0000_0000_0000 && offset == 0 ==> r.median == 0.0 && result == 0
  {
    hide Median, MiddleFits, SortSeq, Twice, Mean, Least, Greatest, Radicand, Coherent;
    var samples, buffer := new u64[1] [x], new u64[1];
    OneSample(x);
    assert samples[0..0 + 1] == [x];
    r, result := BenchStats.BenchStats(offset, 0, 1, samples, buffer);
  }
}
