/** The paging code of the P-Enclave over one machine: raw memory, CR3 and its cached copy, and a
    TLB that the hardware may fill or evict between any two instructions. */
module Paging {
  import opened Words
  import opened PageEntry
  import opened PageTable
  import opened Translation
  import opened Protection

  const PHYS_OFFSET: u64 := 0xffff_8000_0000_0000

  /** A pointer, with 0 as NULL, or the call to `abort()` in `next_table`. */
  datatype Pointer = Ptr(addr: u64) | AbortWalk

  /** How a routine ends. */
  datatype Outcome = Returned(code: int) | Aborted

  function PhysToVirt(paddr: u64): (r: u64) { (paddr + PHYS_OFFSET) % TWO64 }

  /** The physical address behind a direct-map pointer. */
  function VirtToPhys(ptr: u64): (r: u64) { (ptr + LOW_HALF) % TWO64 }

  function PageOf(vaddr: u64): (p: nat)
    ensures p < PAGES
  {
    StepPage(vaddr / 0x1000)
  }

  /** Step k of the address space is a canonical address: bits 47 to 63 are equal. */
  predicate CanonicalStep(k: nat) { k < 0x8_0000_0000 || 0xf_fff8_0000_0000 <= k < 0x10_0000_0000_0000 }

  predicate Canonical(vaddr: u64) { CanonicalStep(vaddr / 0x1000) }

  /** `pte_t*` indexing. */
  function ElementPtr(table: u64, i: nat): (r: u64) { (table + 8 * i) % TWO64 }

  lemma DirectMap(table: nat, i: nat)
    requires table % 0x1000 == 0 && table < LOW_HALF && i < 512
    ensures PhysToVirt(table) != 0
    ensures VirtToPhys(ElementPtr(PhysToVirt(table), i)) == table + 8 * i
    ensures ElementPtr(PhysToVirt(table), i) != 0
  {
  }

  function P4Index(vaddr: u64): (i: nat) ensures i < 512 { vaddr / 0x80_0000_0000 % 512 }
  function P3Index(vaddr: u64): (i: nat) ensures i < 512 { vaddr / 0x4000_0000 % 512 }
  function P2Index(vaddr: u64): (i: nat) ensures i < 512 { vaddr / 0x20_0000 % 512 }
  function P1Index(vaddr: u64): (i: nat) ensures i < 512 { vaddr / 0x1000 % 512 }

  /** The four index macros read the four indices of the page. */
  lemma IndicesOfAddress(vaddr: u64)
    ensures P4Index(vaddr) == Index(PageOf(vaddr), 0) && P3Index(vaddr) == Index(PageOf(vaddr), 1)
    ensures P2Index(vaddr) == Index(PageOf(vaddr), 2) && P1Index(vaddr) == Index(PageOf(vaddr), 3)
  {
    IndexOfStep(vaddr / 0x1000, 0);
    IndexOfStep(vaddr / 0x1000, 1);
    IndexOfStep(vaddr / 0x1000, 2);
    IndexOfStep(vaddr / 0x1000, 3);
    hide Index, StepPage;
    assert vaddr / 0x80_0000_0000 == vaddr / 0x1000 / 0x800_0000;
    assert vaddr / 0x4000_0000 == vaddr / 0x1000 / 0x4_0000;
    assert vaddr / 0x20_0000 == vaddr / 0x1000 / 0x200;
  }

  lemma IndexOfStep(k: nat, level: Level)
    ensures Lead(k, level) % 512 == Index(StepPage(k), level)
  {
    var q, r := k / PAGES, k % PAGES;
    if level == 0 {
      assert k / 0x800_0000 == q * 512 + r / 0x800_0000;
      DropHighIndices(q, r / 0x800_0000);
    } else if level == 1 {
      assert k / 0x4_0000 == q * 0x200 * 512 + r / 0x4_0000;
      DropHighIndices(q * 0x200, r / 0x4_0000);
    } else if level == 2 {
      assert k / 0x200 == q * 0x4_0000 * 512 + r / 0x200;
      DropHighIndices(q * 0x4_0000, r / 0x200);
    } else {
      DropHighIndices(q * 0x800_0000, r);
    }
  }

  lemma DropHighIndices(q: nat, x: nat)
    ensures (q * 512 + x) % 512 == x % 512
  {
  }

  function NextTable(pte: u64): (r: Pointer)
  {
    if !Present(pte) then Ptr(0)
    else if LargePage(pte) then AbortWalk
    else Ptr(PhysToVirt(PteAddr(pte)))
  }

  // ----- The TLB -----

  type Tlb = map<nat, Xlate>

  /** Every cached translation is the current one, except perhaps those of the pages in `stale`. */
  ghost predicate CoherentExcept(m: Memory, cr3: u64, tlb: Tlb, stale: set<nat>)
  {
    forall p :: p in tlb ==> p < PAGES && (p in stale || tlb[p] == Translate(m, cr3, p))
  }

  /** What fills and evictions can make of a TLB while memory stands still. */
  ghost predicate FillsAndEvictions(m: Memory, cr3: u64, before: Tlb, after: Tlb)
  {
    forall p :: p in after ==>
      || (p in before && after[p] == before[p])
      || (p < PAGES && after[p] == Translate(m, cr3, p))
  }

  /** `invlpg`: drops the page of a canonical address, does nothing for any other address. */
  function FlushPage(tlb: Tlb, vaddr: u64): (r: Tlb) { if Canonical(vaddr) then tlb - {PageOf(vaddr)} else tlb }

  ghost predicate UnflushedBy(p: nat, lo: nat, hi: nat)
  {
    exists k: nat :: lo <= k < hi && !CanonicalStep(k) && StepPage(k) == p
  }

  /** Pages whose leaf entry was rewritten through a non-canonical address only ever flushed in vain. */
  ghost function Unflushed(lo: nat, hi: nat): (r: set<nat>)
  {
    set p: nat | p < PAGES && UnflushedBy(p, lo, hi)
  }

  /** The machine. */
  class Mmu {
    var mem: Memory
    var cr3: u64
    var cachedCr3: u64
    var tlb: Tlb

    ghost predicate Valid()
      reads this
    {
      cachedCr3 == cr3 && TreeShaped(mem, cr3)
    }

    method CacheCr3(value: u64)
      modifies this`cachedCr3
      ensures cachedCr3 == value
    {
      cachedCr3 := value;
    }

    function Load(ptr: u64): (r: u64)
      reads this`mem
    {
      Word(mem, VirtToPhys(ptr))
    }

    /** `get_entry`: the four-level walk through direct-map pointers. */
    function GetEntry(vaddr: u64): (r: Pointer)
      reads this
    {
      var p4 := PhysToVirt(cachedCr3);
      var p4e := Load(ElementPtr(p4, P4Index(vaddr)));
      var p3 := NextTable(p4e);
      if p3.AbortWalk? || p3.addr == 0 then p3 else
      var p3e := Load(ElementPtr(p3.addr, P3Index(vaddr)));
      var p2 := NextTable(p3e);
      if p2.AbortWalk? || p2.addr == 0 then p2 else
      var p2e := Load(ElementPtr(p2.addr, P2Index(vaddr)));
      var p1 := NextTable(p2e);
      if p1.AbortWalk? || p1.addr == 0 then p1 else
      Ptr(ElementPtr(p1.addr, P1Index(vaddr)))
    }

    /** The pointer walk ends where the table walk ends: NULL without a leaf slot, `abort()` at a
        large page, and otherwise a non-NULL pointer to the slot. */
    lemma GetEntryWalks(vaddr: u64)
      requires Valid()
      ensures match TableAt(mem, cr3, PageOf(vaddr), 3)
              case Absent => GetEntry(vaddr) == Ptr(0)
              case Large => GetEntry(vaddr) == AbortWalk
              case Next(_) =>
                && GetEntry(vaddr).Ptr? && GetEntry(vaddr).addr != 0
                && VirtToPhys(GetEntry(vaddr).addr) == Slot(mem, cr3, PageOf(vaddr))
    {
      hide Index, PageOf, P4Index, P3Index, P2Index, P1Index, PhysToVirt, VirtToPhys, ElementPtr, NextTable, Descend, DistinctTables;
      var p := PageOf(vaddr);
      IndicesOfAddress(vaddr);
      TablePointer(mem, cr3, p, 0);
      var e4 := Word(mem, EntryAddr(cr3, p, 0));
      assert TableAt(mem, cr3, p, 1) == Descend(e4);
      HopPointer(e4);
      if Descend(e4).Next? {
        TablePointer(mem, cr3, p, 1);
        var e3 := Word(mem, EntryAddr(Descend(e4).table, p, 1));
        assert TableAt(mem, cr3, p, 2) == Descend(e3);
        HopPointer(e3);
        if Descend(e3).Next? {
          TablePointer(mem, cr3, p, 2);
          var e2 := Word(mem, EntryAddr(Descend(e3).table, p, 2));
          assert TableAt(mem, cr3, p, 3) == Descend(e2);
          HopPointer(e2);
          if Descend(e2).Next? {
            TablePointer(mem, cr3, p, 3);
          }
        } else {
          assert TableAt(mem, cr3, p, 3) == Descend(e3);
        }
      } else {
        assert TableAt(mem, cr3, p, 2) == Descend(e4);
        assert TableAt(mem, cr3, p, 3) == Descend(e4);
      }
    }

    /** What `get_entry` returns for two addresses is the same pointer exactly when they agree on bits 12
        to 47. */
    lemma SamePointer(v: u64, w: u64)
      requires Valid() && HasSlot(mem, cr3, PageOf(v)) && HasSlot(mem, cr3, PageOf(w))
      ensures GetEntry(v).Ptr? && GetEntry(w).Ptr?
      ensures GetEntry(v) == GetEntry(w) <==> v / 0x1000 % 0x10_0000_0000 == w / 0x1000 % 0x10_0000_0000
    {
      GetEntryWalks(v);
      GetEntryWalks(w);
      assert PageOf(v) == v / 0x1000 % 0x10_0000_0000 && PageOf(w) == w / 0x1000 % 0x10_0000_0000;
      hide GetEntry, PageOf, TableAt, Slot, VirtToPhys, TreeShaped;
      SlotInjective(mem, cr3, PageOf(v), PageOf(w));
      SamePhysical(GetEntry(v).addr, GetEntry(w).addr);
    }

    /** Any number of TLB fills and evictions, by the hardware, at a moment of its choosing. */
    method Hardware()
      modifies this`tlb
      ensures FillsAndEvictions(mem, cr3, old(tlb), tlb)
    {
      var steps: nat :| true;
      while steps > 0
        invariant FillsAndEvictions(mem, cr3, old(tlb), tlb)
      {
        var p: nat :| p < PAGES;
        if * {
          tlb := tlb - {p};
        } else if Translate(mem, cr3, p).Mapped? {
          tlb := tlb[p := Translate(mem, cr3, p)];
        }
        steps := steps - 1;
      }
    }

    method Invlpg(vaddr: u64)
      modifies this`tlb
      ensures tlb == FlushPage(old(tlb), vaddr)
    {
      if Canonical(vaddr) {
        tlb := tlb - {PageOf(vaddr)};
      }
    }

    /** What the hardware uses for an access: the TLB when it hits, the tables otherwise. */
    function Lookup(p: nat): (r: Xlate)
      reads this
    {
      if p in tlb then tlb[p] else Translate(mem, cr3, p)
    }

    /** The leaf store of `mprotect_page`.  Until the flush only the page being rewritten can be
        stale, whatever the hardware caches meanwhile. */
    method StoreLeaf(vaddr: u64, ptr: u64, flags: u64, ghost stale: set<nat>)
      requires Valid() && HasSlot(mem, cr3, PageOf(vaddr)) && VirtToPhys(ptr) == Slot(mem, cr3, PageOf(vaddr))
      requires CoherentExcept(mem, cr3, tlb, stale)
      modifies this`mem, this`tlb
      ensures Valid() && mem == ProtectPage(old(mem), cr3, PageOf(vaddr), flags).mem
      ensures CoherentExcept(mem, cr3, tlb, stale + {PageOf(vaddr)})
    {
      LeafStore(mem, cr3, PageOf(vaddr), Rewrite(Load(ptr), flags));
      LeafStoreTranslations(mem, cr3, PageOf(vaddr), Rewrite(Load(ptr), flags));
      mem := mem[VirtToPhys(ptr) := Rewrite(Load(ptr), flags)];
      Hardware();
    }

    method MprotectPage(vaddr: u64, flags: u64, ghost stale: set<nat>) returns (r: Outcome)
      requires Valid() && CoherentExcept(mem, cr3, tlb, stale)
      modifies this`mem, this`tlb
      ensures Valid() && mem == ProtectPage(old(mem), cr3, PageOf(vaddr), flags).mem
      ensures match TableAt(old(mem), cr3, PageOf(vaddr), 3)
              case Absent => r == Returned(-1)
              case Large => r == Aborted
              case Next(_) => r == Returned(0)
      ensures r == Aborted <==> MeetsLarge(old(mem), cr3, PageOf(vaddr), 0)
      ensures CoherentExcept(mem, cr3, tlb, if Canonical(vaddr) then stale else stale + {PageOf(vaddr)})
    {
      hide TableAt, Slot, GetEntry, PageOf, Canonical, TreeShaped, VirtToPhys, Translate, Rewrite, MeetsLarge;
      Hardware();
      GetEntryWalks(vaddr);
      WalkStarts(mem, cr3, PageOf(vaddr));
      LargeByEntries(mem, cr3, PageOf(vaddr), cr3, 0);
      var pte := GetEntry(vaddr);
      if pte.AbortWalk? {
        return Aborted;
      }
      if pte.addr == 0 {
        return Returned(-1);
      }
      StoreLeaf(vaddr, pte.addr, flags, stale);
      Invlpg(vaddr);
      Hardware();
      return Returned(0);
    }

    /** `mprotect`, interleaved with the hardware: the result of the loop depends on the tables
        alone, and no translation is stale on return unless a non-canonical address was protected. */
    method Mprotect(addr: u64, len: u64, flags: u64) returns (r: Outcome)
      requires Valid() && CoherentExcept(mem, cr3, tlb, {})
      modifies this`mem, this`tlb
      ensures Valid()
      ensures addr % PGSIZE != 0 || len % PGSIZE != 0 ==> r == Returned(-1) && mem == old(mem) && tlb == old(tlb)
      ensures addr % PGSIZE == 0 && len % PGSIZE == 0 ==>
                && mem == ProtectRange(old(mem), cr3, addr / 0x1000, EndStep(addr, len), flags).mem
                && (r == if ProtectRange(old(mem), cr3, addr / 0x1000, EndStep(addr, len), flags).aborted then Aborted else Returned(0))
                && CoherentExcept(mem, cr3, tlb, Unflushed(addr / 0x1000, EndStep(addr, len)))
                && (r == Aborted <==> exists k: nat :: addr / 0x1000 <= k < EndStep(addr, len) && MeetsLarge(old(mem), cr3, StepPage(k), 0))
    {
      hide TableAt, TreeShaped, Translate, Unflushed, StoreAt, LeafWord, StepPage, MeetsLarge, LeafMap, SameTables, Rewrite;
      var start := addr;
      if start % PGSIZE != 0 || len % PGSIZE != 0 {
        return Returned(-1);
      }
      var end: u64 := (start + len) % TWO64;
      ghost var lo, hi := addr / 0x1000, end / 0x1000;
      if lo <= hi {
        RangeAborts(mem, cr3, lo, hi, flags);
      }
      UnflushedNone(lo);
      while start < end
        invariant start % 0x1000 == 0 && lo <= start / 0x1000 && (lo <= hi ==> start <= end)
        invariant start == addr || start <= end
        invariant Valid()
        invariant ProtectRange(old(mem), cr3, lo, hi, flags) == ProtectRange(mem, cr3, start / 0x1000, hi, flags)
        invariant CoherentExcept(mem, cr3, tlb, Unflushed(lo, start / 0x1000))
        decreases TWO64 - start
      {
        ghost var k := start / 0x1000;
        StoreAtEffect(mem, cr3, PageOf(start), Rewrite(LeafWord(mem, cr3, PageOf(start)), flags));
        var step := MprotectPage(start, flags, Unflushed(lo, k));
        UnflushedGrows(lo, k, hi);
        if step == Aborted {
          return Aborted;
        }
        start := start + PGSIZE;
      }
      return Returned(0);
    }
  }

  /** First step at or after the end of the range as `mprotect` computes it, wrapping at 2^64. */
  function EndStep(addr: u64, len: u64): (r: nat) { (addr + len) % TWO64 / 0x1000 }

  lemma UnflushedNone(lo: nat)
    ensures Unflushed(lo, lo) == {}
  {
  }

  lemma UnflushedGrows(lo: nat, k: nat, hi: nat)
    requires lo <= k < hi
    ensures Unflushed(lo, k) <= Unflushed(lo, k + 1) <= Unflushed(lo, hi)
    ensures Unflushed(lo, k + 1) == if CanonicalStep(k) then Unflushed(lo, k) else Unflushed(lo, k) + {StepPage(k)}
  {
    assert StepPage(k) < PAGES;
    forall p: nat | p in Unflushed(lo, k) ensures p in Unflushed(lo, k + 1) {
      var i: nat :| lo <= i < k && !CanonicalStep(i) && StepPage(i) == p;
      assert lo <= i < k + 1;
    }
    forall p: nat | p in Unflushed(lo, k + 1) ensures p in Unflushed(lo, hi) {
      var i: nat :| lo <= i < k + 1 && !CanonicalStep(i) && StepPage(i) == p;
      assert lo <= i < hi;
    }
    if !CanonicalStep(k) {
      assert lo <= k < k + 1;
      assert StepPage(k) in Unflushed(lo, k + 1);
    }
  }

  /** The pointer to a table of the walk reaches, element by element, the entries of that table. */
  lemma TablePointer(m: Memory, cr3: u64, p: nat, level: Level)
    requires InDirectMap(m, cr3) && p < PAGES && TableAt(m, cr3, p, level).Next?
    ensures var t := TableAt(m, cr3, p, level).table;
            && t < LOW_HALF && PhysToVirt(t) != 0
            && VirtToPhys(ElementPtr(PhysToVirt(t), Index(p, level))) == EntryAddr(t, p, level)
            && ElementPtr(PhysToVirt(t), Index(p, level)) != 0
  {
    TablesAligned(m, cr3, p, level);
    DirectMap(TableAt(m, cr3, p, level).table, Index(p, level));
  }

  /** Following an entry by pointer and following it by table address are the same hop. */
  lemma HopPointer(e: u64)
    ensures NextTable(e) == match Descend(e)
                            case Absent => Ptr(0)
                            case Large => AbortWalk
                            case Next(_) => Ptr(PhysToVirt(PteAddr(e)))
    ensures Descend(e).Next? ==> Descend(e).table == PteAddr(e)
  {
  }

  /** Where the two walks part: behind a present entry that is no large page the hardware always goes on to
      the next table, and the software walk stops exactly when that entry holds the address 2^47, whose
      direct-map pointer wraps to NULL. */
  lemma NullTableExact(m: Memory, table: nat, p: nat, level: Level, w: bool)
    requires level < 3
    ensures var e := Word(m, EntryAddr(table, p, level));
            Present(e) && !LargePage(e) ==>
              && HwWalk(m, table, p, level, w) == HwWalk(m, HwTable(e), p, level + 1, w && Writable(e))
              && (NextTable(e) == Ptr(0) <==> PteAddr(e) == LOW_HALF)
              && (Descend(e) == Absent <==> PteAddr(e) == LOW_HALF)
  {
    NullPointer(Word(m, EntryAddr(table, p, level)));
  }

  lemma SamePhysical(p: u64, q: u64)
    ensures VirtToPhys(p) == VirtToPhys(q) <==> p == q
  {
  }

  lemma NullPointer(e: u64)
    ensures PhysToVirt(PteAddr(e)) == 0 <==> PteAddr(e) == LOW_HALF
  {
  }
}
