/** What the page-fault branch of `exception_handler` achieves: `mprotect(cr2, PGSIZE, PTE_P | PTE_W)`
    once, or again and again on a write that keeps faulting; and what `mprotect` leaves in the TLB. */
module Repair {
  import opened Words
  import opened PageEntry
  import opened PageTable
  import opened Translation
  import opened Protection
  import opened Paging

  /** Flags PTE_P | PTE_W. */
  const RW: u64 := PTE_P + PTE_W

  /** The memory effect of the handler on a fault at `fault`: an unaligned address aborts, in the last page
      of the address space nothing happens, and elsewhere the page is rewritten.  RepairIsMprotect shows
      that this is what the call of `mprotect` does. */
  function RepairOnce(m: Memory, cr3: u64, fault: u64): (r: Effect)
  {
    if fault % 0x1000 != 0 then Effect(m, true)
    else if LastPage(fault) then Effect(m, false)
    else ProtectPage(m, cr3, PageOf(fault), RW)
  }

  /** The same write faulting n times in a row. */
  function RepairTimes(m: Memory, cr3: u64, fault: u64, n: nat): (r: Effect)
  {
    if n == 0 then Effect(m, false)
    else
      var r := RepairTimes(m, cr3, fault, n - 1);
      if r.aborted then r else RepairOnce(r.mem, cr3, fault)
  }

  /** The last page of the address space: `start + len` wraps to 0, so the loop never runs. */
  predicate LastPage(fault: u64) { fault / 0x1000 == 0xf_ffff_ffff_ffff }

  /** What a write fault needs for the handler to be of help: a leaf slot, write permission in the three
      entries above it, and an address `mprotect` can express a range for. */
  predicate Repairable(m: Memory, cr3: u64, fault: u64)
  {
    HasSlot(m, cr3, PageOf(fault)) && WritableAbove(m, cr3, PageOf(fault), 3) && !LastPage(fault)
  }

  lemma RepairIsMprotect(m: Memory, cr3: u64, fault: u64)
    requires fault % 0x1000 == 0
    ensures RepairOnce(m, cr3, fault) == ProtectRange(m, cr3, fault / 0x1000, EndStep(fault, 0x1000), RW)
  {
    hide ProtectPage, StepPage;
    var k := fault / 0x1000;
    if LastPage(fault) {
      assert EndStep(fault, 0x1000) == 0;
    } else {
      assert EndStep(fault, 0x1000) == k + 1;
      var r := ProtectPage(m, cr3, StepPage(k), RW);
      assert ProtectRange(r.mem, cr3, k + 1, k + 1, RW) == Effect(r.mem, false);
    }
  }

  lemma RwBits(e: u64)
    ensures Present(Rewrite(e, RW)) && Writable(Rewrite(e, RW)) && !LargePage(Rewrite(e, RW))
    ensures FrameNumber(Rewrite(e, RW)) == FrameNumber(e)
  {
    RwFlags();
    hide Rewrite, FrameNumber, Present, Writable, LargePage;
    RewriteFields(e, RW);
    RewriteFrameNumber(e, RW);
    LowBits(Rewrite(e, RW), RW);
  }

  lemma RwFlags()
    ensures Present(RW) && Writable(RW) && !LargePage(RW) && FrameNumber(RW) == 0
  {
  }

  /** The flag bits tested here live in the low 12 bits. */
  lemma LowBits(x: u64, y: u64)
    requires x % 0x1000 == y % 0x1000
    ensures Present(x) == Present(y) && Writable(x) == Writable(y) && LargePage(x) == LargePage(y)
  {
    BitsBelow(x / 0x1000, x % 0x1000);
    BitsBelow(y / 0x1000, y % 0x1000);
  }

  lemma BitsBelow(q: nat, l: nat)
    requires l < 0x1000
    ensures (q * 0x1000 + l) % 2 == l % 2
    ensures (q * 0x1000 + l) / 2 % 2 == l / 2 % 2
    ensures (q * 0x1000 + l) / 0x80 % 2 == l / 0x80 % 2
  {
    AddEven(q * 0x800, l);
    assert (q * 0x1000 + l) / 2 == 2 * (q * 0x400) + l / 2;
    AddEven(q * 0x400, l / 2);
    assert (q * 0x1000 + l) / 0x80 == 2 * (q * 0x10) + l / 0x80;
    AddEven(q * 0x10, l / 0x80);
  }

  lemma AddEven(a: nat, b: nat)
    ensures (2 * a + b) % 2 == b % 2
  {
  }

  /** A repair leaves the tables above the leaves alone, and a tree. */
  lemma RepairKeepsTables(m: Memory, cr3: u64, fault: u64)
    requires TreeShaped(m, cr3)
    ensures TreeShaped(RepairOnce(m, cr3, fault).mem, cr3) && SameTables(m, RepairOnce(m, cr3, fault).mem, cr3)
  {
    hide TreeShaped, StoreAt, Rewrite, LeafWord, LeafMap, TableAt;
    SameTablesRefl(m, cr3);
    StoreAtEffect(m, cr3, PageOf(fault), Rewrite(LeafWord(m, cr3, PageOf(fault)), RW));
  }

  /** One repair of a page that is not writable: it aborts exactly at a large page, and otherwise the
      retried write succeeds exactly when the page was repairable. */
  lemma RepairProgress(m: Memory, cr3: u64, fault: u64)
    requires TreeShaped(m, cr3) && fault % 0x1000 == 0 && !CanWrite(Translate(m, cr3, PageOf(fault)))
    ensures var r := RepairOnce(m, cr3, fault);
            && (r.aborted <==> TableAt(m, cr3, PageOf(fault), 3).Large? && !LastPage(fault))
            && (!r.aborted ==> (CanWrite(Translate(r.mem, cr3, PageOf(fault))) <==> Repairable(m, cr3, fault)))
  {
    var p := PageOf(fault);
    if !LastPage(fault) && HasSlot(m, cr3, p) {
      var e := Word(m, Slot(m, cr3, p));
      RwBits(e);
      LeafStoreTranslations(m, cr3, p, Rewrite(e, RW));
    }
  }

  /** One repair aborts exactly at an unaligned address or where the raw entries on the walk hold a large
      page (and then nothing is stored); what the hardware maps as a large page makes it abort. */
  lemma RepairAborts(m: Memory, cr3: u64, fault: u64)
    requires InDirectMap(m, cr3)
    ensures RepairOnce(m, cr3, fault).aborted <==>
            fault % 0x1000 != 0 || (fault / 0x1000 != 0xf_ffff_ffff_ffff && MeetsLarge(m, cr3, PageOf(fault), 0))
    ensures RepairOnce(m, cr3, fault).aborted ==> RepairOnce(m, cr3, fault).mem == m
    ensures var x := Translate(m, cr3, PageOf(fault));
            x.Mapped? && x.level < 3 && fault / 0x1000 != 0xf_ffff_ffff_ffff ==> RepairOnce(m, cr3, fault).aborted
  {
    hide InDirectMap, MeetsLarge, Translate, TableAt, PageOf, Rewrite;
    WalkStarts(m, cr3, PageOf(fault));
    LargeByEntries(m, cr3, PageOf(fault), cr3, 0);
    LargeMapped(m, cr3, PageOf(fault));
  }

  /** What a repair stores, as a number: the old frame, and nothing set but bits 0 and 1. */
  lemma RepairedEntry(m: Memory, cr3: u64, fault: u64)
    requires fault % 0x1000 == 0 && fault / 0x1000 != 0xf_ffff_ffff_ffff && HasSlot(m, cr3, PageOf(fault))
    ensures Word(RepairOnce(m, cr3, fault).mem, Slot(m, cr3, PageOf(fault))) ==
            FrameNumber(Word(m, Slot(m, cr3, PageOf(fault)))) * 0x1000 + 3
  {
    hide TableAt, Slot, PageOf, FrameNumber, Rewrite;
    RewriteValue(Word(m, Slot(m, cr3, PageOf(fault))), RW);
  }

  lemma RepairTwice(m: Memory, cr3: u64, fault: u64)
    requires TreeShaped(m, cr3) && fault % 0x1000 == 0 && !RepairOnce(m, cr3, fault).aborted
    ensures RepairOnce(RepairOnce(m, cr3, fault).mem, cr3, fault) == RepairOnce(m, cr3, fault)
  {
    var p := PageOf(fault);
    var m1 := RepairOnce(m, cr3, fault).mem;
    if !LastPage(fault) && HasSlot(m, cr3, p) {
      var e := Word(m, Slot(m, cr3, p));
      LeafStore(m, cr3, p, Rewrite(e, RW));
      assert TableAt(m1, cr3, p, 3) == TableAt(m, cr3, p, 3);
      RewriteIdempotent(e, RW);
    }
  }

  /** Fault progress, exactly: however often the same aligned write faults, it succeeds after n >= 1
      repairs if and only if the page was repairable to begin with; if not, the tables reached after
      the first repair never change again and the machine repeats the fault forever. */
  lemma {:induction false} FaultProgress(m: Memory, cr3: u64, fault: u64, n: nat)
    requires TreeShaped(m, cr3) && fault % 0x1000 == 0 && !CanWrite(Translate(m, cr3, PageOf(fault)))
    requires !(TableAt(m, cr3, PageOf(fault), 3).Large? && !LastPage(fault)) && n >= 1
    ensures !RepairTimes(m, cr3, fault, n).aborted
    ensures RepairTimes(m, cr3, fault, n).mem == RepairOnce(m, cr3, fault).mem
    ensures CanWrite(Translate(RepairTimes(m, cr3, fault, n).mem, cr3, PageOf(fault))) <==> Repairable(m, cr3, fault)
    decreases n
  {
    hide RepairOnce, Repairable, TreeShaped, TableAt, Translate;
    RepairProgress(m, cr3, fault);
    if n == 1 {
      assert RepairTimes(m, cr3, fault, 0) == Effect(m, false);
    } else {
      FaultProgress(m, cr3, fault, n - 1);
      RepairTwice(m, cr3, fault);
    }
  }

  /** A leaf slot alone is not enough: with write permission missing above the leaf the handler
      reports success and the write faults again. */
  lemma SlotIsNotEnough(m: Memory, cr3: u64, fault: u64)
    requires TreeShaped(m, cr3) && fault % 0x1000 == 0 && HasSlot(m, cr3, PageOf(fault))
    requires !WritableAbove(m, cr3, PageOf(fault), 3)
    ensures !RepairOnce(m, cr3, fault).aborted
    ensures !CanWrite(Translate(RepairOnce(m, cr3, fault).mem, cr3, PageOf(fault)))
  {
    HwUsesSlot(m, cr3, PageOf(fault));
    RepairProgress(m, cr3, fault);
  }

  // ----- What mprotect leaves in the TLB -----

  /** What flushing by address leaves of one coherent TLB, when no other page's translation changes. */
  lemma FlushOneTlb(m: Memory, m': Memory, cr3: u64, tlb: Tlb, vaddr: u64)
    requires CoherentExcept(m, cr3, tlb, {})
    requires forall q: nat :: q < PAGES && q != PageOf(vaddr) ==> Translate(m', cr3, q) == Translate(m, cr3, q)
    ensures CoherentExcept(m', cr3, FlushPage(tlb, vaddr), {}) <==>
            (|| Canonical(vaddr) || PageOf(vaddr) !in tlb
             || Translate(m', cr3, PageOf(vaddr)) == Translate(m, cr3, PageOf(vaddr)))
  {
    hide Translate, PageOf, Canonical;
    var p := PageOf(vaddr);
    if !Canonical(vaddr) && p in tlb && CoherentExcept(m', cr3, FlushPage(tlb, vaddr), {}) {
      assert p in FlushPage(tlb, vaddr);
    }
  }

  /** The rewrite of a leaf entry leaves the translation of its page as it was: a present entry is stored
      back unchanged, an absent one stays absent. */
  predicate NothingToFlush(e: u64, flags: u64) { if Present(e) then Rewrite(e, flags) == e else !Present(flags) }

  /** A leaf store leaves the translation of its page as it was exactly if it stores a present entry back
      unchanged or an absent one as absent. */
  lemma StoreKeepsTranslation(m: Memory, m': Memory, cr3: u64, p: nat, v: u64)
    requires TreeShaped(m, cr3) && p < PAGES && HasSlot(m, cr3, p) && m' == m[Slot(m, cr3, p) := v]
    ensures var e := Word(m, Slot(m, cr3, p));
            Translate(m', cr3, p) == Translate(m, cr3, p) <==> if Present(e) then v == e else !Present(v)
  {
    hide TableAt, Slot, TreeShaped, Present, Writable, LargePage, Translate;
    TreeInDirectMap(m, cr3);
    HwUsesSlot(m, cr3, p);
    LeafStoreTranslations(m, cr3, p, v);
  }

  lemma SlotPresent(m: Memory, cr3: u64, p: nat)
    requires InDirectMap(m, cr3) && p < PAGES && HasSlot(m, cr3, p)
    ensures Translate(m, cr3, p).Mapped? <==> Present(Word(m, Slot(m, cr3, p)))
  {
    HwUsesSlot(m, cr3, p);
  }

  lemma RewrittenPresent(e: u64, flags: u64)
    ensures Present(Rewrite(e, flags)) <==> Present(flags)
  {
    hide Rewrite, Present;
    RewriteFields(e, flags);
    LowBits(Rewrite(e, flags), flags);
  }

  lemma TreeInDirectMap(m: Memory, root: nat)
    requires TreeShaped(m, root)
    ensures InDirectMap(m, root)
  {
  }

  /** Flushing by address, exactly: `mprotect_page` leaves every coherent TLB coherent if and only if the
      address is canonical, or the walk finds no slot, or the rewrite changes no translation.  All three
      can be told from the address, the flags and the tables before the call. */
  lemma FlushExact(m: Memory, cr3: u64, vaddr: u64, flags: u64)
    requires TreeShaped(m, cr3)
    ensures var p := PageOf(vaddr);
            var m' := ProtectPage(m, cr3, p, flags).mem;
            (forall tlb: Tlb :: CoherentExcept(m, cr3, tlb, {}) ==> CoherentExcept(m', cr3, FlushPage(tlb, vaddr), {})) <==>
            Canonical(vaddr) || !HasSlot(m, cr3, p) || NothingToFlush(Word(m, Slot(m, cr3, p)), flags)
  {
    hide TreeShaped, InDirectMap, Translate, Rewrite, Canonical, PageOf, TableAt, Slot, Present;
    var p := PageOf(vaddr);
    var m' := ProtectPage(m, cr3, p, flags).mem;
    if HasSlot(m, cr3, p) {
      var e := Word(m, Slot(m, cr3, p));
      assert m' == m[Slot(m, cr3, p) := Rewrite(e, flags)];
      LeafStoreTranslations(m, cr3, p, Rewrite(e, flags));
      StoreKeepsTranslation(m, m', cr3, p, Rewrite(e, flags));
      RewrittenPresent(e, flags);
      TreeInDirectMap(m, cr3);
      SlotPresent(m, cr3, p);
    }
    hide ProtectPage, NothingToFlush, CoherentExcept;
    forall tlb: Tlb | CoherentExcept(m, cr3, tlb, {})
      ensures CoherentExcept(m', cr3, FlushPage(tlb, vaddr), {}) <==>
              Canonical(vaddr) || p !in tlb || Translate(m', cr3, p) == Translate(m, cr3, p)
    {
      FlushOneTlb(m, m', cr3, tlb, vaddr);
    }
    OneCached(m, cr3, p);
    assert p in CachedOnly(m, cr3, p);
  }

  /** The TLB that holds the translation of page p and nothing else. */
  function CachedOnly(m: Memory, cr3: u64, p: nat): (tlb: Tlb) { map[p := Translate(m, cr3, p)] }

  lemma OneCached(m: Memory, cr3: u64, p: nat)
    requires p < PAGES
    ensures CoherentExcept(m, cr3, CachedOnly(m, cr3, p), {}) && p in CachedOnly(m, cr3, p)
  {
  }

  /** A TLB that caches no failed walk. */
  ghost predicate OnlyMapped(tlb: Tlb) { forall p :: p in tlb ==> tlb[p].Mapped? }

  /** The same for a TLB that holds translations of present pages only, as those of AMD64 processors do:
      an absent entry was never cached, so it may then become present without a flush. */
  lemma FlushExactMapped(m: Memory, cr3: u64, vaddr: u64, flags: u64)
    requires TreeShaped(m, cr3)
    ensures var p := PageOf(vaddr);
            var m' := ProtectPage(m, cr3, p, flags).mem;
            (forall tlb: Tlb :: OnlyMapped(tlb) && CoherentExcept(m, cr3, tlb, {}) ==>
                                  CoherentExcept(m', cr3, FlushPage(tlb, vaddr), {})) <==>
            (|| Canonical(vaddr) || !HasSlot(m, cr3, p)
             || (Present(Word(m, Slot(m, cr3, p))) ==> Rewrite(Word(m, Slot(m, cr3, p)), flags) == Word(m, Slot(m, cr3, p))))
  {
    hide TreeShaped, InDirectMap, Translate, Rewrite, Canonical, PageOf, TableAt, Slot, Present;
    var p := PageOf(vaddr);
    var m' := ProtectPage(m, cr3, p, flags).mem;
    if HasSlot(m, cr3, p) {
      var e := Word(m, Slot(m, cr3, p));
      assert m' == m[Slot(m, cr3, p) := Rewrite(e, flags)];
      LeafStoreTranslations(m, cr3, p, Rewrite(e, flags));
      StoreKeepsTranslation(m, m', cr3, p, Rewrite(e, flags));
      RewrittenPresent(e, flags);
      TreeInDirectMap(m, cr3);
      SlotPresent(m, cr3, p);
    }
    hide ProtectPage;
    forall tlb: Tlb | CoherentExcept(m, cr3, tlb, {})
      ensures CoherentExcept(m', cr3, FlushPage(tlb, vaddr), {}) <==>
              Canonical(vaddr) || p !in tlb || Translate(m', cr3, p) == Translate(m, cr3, p)
    {
      FlushOneTlb(m, m', cr3, tlb, vaddr);
    }
    OneCached(m, cr3, p);
    var one := CachedOnly(m, cr3, p);
    assert Translate(m, cr3, p).Mapped? ==> OnlyMapped(one);
  }

  /** A range inside one canonical half is flushed completely. */
  lemma CanonicalRangeFlushed(lo: nat, hi: nat)
    requires hi <= 0x8_0000_0000 || (0xf_fff8_0000_0000 <= lo && hi <= 0x10_0000_0000_0000)
    ensures Unflushed(lo, hi) == {}
  {
    assert forall k: nat :: lo <= k < hi ==> CanonicalStep(k);
    forall p: nat ensures !UnflushedBy(p, lo, hi) {
    }
  }

  /** Write permission, once removed, is gone from the tables and from every coherent TLB. */
  lemma NoRemovedWrite(m: Memory, cr3: u64, tlb: Tlb, lo: nat, hi: nat, flags: u64, p: nat)
    requires TreeShaped(m, cr3) && lo <= hi && !Writable(flags)
    requires !ProtectRange(m, cr3, lo, hi, flags).aborted
    requires CoherentExcept(ProtectRange(m, cr3, lo, hi, flags).mem, cr3, tlb, {})
    requires p < PAGES && Touched(p, lo, hi) && HasSlot(m, cr3, p)
    ensures !CanWrite(Translate(ProtectRange(m, cr3, lo, hi, flags).mem, cr3, p))
    ensures p in tlb ==> !CanWrite(tlb[p])
  {
    var m' := ProtectRange(m, cr3, lo, hi, flags).mem;
    ProtectRefines(m, cr3, lo, hi, flags);
    StopIsFirst(m, cr3, lo, hi);
    assert TableAt(m', cr3, p, 3) == TableAt(m, cr3, p, 3);
    assert p in LeafMap(m, cr3) && p in LeafMap(m', cr3);
    assert LeafMap(m', cr3)[p] == Rewrite(LeafMap(m, cr3)[p], flags);
    RewriteFields(LeafMap(m, cr3)[p], flags);
    LowBits(LeafMap(m', cr3)[p], flags);
    HwUsesSlot(m', cr3, p);
  }
}
