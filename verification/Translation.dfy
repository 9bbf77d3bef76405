/** Address translation as the hardware does it (AMD64 Architecture Programmer's Manual, Volume 2,
    section 5.3), beside the walk that `get_entry` does in software. */
module Translation {
  import opened Words
  import opened PageEntry
  import opened PageTable

  /** The entry that maps a page, the level it was found at, and whether writes are allowed. */
  datatype Xlate = NotMapped | Mapped(entry: u64, level: Level, writable: bool)

  predicate CanWrite(x: Xlate) { x.Mapped? && x.writable }

  predicate Allows(x: Xlate, write: bool) { x.Mapped? && (write ==> x.writable) }

  /** The rest of the hardware walk, from a table of the given level.  A page is writable only if
      every entry on the way is; a large-page bit in the root table is a reserved-bit fault. */
  function HwWalk(m: Memory, table: nat, p: nat, level: Level, writable: bool): (r: Xlate)
    decreases 3 - level, p
  {
    var e := Word(m, EntryAddr(table, p, level));
    if !Present(e) then NotMapped
    else if level == 3 then Mapped(e, level, writable && Writable(e))
    else if LargePage(e) then (if level == 0 then NotMapped else Mapped(e, level, writable && Writable(e)))
    else HwWalk(m, HwTable(e), p, level + 1, writable && Writable(e))
  }

  function Translate(m: Memory, cr3: u64, p: nat): (r: Xlate) { HwWalk(m, HwTable(cr3), p, 0, true) }

  /** Every entry above the given level on the walk of p allows writes. */
  predicate WritableAbove(m: Memory, root: nat, p: nat, level: Level)
    decreases level, p
  {
    level == 0 ||
    (&& WritableAbove(m, root, p, level - 1)
     && TableAt(m, root, p, level - 1).Next?
     && Writable(Word(m, EntryAddr(TableAt(m, root, p, level - 1).table, p, level - 1))))
  }

  /** As long as the software walk goes on, the hardware is at the same table. */
  lemma {:induction false} HwFollowsSoftware(m: Memory, cr3: u64, p: nat, level: Level)
    requires InDirectMap(m, cr3) && p < PAGES && TableAt(m, cr3, p, level).Next?
    ensures Translate(m, cr3, p) ==
            HwWalk(m, TableAt(m, cr3, p, level).table, p, level, WritableAbove(m, cr3, p, level))
    decreases level
  {
    if level > 0 {
      var above := TableAt(m, cr3, p, level - 1);
      assert above.Next?;
      HwFollowsSoftware(m, cr3, p, level - 1);
      HwTableSmall(Word(m, EntryAddr(above.table, p, level - 1)));
    } else {
      assert HwTable(cr3) == cr3;
    }
  }

  /** The software leaf slot is the entry the hardware uses; the hardware also wants it present,
      and writable at every level for a write. */
  lemma HwUsesSlot(m: Memory, cr3: u64, p: nat)
    requires InDirectMap(m, cr3) && p < PAGES && HasSlot(m, cr3, p)
    ensures var e := Word(m, Slot(m, cr3, p));
            Translate(m, cr3, p) ==
            if Present(e) then Mapped(e, 3, WritableAbove(m, cr3, p, 3) && Writable(e)) else NotMapped
  {
    HwFollowsSoftware(m, cr3, p, 3);
  }

  lemma {:induction false} HwMeetsLarge(m: Memory, cr3: u64, p: nat, t: nat, level: Level, w: bool)
    requires InDirectMap(m, cr3) && p < PAGES && TableAt(m, cr3, p, level) == Next(t)
    ensures HwWalk(m, t, p, level, w).Mapped? && HwWalk(m, t, p, level, w).level < 3 ==> TableAt(m, cr3, p, 3).Large?
    ensures level > 0 && TableAt(m, cr3, p, 3).Large? ==> HwWalk(m, t, p, level, w).Mapped? && HwWalk(m, t, p, level, w).level < 3
    decreases 3 - level
  {
    if level < 3 {
      var e := Word(m, EntryAddr(t, p, level));
      assert TableAt(m, cr3, p, level + 1) == Descend(e);
      if Present(e) && !LargePage(e) {
        HwTableSmall(e);
        HwMeetsLarge(m, cr3, p, HwTable(e), level + 1, w && Writable(e));
      } else {
        WalkEnded(m, cr3, p, level + 1, 3);
      }
    }
  }

  /** The software walk ends at a large page exactly where the hardware maps one, or at the large-page bit
      of a root entry, which the hardware refuses. */
  lemma LargeMapped(m: Memory, cr3: u64, p: nat)
    requires InDirectMap(m, cr3) && p < PAGES
    ensures var x, e := Translate(m, cr3, p), Word(m, cr3 + 8 * (p / 0x800_0000));
            TableAt(m, cr3, p, 3).Large? <==> (x.Mapped? && x.level < 3) || (e % 2 == 1 && e / 0x80 % 2 == 1)
  {
    var e := Word(m, EntryAddr(cr3, p, 0));
    assert HwTable(cr3) == cr3 && Index(p, 0) == p / 0x800_0000;
    HwMeetsLarge(m, cr3, p, cr3, 0, true);
    assert TableAt(m, cr3, p, 1) == Descend(e);
    if Present(e) && !LargePage(e) {
      HwTableSmall(e);
      HwMeetsLarge(m, cr3, p, HwTable(e), 1, Writable(e));
    } else {
      WalkEnded(m, cr3, p, 1, 3);
    }
  }

  lemma {:induction false} WritableAboveSame(m: Memory, m': Memory, root: nat, p: nat, level: Level)
    requires SameTables(m, m', root) && p < PAGES
    ensures WritableAbove(m', root, p, level) == WritableAbove(m, root, p, level)
    decreases level
  {
    if level > 0 {
      WritableAboveSame(m, m', root, p, level - 1);
      assert TableAt(m', root, p, level - 1) == TableAt(m, root, p, level - 1);
    }
  }

  lemma {:induction false} HwWalkSame(m: Memory, m': Memory, root: nat, p: nat, t: nat, level: Level, w: bool)
    requires InDirectMap(m, root) && SameTables(m, m', root) && p < PAGES
    requires TableAt(m, root, p, level) == Next(t)
    requires HasSlot(m, root, p) ==> Word(m', Slot(m, root, p)) == Word(m, Slot(m, root, p))
    ensures HwWalk(m', t, p, level, w) == HwWalk(m, t, p, level, w)
    decreases 3 - level
  {
    if level < 3 {
      var e := Word(m, EntryAddr(t, p, level));
      assert TableAt(m', root, p, level) == TableAt(m, root, p, level);
      if Present(e) && !LargePage(e) {
        HwTableSmall(e);
        assert TableAt(m, root, p, level + 1) == Descend(e) == Next(HwTable(e));
        HwWalkSame(m, m', root, p, HwTable(e), level + 1, w && Writable(e));
      }
    }
  }

  /** Stores that keep the tables and the leaf entry of a page keep its translation. */
  lemma TranslationSame(m: Memory, m': Memory, cr3: u64, p: nat)
    requires InDirectMap(m, cr3) && SameTables(m, m', cr3) && p < PAGES
    requires HasSlot(m, cr3, p) ==> Word(m', Slot(m, cr3, p)) == Word(m, Slot(m, cr3, p))
    ensures Translate(m', cr3, p) == Translate(m, cr3, p)
  {
    assert HwTable(cr3) == cr3;
    HwWalkSame(m, m', cr3, p, cr3, 0, true);
  }

  /** A leaf store changes the translation of its own page only. */
  lemma LeafStoreTranslations(m: Memory, cr3: u64, p: nat, v: u64)
    requires TreeShaped(m, cr3) && p < PAGES && HasSlot(m, cr3, p)
    ensures forall q: nat :: q < PAGES && q != p ==>
              Translate(m[Slot(m, cr3, p) := v], cr3, q) == Translate(m, cr3, q)
    ensures Translate(m[Slot(m, cr3, p) := v], cr3, p) ==
            if Present(v) then Mapped(v, 3, WritableAbove(m, cr3, p, 3) && Writable(v)) else NotMapped
  {
    var m' := m[Slot(m, cr3, p) := v];
    LeafStore(m, cr3, p, v);
    forall q: nat | q < PAGES && q != p ensures Translate(m', cr3, q) == Translate(m, cr3, q) {
      if HasSlot(m, cr3, q) {
        SlotInjective(m, cr3, p, q);
      }
      TranslationSame(m, m', cr3, q);
    }
    assert TableAt(m', cr3, p, 3) == TableAt(m, cr3, p, 3);
    HwUsesSlot(m', cr3, p);
    WritableAboveSame(m, m', cr3, p, 3);
  }
}
