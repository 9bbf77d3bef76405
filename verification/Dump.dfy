/** `dump_inner`: the recursive listing of the page tables, its agreement with `get_entry`, and its cost. */
module Dump {
  import opened Words
  import opened PageEntry
  import opened PageTable
  import opened Paging

  /** One printed line. */
  datatype Line = Line(level: Level, index: nat, vaddr: u64, pte: u64)

  /** Bit 47 copied into bits 48 to 63, when it is set. */
  function SignExtend(v: u64): (r: u64)
  {
    if v / LOW_HALF % 2 == 1 then v % LOW_HALF + PHYS_OFFSET else v
  }

  function EntryVaddr(start: u64, level: Level, i: nat): (r: u64) { SignExtend((start + Pages(i, level) * 0x1000) % TWO64) }

  /** `table[i]` through the direct map. */
  function Element(m: Memory, table: u64, i: nat): (r: u64) { Word(m, VirtToPhys(ElementPtr(PhysToVirt(table), i))) }

  /** The lines printed from entry i of a table on, when n entries of it have been printed. */
  function Listing(m: Memory, table: u64, start: u64, level: Level, limit: int, i: nat, n: nat): (r: seq<Line>)
    requires i <= 512
    decreases 3 - level, 512 - i
  {
    if i == 512 then []
    else
      var vaddr, pte := EntryVaddr(start, level, i), Element(m, table, i);
      if pte == 0 then Listing(m, table, start, level, limit, i + 1, n)
      else
        [Line(level, i, vaddr, pte)]
        + Below(m, pte, vaddr, level, limit)
        + (if n + 1 >= limit then [] else Listing(m, table, start, level, limit, i + 1, n + 1))
  }

  /** The lines printed for the table behind an entry. */
  function Below(m: Memory, pte: u64, vaddr: u64, level: Level, limit: int): (r: seq<Line>)
    decreases 3 - level, 0
  {
    if level < 3 && !LargePage(pte) then Listing(m, PteAddr(pte), vaddr, level + 1, limit, 0, 0) else []
  }

  /** What one nonzero entry contributes. */
  function Chunk(m: Memory, start: u64, level: Level, limit: int, i: nat, pte: u64): (r: seq<Line>)
  {
    [Line(level, i, EntryVaddr(start, level, i), pte)] + Below(m, pte, EntryVaddr(start, level, i), level, limit)
  }

  lemma ListingStep(m: Memory, table: u64, start: u64, level: Level, limit: int, i: nat, n: nat)
    requires i < 512
    ensures var pte := Element(m, table, i);
            Listing(m, table, start, level, limit, i, n) ==
            if pte == 0 then Listing(m, table, start, level, limit, i + 1, n)
            else Chunk(m, start, level, limit, i, pte)
                 + (if n + 1 >= limit then [] else Listing(m, table, start, level, limit, i + 1, n + 1))
  {
    hide EntryVaddr, Element, LargePage, PteAddr, Below;
  }

  lemma Resume(a: seq<Line>, b: seq<Line>, c: seq<Line>)
    ensures (a + b) + c == a + (b + c) && a + [] == a
  {
  }

  method DumpInner(m: Memory, table: u64, start: u64, level: Level, limit: int) returns (out: seq<Line>)
    ensures out == Listing(m, table, start, level, limit, 0, 0)
    decreases 3 - level
  {
    hide EntryVaddr, Element, LargePage, PteAddr, Listing;
    var n: nat := 0;
    out := [];
    ghost var all := Listing(m, table, start, level, limit, 0, 0);
    for i := 0 to 512
      invariant out + Listing(m, table, start, level, limit, i, n) == all
    {
      ListingStep(m, table, start, level, limit, i, n);
      var vaddr := EntryVaddr(start, level, i);
      var pte := Element(m, table, i);
      if pte != 0 {
        ghost var before := out;
        out := out + [Line(level, i, vaddr, pte)];
        if level < 3 {
          if !LargePage(pte) {
            var inner := DumpInner(m, PteAddr(pte), vaddr, level + 1, limit);
            out := out + inner;
          }
        }
        n := n + 1;
        assert out == before + Chunk(m, start, level, limit, i, pte);
        Resume(before, Chunk(m, start, level, limit, i, pte), if n >= limit then [] else Listing(m, table, start, level, limit, i + 1, n));
        if n >= limit {
          return;
        }
      }
    }
    assert out + Listing(m, table, start, level, limit, 512, n) == all;
    ListingEnd(m, table, start, level, limit, n);
    Resume(out, [], []);
  }

  lemma ListingEnd(m: Memory, table: u64, start: u64, level: Level, limit: int, n: nat)
    ensures Listing(m, table, start, level, limit, 512, n) == []
  {
  }

  /** `dump_pgtable`. */
  function DumpPgtable(m: Memory, root: u64, limit: int): (r: seq<Line>) { Listing(m, root, 0, 0, limit, 0, 0) }

  // ----- Addresses -----

  /** The canonical address of a page. */
  function CanonicalAddr(p: nat): (r: u64)
    requires p < PAGES
  {
    if p < 0x8_0000_0000 then p * 0x1000 else p * 0x1000 + 0xffff_0000_0000_0000
  }

  /** Page numbers and canonical page addresses are in one-to-one correspondence, in the same order. */
  lemma IndexRoundTrip(p: nat, q: nat, v: u64)
    requires p < PAGES && q < PAGES
    ensures PageOf(CanonicalAddr(p)) == p
    ensures p < q <==> CanonicalAddr(p) < CanonicalAddr(q)
    ensures CanonicalAddr(PageOf(v)) == v <==> Canonical(v) && v % 0x1000 == 0
  {
    PageOfCanonical(p);
    CanonicalOfPage(v);
  }

  lemma PageOfCanonical(p: nat)
    requires p < PAGES
    ensures PageOf(CanonicalAddr(p)) == p
  {
    if p >= 0x8_0000_0000 {
      assert CanonicalAddr(p) / 0x1000 == p + 0xf_fff0_0000_0000;
    }
  }

  lemma CanonicalOfPage(v: u64)
    ensures CanonicalAddr(PageOf(v)) == v <==> Canonical(v) && v % 0x1000 == 0
  {
    var k := v / 0x1000;
    var p := k % PAGES;
    assert v == k * 0x1000 + v % 0x1000;
    if 0xf_fff8_0000_0000 <= k {
      assert p == k - 0xf_fff0_0000_0000;
    } else if k < 0x8_0000_0000 {
      assert p == k;
    }
  }

  // ----- Ranges of pages behind an entry -----

  /** First page behind entry i of the table whose first page is b. */
  function First(b: nat, level: Level, i: nat): (r: nat) { b + Pages(i, level) }

  /** Number of pages behind one table. */
  function Reach(level: Level): (r: nat)
    ensures r > 0
  {
    if level == 0 then 0x10_0000_0000 else if level == 1 then 0x800_0000 else if level == 2 then 0x4_0000 else 0x200
  }

  /** b is the first page behind some table of this level. */
  predicate TableBase(b: nat, level: Level)
  {
    && b + Reach(level) <= PAGES
    && (if level == 0 then b == 0 else if level == 1 then b % 0x800_0000 == 0 else if level == 2 then b % 0x4_0000 == 0 else b % 0x200 == 0)
  }

  /** The address printed for an entry is the canonical address of the first page behind it. */
  lemma EntryVaddrIsCanonical(b: nat, level: Level, i: nat)
    requires TableBase(b, level) && i < 512
    ensures First(b, level, i) < PAGES && EntryVaddr(CanonicalAddr(b), level, i) == CanonicalAddr(First(b, level, i))
  {
    if level == 0 {
      RootEntryVaddr(i);
    } else {
      EntryInHalf(b, level, i);
      SameHalf(b, Pages(i, level));
    }
  }

  lemma RootEntryVaddr(i: nat)
    requires i < 512
    ensures SignExtend(i * 0x80_0000_0000) == CanonicalAddr(i * 0x800_0000)
  {
    if i >= 256 {
      assert i * 0x80_0000_0000 == LOW_HALF + (i - 256) * 0x80_0000_0000;
    }
  }

  /** Below the root, adding an entry's offset leaves the root index of a page alone. */
  lemma EntryInHalf(b: nat, level: Level, i: nat)
    requires level > 0 && TableBase(b, level) && i < 512
    ensures b % 0x200 == 0 && b % 0x800_0000 + Pages(i, level) < 0x800_0000
  {
    var q, r := b / 0x800_0000, b % 0x800_0000;
    if level == 1 {
      Multiple(b / 0x800_0000 * 0x4_0000, 0x200);
    } else if level == 2 {
      var x := b / 0x4_0000 - q * 512;
      assert r == 0x4_0000 * x;
      Multiple(b / 0x4_0000 * 512, 0x200);
    } else {
      var x := b / 0x200 - q * 0x4_0000;
      assert r == 0x200 * x;
    }
  }

  lemma SameHalf(b: nat, d: nat)
    requires b < PAGES && b % 0x200 == 0 && (b % 0x800_0000) + d < 0x800_0000
    ensures b + d < PAGES && SignExtend((CanonicalAddr(b) + d * 0x1000) % TWO64) == CanonicalAddr(b + d)
  {
    var h := b / 0x800_0000;
    assert h < 512 && h * 0x800_0000 <= b + d < (h + 1) * 0x800_0000;
    if b < 0x8_0000_0000 {
      assert h < 256 && b + d < 0x8_0000_0000;
    } else {
      assert h >= 256;
      var v := CanonicalAddr(b) + d * 0x1000;
      assert v == (b + d) * 0x1000 + 0xffff_0000_0000_0000 < TWO64;
      assert v == 0x1_ffff * LOW_HALF + ((b + d) * 0x1000 - LOW_HALF);
    }
  }

  // ----- Addresses from indices -----

  /** The page with the given four indices. */
  function PageOfIndices(i4: nat, i3: nat, i2: nat, i1: nat): (p: nat) { i4 * 0x800_0000 + i3 * 0x4_0000 + i2 * 0x200 + i1 }

  /** The address `dump_inner` builds on the way down through entries i4, i3, i2 and i1. */
  function AddressOfIndices(i4: nat, i3: nat, i2: nat, i1: nat): (v: u64)
  {
    EntryVaddr(EntryVaddr(EntryVaddr(EntryVaddr(0, 0, i4), 1, i3), 2, i2), 3, i1)
  }

  /** The first pages of the tables on the way down. */
  lemma BasesAligned(i4: nat, i3: nat, i2: nat, i1: nat)
    requires i4 < 512 && i3 < 512 && i2 < 512 && i1 < 512
    ensures var b3 := First(0, 0, i4);
            var b2 := First(b3, 1, i3);
            var b1 := First(b2, 2, i2);
            && TableBase(0, 0) && TableBase(b3, 1) && TableBase(b2, 2) && TableBase(b1, 3)
            && First(b1, 3, i1) == PageOfIndices(i4, i3, i2, i1)
  {
    Multiple(i4, 0x800_0000);
    assert i4 * 0x800_0000 + i3 * 0x4_0000 == (i4 * 512 + i3) * 0x4_0000;
    Multiple(i4 * 512 + i3, 0x4_0000);
    assert i4 * 0x800_0000 + i3 * 0x4_0000 + i2 * 0x200 == ((i4 * 512 + i3) * 512 + i2) * 0x200;
    Multiple((i4 * 512 + i3) * 512 + i2, 0x200);
  }

  lemma AddressIsCanonical(i4: nat, i3: nat, i2: nat, i1: nat)
    requires i4 < 512 && i3 < 512 && i2 < 512 && i1 < 512
    ensures PageOfIndices(i4, i3, i2, i1) < PAGES
    ensures AddressOfIndices(i4, i3, i2, i1) == CanonicalAddr(PageOfIndices(i4, i3, i2, i1))
  {
    CanonicalZero();
    hide EntryVaddr, CanonicalAddr, TableBase, First, PageOfIndices;
    BasesAligned(i4, i3, i2, i1);
    var b3 := First(0, 0, i4);
    var b2 := First(b3, 1, i3);
    var b1 := First(b2, 2, i2);
    EntryVaddrIsCanonical(0, 0, i4);
    EntryVaddrIsCanonical(b3, 1, i3);
    EntryVaddrIsCanonical(b2, 2, i2);
    EntryVaddrIsCanonical(b1, 3, i1);
  }

  lemma CanonicalZero()
    ensures CanonicalAddr(0) == 0
  {
  }

  lemma IndicesOfPage(i4: nat, i3: nat, i2: nat, i1: nat)
    requires i4 < 512 && i3 < 512 && i2 < 512 && i1 < 512
    ensures var p := PageOfIndices(i4, i3, i2, i1);
            Index(p, 0) == i4 && Index(p, 1) == i3 && Index(p, 2) == i2 && Index(p, 3) == i1
  {
    LastIndex(0, i4);
    IndexAbove(i4, i3 * 0x4_0000 + i2 * 0x200 + i1);
    assert PageOfIndices(i4, i3, i2, i1) / 0x4_0000 == 512 * i4 + i3;
    LastIndex(i4, i3);
    assert PageOfIndices(i4, i3, i2, i1) / 0x200 == 512 * (512 * i4 + i3) + i2;
    LastIndex(512 * i4 + i3, i2);
    LastIndex(512 * (512 * i4 + i3) + i2, i1);
  }

  lemma IndexAbove(q: nat, r: nat)
    requires r < 0x800_0000
    ensures (q * 0x800_0000 + r) / 0x800_0000 == q
  {
  }

  lemma LastIndex(q: nat, i: nat)
    requires i < 512
    ensures (512 * q + i) % 512 == i
  {
  }

  lemma PageFromIndices(p: nat)
    requires p < PAGES
    ensures PageOfIndices(Index(p, 0), Index(p, 1), Index(p, 2), Index(p, 3)) == p
  {
    assert p / 0x200 / 512 == p / 0x4_0000 && p / 0x4_0000 / 512 == p / 0x800_0000 < 512;
  }

  /** Indices to address and back: the address built from four indices is a canonical page address from
      which the index macros read the same four indices. */
  lemma FourIndexRoundTrip(i4: nat, i3: nat, i2: nat, i1: nat)
    requires i4 < 512 && i3 < 512 && i2 < 512 && i1 < 512
    ensures var v := AddressOfIndices(i4, i3, i2, i1);
            && Canonical(v) && v % 0x1000 == 0
            && P4Index(v) == i4 && P3Index(v) == i3 && P2Index(v) == i2 && P1Index(v) == i1
  {
    hide *;
    var v, p := AddressOfIndices(i4, i3, i2, i1), PageOfIndices(i4, i3, i2, i1);
    AddressIsCanonical(i4, i3, i2, i1);
    IndexRoundTrip(p, p, v);
    IndicesOfAddress(v);
    IndicesOfPage(i4, i3, i2, i1);
  }

  /** Address to indices and back: exactly the canonical page addresses are rebuilt from their indices. */
  lemma AddressRoundTrip(v: u64)
    ensures AddressOfIndices(P4Index(v), P3Index(v), P2Index(v), P1Index(v)) == v <==> Canonical(v) && v % 0x1000 == 0
  {
    hide *;
    IndicesOfAddress(v);
    AddressIsCanonical(P4Index(v), P3Index(v), P2Index(v), P1Index(v));
    PageFromIndices(PageOf(v));
    CanonicalOfPage(v);
  }
}
