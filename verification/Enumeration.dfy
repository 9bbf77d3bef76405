/** What `dump_pgtable` prints: agreement with `get_entry`, order, and a bound on its length. */
module Enumeration {
  import opened Words
  import opened PageEntry
  import opened PageTable
  import opened Paging
  import opened Dump

  // The dump is compared with the walk level by level: `at` is the level of the lines in question.

  /** The lines of a listing that are of a given level. */
  function AtLevel(lines: seq<Line>, at: Level): (r: seq<Line>)
  {
    if lines == [] then [] else LineAt(lines[0], at) + AtLevel(lines[1..], at)
  }

  /** What the first line adds to them. */
  function LineAt(line: Line, at: Level): (r: seq<Line>) { if line.level == at then [line] else [] }

  lemma AtLevelCons(lines: seq<Line>, at: Level)
    ensures lines == [] ==> AtLevel(lines, at) == []
    ensures lines != [] ==> AtLevel(lines, at) == LineAt(lines[0], at) + AtLevel(lines[1..], at)
  {
  }

  lemma {:induction false} AtLevelConcat(a: seq<Line>, b: seq<Line>, at: Level)
    ensures AtLevel(a + b, at) == AtLevel(a, at) + AtLevel(b, at)
    decreases |a|
  {
    hide *;
    AtLevelCons(a, at);
    if a == [] {
      assert a + b == b;
      EmptyFront(AtLevel(b, at), []);
    } else {
      AtLevelConcat(a[1..], b, at);
      AtLevelCons(a + b, at);
      assert (a + b)[1..] == a[1..] + b;
      Regrouped(LineAt(a[0], at), AtLevel(a[1..], at), AtLevel(b, at));
    }
  }

  lemma Regrouped(a: seq<Line>, b: seq<Line>, c: seq<Line>)
    ensures a + (b + c) == (a + b) + c
  {
  }

  /** Page p is the first page behind an entry of a table of this level. */
  predicate FirstPage(p: nat, level: Level)
  {
    if level == 0 then p % 0x800_0000 == 0 else if level == 1 then p % 0x4_0000 == 0 else if level == 2 then p % 0x200 == 0 else true
  }

  /** The walk of page p reaches a table of this level and finds a nonzero entry there, which no earlier page
      has behind it. */
  predicate Listed(m: Memory, root: nat, at: Level, p: nat)
  {
    FirstPage(p, at) && TableAt(m, root, p, at).Next? && Word(m, EntryAddr(TableAt(m, root, p, at).table, p, at)) != 0
  }

  /** How that entry should be printed. */
  function Shown(m: Memory, root: nat, at: Level, p: nat): (line: Line)
    requires p < PAGES && TableAt(m, root, p, at).Next?
  {
    Line(at, Index(p, at), CanonicalAddr(p), Word(m, EntryAddr(TableAt(m, root, p, at).table, p, at)))
  }

  /** The reference: a scan of all pages lo..hi-1 in order, asking the walk of each for its entry. */
  function Scan(m: Memory, root: nat, at: Level, lo: nat, hi: nat): (r: seq<Line>)
    requires hi <= PAGES
    decreases hi - lo
  {
    if lo >= hi then []
    else (if Listed(m, root, at, lo) then [Shown(m, root, at, lo)] else []) + Scan(m, root, at, lo + 1, hi)
  }

  /** An interior entry that the dump follows and the walk does not: the dump looks at the large-page bit
      only, the walk wants the present bit too (and stops at a table at 2^47). */
  predicate Stray(e: u64) { e != 0 && !LargePage(e) && Descend(e) == Absent }

  /** Following entries as the dump does, through anything that is nonzero and no large page, one gets from
      this entry to a nonzero entry of level `at`. */
  ghost predicate EntryBehind(m: Memory, pte: u64, level: Level, at: Level)
    requires level <= at
    decreases 3 - level
  {
    && pte != 0
    && (level == at || (!LargePage(pte) && exists i: nat :: i < 512 && EntryBehind(m, Element(m, PteAddr(pte), i), level + 1, at)))
  }

  /** The entry of page p at this level, if its walk gets there, is not stray or has no entry of level `at`
      behind it. */
  ghost predicate QuietEntry(m: Memory, root: nat, at: Level, p: nat, level: Level)
    requires p < PAGES && level < at
  {
    TableAt(m, root, p, level).Next? ==>
      var e := Word(m, EntryAddr(TableAt(m, root, p, level).table, p, level));
      Stray(e) ==> !EntryBehind(m, e, level, at)
  }

  /** The same for every entry, from the given level down, on the walks of the pages lo..hi-1. */
  ghost predicate QuietRange(m: Memory, root: nat, at: Level, lo: nat, hi: nat, level: Level)
    requires hi <= PAGES
  {
    forall p: nat, l: Level :: lo <= p < hi && level <= l < at ==> QuietEntry(m, root, at, p, l)
  }

  /** No stray entry on the walk of any page has an entry of level `at` behind it. */
  ghost predicate NoStrayEntries(m: Memory, root: nat, at: Level) { QuietRange(m, root, at, 0, PAGES, 0) }

  // ----- Ranges of pages behind an entry -----

  lemma FirstSteps(b: nat, level: Level, i: nat)
    requires TableBase(b, level) && i < 512
    ensures First(b, level, 0) == b && First(b, level, 512) == b + Reach(level)
    ensures First(b, level, i) < First(b, level, i + 1) <= b + Reach(level)
    ensures level == 3 ==> First(b, level, i + 1) == First(b, level, i) + 1
  {
  }

  /** The pages behind an interior entry are those behind one table of the next level. */
  lemma TableBehind(b: nat, level: Level, i: nat)
    requires TableBase(b, level) && i < 512 && level < 3
    ensures TableBase(First(b, level, i), level + 1)
    ensures First(b, level, i) + Reach(level + 1) == First(b, level, i + 1)
  {
    FirstSteps(b, level, i);
    if level == 0 {
      Multiple(i, 0x800_0000);
    } else if level == 1 {
      Multiple(b / 0x800_0000 * 512 + i, 0x4_0000);
      assert First(b, 1, i) == (b / 0x800_0000 * 512 + i) * 0x4_0000;
    } else {
      Multiple(b / 0x4_0000 * 512 + i, 0x200);
      assert First(b, 2, i) == (b / 0x4_0000 * 512 + i) * 0x200;
    }
  }

  lemma PageBehind(b: nat, level: Level, i: nat, q: nat)
    requires TableBase(b, level) && i < 512 && First(b, level, i) <= q < First(b, level, i + 1)
    ensures Index(q, level) == i && Prefix(q, level) == Prefix(b, level)
  {
    var k, r := b / Reach(level), q - First(b, level, i);
    LeadBehind(b, level, i, q);
    LeadBehind(b, level, 0, b);
    IndexParts(k, i);
    IndexParts(k, 0);
  }

  lemma LeadBehind(b: nat, level: Level, i: nat, q: nat)
    requires TableBase(b, level) && i < 512 && First(b, level, i) <= q < First(b, level, i + 1)
    ensures Lead(q, level) == b / Reach(level) * 512 + i
  {
    var k, r := b / Reach(level), q - First(b, level, i);
    if level == 0 {
      Quotient(i, r, 0x800_0000);
    } else if level == 1 {
      Quotient(k * 512 + i, r, 0x4_0000);
    } else if level == 2 {
      Quotient(k * 512 + i, r, 0x200);
    }
  }

  lemma IndexParts(k: nat, i: nat)
    requires i < 512
    ensures (k * 512 + i) % 512 == i && (k * 512 + i) / 512 == k
  {
  }

  /** The walks of the pages behind entry i all go through that entry. */
  lemma WalkBehind(m: Memory, root: nat, b: nat, level: Level, i: nat, q: nat)
    requires TableBase(b, level) && i < 512 && First(b, level, i) <= q < First(b, level, i + 1)
    requires TableAt(m, root, b, level).Next?
    ensures TableAt(m, root, q, level) == TableAt(m, root, b, level)
    ensures EntryAddr(TableAt(m, root, b, level).table, q, level) == TableAt(m, root, b, level).table + 8 * i
    ensures level < 3 ==> TableAt(m, root, q, level + 1) == Descend(Word(m, TableAt(m, root, b, level).table + 8 * i))
  {
    hide *;
    PageBehind(b, level, i, q);
    TableOfPrefix(m, root, q, b, level);
    EntryOfIndex(TableAt(m, root, b, level).table, q, level);
    if level < 3 {
      NextHop(m, root, q, level);
    }
  }

  lemma EntryOfIndex(t: nat, q: nat, level: Level)
    ensures EntryAddr(t, q, level) == t + 8 * Index(q, level)
  {
  }

  lemma NextHop(m: Memory, root: nat, q: nat, level: Level)
    requires level < 3 && TableAt(m, root, q, level).Next?
    ensures TableAt(m, root, q, level + 1) == Descend(Word(m, EntryAddr(TableAt(m, root, q, level).table, q, level)))
  {
    hide Descend, Word, EntryAddr;
  }

  lemma ElementIsWord(m: Memory, table: u64, i: nat)
    requires table + 0x1000 <= TWO64 && i < 512
    ensures Element(m, table, i) == Word(m, table + 8 * i)
  {
    assert VirtToPhys(ElementPtr(PhysToVirt(table), i)) == table + 8 * i;
  }

  // ----- The reference scan -----

  lemma {:induction false} ScanSplit(m: Memory, root: nat, at: Level, lo: nat, mid: nat, hi: nat)
    requires lo <= mid <= hi <= PAGES
    ensures Scan(m, root, at, lo, hi) == Scan(m, root, at, lo, mid) + Scan(m, root, at, mid, hi)
    decreases mid - lo
  {
    hide Listed, Shown;
    if lo < mid {
      ScanSplit(m, root, at, lo + 1, mid, hi);
    }
  }

  lemma {:induction false} ScanNone(m: Memory, root: nat, at: Level, lo: nat, hi: nat)
    requires hi <= PAGES
    requires forall q: nat :: lo <= q < hi ==> !Listed(m, root, at, q)
    ensures Scan(m, root, at, lo, hi) == []
    decreases hi - lo
  {
    hide Listed;
    if lo < hi {
      assert !Listed(m, root, at, lo);
      ScanNone(m, root, at, lo + 1, hi);
    }
  }

  lemma ZeroIsAbsent()
    ensures Descend(0) == Absent && !Stray(0)
  {
  }

  /** Behind an entry that leads to no table there is nothing to scan, and only the entry itself can be
      stray. */
  lemma DeadEntry(m: Memory, root: nat, at: Level, b: nat, level: Level, i: nat)
    requires TableBase(b, level) && i < 512 && level < at && First(b, level, i + 1) <= PAGES
    requires TableAt(m, root, b, level).Next? && !Descend(Word(m, TableAt(m, root, b, level).table + 8 * i)).Next?
    ensures Scan(m, root, at, First(b, level, i), First(b, level, i + 1)) == []
    ensures forall q: nat, l: Level :: First(b, level, i) <= q < First(b, level, i + 1) && level < l < at ==> QuietEntry(m, root, at, q, l)
  {
    hide First, TableBase, Descend, Index, Prefix, Scan, PAGES, Present, EntryBehind, TableAt;
    var pte := Word(m, TableAt(m, root, b, level).table + 8 * i);
    forall q: nat, l: Level | First(b, level, i) <= q < First(b, level, i + 1) && level < l <= at
      ensures !TableAt(m, root, q, l).Next?
    {
      WalkBehind(m, root, b, level, i, q);
      WalkEnded(m, root, q, level + 1, l);
    }
    ScanNone(m, root, at, First(b, level, i), First(b, level, i + 1));
  }

  /** Entry i, where it is not stray, leaves the range behind it as quiet as the entries below it do. */
  lemma SoundEntry(m: Memory, root: nat, at: Level, b: nat, level: Level, i: nat)
    requires TableBase(b, level) && i < 512 && level < at && First(b, level, i + 1) <= PAGES
    requires TableAt(m, root, b, level).Next? && !Stray(Word(m, TableAt(m, root, b, level).table + 8 * i))
    ensures forall q: nat :: First(b, level, i) <= q < First(b, level, i + 1) ==> QuietEntry(m, root, at, q, level)
  {
    hide First, TableBase, Descend, Index, Prefix, Scan, PAGES, Stray, EntryBehind, TableAt;
    forall q: nat | First(b, level, i) <= q < First(b, level, i + 1) ensures QuietEntry(m, root, at, q, level) {
      WalkBehind(m, root, b, level, i, q);
    }
  }

  /** The range behind an entry that leads to no table and is not stray. */
  lemma SilentEntry(m: Memory, root: nat, at: Level, b: nat, level: Level, i: nat)
    requires TableBase(b, level) && i < 512 && level < at && First(b, level, i + 1) <= PAGES
    requires TableAt(m, root, b, level).Next?
    requires var e := Word(m, TableAt(m, root, b, level).table + 8 * i); !Descend(e).Next? && !Stray(e)
    ensures Scan(m, root, at, First(b, level, i), First(b, level, i + 1)) == []
    ensures QuietRange(m, root, at, First(b, level, i), First(b, level, i + 1), level)
  {
    hide First, TableBase, Descend, Scan, PAGES, Stray, TableAt, QuietEntry;
    DeadEntry(m, root, at, b, level, i);
    SoundEntry(m, root, at, b, level, i);
  }

  lemma QuietSplit(m: Memory, root: nat, at: Level, lo: nat, mid: nat, hi: nat, level: Level)
    requires lo <= mid <= hi <= PAGES
    ensures QuietRange(m, root, at, lo, hi, level) <==>
            QuietRange(m, root, at, lo, mid, level) && QuietRange(m, root, at, mid, hi, level)
  {
    hide QuietEntry, PAGES;
  }

  /** How the leaf lines d of a listing compare with the scan s: equal when nothing stray is listed, more
      of them when something is, and never is anything missing. */
  ghost predicate Compares(s: seq<Line>, d: seq<Line>, quiet: bool)
  {
    && (quiet ==> d == s) && (!quiet ==> |d| > |s|)
    && (forall x :: x in s ==> x in d)
  }

  lemma ComparesConcat(s1: seq<Line>, d1: seq<Line>, q1: bool, s2: seq<Line>, d2: seq<Line>, q2: bool)
    requires Compares(s1, d1, q1) && Compares(s2, d2, q2)
    ensures Compares(s1 + s2, d1 + d2, q1 && q2)
  {
  }

  /** An entry of level `at` is scanned once, at the first page behind it. */
  lemma EntryListsItself(m: Memory, root: nat, at: Level, b: nat, i: nat)
    requires TableBase(b, at) && i < 512
    requires TableAt(m, root, b, at).Next? && Word(m, TableAt(m, root, b, at).table + 8 * i) != 0
    ensures First(b, at, i) < First(b, at, i + 1) <= PAGES
    ensures Scan(m, root, at, First(b, at, i), First(b, at, i + 1)) ==
            [Line(at, i, CanonicalAddr(First(b, at, i)), Word(m, TableAt(m, root, b, at).table + 8 * i))]
  {
    hide *;
    var c, next := First(b, at, i), First(b, at, i + 1);
    TableEnds(b, at);
    FirstSteps(b, at, i);
    WalkBehind(m, root, b, at, i, c);
    PageBehind(b, at, i, c);
    OnlyFirstPage(b, at, i);
    forall q: nat | c + 1 <= q < next ensures !Listed(m, root, at, q) {
      NotFirstNotListed(m, root, at, q);
    }
    ScanNone(m, root, at, c + 1, next);
    ScanFirst(m, root, at, c, next);
  }

  lemma NotFirstNotListed(m: Memory, root: nat, at: Level, q: nat)
    requires !FirstPage(q, at)
    ensures !Listed(m, root, at, q)
  {
  }

  lemma ScanFirst(m: Memory, root: nat, at: Level, c: nat, next: nat)
    requires c < next <= PAGES && FirstPage(c, at) && TableAt(m, root, c, at).Next?
    requires Word(m, EntryAddr(TableAt(m, root, c, at).table, c, at)) != 0 && Scan(m, root, at, c + 1, next) == []
    ensures Scan(m, root, at, c, next) ==
            [Line(at, Index(c, at), CanonicalAddr(c), Word(m, EntryAddr(TableAt(m, root, c, at).table, c, at)))]
  {
    hide TableAt, EntryAddr, CanonicalAddr, Word, Index, FirstPage;
  }

  /** Of the pages behind an entry exactly the first one is a first page. */
  lemma OnlyFirstPage(b: nat, level: Level, i: nat)
    requires TableBase(b, level) && i < 512
    ensures FirstPage(First(b, level, i), level)
    ensures forall q: nat :: First(b, level, i) < q < First(b, level, i + 1) ==> !FirstPage(q, level)
  {
    var c, next := First(b, level, i), First(b, level, i + 1);
    FirstIsMultiple(b, level, i);
    FirstSteps(b, level, i);
    hide FirstPage, TableBase, First, Pages;
    forall q: nat | c <= q < next ensures FirstPage(q, level) <==> q == c {
      RestOf(b / Reach(level) * 512 + i, q - c, level);
    }
  }

  lemma FirstIsMultiple(b: nat, level: Level, i: nat)
    requires TableBase(b, level) && i < 512
    ensures First(b, level, i) == Pages(b / Reach(level) * 512 + i, level)
    ensures First(b, level, i + 1) == First(b, level, i) + Pages(1, level)
  {
  }

  lemma RestOf(k: nat, r: nat, level: Level)
    requires r < Pages(1, level)
    ensures FirstPage(Pages(k, level) + r, level) <==> r == 0
  {
    if level == 0 {
      Quotient(k, r, 0x800_0000);
    } else if level == 1 {
      Quotient(k, r, 0x4_0000);
    } else if level == 2 {
      Quotient(k, r, 0x200);
    }
  }

  /** The lines of one entry: its own, and those below it, which are of higher level. */
  lemma LinesOfChunk(m: Memory, at: Level, start: u64, level: Level, limit: int, i: nat, pte: u64)
    ensures AtLevel(Chunk(m, start, level, limit, i, pte), at) ==
            (if level == at then [Line(level, i, EntryVaddr(start, level, i), pte)] else [])
            + AtLevel(Below(m, pte, EntryVaddr(start, level, i), level, limit), at)
    ensures level >= at ==> AtLevel(Below(m, pte, EntryVaddr(start, level, i), level, limit), at) == []
  {
    hide Listing, LargePage, EntryVaddr, PteAddr;
    var line := Line(level, i, EntryVaddr(start, level, i), pte);
    AtLevelConcat([line], Below(m, pte, EntryVaddr(start, level, i), level, limit), at);
    assert [line][1..] == [];
    assert AtLevel([line], at) == LineAt(line, at) + AtLevel([line][1..], at);
    if level < 3 && level >= at && !LargePage(pte) {
      NothingHigher(m, PteAddr(pte), EntryVaddr(start, level, i), level + 1, limit, 0, 0, at);
    }
  }

  /** A listing has no line of a level above its own table's. */
  lemma {:induction false} NothingHigher(m: Memory, t: u64, start: u64, level: Level, limit: int, i: nat, n: nat, at: Level)
    requires i <= 512 && at < level
    ensures AtLevel(Listing(m, t, start, level, limit, i, n), at) == []
    decreases 3 - level, 512 - i
  {
    hide Listing, Chunk, AtLevel, Element;
    if i == 512 {
      ListingEnd(m, t, start, level, limit, n);
      ComparesNothing(at);
    } else {
      ListingStep(m, t, start, level, limit, i, n);
      NothingHigher(m, t, start, level, limit, i + 1, n, at);
      NothingHigher(m, t, start, level, limit, i + 1, n + 1, at);
      if Element(m, t, i) != 0 {
        NothingHigherInChunk(m, start, level, limit, i, Element(m, t, i), at);
        var rest := if n + 1 >= limit then [] else Listing(m, t, start, level, limit, i + 1, n + 1);
        ComparesNothing(at);
        AtLevelConcat(Chunk(m, start, level, limit, i, Element(m, t, i)), rest, at);
      }
    }
  }

  lemma {:induction false} NothingHigherInChunk(m: Memory, start: u64, level: Level, limit: int, i: nat, pte: u64, at: Level)
    requires at < level
    ensures AtLevel(Chunk(m, start, level, limit, i, pte), at) == []
    decreases 3 - level, 0
  {
    hide Listing, LargePage, EntryVaddr, PteAddr, AtLevel;
    var line, below := Line(level, i, EntryVaddr(start, level, i), pte), Below(m, pte, EntryVaddr(start, level, i), level, limit);
    ComparesNothing(at);
    if level < 3 && !LargePage(pte) {
      NothingHigher(m, PteAddr(pte), EntryVaddr(start, level, i), level + 1, limit, 0, 0, at);
    }
    AtLevelCons([line] + below, at);
    assert ([line] + below)[1..] == below;
  }

  lemma NothingLeft(m: Memory, root: nat, at: Level, end: nat, level: Level)
    requires end <= PAGES
    ensures Compares(Scan(m, root, at, end, end), AtLevel([], at), QuietRange(m, root, at, end, end, level))
  {
    hide QuietEntry;
  }

  /** The leaf lines of a table from entry i on compare with the scan of the pages behind those entries. */
  ghost predicate ListingCompares(m: Memory, root: nat, at: Level, b: nat, level: Level, t: u64, limit: int, i: nat, n: nat)
    requires i <= 512 && TableBase(b, level)
  {
    TableEnds(b, level);
    Compares(Scan(m, root, at, First(b, level, i), b + Reach(level)),
             AtLevel(Listing(m, t, CanonicalAddr(b), level, limit, i, n), at),
             QuietRange(m, root, at, First(b, level, i), b + Reach(level), level))
  }

  /** The lines of entry i compare with the scan of the pages behind it. */
  ghost predicate ChunkCompares(m: Memory, root: nat, at: Level, b: nat, level: Level, t: u64, limit: int, i: nat)
    requires i < 512 && TableBase(b, level)
  {
    TableEnds(b, level);
    FirstSteps(b, level, i);
    Compares(Scan(m, root, at, First(b, level, i), First(b, level, i + 1)),
             AtLevel(Chunk(m, CanonicalAddr(b), level, limit, i, Element(m, t, i)), at),
             QuietRange(m, root, at, First(b, level, i), First(b, level, i + 1), level))
  }

  lemma ComparesAtEnd(m: Memory, root: nat, at: Level, b: nat, level: Level, t: u64, limit: int, n: nat)
    requires TableBase(b, level)
    ensures ListingCompares(m, root, at, b, level, t, limit, 512, n)
  {
    hide Scan, AtLevel, Listing, QuietRange, TableBase, Reach, First, CanonicalAddr, Compares;
    TableEnds(b, level);
    FirstSteps(b, level, 0);
    ListingEnd(m, t, CanonicalAddr(b), level, limit, n);
    NothingLeft(m, root, at, b + Reach(level), level);
  }

  lemma ComparesPastZero(m: Memory, root: nat, at: Level, b: nat, level: Level, t: u64, limit: int, i: nat, n: nat)
    requires level <= at && i < 512 && TableBase(b, level) && TableAt(m, root, b, level) == Next(t) && t + 0x1000 <= TWO64
    requires Element(m, t, i) == 0 && ListingCompares(m, root, at, b, level, t, limit, i + 1, n)
    ensures ListingCompares(m, root, at, b, level, t, limit, i, n)
  {
    hide Scan, AtLevel, Listing, QuietRange, TableBase, Reach, First, CanonicalAddr, Compares, TableAt, Element, Chunk;
    TableEnds(b, level);
    FirstSteps(b, level, i);
    ElementIsWord(m, t, i);
    ListingStep(m, t, CanonicalAddr(b), level, limit, i, n);
    ZeroEntry(m, root, at, b, level, i);
    ScanSplit(m, root, at, First(b, level, i), First(b, level, i + 1), b + Reach(level));
    QuietSplit(m, root, at, First(b, level, i), First(b, level, i + 1), b + Reach(level), level);
    EmptyFront(Scan(m, root, at, First(b, level, i + 1), b + Reach(level)), []);
  }

  lemma ComparesPastChunk(m: Memory, root: nat, at: Level, b: nat, level: Level, t: u64, limit: int, i: nat, n: nat)
    requires i < 512 && TableBase(b, level) && limit >= 512 && n <= i
    requires Element(m, t, i) != 0 && ChunkCompares(m, root, at, b, level, t, limit, i)
    requires ListingCompares(m, root, at, b, level, t, limit, i + 1, n + 1)
    ensures ListingCompares(m, root, at, b, level, t, limit, i, n)
  {
    hide Scan, AtLevel, Listing, QuietRange, TableBase, Reach, First, CanonicalAddr, Compares, TableAt, Element, Chunk;
    TableEnds(b, level);
    FirstSteps(b, level, i);
    var start, c, next, end := CanonicalAddr(b), First(b, level, i), First(b, level, i + 1), b + Reach(level);
    var chunk, rest := Chunk(m, start, level, limit, i, Element(m, t, i)), Listing(m, t, start, level, limit, i + 1, n + 1);
    ListingStep(m, t, start, level, limit, i, n);
    if n + 1 >= limit {
      ListingEnd(m, t, start, level, limit, n + 1);
    }
    AtLevelConcat(chunk, rest, at);
    ScanSplit(m, root, at, c, next, end);
    QuietSplit(m, root, at, c, next, end, level);
    ComparesConcat(Scan(m, root, at, c, next), AtLevel(chunk, at), QuietRange(m, root, at, c, next, level),
                   Scan(m, root, at, next, end), AtLevel(rest, at), QuietRange(m, root, at, next, end, level));
  }

  /** A listing of one table, from entry i on, against the scan of the pages behind it. */
  lemma {:induction false} ListingScans(m: Memory, root: nat, at: Level, b: nat, level: Level, t: u64, limit: int, i: nat, n: nat)
    requires level <= at && limit >= 512 && n <= i <= 512
    requires TableBase(b, level) && TableAt(m, root, b, level) == Next(t) && t + 0x1000 <= TWO64
    ensures ListingCompares(m, root, at, b, level, t, limit, i, n)
    decreases 3 - level, 512 - i
  {
    hide *;
    if i == 512 {
      ComparesAtEnd(m, root, at, b, level, t, limit, n);
    } else if Element(m, t, i) == 0 {
      ListingScans(m, root, at, b, level, t, limit, i + 1, n);
      ComparesPastZero(m, root, at, b, level, t, limit, i, n);
    } else {
      ListingScans(m, root, at, b, level, t, limit, i + 1, n + 1);
      ChunkScans(m, root, at, b, level, t, limit, i);
      ComparesPastChunk(m, root, at, b, level, t, limit, i, n);
    }
  }

  lemma EmptyFront(a: seq<Line>, b: seq<Line>)
    ensures [] + a == a && [] + b == b
  {
  }

  lemma TableEnds(b: nat, level: Level)
    requires TableBase(b, level)
    ensures b + Reach(level) <= PAGES && b < PAGES
  {
  }

  lemma ZeroEntry(m: Memory, root: nat, at: Level, b: nat, level: Level, i: nat)
    requires level <= at && TableBase(b, level) && i < 512 && First(b, level, i + 1) <= PAGES
    requires TableAt(m, root, b, level).Next? && Word(m, TableAt(m, root, b, level).table + 8 * i) == 0
    ensures Scan(m, root, at, First(b, level, i), First(b, level, i + 1)) == []
    ensures QuietRange(m, root, at, First(b, level, i), First(b, level, i + 1), level)
  {
    hide First, TableBase, Descend, Scan, PAGES, Stray, TableAt, QuietEntry;
    ZeroIsAbsent();
    if level < at {
      SilentEntry(m, root, at, b, level, i);
    } else {
      forall q: nat | First(b, level, i) <= q < First(b, level, i + 1) ensures !Listed(m, root, at, q) {
        WalkBehind(m, root, b, level, i, q);
      }
      ScanNone(m, root, at, First(b, level, i), First(b, level, i + 1));
    }
  }

  lemma BelowEntry(m: Memory, pte: u64, vaddr: u64, level: Level, limit: int)
    requires level < 3
    ensures !LargePage(pte) ==> Below(m, pte, vaddr, level, limit) == Listing(m, PteAddr(pte), vaddr, level + 1, limit, 0, 0)
    ensures LargePage(pte) ==> Below(m, pte, vaddr, level, limit) == []
  {
    hide Listing;
  }

  /** A nonzero entry leads to a table, is a large page, or is stray. */
  lemma EntryKinds(pte: u64)
    ensures Descend(pte).Next? ==> Descend(pte) == Next(PteAddr(pte)) && !LargePage(pte)
    ensures PteAddr(pte) + 0x1000 <= TWO64
    ensures pte != 0 ==> Descend(pte).Next? || LargePage(pte) || Stray(pte)
    ensures LargePage(pte) || Descend(pte).Next? ==> !Stray(pte)
    ensures LargePage(pte) || Stray(pte) ==> !Descend(pte).Next?
  {
  }

  /** The lines of one nonzero entry against the scan of the pages behind it. */
  lemma {:induction false} ChunkScans(m: Memory, root: nat, at: Level, b: nat, level: Level, t: u64, limit: int, i: nat)
    requires level <= at && limit >= 512 && i < 512 && Element(m, t, i) != 0
    requires TableBase(b, level) && TableAt(m, root, b, level) == Next(t) && t + 0x1000 <= TWO64
    ensures ChunkCompares(m, root, at, b, level, t, limit, i)
    decreases 3 - level, 512 - i, 0
  {
    hide *;
    var pte := Element(m, t, i);
    ElementIsWord(m, t, i);
    EntryKinds(pte);
    if level == at {
      LineChunk(m, root, at, b, t, limit, i);
    } else if Descend(pte).Next? {
      TableBehind(b, level, i);
      WalkToTable(m, root, b, level, t, i);
      ListingScans(m, root, at, First(b, level, i), level + 1, PteAddr(pte), limit, 0, 0);
      TableChunk(m, root, at, b, level, t, limit, i);
    } else if LargePage(pte) {
      LargeChunk(m, root, at, b, level, t, limit, i);
    } else {
      StrayChunk(m, root, at, b, level, t, limit, i);
    }
  }

  lemma WalkToTable(m: Memory, root: nat, b: nat, level: Level, t: u64, i: nat)
    requires i < 512 && level < 3 && TableBase(b, level) && TableAt(m, root, b, level) == Next(t)
    ensures TableAt(m, root, First(b, level, i), level + 1) == Descend(Word(m, t + 8 * i))
  {
    hide TableAt, First, Descend, TableBase;
    FirstSteps(b, level, i);
    WalkBehind(m, root, b, level, i, First(b, level, i));
  }

  lemma TableChunk(m: Memory, root: nat, at: Level, b: nat, level: Level, t: u64, limit: int, i: nat)
    requires i < 512 && level < at && TableBase(b, level) && TableAt(m, root, b, level) == Next(t) && t + 0x1000 <= TWO64
    requires Element(m, t, i) != 0 && !LargePage(Element(m, t, i)) && !Stray(Element(m, t, i))
    requires TableBase(First(b, level, i), level + 1)
    requires ListingCompares(m, root, at, First(b, level, i), level + 1, PteAddr(Element(m, t, i)), limit, 0, 0)
    ensures ChunkCompares(m, root, at, b, level, t, limit, i)
  {
    hide *;
    var c, next := First(b, level, i), First(b, level, i + 1);
    ElementIsWord(m, t, i);
    TableEnds(b, level);
    FirstSteps(b, level, i);
    TableBehind(b, level, i);
    WholeListing(m, root, at, c, level + 1, PteAddr(Element(m, t, i)), limit);
    ChunkLines(m, at, b, level, limit, i, Element(m, t, i));
    SoundEntry(m, root, at, b, level, i);
    OneLevelDown(m, root, at, c, next, level);
    ChunkIs(m, root, at, b, level, t, limit, i);
  }

  lemma WholeListing(m: Memory, root: nat, at: Level, b: nat, level: Level, t: u64, limit: int)
    requires TableBase(b, level) && ListingCompares(m, root, at, b, level, t, limit, 0, 0)
    ensures b + Reach(level) <= PAGES && b < PAGES
    ensures Compares(Scan(m, root, at, b, b + Reach(level)), AtLevel(Listing(m, t, CanonicalAddr(b), level, limit, 0, 0), at),
                     QuietRange(m, root, at, b, b + Reach(level), level))
  {
    TableEnds(b, level);
    FirstSteps(b, level, 0);
    hide Scan, AtLevel, Listing, Chunk, QuietRange, TableBase, Reach, First, CanonicalAddr, Compares;
  }

  lemma ChunkIs(m: Memory, root: nat, at: Level, b: nat, level: Level, t: u64, limit: int, i: nat)
    requires i < 512 && TableBase(b, level) && b < PAGES && First(b, level, i) <= First(b, level, i + 1) <= PAGES
    ensures ChunkCompares(m, root, at, b, level, t, limit, i) <==>
            Compares(Scan(m, root, at, First(b, level, i), First(b, level, i + 1)),
                     AtLevel(Chunk(m, CanonicalAddr(b), level, limit, i, Element(m, t, i)), at),
                     QuietRange(m, root, at, First(b, level, i), First(b, level, i + 1), level))
  {
    hide Scan, AtLevel, Listing, Chunk, QuietRange, TableBase, Reach, First, CanonicalAddr, Compares, Element;
  }

  lemma ChunkLines(m: Memory, at: Level, b: nat, level: Level, limit: int, i: nat, pte: u64)
    requires i < 512 && level < at && TableBase(b, level) && !LargePage(pte)
    ensures b < PAGES && First(b, level, i) < PAGES
    ensures AtLevel(Chunk(m, CanonicalAddr(b), level, limit, i, pte), at) ==
            AtLevel(Listing(m, PteAddr(pte), CanonicalAddr(First(b, level, i)), level + 1, limit, 0, 0), at)
  {
    TableEnds(b, level);
    EntryVaddrIsCanonical(b, level, i);
    hide AtLevel, Listing, Chunk, TableBase, Reach, First, CanonicalAddr, Below, PteAddr, EntryVaddr;
    LinesOfChunk(m, at, CanonicalAddr(b), level, limit, i, pte);
    BelowEntry(m, pte, CanonicalAddr(First(b, level, i)), level, limit);
    EmptyFront(AtLevel(Below(m, pte, CanonicalAddr(First(b, level, i)), level, limit), at), []);
  }

  lemma LargeChunk(m: Memory, root: nat, at: Level, b: nat, level: Level, t: u64, limit: int, i: nat)
    requires i < 512 && level < at && TableBase(b, level) && TableAt(m, root, b, level) == Next(t) && t + 0x1000 <= TWO64
    requires LargePage(Element(m, t, i))
    ensures ChunkCompares(m, root, at, b, level, t, limit, i)
  {
    hide *;
    var pte := Element(m, t, i);
    ElementIsWord(m, t, i);
    TableEnds(b, level);
    FirstSteps(b, level, i);
    EntryKinds(pte);
    EntryVaddrIsCanonical(b, level, i);
    LinesOfChunk(m, at, CanonicalAddr(b), level, limit, i, pte);
    BelowEntry(m, pte, CanonicalAddr(First(b, level, i)), level, limit);
    SilentEntry(m, root, at, b, level, i);
    ComparesNothing(at);
    EmptyFront([], []);
    ChunkIs(m, root, at, b, level, t, limit, i);
  }

  lemma ComparesNothing(at: Level)
    ensures AtLevel([], at) == [] && Compares([], [], true)
  {
  }

  lemma OneLevelDown(m: Memory, root: nat, at: Level, lo: nat, hi: nat, level: Level)
    requires hi <= PAGES && level < at
    requires forall q: nat :: lo <= q < hi ==> QuietEntry(m, root, at, q, level)
    ensures QuietRange(m, root, at, lo, hi, level) == QuietRange(m, root, at, lo, hi, level + 1)
  {
    hide QuietEntry;
  }

  lemma LineChunk(m: Memory, root: nat, at: Level, b: nat, t: u64, limit: int, i: nat)
    requires i < 512 && TableBase(b, at) && TableAt(m, root, b, at) == Next(t) && t + 0x1000 <= TWO64
    requires Element(m, t, i) != 0
    ensures ChunkCompares(m, root, at, b, at, t, limit, i)
  {
    hide *;
    ElementIsWord(m, t, i);
    TableEnds(b, at);
    FirstSteps(b, at, i);
    EntryListsItself(m, root, at, b, i);
    EntryVaddrIsCanonical(b, at, i);
    LinesOfChunk(m, at, CanonicalAddr(b), at, limit, i, Element(m, t, i));
    EmptyBack([Line(at, i, CanonicalAddr(First(b, at, i)), Element(m, t, i))]);
    ComparesSame(m, root, at, First(b, at, i), First(b, at, i + 1));
    ChunkIs(m, root, at, b, at, t, limit, i);
  }

  lemma EmptyBack(a: seq<Line>)
    ensures a + [] == a
  {
  }

  /** In a table of level `at` there is nothing to be stray about. */
  lemma ComparesSame(m: Memory, root: nat, at: Level, lo: nat, hi: nat)
    requires hi <= PAGES
    ensures Compares(Scan(m, root, at, lo, hi), Scan(m, root, at, lo, hi), QuietRange(m, root, at, lo, hi, at))
  {
    hide Scan;
  }

  /** Behind a stray entry nothing is scanned, and whatever leaf the dump lists is one too many. */
  lemma StrayChunk(m: Memory, root: nat, at: Level, b: nat, level: Level, t: u64, limit: int, i: nat)
    requires i < 512 && level < at && TableBase(b, level) && TableAt(m, root, b, level) == Next(t) && t + 0x1000 <= TWO64
    requires Stray(Element(m, t, i)) && Element(m, t, i) != 0 && limit >= 512
    ensures ChunkCompares(m, root, at, b, level, t, limit, i)
  {
    hide *;
    var pte, c := Element(m, t, i), First(b, level, i);
    ElementIsWord(m, t, i);
    TableEnds(b, level);
    FirstSteps(b, level, i);
    EntryKinds(pte);
    EntryVaddrIsCanonical(b, level, i);
    LinesOfChunk(m, at, CanonicalAddr(b), level, limit, i, pte);
    EmptyFront([], AtLevel(Below(m, pte, CanonicalAddr(c), level, limit), at));
    DeadEntry(m, root, at, b, level, i);
    StrayQuiet(m, root, at, b, level, t, i);
    BelowHasLines(m, at, pte, CanonicalAddr(c), level, limit);
    ComparesMore(AtLevel(Below(m, pte, CanonicalAddr(c), level, limit), at));
    ChunkIs(m, root, at, b, level, t, limit, i);
  }

  lemma ComparesMore(d: seq<Line>)
    ensures Compares([], d, d == [])
  {
  }

  /** All walks behind a stray entry go through it and end there, so it alone decides. */
  lemma StrayQuiet(m: Memory, root: nat, at: Level, b: nat, level: Level, t: u64, i: nat)
    requires i < 512 && level < at && First(b, level, i) < First(b, level, i + 1) <= PAGES
    requires TableBase(b, level) && TableAt(m, root, b, level) == Next(t) && Stray(Word(m, t + 8 * i))
    requires forall q: nat, l: Level :: First(b, level, i) <= q < First(b, level, i + 1) && level < l < at ==> QuietEntry(m, root, at, q, l)
    ensures QuietRange(m, root, at, First(b, level, i), First(b, level, i + 1), level) <==> !EntryBehind(m, Word(m, t + 8 * i), level, at)
  {
    hide First, TableBase, TableAt, Word, EntryBehind, Stray, PAGES;
    var c, next := First(b, level, i), First(b, level, i + 1);
    forall q: nat | c <= q < next ensures QuietEntry(m, root, at, q, level) <==> !EntryBehind(m, Word(m, t + 8 * i), level, at) {
      WalkBehind(m, root, b, level, i, q);
    }
    assert QuietRange(m, root, at, c, next, level) ==> QuietEntry(m, root, at, c, level);
    hide QuietEntry;
  }

  // ----- Which listings have lines of a level -----

  /** A listing that is not cut off has lines of level `at` exactly if there is an entry of that level behind
      one of its entries. */
  lemma {:induction false} ListingHasLines(m: Memory, at: Level, t: u64, start: u64, level: Level, limit: int, i: nat, n: nat)
    requires limit >= 512 && n <= i <= 512 && level <= at
    ensures AtLevel(Listing(m, t, start, level, limit, i, n), at) != [] <==>
            exists j: nat :: i <= j < 512 && EntryBehind(m, Element(m, t, j), level, at)
    decreases 3 - level, 512 - i
  {
    hide EntryBehind, Element, Listing, Chunk, AtLevel;
    if i == 512 {
      ListingEnd(m, t, start, level, limit, n);
      ComparesNothing(at);
    } else {
      ListingStep(m, t, start, level, limit, i, n);
      var pte := Element(m, t, i);
      NoEntryBehindZero(m, level, at);
      if pte == 0 {
        ListingHasLines(m, at, t, start, level, limit, i + 1, n);
      } else {
        ChunkHasLines(m, at, start, level, limit, i, pte);
        ListingHasLines(m, at, t, start, level, limit, i + 1, n + 1);
        if n + 1 >= limit {
          ListingEnd(m, t, start, level, limit, n + 1);
        }
        AtLevelConcat(Chunk(m, start, level, limit, i, pte), Listing(m, t, start, level, limit, i + 1, n + 1), at);
      }
    }
  }

  lemma NoEntryBehindZero(m: Memory, level: Level, at: Level)
    requires level <= at
    ensures !EntryBehind(m, 0, level, at)
  {
  }

  lemma {:induction false} ChunkHasLines(m: Memory, at: Level, start: u64, level: Level, limit: int, i: nat, pte: u64)
    requires limit >= 512 && pte != 0 && level <= at
    ensures AtLevel(Chunk(m, start, level, limit, i, pte), at) != [] <==> EntryBehind(m, pte, level, at)
    decreases 3 - level, 0
  {
    hide Chunk, Below, AtLevel, EntryVaddr;
    LinesOfChunk(m, at, start, level, limit, i, pte);
    if level < at {
      BelowHasLines(m, at, pte, EntryVaddr(start, level, i), level, limit);
    }
  }

  lemma {:induction false} BelowHasLines(m: Memory, at: Level, pte: u64, vaddr: u64, level: Level, limit: int)
    requires limit >= 512 && pte != 0 && level < at
    ensures AtLevel(Below(m, pte, vaddr, level, limit), at) != [] <==> EntryBehind(m, pte, level, at)
    decreases 3 - level, 0, 0
  {
    hide Listing, AtLevel, Element, LargePage, PteAddr;
    BelowEntry(m, pte, vaddr, level, limit);
    if LargePage(pte) {
      ComparesNothing(at);
    } else {
      ListingHasLines(m, at, PteAddr(pte), vaddr, level + 1, limit, 0, 0);
    }
  }

  lemma {:induction false} ScanSound(m: Memory, root: nat, at: Level, lo: nat, hi: nat, i: nat) returns (p: nat)
    requires lo <= hi <= PAGES && i < |Scan(m, root, at, lo, hi)|
    ensures lo <= p < hi && Listed(m, root, at, p) && Scan(m, root, at, lo, hi)[i] == Shown(m, root, at, p)
    decreases hi - lo
  {
    hide FirstPage, TableAt, EntryAddr, Word, Shown;
    if !Listed(m, root, at, lo) {
      p := ScanSound(m, root, at, lo + 1, hi, i);
    } else if i == 0 {
      p := lo;
    } else {
      p := ScanSound(m, root, at, lo + 1, hi, i - 1);
    }
  }

  lemma {:induction false} ScanSorted(m: Memory, root: nat, at: Level, lo: nat, hi: nat, i: nat, j: nat)
    requires lo <= hi <= PAGES && i < j < |Scan(m, root, at, lo, hi)|
    ensures Scan(m, root, at, lo, hi)[i].vaddr < Scan(m, root, at, lo, hi)[j].vaddr
    decreases hi - lo
  {
    hide FirstPage, TableAt, EntryAddr, Word, CanonicalAddr, PageOf, Canonical, Index;
    if !Listed(m, root, at, lo) {
      ScanSorted(m, root, at, lo + 1, hi, i, j);
    } else if i > 0 {
      ScanSorted(m, root, at, lo + 1, hi, i - 1, j - 1);
    } else {
      var p := ScanSound(m, root, at, lo + 1, hi, j - 1);
      IndexRoundTrip(lo, p, 0);
    }
  }

  lemma {:induction false} ScanComplete(m: Memory, root: nat, at: Level, lo: nat, hi: nat, p: nat)
    requires lo <= p < hi <= PAGES && Listed(m, root, at, p)
    ensures Shown(m, root, at, p) in Scan(m, root, at, lo, hi)
    decreases hi - lo
  {
    hide FirstPage, TableAt, EntryAddr, Word, Shown;
    if lo < p {
      ScanComplete(m, root, at, lo + 1, hi, p);
    }
  }

  /** The line shows an entry of the walk as it is: its address is canonical and that of the first page
      behind the entry, its index is the one the walk of that page uses at this level, and its entry is the
      nonzero one found there. */
  predicate ShowsEntry(m: Memory, root: nat, line: Line)
  {
    var p := PageOf(line.vaddr);
    && Canonical(line.vaddr) && line.vaddr % 0x1000 == 0 && FirstPage(p, line.level)
    && line.index == Index(p, line.level) && line.pte != 0
    && TableAt(m, root, p, line.level).Next?
    && line.pte == Word(m, EntryAddr(TableAt(m, root, p, line.level).table, p, line.level))
  }

  lemma {:induction false} DistinctCount(d: seq<Line>)
    requires forall i: nat, j: nat :: i < j < |d| ==> d[i] != d[j]
    ensures |set x | x in d| == |d|
    decreases |d|
  {
    if d != [] {
      var n := |d| - 1;
      DistinctCount(d[..n]);
      assert (set x | x in d) == (set x | x in d[..n]) + {d[n]};
    }
  }

  lemma {:induction false} AtMostCount(s: seq<Line>)
    ensures |set x | x in s| <= |s|
    decreases |s|
  {
    if s != [] {
      var n := |s| - 1;
      AtMostCount(s[..n]);
      assert (set x | x in s) == (set x | x in s[..n]) + {s[n]};
    }
  }

  /** A sequence without repetitions is no longer than one that has all its members. */
  lemma DistinctAreFew(d: seq<Line>, s: seq<Line>)
    requires forall i: nat, j: nat :: i < j < |d| ==> d[i] != d[j]
    requires forall x :: x in d ==> x in s
    ensures |d| <= |s|
  {
    DistinctCount(d);
    AtMostCount(s);
    var a, b := set x | x in d, set x | x in s;
    SubsetSize(a, b);
  }

  lemma {:induction false} SubsetSize<T>(a: set<T>, b: set<T>)
    requires a <= b
    ensures |a| <= |b|
    decreases |a|
  {
    if a != {} {
      var x :| x in a;
      SubsetSize(a - {x}, b - {x});
    }
  }

  ghost predicate StrictlyIncreasing(d: seq<Line>) { forall i: nat, j: nat :: i < j < |d| ==> d[i].vaddr < d[j].vaddr }

  /** The dump against the walk, with a limit that cuts nothing off, at each of the four levels.  No nonzero
      entry of the walks is ever missing.  And the lines of the level come in strictly increasing order of
      address, each showing index, address and entry as the walk has them, if and only if no stray entry on
      the walk of any page has a nonzero entry of that level behind it. */
  lemma DumpEnumerates(m: Memory, root: u64, limit: int, at: Level)
    requires limit >= 512 && root + 0x1000 <= TWO64
    ensures var d := AtLevel(DumpPgtable(m, root, limit), at);
            && (forall x: Line :: x.level == at && ShowsEntry(m, root, x) ==> x in d)
            && (StrictlyIncreasing(d) && (forall x: Line :: x in d <==> x.level == at && ShowsEntry(m, root, x))
                <==> NoStrayEntries(m, root, at))
  {
    var d, s := AtLevel(DumpPgtable(m, root, limit), at), Scan(m, root, at, 0, PAGES);
    DumpIsScan(m, root, at, limit);
    hide *;
    ScanOfTables(m, root, at);
    ComparesExactly(s, d, NoStrayEntries(m, root, at));
    if forall x: Line :: x in d <==> x.level == at && ShowsEntry(m, root, x) {
      SameMembersBy(d, s);
    }
    if SameMembers(d, s) {
      MembersSame(d, s);
    }
  }

  lemma SameMembersBy(d: seq<Line>, s: seq<Line>)
    requires forall x :: x in d <==> x in s
    ensures SameMembers(d, s)
  {
  }

  lemma MembersSame(d: seq<Line>, s: seq<Line>)
    requires SameMembers(d, s)
    ensures forall x :: x in d <==> x in s
  {
  }

  /** The scan is in order and has exactly the entries of the walks. */
  lemma ScanOfTables(m: Memory, root: nat, at: Level)
    ensures StrictlyIncreasing(Scan(m, root, at, 0, PAGES))
    ensures forall x: Line :: x in Scan(m, root, at, 0, PAGES) <==> x.level == at && ShowsEntry(m, root, x)
  {
    hide Scan, ShowsEntry;
    forall x: Line ensures x in Scan(m, root, at, 0, PAGES) <==> x.level == at && ShowsEntry(m, root, x) {
      ScanMembers(m, root, at, x);
    }
    forall i: nat, j: nat | i < j < |Scan(m, root, at, 0, PAGES)|
      ensures Scan(m, root, at, 0, PAGES)[i].vaddr < Scan(m, root, at, 0, PAGES)[j].vaddr
    {
      ScanSorted(m, root, at, 0, PAGES, i, j);
    }
  }

  ghost predicate SameMembers(d: seq<Line>, s: seq<Line>) { forall x :: x in d <==> x in s }

  lemma ComparesExactly(s: seq<Line>, d: seq<Line>, quiet: bool)
    requires Compares(s, d, quiet) && StrictlyIncreasing(s)
    ensures StrictlyIncreasing(d) && SameMembers(d, s) <==> quiet
    ensures forall x :: x in s ==> x in d
  {
    if StrictlyIncreasing(d) && SameMembers(d, s) {
      DistinctAreFew(d, s);
    }
  }

  /** Tables in which every nonzero interior entry is present or a large page have nothing stray. */
  lemma NothingStray(m: Memory, root: nat, at: Level)
    requires forall p: nat, l: Level :: p < PAGES && l < 3 && TableAt(m, root, p, l).Next? ==>
               !Stray(Word(m, EntryAddr(TableAt(m, root, p, l).table, p, l)))
    ensures NoStrayEntries(m, root, at)
  {
    hide TableAt, Stray, EntryBehind;
  }

  lemma WholeSpace()
    ensures TableBase(0, 0) && Reach(0) == PAGES && First(0, 0, 0) == 0 && CanonicalAddr(0) == 0
  {
  }

  lemma DumpIsScan(m: Memory, root: u64, at: Level, limit: int)
    requires limit >= 512 && root + 0x1000 <= TWO64
    ensures Compares(Scan(m, root, at, 0, PAGES), AtLevel(DumpPgtable(m, root, limit), at), NoStrayEntries(m, root, at))
  {
    WholeSpace();
    hide Scan, Listing, AtLevel, QuietRange, TableBase, Reach, First, CanonicalAddr, Compares;
    assert TableAt(m, root, 0, 0) == Next(root);
    ListingScans(m, root, at, 0, 0, root, limit, 0, 0);
  }

  lemma ScanMembers(m: Memory, root: nat, at: Level, x: Line)
    ensures x in Scan(m, root, at, 0, PAGES) <==> x.level == at && ShowsEntry(m, root, x)
  {
    hide Scan, CanonicalAddr, Canonical, PageOf, TableAt, EntryAddr, Word, Index, FirstPage;
    IndexRoundTrip(0, 0, x.vaddr);
    if x in Scan(m, root, at, 0, PAGES) {
      var i: nat :| i < |Scan(m, root, at, 0, PAGES)| && Scan(m, root, at, 0, PAGES)[i] == x;
      var p := ScanSound(m, root, at, 0, PAGES, i);
      IndexRoundTrip(p, p, x.vaddr);
    }
    if x.level == at && ShowsEntry(m, root, x) {
      ScanComplete(m, root, at, 0, PAGES, PageOf(x.vaddr));
    }
  }

  // ----- Smaller limits -----

  /** a is b with some elements left out. */
  predicate Subsequence<T(==)>(a: seq<T>, b: seq<T>)
    decreases |b|
  {
    a == [] || (b != [] && ((a[0] == b[0] && Subsequence(a[1..], b[1..])) || Subsequence(a, b[1..])))
  }

  lemma {:induction false} SubsequenceConcat<T>(a1: seq<T>, b1: seq<T>, a2: seq<T>, b2: seq<T>)
    requires Subsequence(a1, b1) && Subsequence(a2, b2)
    ensures Subsequence(a1 + a2, b1 + b2)
    decreases |b1|
  {
    if b1 == [] {
      assert a1 + a2 == a2 && b1 + b2 == b2;
    } else {
      assert (b1 + b2)[1..] == b1[1..] + b2;
      if a1 != [] && a1[0] == b1[0] && Subsequence(a1[1..], b1[1..]) {
        SubsequenceConcat(a1[1..], b1[1..], a2, b2);
        assert (a1 + a2)[1..] == a1[1..] + a2;
      } else {
        SubsequenceConcat(a1, b1[1..], a2, b2);
      }
    }
  }

  lemma {:induction false} SubsequenceAt(a: seq<Line>, b: seq<Line>, at: Level)
    requires Subsequence(a, b)
    ensures Subsequence(AtLevel(a, at), AtLevel(b, at))
    decreases |b|
  {
    if a != [] {
      AtLevelCons(a, at);
      AtLevelCons(b, at);
      if a[0] == b[0] && Subsequence(a[1..], b[1..]) {
        SubsequenceAt(a[1..], b[1..], at);
        SubsequenceSame(LineAt(a[0], at));
        SubsequenceConcat(LineAt(a[0], at), LineAt(b[0], at), AtLevel(a[1..], at), AtLevel(b[1..], at));
      } else {
        SubsequenceAt(a, b[1..], at);
        SubsequenceConcat([], LineAt(b[0], at), AtLevel(a, at), AtLevel(b[1..], at));
        EmptyFront(AtLevel(a, at), []);
      }
    }
  }

  lemma {:induction false} SubsequenceSame<T>(a: seq<T>)
    ensures Subsequence(a, a)
    decreases |a|
  {
    if a != [] {
      SubsequenceSame(a[1..]);
    }
  }

  lemma {:induction false} SubsequenceOrdered(a: seq<Line>, b: seq<Line>)
    requires Subsequence(a, b)
    ensures forall x :: x in a ==> x in b
    ensures StrictlyIncreasing(b) ==> StrictlyIncreasing(a)
    decreases |b|
  {
    if a != [] {
      if a[0] == b[0] && Subsequence(a[1..], b[1..]) {
        SubsequenceOrdered(a[1..], b[1..]);
        assert forall i: nat :: 0 < i < |a| ==> a[i] in a[1..];
      } else {
        SubsequenceOrdered(a, b[1..]);
      }
    }
  }

  lemma OneLine(x: Line, a: seq<Line>, b: seq<Line>)
    requires Subsequence(a, b)
    ensures Subsequence([x] + a, [x] + b)
  {
    SubsequenceSame([x]);
    SubsequenceConcat([x], [x], a, b);
  }

  /** A listing under any limit is the listing without one, with lines left out. */
  lemma {:induction false} ListingCut(m: Memory, t: u64, start: u64, level: Level, limit: int, i: nat, n: nat, full: nat)
    requires full <= i <= 512
    ensures Subsequence(Listing(m, t, start, level, limit, i, n), Listing(m, t, start, level, 512, i, full))
    decreases 3 - level, 512 - i
  {
    hide *;
    if i == 512 {
      ListingEnd(m, t, start, level, limit, n);
      ListingEnd(m, t, start, level, 512, full);
      NothingCut([]);
    } else {
      ListingStep(m, t, start, level, limit, i, n);
      ListingStep(m, t, start, level, 512, i, full);
      var pte := Element(m, t, i);
      if pte == 0 {
        ListingCut(m, t, start, level, limit, i + 1, n, full);
      } else {
        ChunkCut(m, start, level, limit, i, pte);
        ListingCut(m, t, start, level, limit, i + 1, n + 1, full + 1);
        var rest := Listing(m, t, start, level, 512, i + 1, full + 1);
        NothingCut(rest);
        if full + 1 >= 512 {
          ListingEnd(m, t, start, level, 512, full + 1);
        }
        SubsequenceConcat(Chunk(m, start, level, limit, i, pte), Chunk(m, start, level, 512, i, pte),
                          if n + 1 >= limit then [] else Listing(m, t, start, level, limit, i + 1, n + 1), rest);
      }
    }
  }

  lemma NothingCut(b: seq<Line>)
    ensures Subsequence([], b)
  {
  }

  lemma {:induction false} ChunkCut(m: Memory, start: u64, level: Level, limit: int, i: nat, pte: u64)
    ensures Subsequence(Chunk(m, start, level, limit, i, pte), Chunk(m, start, level, 512, i, pte))
    decreases 3 - level, 0
  {
    hide Listing, EntryVaddr, Subsequence, LargePage, PteAddr;
    var vaddr := EntryVaddr(start, level, i);
    NothingCut([]);
    if level < 3 && !LargePage(pte) {
      ListingCut(m, PteAddr(pte), vaddr, level + 1, limit, 0, 0, 0);
    }
    OneLine(Line(level, i, vaddr, pte), Below(m, pte, vaddr, level, limit), Below(m, pte, vaddr, level, 512));
  }

  /** Under any limit the dump prints lines of the unlimited dump, in its order.  So on tables without stray
      entries every line of a level that it does print shows an entry of the walk as it is, in strictly
      increasing order of address. */
  lemma DumpCut(m: Memory, root: u64, limit: int, at: Level)
    requires root + 0x1000 <= TWO64
    ensures Subsequence(DumpPgtable(m, root, limit), DumpPgtable(m, root, 512))
    ensures Subsequence(AtLevel(DumpPgtable(m, root, limit), at), AtLevel(DumpPgtable(m, root, 512), at))
    ensures NoStrayEntries(m, root, at) ==>
              var d := AtLevel(DumpPgtable(m, root, limit), at);
              StrictlyIncreasing(d) && forall x: Line :: x in d ==> ShowsEntry(m, root, x)
  {
    ListingCut(m, root, 0, 0, limit, 0, 0, 0);
    DumpIs(m, root, limit);
    DumpIs(m, root, 512);
    DumpEnumerates(m, root, 512, at);
    hide *;
    var cut, all := DumpPgtable(m, root, limit), DumpPgtable(m, root, 512);
    SubsequenceAt(cut, all, at);
    SubsequenceOrdered(AtLevel(cut, at), AtLevel(all, at));
  }

  lemma DumpIs(m: Memory, root: u64, limit: int)
    ensures DumpPgtable(m, root, limit) == Listing(m, root, 0, 0, limit, 0, 0)
  {
  }

  // ----- Cost -----

  /** Lines at most per printed entry of a table, its own included, when every table prints w entries. */
  function PerEntry(level: Level, w: nat): (c: nat)
    ensures c >= 1
    decreases 3 - level
  {
    if level == 3 then 1 else 1 + w * PerEntry(level + 1, w)
  }

  /** Entries of one table that can be printed under a limit. */
  function Width(limit: int): (r: nat) { if limit < 1 then 1 else if limit > 512 then 512 else limit }

  /** Entries still to be printed when entry i is next and n have been printed. */
  function Remaining(limit: int, i: nat, n: nat): (r: nat)
    requires i <= 512
  {
    var left := (if limit < 1 then 1 else limit) - n;
    if left < 0 then 0 else if left < 512 - i then left else 512 - i
  }

  function Times(r: nat, c: nat): (result: nat) { r * c }

  lemma RemainingSteps(limit: int, i: nat, n: nat)
    requires i < 512 && (n == 0 || n < limit)
    ensures Remaining(limit, i + 1, n) <= Remaining(limit, i, n)
    ensures Remaining(limit, i, n) > 0
    ensures Remaining(limit, i + 1, n + 1) == Remaining(limit, i, n) - 1
    ensures Remaining(limit, 0, 0) == Width(limit)
  {
  }

  lemma ListingLength(m: Memory, table: u64, start: u64, level: Level, limit: int, i: nat, n: nat)
    requires i < 512
    ensures var pte := Element(m, table, i);
            |Listing(m, table, start, level, limit, i, n)| ==
            if pte == 0 then |Listing(m, table, start, level, limit, i + 1, n)|
            else |Chunk(m, start, level, limit, i, pte)|
                 + (if n + 1 >= limit then 0 else |Listing(m, table, start, level, limit, i + 1, n + 1)|)
  {
    hide Element, EntryVaddr, Listing, Chunk;
    ListingStep(m, table, start, level, limit, i, n);
  }

  /** The cost of `dump_inner`, whatever the tables hold, cycles included. */
  lemma {:induction false} ListingCost(m: Memory, table: u64, start: u64, level: Level, limit: int, i: nat, n: nat)
    requires i <= 512 && (n == 0 || n < limit)
    ensures |Listing(m, table, start, level, limit, i, n)| <= Times(Remaining(limit, i, n), PerEntry(level, Width(limit)))
    decreases 3 - level, 512 - i
  {
    hide *;
    var c := PerEntry(level, Width(limit));
    if i == 512 {
      ListingEnd(m, table, start, level, limit, n);
    } else {
      RemainingSteps(limit, i, n);
      ListingLength(m, table, start, level, limit, i, n);
      OneMore(Remaining(limit, i, n), c);
      if Element(m, table, i) == 0 {
        ListingCost(m, table, start, level, limit, i + 1, n);
        Monotone(Remaining(limit, i + 1, n), Remaining(limit, i, n), c);
      } else {
        ChunkCost(m, start, level, limit, i, Element(m, table, i));
        if n + 1 < limit {
          ListingCost(m, table, start, level, limit, i + 1, n + 1);
        }
      }
    }
  }

  lemma {:induction false} ChunkCost(m: Memory, start: u64, level: Level, limit: int, i: nat, pte: u64)
    ensures |Chunk(m, start, level, limit, i, pte)| <= PerEntry(level, Width(limit))
    decreases 3 - level, 0
  {
    hide EntryVaddr, Listing, LargePage, PteAddr, Width;
    if level < 3 && !LargePage(pte) {
      ListingCost(m, PteAddr(pte), EntryVaddr(start, level, i), level + 1, limit, 0, 0);
      RemainingSteps(limit, 0, 0);
      assert PerEntry(level, Width(limit)) == 1 + Times(Remaining(limit, 0, 0), PerEntry(level + 1, Width(limit)));
    }
  }

  lemma Monotone(a: nat, b: nat, c: nat)
    requires a <= b
    ensures Times(a, c) <= Times(b, c)
  {
  }

  lemma OneMore(r: nat, c: nat)
    requires r > 0 && c > 0
    ensures Times(r - 1, c) + c == Times(r, c) && c <= Times(r, c) && Times(1, c) == c && Times(0, c) == 0
  {
  }

  /** `dump_pgtable` prints at most w + w^2 + w^3 + w^4 lines, w being the limit cut to 1..512. */
  lemma DumpCost(m: Memory, root: u64, limit: int)
    ensures var w := Width(limit); |DumpPgtable(m, root, limit)| <= w + w * w + w * w * w + w * w * w * w
  {
    hide Listing, PerEntry;
    ListingCost(m, root, 0, 0, limit, 0, 0);
    RemainingSteps(limit, 0, 0);
    PerEntryExpanded(Width(limit));
  }

  lemma PerEntryExpanded(w: nat)
    ensures w * PerEntry(0, w) == w + w * w + w * w * w + w * w * w * w
  {
    var c2, c1 := PerEntry(2, w), PerEntry(1, w);
    assert PerEntry(3, w) == 1;
    assert c2 == 1 + w * 1 == 1 + w;
    assert c1 == 1 + w * c2 == 1 + w + w * w;
    Distribute(w);
    assert PerEntry(0, w) == 1 + w * c1;
  }

  lemma Distribute(w: nat)
    ensures w * (1 + w + w * w) == w + w * w + w * w * w
    ensures w * (1 + (w + w * w + w * w * w)) == w + w * w + w * w * w + w * w * w * w
  {
  }

  // ----- The bound is reached -----

  /** Every entry of the table at `table` is the same nonzero entry, pointing back to that table. */
  ghost predicate SelfMapped(m: Memory, table: u64, e: u64)
  {
    && e != 0 && table == PteAddr(e) && !LargePage(e)
    && forall i: nat :: i < 512 ==> Element(m, table, i) == e
  }

  /** On a table whose entries all point back to it the listing is as long as it can be. */
  lemma {:induction false} SelfMapCost(m: Memory, table: u64, e: u64, start: u64, level: Level, limit: int, i: nat, n: nat)
    requires SelfMapped(m, table, e) && i <= 512 && (n == 0 || n < limit)
    ensures |Listing(m, table, start, level, limit, i, n)| == Times(Remaining(limit, i, n), PerEntry(level, Width(limit)))
    decreases 3 - level, 512 - i
  {
    hide *;
    if i == 512 {
      ListingEnd(m, table, start, level, limit, n);
      OneMore(1, PerEntry(level, Width(limit)));
      NoneRemaining(limit, n);
    } else {
      RemainingSteps(limit, i, n);
      ListingLength(m, table, start, level, limit, i, n);
      SelfMappedEntry(m, table, e, i);
      SelfMapChunk(m, table, e, start, level, limit, i);
      OneMore(Remaining(limit, i, n), PerEntry(level, Width(limit)));
      if n + 1 < limit {
        SelfMapCost(m, table, e, start, level, limit, i + 1, n + 1);
      } else {
        LastPrinted(limit, i, n);
      }
    }
  }

  lemma SelfMappedEntry(m: Memory, table: u64, e: u64, i: nat)
    requires SelfMapped(m, table, e) && i < 512
    ensures Element(m, table, i) == e && e != 0
  {
  }

  lemma NoneRemaining(limit: int, n: nat)
    ensures Remaining(limit, 512, n) == 0
  {
  }

  lemma {:induction false} SelfMapChunk(m: Memory, table: u64, e: u64, start: u64, level: Level, limit: int, i: nat)
    requires SelfMapped(m, table, e)
    ensures |Chunk(m, start, level, limit, i, e)| == PerEntry(level, Width(limit))
    decreases 3 - level, 0
  {
    hide EntryVaddr, Listing, PteAddr, LargePage, Width, Element;
    if level < 3 {
      SelfMapCost(m, table, e, EntryVaddr(start, level, i), level + 1, limit, 0, 0);
      RemainingSteps(limit, 0, 0);
      assert PerEntry(level, Width(limit)) == 1 + Times(Remaining(limit, 0, 0), PerEntry(level + 1, Width(limit)));
    }
  }

  lemma LastPrinted(limit: int, i: nat, n: nat)
    requires i < 512 && (n == 0 || n < limit) && n + 1 >= limit
    ensures Remaining(limit, i, n) == 1
  {
  }

  /** The bound of DumpCost is reached, for every limit, by a root that maps itself. */
  lemma DumpCostReached(m: Memory, root: u64, e: u64, limit: int)
    requires SelfMapped(m, root, e)
    ensures var w := Width(limit); |DumpPgtable(m, root, limit)| == w + w * w + w * w * w + w * w * w * w
  {
    hide Listing, PerEntry;
    SelfMapCost(m, root, e, 0, 0, limit, 0, 0);
    RemainingSteps(limit, 0, 0);
    PerEntryExpanded(Width(limit));
  }
}
