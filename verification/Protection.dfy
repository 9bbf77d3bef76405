/** What `mprotect` does to memory, page by page, and what that means for the abstract page table. */
module Protection {
  import opened Words
  import opened PageEntry
  import opened PageTable

  /** Memory after a run, and whether the run ended in `abort()` at a large page. */
  datatype Effect = Effect(mem: Memory, aborted: bool)

  /** The leaf entry of page p, or 0 without one. */
  function LeafWord(m: Memory, root: nat, p: nat): (e: u64) { if HasSlot(m, root, p) then Word(m, Slot(m, root, p)) else 0 }

  /** A store to the leaf entry of page p.  No leaf slot means no effect (the caller discards the -1), and
      at a large page the walk aborts. */
  function StoreAt(m: Memory, root: nat, p: nat, v: u64): (r: Effect)
  {
    match TableAt(m, root, p, 3)
    case Absent => Effect(m, false)
    case Large => Effect(m, true)
    case Next(_) => Effect(m[Slot(m, root, p) := v], false)
  }

  /** One `mprotect_page`. */
  function ProtectPage(m: Memory, root: nat, p: nat, flags: u64): (r: Effect)
  {
    StoreAt(m, root, p, Rewrite(LeafWord(m, root, p), flags))
  }

  /** The loop of `mprotect` over the 4096-byte steps k = lo, lo+1, .., hi-1 of the address space.
      Step k touches page k mod 2^36, because the walk ignores address bits 48 to 63. */
  function ProtectRange(m: Memory, root: nat, lo: nat, hi: nat, flags: u64): (r: Effect)
    decreases hi - lo
  {
    if lo >= hi then Effect(m, false)
    else
      var r := ProtectPage(m, root, StepPage(lo), flags);
      if r.aborted then r else ProtectRange(r.mem, root, lo + 1, hi, flags)
  }

  predicate LargeAt(m: Memory, root: nat, k: nat) { TableAt(m, root, StepPage(k), 3).Large? }

  /** The first step of the range that meets a large page, or hi. */
  function Stop(m: Memory, root: nat, lo: nat, hi: nat): (r: nat)
    requires lo <= hi
    decreases hi - lo
  {
    if lo == hi || LargeAt(m, root, lo) then lo else Stop(m, root, lo + 1, hi)
  }

  lemma {:induction false} StopIsFirst(m: Memory, root: nat, lo: nat, hi: nat)
    requires lo <= hi
    ensures lo <= Stop(m, root, lo, hi) <= hi
    ensures Stop(m, root, lo, hi) < hi ==> LargeAt(m, root, Stop(m, root, lo, hi))
    ensures forall i: nat :: lo <= i < Stop(m, root, lo, hi) ==> !LargeAt(m, root, i)
    decreases hi - lo
  {
    hide LargeAt;
    if lo < hi && !LargeAt(m, root, lo) {
      StopIsFirst(m, root, lo + 1, hi);
    }
  }

  /** Page p is touched by some step of the range. */
  ghost predicate Touched(p: nat, lo: nat, hi: nat) { exists k: nat :: lo <= k < hi && StepPage(k) == p }

  /** The abstract effect: every touched page that has a leaf entry gets it rewritten. */
  ghost function Protected(a: map<nat, u64>, lo: nat, hi: nat, flags: u64): (r: map<nat, u64>)
  {
    map p | p in a :: if Touched(p, lo, hi) then Rewrite(a[p], flags) else a[p]
  }

  lemma {:induction false} StopSame(m: Memory, m': Memory, root: nat, lo: nat, hi: nat)
    requires lo <= hi && SameTables(m, m', root)
    ensures Stop(m', root, lo, hi) == Stop(m, root, lo, hi)
    decreases hi - lo
  {
    hide TableAt, StepPage;
    assert TableAt(m', root, StepPage(lo), 3) == TableAt(m, root, StepPage(lo), 3);
    if lo < hi {
      StopSame(m, m', root, lo + 1, hi);
    }
  }

  lemma StoreAtEffect(m: Memory, root: nat, p: nat, v: u64)
    requires TreeShaped(m, root) && p < PAGES
    ensures var r := StoreAt(m, root, p, v);
            && TreeShaped(r.mem, root) && SameTables(m, r.mem, root)
            && (r.aborted <==> TableAt(m, root, p, 3).Large?)
            && LeafMap(r.mem, root) == (var a := LeafMap(m, root); if p in a then a[p := v] else a)
    ensures p in LeafMap(m, root) ==> LeafMap(m, root)[p] == LeafWord(m, root, p)
  {
    if HasSlot(m, root, p) {
      LeafStore(m, root, p, v);
    }
  }

  lemma ProtectedStep(a: map<nat, u64>, lo: nat, hi: nat, flags: u64)
    requires lo < hi
    ensures var p := StepPage(lo);
            var a1 := if p in a then a[p := Rewrite(a[p], flags)] else a;
            Protected(a1, lo + 1, hi, flags) == Protected(a, lo, hi, flags)
  {
    var p := StepPage(lo);
    var a1 := if p in a then a[p := Rewrite(a[p], flags)] else a;
    forall q | q in a
      ensures Protected(a1, lo + 1, hi, flags)[q] == Protected(a, lo, hi, flags)[q]
    {
      assert lo <= lo < hi && StepPage(lo) == p;
      if Touched(q, lo, hi) && q != p {
        var k: nat :| lo <= k < hi && StepPage(k) == q;
        assert lo + 1 <= k < hi;
      }
      if Touched(q, lo + 1, hi) {
        var k: nat :| lo + 1 <= k < hi && StepPage(k) == q;
        assert lo <= k < hi;
      }
      RewriteIdempotent(a[q], flags);
    }
  }

  lemma ProtectedNothing(a: map<nat, u64>, lo: nat, flags: u64)
    ensures Protected(a, lo, lo, flags) == a
  {
  }

  /** The pointer-chasing writes of `mprotect` refine the abstract update: the run aborts exactly
      when the range meets a large page, every page touched before that point and having a leaf slot
      holds its old frame with the new flags, every other page is unchanged, and the tables stay the
      same tree. */
  lemma {:induction false} ProtectRefines(m: Memory, root: nat, lo: nat, hi: nat, flags: u64)
    requires TreeShaped(m, root) && lo <= hi
    ensures TreeShaped(ProtectRange(m, root, lo, hi, flags).mem, root)
    ensures SameTables(m, ProtectRange(m, root, lo, hi, flags).mem, root)
    ensures ProtectRange(m, root, lo, hi, flags).aborted <==> Stop(m, root, lo, hi) < hi
    ensures LeafMap(ProtectRange(m, root, lo, hi, flags).mem, root) ==
            Protected(LeafMap(m, root), lo, Stop(m, root, lo, hi), flags)
    decreases hi - lo
  {
    hide TableAt, SameTables, TreeShaped, LeafMap, Protected, Rewrite, StepPage;
    var stop := Stop(m, root, lo, hi);
    StopIsFirst(m, root, lo, hi);
    if lo == stop {
      SameTablesRefl(m, root);
      ProtectedNothing(LeafMap(m, root), lo, flags);
      assert ProtectRange(m, root, lo, hi, flags).mem == m;
    } else {
      var r1 := ProtectPage(m, root, StepPage(lo), flags);
      StoreAtEffect(m, root, StepPage(lo), Rewrite(LeafWord(m, root, StepPage(lo)), flags));
      ProtectRefines(r1.mem, root, lo + 1, hi, flags);
      StopSame(m, r1.mem, root, lo + 1, hi);
      assert !LargeAt(m, root, lo) && !r1.aborted;
      assert stop == Stop(m, root, lo + 1, hi) == Stop(r1.mem, root, lo + 1, hi);
      assert ProtectRange(m, root, lo, hi, flags) == ProtectRange(r1.mem, root, lo + 1, hi, flags);
      SameTablesTrans(m, r1.mem, ProtectRange(m, root, lo, hi, flags).mem, root);
      ProtectedStep(LeafMap(m, root), lo, stop, flags);
    }
  }

  /** The loop aborts exactly if some step of the range meets a large page in the tables before the call. */
  lemma RangeAborts(m: Memory, root: nat, lo: nat, hi: nat, flags: u64)
    requires TreeShaped(m, root) && lo <= hi
    ensures ProtectRange(m, root, lo, hi, flags).aborted <==> exists k: nat :: lo <= k < hi && MeetsLarge(m, root, StepPage(k), 0)
  {
    hide TableAt, TreeShaped, MeetsLarge, StepPage;
    ProtectRefines(m, root, lo, hi, flags);
    StopIsFirst(m, root, lo, hi);
    forall k: nat ensures LargeAt(m, root, k) <==> MeetsLarge(m, root, StepPage(k), 0) {
      WalkStarts(m, root, StepPage(k));
      LargeByEntries(m, root, StepPage(k), root, 0);
    }
    hide LargeAt;
    if exists k: nat :: lo <= k < hi && MeetsLarge(m, root, StepPage(k), 0) {
      var k: nat :| lo <= k < hi && MeetsLarge(m, root, StepPage(k), 0);
      assert LargeAt(m, root, k);
    }
  }

  lemma WalkStarts(m: Memory, root: nat, p: nat)
    ensures TableAt(m, root, p, 0) == Next(root)
  {
  }
}
