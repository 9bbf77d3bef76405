/** The handler's counters against the log of handled events, and the effect of a sweep of writes on the
    abstract page table. */
module Accounting {
  import opened Words
  import opened PageEntry
  import opened PageTable
  import opened Protection
  import opened Repair
  import opened Trap

  // ----- Events and counters -----

  datatype Kind = Ud | Pf | Intr

  /** The branch of `exception_handler` for a vector; below 32 everything else aborts. */
  function KindOf(v: Vector): (r: Option<Kind>)
  {
    if v == 6 then Some(Ud) else if v == 14 then Some(Pf) else if v >= 32 then Some(Intr) else None
  }

  /** How many events of a kind a log holds. */
  function Count(events: seq<Vector>, kind: Kind): (r: nat)
  {
    if events == [] then 0
    else Count(events[..|events| - 1], kind) + (if KindOf(events[|events| - 1]) == Some(kind) then 1 else 0)
  }

  lemma CountSnoc(events: seq<Vector>, v: Vector, kind: Kind)
    ensures Count(events + [v], kind) == Count(events, kind) + (if KindOf(v) == Some(kind) then 1 else 0)
  {
    assert (events + [v])[..|events|] == events;
  }

  /** Nothing is lost and nothing is counted twice: over a log of handled events the three counts add up
      to its length. */
  lemma {:induction false} EventsConserved(events: seq<Vector>)
    requires forall i: nat :: i < |events| ==> KindOf(events[i]).Some?
    ensures Count(events, Ud) + Count(events, Pf) + Count(events, Intr) == |events|
    decreases |events|
  {
    if events != [] {
      EventsConserved(events[..|events| - 1]);
    }
  }

  lemma {:induction false} CountConcat(a: seq<Vector>, b: seq<Vector>, kind: Kind)
    ensures Count(a + b, kind) == Count(a, kind) + Count(b, kind)
    decreases |b|
  {
    if b == [] {
      assert a + b == a;
    } else {
      var n := |b| - 1;
      CountConcat(a, b[..n], kind);
      assert a + b == (a + b[..n]) + [b[n]] && b == b[..n] + [b[n]];
      CountSnoc(a + b[..n], b[n], kind);
      CountSnoc(b[..n], b[n], kind);
    }
  }

  /** A C `int` holding a count, with the wrap-around of two's complement. */
  function Int32(n: int): (r: int) { (n + 0x8000_0000) % 0x1_0000_0000 - 0x8000_0000 }

  lemma Int32Step(n: int)
    ensures Int32(Int32(n) + 1) == Int32(n + 1)
  {
    var q := (n + 0x8000_0000) / 0x1_0000_0000;
    assert Int32(n) == n - q * 0x1_0000_0000;
    WrapShift(n + 1 + 0x8000_0000, -q);
  }

  lemma WrapShift(x: int, q: int)
    ensures (x + q * 0x1_0000_0000) % 0x1_0000_0000 == x % 0x1_0000_0000
  {
  }

  /** The value of an `int`, and a count that has not outgrown it. */
  lemma Int32Range(n: int)
    ensures -0x8000_0000 <= Int32(n) < 0x8000_0000
    ensures -0x8000_0000 <= n < 0x8000_0000 ==> Int32(n) == n
  {
  }

  /** A counter that does not overflow grows by the number of events. */
  lemma Int32Grows(c: int, n: int)
    requires -0x8000_0000 <= Int32(c) + n < 0x8000_0000
    ensures Int32(c + n) == Int32(c) + n
  {
    WrapShift(Int32(c) + n + 0x8000_0000, Wraps(c));
  }

  /** Wrapped counts add up to the wrapped sum. */
  lemma Int32Sum(a: int, b: int, c: int, n: int)
    ensures Int32(Int32(a) + Int32(b) + Int32(c) + n) == Int32(a + b + c + n)
  {
    var p, q, r := Wraps(a), Wraps(b), Wraps(c);
    WrapShift(a + b + c + n + 0x8000_0000, -(p + q + r));
  }

  /** How often a count has wrapped. */
  function Wraps(n: int): (q: int)
    ensures Int32(n) == n - q * 0x1_0000_0000
  {
    (n + 0x8000_0000) / 0x1_0000_0000
  }

  // ----- Sweeps of writes -----

  predicate LeafAllowsWrite(e: u64) { Present(e) && Writable(e) }

  /** The pages a write sweep over steps lo..hi-1 faults on, in order. */
  function FaultsOf(a: map<nat, u64>, lo: nat, hi: nat): (r: seq<nat>)
    decreases hi
  {
    if hi <= lo then []
    else
      FaultsOf(a, lo, hi - 1)
      + (if StepPage(hi - 1) in a && LeafAllowsWrite(a[StepPage(hi - 1)]) then [] else [StepPage(hi - 1)])
  }

  /** The abstract page table after the sweep: what did not allow writes has been repaired. */
  ghost function Swept(a: map<nat, u64>, lo: nat, hi: nat): (r: map<nat, u64>)
  {
    map p | p in a :: if Touched(p, lo, hi) && !LeafAllowsWrite(a[p]) then Rewrite(a[p], RW) else a[p]
  }

  /** A range of steps inside one canonical half that stops short of the last page. */
  predicate SweepRange(lo: nat, hi: nat)
  {
    lo <= hi && (hi <= 0x8_0000_0000 || (0xf_fff8_0000_0000 <= lo && hi < 0x10_0000_0000_0000))
  }

  lemma SweepPagesDistinct(lo: nat, hi: nat, j: nat, k: nat)
    requires SweepRange(lo, hi) && lo <= j < k < hi
    ensures StepPage(j) != StepPage(k)
  {
    if 0xf_fff8_0000_0000 <= lo {
      assert StepPage(j) == j - 0xf_fff0_0000_0000 && StepPage(k) == k - 0xf_fff0_0000_0000;
    }
  }

  lemma SweepNotYetTouched(lo: nat, hi: nat, k: nat)
    requires SweepRange(lo, hi) && lo <= k < hi
    ensures !Touched(StepPage(k), lo, k)
  {
    if Touched(StepPage(k), lo, k) {
      var j: nat :| lo <= j < k && StepPage(j) == StepPage(k);
      SweepPagesDistinct(lo, hi, j, k);
    }
  }

  lemma TouchedStep(p: nat, lo: nat, k: nat)
    requires lo <= k
    ensures Touched(p, lo, k + 1) <==> Touched(p, lo, k) || p == StepPage(k)
  {
    if Touched(p, lo, k + 1) {
      var j: nat :| lo <= j < k + 1 && StepPage(j) == p;
    }
    assert StepPage(k) == p ==> lo <= k < k + 1 && StepPage(k) == p;
  }

  lemma SweptStep(a: map<nat, u64>, lo: nat, hi: nat, k: nat)
    requires SweepRange(lo, hi) && lo <= k < hi && StepPage(k) in a
    ensures Swept(a, lo, k)[StepPage(k)] == a[StepPage(k)]
    ensures Swept(a, lo, k + 1) ==
            if LeafAllowsWrite(a[StepPage(k)]) then Swept(a, lo, k)
            else Swept(a, lo, k)[StepPage(k) := Rewrite(a[StepPage(k)], RW)]
  {
    SweepNotYetTouched(lo, hi, k);
    forall p | p in a ensures Touched(p, lo, k + 1) <==> Touched(p, lo, k) || p == StepPage(k) {
      TouchedStep(p, lo, k);
    }
    hide Touched, StepPage, Rewrite, LeafAllowsWrite;
  }

  lemma SweptKeys(a: map<nat, u64>, lo: nat, hi: nat)
    ensures Swept(a, lo, hi).Keys == a.Keys
  {
    hide Touched, Rewrite, LeafAllowsWrite;
  }

  lemma SweptNothing(a: map<nat, u64>, lo: nat)
    ensures Swept(a, lo, lo) == a
  {
    hide LeafAllowsWrite, Rewrite;
  }

  /** Two rewrites in a row: all other bits come from the second flags, and the address bits of both
      pile up. */
  lemma RewriteTwiceFields(e: u64, f: u64, g: u64)
    ensures Rewrite(Rewrite(e, f), g) == Rewrite(e, g) <==>
            BitOr(FrameNumber(e), BitOr(FrameNumber(f), FrameNumber(g))) == BitOr(FrameNumber(e), FrameNumber(g))
  {
    RewriteFields(e, f);
    RewriteFields(Rewrite(e, f), g);
    RewriteFields(e, g);
    BitOrAssoc(FrameNumber(e), FrameNumber(f), FrameNumber(g));
    hide Rewrite, FrameNumber, BitOr;
    if FrameNumber(Rewrite(Rewrite(e, f), g)) == FrameNumber(Rewrite(e, g)) {
      SameFields(Rewrite(Rewrite(e, f), g), Rewrite(e, g));
    }
  }

  /** Of two rewrites in a row only the last one's flags remain, for every entry, exactly when the first
      flags carry no address bit that the second do not carry. */
  lemma LastRewriteWins(f: u64, g: u64)
    ensures (forall e: u64 :: Rewrite(Rewrite(e, f), g) == Rewrite(e, g)) <==>
            BitOr(FrameNumber(f), FrameNumber(g)) == FrameNumber(g)
  {
    hide Rewrite, FrameNumber;
    ZeroFrame();
    assert forall x: nat :: BitOr(0, x) == x;
    RewriteTwiceFields(0, f, g);
    forall e: u64 | BitOr(FrameNumber(f), FrameNumber(g)) == FrameNumber(g)
      ensures Rewrite(Rewrite(e, f), g) == Rewrite(e, g)
    {
      RewriteTwiceFields(e, f, g);
    }
  }

  /** In particular flags without address bits leave no trace. */
  lemma RewriteOver(e: u64, f: u64, g: u64)
    requires FrameNumber(f) == 0
    ensures Rewrite(Rewrite(e, f), g) == Rewrite(e, g)
  {
    hide Rewrite, FrameNumber;
    assert BitOr(0, FrameNumber(g)) == FrameNumber(g);
    LastRewriteWins(f, g);
  }

  lemma ReadOnlyFlags(e: u64)
    ensures Present(Rewrite(e, PTE_P)) && !Writable(Rewrite(e, PTE_P)) && FrameNumber(PTE_P) == 0
  {
    ReadOnlyBits();
    hide Rewrite, FrameNumber, Present, Writable, LargePage;
    RewriteFields(e, PTE_P);
    LowBits(Rewrite(e, PTE_P), PTE_P);
  }

  lemma ReadOnlyBits()
    ensures Present(PTE_P) && !Writable(PTE_P) && FrameNumber(PTE_P) == 0
  {
  }

  /** A sweep of writes in numbers: on the pages of the range, entries without both bits 0 and 1 become the
      old frame plus 3. */
  lemma SweptEntries(a: map<nat, u64>, lo: nat, hi: nat)
    ensures Swept(a, lo, hi).Keys == a.Keys
    ensures forall p :: p in a ==>
              Swept(a, lo, hi)[p] == if Touched(p, lo, hi) && a[p] % 4 != 3 then FrameNumber(a[p]) * 0x1000 + 3 else a[p]
  {
    forall p | p in a ensures Rewrite(a[p], RW) == FrameNumber(a[p]) * 0x1000 + 3 && (LeafAllowsWrite(a[p]) <==> a[p] % 4 == 3) {
      RewriteValue(a[p], RW);
      LowTwoBits(a[p]);
    }
    hide Rewrite, FrameNumber, LeafAllowsWrite, Touched;
  }

  lemma LowTwoBits(e: u64)
    ensures LeafAllowsWrite(e) <==> e % 4 == 3
  {
  }

  /** Protecting a range in numbers, for flags without address bits. */
  lemma ProtectedEntries(a: map<nat, u64>, lo: nat, hi: nat, flags: u64)
    requires flags < 0x1000
    ensures Protected(a, lo, hi, flags).Keys == a.Keys
    ensures forall p :: p in a ==>
              Protected(a, lo, hi, flags)[p] == if Touched(p, lo, hi) then FrameNumber(a[p]) * 0x1000 + flags else a[p]
  {
    forall p | p in a ensures Rewrite(a[p], flags) == FrameNumber(a[p]) * 0x1000 + flags {
      RewriteValue(a[p], flags);
    }
    hide Rewrite, FrameNumber, Touched;
  }

  /** Writing to every page, removing write permission from all, and writing to every page again comes to
      giving every page its old frame with the flags P and W. */
  lemma SweepProtectSweep(a: map<nat, u64>, lo: nat, hi: nat)
    ensures Swept(Protected(Swept(a, lo, hi), lo, hi, PTE_P), lo, hi) == Protected(a, lo, hi, RW)
  {
    forall e: u64
      ensures !LeafAllowsWrite(Rewrite(e, PTE_P))
      ensures Rewrite(Rewrite(e, PTE_P), RW) == Rewrite(e, RW)
      ensures Rewrite(Rewrite(Rewrite(e, RW), PTE_P), RW) == Rewrite(e, RW)
    {
      ReadOnlyFlags(e);
      ReadOnlyFlags(Rewrite(e, RW));
      RwFlags();
      hide Rewrite;
      RewriteOver(e, PTE_P, RW);
      RewriteOver(Rewrite(e, RW), PTE_P, RW);
      RewriteOver(e, RW, RW);
    }
    hide Touched, Rewrite, LeafAllowsWrite;
  }

  /** After write permission has been removed from a range, a sweep faults on each of its pages, once. */
  lemma {:induction false} ProtectedSweepFaults(a: map<nat, u64>, lo: nat, mid: nat, hi: nat)
    requires lo <= mid <= hi
    ensures FaultsOf(Protected(a, lo, hi, PTE_P), lo, mid) == seq(mid - lo, i requires 0 <= i => StepPage(lo + i))
    decreases mid
  {
    if lo < mid {
      ProtectedSweepFaults(a, lo, mid - 1, hi);
      var p := StepPage(mid - 1);
      assert lo <= mid - 1 < hi && StepPage(mid - 1) == p;
      assert Touched(p, lo, hi);
      if p in a {
        ReadOnlyFlags(a[p]);
      }
      assert seq(mid - lo, i requires 0 <= i => StepPage(lo + i)) == seq(mid - 1 - lo, i requires 0 <= i => StepPage(lo + i)) + [p];
    }
  }
}
