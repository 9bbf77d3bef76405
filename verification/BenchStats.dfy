/** `bench_stats`: copy, sort, accumulate, report.  Doubles are modelled by exact reals. */
module BenchStats {
  import opened Words
  import opened Statistics

  // ----- What sorting with cmpfunc gives -----

  /** `cmpfunc`. */
  function Compare(a: u64, b: u64): (r: int) { if a > b then 1 else if a < b then -1 else 0 }

  function Insert(x: u64, s: seq<u64>): (r: seq<u64>)
    ensures |r| == |s| + 1
  {
    if s == [] || Compare(x, s[0]) <= 0 then [x] + s else [s[0]] + Insert(x, s[1..])
  }

  /** A sorted permutation of s; by SortedUnique it is the only one, so it is what `qsort` leaves. */
  function SortSeq(s: seq<u64>): (r: seq<u64>)
    ensures |r| == |s|
  {
    if s == [] then [] else Insert(s[0], SortSeq(s[1..]))
  }

  ghost predicate Sorted(s: seq<u64>) { forall i: nat, j: nat :: i <= j < |s| ==> Compare(s[i], s[j]) <= 0 }

  lemma {:induction false} InsertMembers(x: u64, s: seq<u64>)
    ensures multiset(Insert(x, s)) == multiset{x} + multiset(s)
    decreases |s|
  {
    hide Compare;
    if s != [] && !(Compare(x, s[0]) <= 0) {
      InsertMembers(x, s[1..]);
      assert s == [s[0]] + s[1..];
    }
  }

  lemma {:induction false} InsertKeepsSorted(x: u64, s: seq<u64>)
    requires Sorted(s)
    ensures Sorted(Insert(x, s))
    decreases |s|
  {
    if s != [] && !(Compare(x, s[0]) <= 0) {
      TailSorted(s);
      InsertKeepsSorted(x, s[1..]);
      InsertMembers(x, s[1..]);
      var r := Insert(x, s[1..]);
      forall j: nat | j < |r| ensures Compare(s[0], r[j]) <= 0 {
        assert r[j] in multiset(r);
        assert r[j] == x || r[j] in s[1..];
      }
      ConsSorted(s[0], r);
    }
  }

  lemma ConsSorted(x: u64, r: seq<u64>)
    requires Sorted(r) && forall j: nat :: j < |r| ==> Compare(x, r[j]) <= 0
    ensures Sorted([x] + r)
  {
  }

  lemma {:induction false} SortSeqSorts(s: seq<u64>)
    ensures Sorted(SortSeq(s)) && multiset(SortSeq(s)) == multiset(s)
    decreases |s|
  {
    if s != [] {
      SortSeqSorts(s[1..]);
      InsertMembers(s[0], SortSeq(s[1..]));
      InsertKeepsSorted(s[0], SortSeq(s[1..]));
      assert s == [s[0]] + s[1..];
    }
  }

  lemma SortedHeadIsLeast(a: seq<u64>, x: u64)
    requires Sorted(a) && x in multiset(a)
    ensures a != [] && a[0] <= x
  {
    var i: nat :| i < |a| && a[i] == x;
    assert Compare(a[0], a[i]) <= 0;
  }

  lemma TailMultiset(a: seq<u64>)
    requires a != []
    ensures multiset(a[1..]) == multiset(a) - multiset{a[0]} && a[0] in multiset(a)
  {
    assert a == [a[0]] + a[1..];
  }

  lemma TailSorted(a: seq<u64>)
    requires a != [] && Sorted(a)
    ensures Sorted(a[1..])
  {
  }

  lemma FirstIsMember(b: seq<u64>)
    ensures b != [] ==> b[0] in multiset(b)
  {
  }

  lemma SameHead(a: seq<u64>, b: seq<u64>)
    requires Sorted(a) && Sorted(b) && multiset(a) == multiset(b) && a != []
    ensures b != [] && a[0] == b[0] && multiset(a[1..]) == multiset(b[1..])
  {
    hide *;
    TailMultiset(a);
    SortedHeadIsLeast(b, a[0]);
    TailMultiset(b);
    SortedHeadIsLeast(a, b[0]);
  }

  /** Two sorted permutations of the same values are equal, whatever algorithm found them. */
  lemma {:induction false} SortedUnique(a: seq<u64>, b: seq<u64>)
    requires Sorted(a) && Sorted(b) && multiset(a) == multiset(b)
    ensures a == b
    decreases |a|
  {
    hide *;
    if a == [] {
      FirstIsMember(b);
      assert multiset(b) == multiset(a) == multiset{};
    } else {
      SameHead(a, b);
      TailSorted(a);
      TailSorted(b);
      SortedUnique(a[1..], b[1..]);
      assert a == [a[0]] + a[1..] && b == [b[0]] + b[1..];
    }
  }

  /** Elements not above x / 2, and not below it. */
  function CountAtMost(s: seq<int>, x: int): (r: nat) { if s == [] then 0 else (if 2 * s[0] <= x then 1 else 0) + CountAtMost(s[1..], x) }
  function CountAtLeast(s: seq<int>, x: int): (r: nat) { if s == [] then 0 else (if 2 * s[0] >= x then 1 else 0) + CountAtLeast(s[1..], x) }

  lemma {:induction false} InsertTotals(x: u64, s: seq<u64>, m: int)
    ensures Sum(Insert(x, s)) == x + Sum(s) && SumSquares(Insert(x, s)) == x * x + SumSquares(s)
    ensures CountAtMost(Insert(x, s), m) == (if 2 * x <= m then 1 else 0) + CountAtMost(s, m)
    ensures CountAtLeast(Insert(x, s), m) == (if 2 * x >= m then 1 else 0) + CountAtLeast(s, m)
    decreases |s|
  {
    if s == [] || Compare(x, s[0]) <= 0 {
      assert ([x] + s)[1..] == s;
    } else {
      InsertTotals(x, s[1..], m);
      assert ([s[0]] + Insert(x, s[1..]))[1..] == Insert(x, s[1..]);
    }
  }

  /** Sorting changes no sum and no count. */
  lemma {:induction false} SortTotals(s: seq<u64>, m: int)
    ensures Sum(SortSeq(s)) == Sum(s) && SumSquares(SortSeq(s)) == SumSquares(s)
    ensures CountAtMost(SortSeq(s), m) == CountAtMost(s, m) && CountAtLeast(SortSeq(s), m) == CountAtLeast(s, m)
    decreases |s|
  {
    if s != [] {
      SortTotals(s[1..], m);
      InsertTotals(s[0], SortSeq(s[1..]), m);
    }
  }

  // ----- The statistics of a sample -----

  function Twice(s: seq<u64>): (r: int)
    requires s != []
  {
    MiddleSum(SortSeq(s))
  }

  function Median(s: seq<u64>): (r: real) requires s != [] { Twice(s) as real / 2.0 }
  function Mean(s: seq<u64>): (r: real) requires s != [] { Ratio(Sum(s) as real, |s|) }
  function Ratio(x: real, n: nat): (r: real) requires n > 0 { x / n as real }
  function Least(s: seq<u64>): (r: u64) requires s != [] { SortSeq(s)[0] }
  function Greatest(s: seq<u64>): (r: u64) requires s != [] { SortSeq(s)[|s| - 1] }

  /** The expression under the square root of the deviation. */
  function Radicand(s: seq<u64>): (r: real)
    requires s != []
  {
    Ratio(SumSquares(s) as real, |s|) - Mean(s) * Mean(s)
  }

  lemma {:induction false} CountPrefix(s: seq<int>, k: nat, x: int)
    requires k <= |s| && forall i: nat :: i < k ==> 2 * s[i] <= x
    ensures CountAtMost(s, x) >= k
    decreases k
  {
    if k > 0 {
      CountPrefix(s[1..], k - 1, x);
    }
  }

  lemma {:induction false} CountSuffix(s: seq<int>, k: nat, x: int)
    requires k <= |s| && forall i: nat :: |s| - k <= i < |s| ==> 2 * s[i] >= x
    ensures CountAtLeast(s, x) >= k
    decreases |s|
  {
    if s != [] {
      CountSuffix(s[1..], if k == |s| then k - 1 else k, x);
    }
  }

  lemma SortedIsAscending(s: seq<u64>)
    ensures Ascending(SortSeq(s))
  {
    SortSeqSorts(s);
    var r := SortSeq(s);
    forall i: nat, j: nat | i <= j < |r| ensures r[i] <= r[j] {
      assert Compare(r[i], r[j]) <= 0;
    }
  }

  /** The median halves the sample: at least half of the samples are on each side of it. */
  lemma {:induction false} MedianHalves(s: seq<u64>)
    requires s != []
    ensures 2 * CountAtMost(s, Twice(s)) >= |s| && 2 * CountAtLeast(s, Twice(s)) >= |s|
  {
    var r, n := SortSeq(s), |s|;
    SortedIsAscending(s);
    SortTotals(s, Twice(s));
    CountPrefix(r, (n - 1) / 2 + 1, Twice(s));
    CountSuffix(r, n - n / 2, Twice(s));
  }

  // ----- From the integer inequalities to the reported reals -----

  lemma PositiveProduct(x: real, y: real)
    requires x > 0.0 && y > 0.0
    ensures x * y > 0.0
  {
  }

  lemma CancelReal(w: real, x: real, y: real)
    requires w > 0.0 && x * w <= y * w
    ensures x <= y
  {
    if x > y {
      PositiveProduct(x - y, w);
      assert false;
    }
  }

  lemma DivTimes(a: real, n: real)
    requires n != 0.0
    ensures (a / n) * n == a
  {
  }

  lemma ProductReal(x: int, y: int)
    ensures (x * y) as real == x as real * y as real
  {
  }

  lemma RadicandAlgebra(n: real, q: real, m: real)
    ensures (q - m * m) * (n * n) == n * (q * n) - (m * n) * (m * n)
  {
  }

  lemma RadicandScaled(n: int, q: int, t: int)
    requires n > 0
    ensures (Ratio(q as real, n) - Ratio(t as real, n) * Ratio(t as real, n)) * (n as real * n as real) == (n * q - t * t) as real
    ensures Ratio(t as real, n) * n as real == t as real
  {
    DivTimes(q as real, n as real);
    DivTimes(t as real, n as real);
    RadicandAlgebra(n as real, q as real / n as real, t as real / n as real);
    ProductReal(n, q);
    ProductReal(t, t);
  }

  /** Median and mean at the scale of the integer inequalities. */
  lemma DistanceScaled(n: int, m2: int, t: int, mean: real)
    requires n > 0 && mean * n as real == t as real
    ensures 4.0 * ((m2 as real / 2.0 - mean) * (m2 as real / 2.0 - mean)) * (n as real * n as real) ==
            ((n * m2 - 2 * t) * (n * m2 - 2 * t)) as real
  {
    var d := n * m2 - 2 * t;
    var x := m2 as real / 2.0 - mean;
    ProductReal(n, m2);
    ProductReal(d, d);
    assert d as real == n as real * m2 as real - 2.0 * t as real;
    HalfDistance(n as real, m2 as real, mean);
    assert d as real == 2.0 * (x * n as real);
    SquareTwice(x, n as real);
  }

  lemma HalfDistance(n: real, m2: real, mean: real)
    ensures n * m2 - 2.0 * (mean * n) == 2.0 * ((m2 / 2.0 - mean) * n)
  {
  }

  lemma SquareTwice(x: real, n: real)
    ensures (2.0 * (x * n)) * (2.0 * (x * n)) == 4.0 * (x * x) * (n * n)
  {
  }

  lemma ExtremesScaled(n: int, lo: int, hi: int, t: int, mean: real)
    requires n > 0 && mean * n as real == t as real
    ensures (hi as real - mean) * (mean - lo as real) * (n as real * n as real) == ((n * hi - t) * (t - n * lo)) as real
  {
    ProductReal(n, hi);
    ProductReal(n, lo);
    ProductReal(n * hi - t, t - n * lo);
    ExtremesAlgebra(n as real, lo as real, hi as real, mean);
  }

  lemma ExtremesAlgebra(n: real, lo: real, hi: real, mean: real)
    ensures (hi - mean) * (mean - lo) * (n * n) == (n * hi - mean * n) * (mean * n - n * lo)
  {
  }

  lemma ReportedAre(s: seq<u64>)
    requires s != []
    ensures var r, n := SortSeq(s), |s|;
            && |r| == n && r != [] && n > 0
            && Mean(s) == Ratio(Sum(s) as real, n) && Median(s) == MiddleSum(r) as real / 2.0
            && Least(s) == r[0] && Greatest(s) == r[n - 1]
            && Radicand(s) == Ratio(SumSquares(s) as real, n) - Mean(s) * Mean(s)
            && Spread(r) == n * SumSquares(r) - Sum(r) * Sum(r)
  {
    hide SortSeq, Sum, SumSquares, MiddleSum;
  }

  /** The reported quantities in terms of the sorted sample. */
  lemma {:induction false} InTermsOfSorted(s: seq<u64>)
    requires s != []
    ensures var r, n := SortSeq(s), |s|;
            && |r| == n && Ascending(r) && r != []
            && Mean(s) * n as real == Sum(r) as real
            && Median(s) == MiddleSum(r) as real / 2.0 && Least(s) == r[0] && Greatest(s) == r[n - 1]
            && Radicand(s) * (n as real * n as real) == Spread(r) as real
            && n as real * n as real > 0.0
  {
    hide *;
    ReportedAre(s);
    SortedIsAscending(s);
    SortTotals(s, 0);
    RadicandScaled(|s|, SumSquares(s), Sum(s));
    PositiveProduct(|s| as real, |s| as real);
  }

  lemma AscendingBounds(r: seq<int>)
    requires r != [] && Ascending(r)
    ensures forall i: nat :: i < |r| ==> r[0] <= r[i] <= r[|r| - 1]
  {
  }

  lemma QuadrupleScaled(x: real, r: real, w: real, d2: int, v: int)
    requires 4.0 * (x * x) * w == d2 as real && r * w == v as real && d2 <= 4 * v && w > 0.0
    ensures x * x <= r
  {
    assert 4.0 * (x * x) * w <= 4.0 * (r * w);
    assert 4.0 * (x * x) * w == (x * x) * (4.0 * w);
    assert 4.0 * (r * w) == r * (4.0 * w);
    CancelReal(4.0 * w, x * x, r);
  }

  lemma RealSquare(x: real)
    ensures x * x >= 0.0
  {
  }

  /** Products of differences, kept apart from the arithmetic of what is multiplied. */
  function Product(x: real, y: real): (p: real) { x * y }

  lemma ProductIs(x: real, y: real)
    ensures Product(x, y) == x * y
  {
  }

  /** Median and mean are within one deviation of each other; in particular the radicand of the deviation
      is never negative. */
  lemma MedianWithinDeviation(s: seq<u64>)
    requires s != []
    ensures 0.0 <= Product(Median(s) - Mean(s), Median(s) - Mean(s)) <= Radicand(s)
  {
    hide *;
    var r, n := SortSeq(s), |s|;
    InTermsOfSorted(s);
    MedianNearMean(r);
    DistanceScaled(n, MiddleSum(r), Sum(r), Mean(s));
    var x := Median(s) - Mean(s);
    var d := n * MiddleSum(r) - 2 * Sum(r);
    RealSquare(x);
    ProductIs(x, x);
    QuadrupleScaled(x, Radicand(s), n as real * n as real, d * d, Spread(r));
  }

  /** The radicand is at most (greatest - mean)(mean - least). */
  lemma DeviationWithinExtremes(s: seq<u64>)
    requires s != []
    ensures Radicand(s) <= Product(Greatest(s) as real - Mean(s), Mean(s) - Least(s) as real)
  {
    hide *;
    var r, n := SortSeq(s), |s|;
    InTermsOfSorted(s);
    AscendingBounds(r);
    SpreadBound(r, r[0], r[n - 1]);
    ExtremesScaled(n, r[0], r[n - 1], Sum(r), Mean(s));
    ProductIs(Greatest(s) as real - Mean(s), Mean(s) - Least(s) as real);
    CancelReal(n as real * n as real, Radicand(s), (Greatest(s) as real - Mean(s)) * (Mean(s) - Least(s) as real));
  }

  lemma SortedMembers(s: seq<u64>)
    requires s != []
    ensures Least(s) in s && Greatest(s) in s
    ensures forall x :: x in s ==> Least(s) <= x <= Greatest(s)
  {
    var r, n := SortSeq(s), |s|;
    SortSeqSorts(s);
    SortedIsAscending(s);
    hide SortSeq, Sorted;
    assert r[0] in multiset(s) && r[n - 1] in multiset(s);
    forall x | x in s ensures r[0] <= x <= r[n - 1] {
      assert x in multiset(r);
      var i: nat :| i < n && r[i] == x;
    }
  }

  /** Least and greatest are members and bounds of the sample, and median and mean lie between them. */
  lemma BetweenExtremes(s: seq<u64>)
    requires s != []
    ensures Least(s) in s && Greatest(s) in s
    ensures forall x :: x in s ==> Least(s) <= x <= Greatest(s)
    ensures Least(s) as real <= Median(s) <= Greatest(s) as real && Least(s) as real <= Mean(s) <= Greatest(s) as real
  {
    hide *;
    var r, n := SortSeq(s), |s|;
    SortedMembers(s);
    InTermsOfSorted(s);
    AscendingBounds(r);
    MiddleParts(r);
    var lo: int, hi: int := r[0], r[n - 1];
    assert 2 * lo <= MiddleSum(r) <= 2 * hi;
    BetweenNonNegative(r, r[0], r[n - 1]);
    MeanBetween(n, r[0], r[n - 1], Sum(r), Mean(s));
  }

  lemma MeanBetween(n: int, lo: int, hi: int, t: int, m: real)
    requires n > 0 && n * lo <= t <= n * hi && m * n as real == t as real
    ensures lo as real <= m <= hi as real
  {
    ProductReal(n, lo);
    ProductReal(n, hi);
    CancelReal(n as real, lo as real, m);
    CancelReal(n as real, m, hi as real);
  }

  // ----- bench_stats -----

  datatype Report = Report(median: real, average: real, min: real, max: real, radicand: real)

  /** Median and average lie between the extremes and within one deviation of each other, and the squared
      deviation is at most (max - average)(average - min). */
  predicate Coherent(r: Report)
  {
    && 0.0 <= Product(r.median - r.average, r.median - r.average) <= r.radicand
    && r.radicand <= Product(r.max - r.average, r.average - r.min)
    && r.min <= r.median <= r.max && r.min <= r.average <= r.max
  }

  /** `qsort` on the first n elements. */
  method Qsort(t: array<u64>, n: nat)
    requires n <= t.Length
    modifies t
    ensures t[..n] == SortSeq(old(t[..n])) && t[n..] == old(t[n..])
  {
    var sorted := SortSeq(t[..n]);
    for i := 0 to n
      invariant t[..i] == sorted[..i] && t[n..] == old(t[n..])
    {
      t[i] := sorted[i];
    }
  }

  lemma {:induction false} SumSnoc(s: seq<int>, x: int)
    ensures Sum(s + [x]) == Sum(s) + x && SumSquares(s + [x]) == SumSquares(s) + x * x
    decreases |s|
  {
    if s == [] {
      assert s + [x] == [x] && [x][1..] == [];
    } else {
      SumSnoc(s[1..], x);
      assert (s + [x])[1..] == s[1..] + [x];
    }
  }

  /** The accumulation loop. */
  method Accumulate(t: array<u64>, n: nat) returns (sum: real, sum2: real)
    requires n <= t.Length
    ensures sum == Sum(t[..n]) as real && sum2 == SumSquares(t[..n]) as real
  {
    hide Sum, SumSquares;
    sum, sum2 := 0.0, 0.0;
    SumNone();
    for i := 0 to n
      invariant sum == Sum(t[..i]) as real && sum2 == SumSquares(t[..i]) as real
    {
      assert t[..i + 1] == t[..i] + [t[i]];
      SumSnoc(t[..i], t[i]);
      ProductReal(t[i], t[i]);
      sum := sum + t[i] as real;
      sum2 := sum2 + 1.0 * t[i] as real * t[i] as real;
    }
  }

  lemma SumNone()
    ensures Sum([]) == 0 && SumSquares([]) == 0
  {
  }

  /** Addition of two samples in 64 bits. */
  function AddWrap(a: u64, b: u64): (r: u64) { (a + b) % TWO64 }

  /** The two middle samples can be added in 64 bits. */
  predicate MiddleFits(s: seq<u64>) requires s != [] { Twice(s) < TWO64 }

  /** The report on a sample.  The median is short by 2^63 if the sum of the two middle samples wraps. */
  ghost predicate Reports(r: Report, s: seq<u64>, off: real)
    requires s != []
  {
    && r.median == Median(s) - (if MiddleFits(s) then 0.0 else 0x8000_0000_0000_0000 as real) - off
    && r.average == Mean(s) - off && r.min == Least(s) as real - off && r.max == Greatest(s) as real - off
    && r.radicand == Radicand(s)
  }

  /** The formulas of `bench_stats` over the sorted buffer. */
  method Summarise(t: array<u64>, n: nat, timeOffset: u64, ghost s: seq<u64>) returns (r: Report)
    requires 0 < n <= t.Length && |s| == n && t[..n] == SortSeq(s)
    ensures Reports(r, s, timeOffset as real) && r.median < 0x8000_0000_0000_0000 as real
  {
    hide Median, Mean, Least, Greatest, Radicand, MiddleFits, SortSeq, Sum, SumSquares, Ratio, AddWrap;
    FromBuffer(t[..n], s);
    var sum, sum2 := Accumulate(t, n);
    var min, max := t[0] as real, t[n - 1] as real;
    var ave := Ratio(1.0 * sum, n);
    var radicand := Ratio(sum2, n) - ave * ave;
    var median := AddWrap(t[n / 2], t[(n - 1) / 2]) as real / 2.0;
    min := min - timeOffset as real;
    max := max - timeOffset as real;
    ave := ave - timeOffset as real;
    median := median - timeOffset as real;
    r := Report(median, ave, min, max, radicand);
  }

  /** Each formula, over the sorted samples, gives the statistic of the sample. */
  lemma FromBuffer(r: seq<u64>, s: seq<u64>)
    requires s != [] && r == SortSeq(s)
    ensures var n := |s|;
            && |r| == n && r[0] == Least(s) && r[n - 1] == Greatest(s)
            && Ratio(1.0 * Sum(r) as real, n) == Mean(s)
            && Ratio(SumSquares(r) as real, n) - Mean(s) * Mean(s) == Radicand(s)
            && AddWrap(r[n / 2], r[(n - 1) / 2]) as real / 2.0 ==
               Median(s) - (if MiddleFits(s) then 0.0 else 0x8000_0000_0000_0000 as real)
  {
    hide *;
    ReportedAre(s);
    SortTotals(s, 0);
    WrappedMiddle(s);
  }

  /** The middle sum in 64 bits, halved. */
  lemma WrappedMiddle(s: seq<u64>)
    requires s != []
    ensures var r, n := SortSeq(s), |s|;
            && |r| == n
            && AddWrap(r[n / 2], r[(n - 1) / 2]) as real / 2.0 ==
               Median(s) - (if MiddleFits(s) then 0.0 else 0x8000_0000_0000_0000 as real)
  {
    hide SortSeq;
    var x, high: int, low: int := Twice(s), SortSeq(s)[|s| / 2], SortSeq(s)[(|s| - 1) / 2];
    assert x == high + low && 0 <= x < 2 * TWO64;
    if x >= TWO64 {
      assert x % TWO64 == x - TWO64;
    }
  }

  /** The cast of a double to `uint64_t`: truncation toward zero.  The source says nothing about a value
      whose truncation does not fit, so any result may come out then. */
  method CastToU64(x: real) returns (c: u64)
    requires x < TWO64 as real
    ensures x >= 0.0 ==> c as real <= x < c as real + 1.0
    ensures -1.0 < x < 0.0 ==> c == 0
  {
    if x >= 0.0 {
      c := x.Floor;
    } else if x > -1.0 {
      c := 0;
    } else {
      c := *;
    }
  }

  /** `bench_stats` on the samples [warmup, warmup + test).  The offset moves median, average, minimum and
      maximum alike and leaves the deviation alone.  The median is that of the sample, and the report
      coherent, if the two middle samples can be added in 64 bits; otherwise the median alone is wrong, by
      2^63.  The return value is the reported median rounded half up; with an offset above the median it is
      0 as long as the cast is defined. */
  method BenchStats(timeOffset: u64, warmup: nat, test: nat, allCycles: array<u64>, t: array<u64>)
    returns (r: Report, result: u64)
    requires 0 < test <= t.Length && warmup + test <= allCycles.Length && t != allCycles
    modifies t
    ensures Reports(r, allCycles[warmup..warmup + test], timeOffset as real)
    ensures MiddleFits(allCycles[warmup..warmup + test]) ==> Coherent(r)
    ensures r.median >= -0.5 ==> result as real - 0.5 <= r.median < result as real + 0.5
    ensures -1.5 < r.median < -0.5 ==> result == 0
  {
    hide Reports, MiddleFits, Coherent, SortSeq;
    ghost var s := allCycles[warmup..warmup + test];
    for i := 0 to test
      invariant t[..i] == s[..i]
    {
      t[i] := allCycles[i + warmup];
    }
    assert t[..test] == s;
    Qsort(t, test);
    r := Summarise(t, test, timeOffset, s);
    result := CastToU64(r.median + 0.5);
    if MiddleFits(s) {
      ReportBounds(s, timeOffset as real, r);
    }
  }

  lemma ReportBounds(s: seq<u64>, off: real, r: Report)
    requires s != [] && Reports(r, s, off) && MiddleFits(s)
    ensures Coherent(r)
  {
    ReportIs(s, off, r);
    hide *;
    MedianWithinDeviation(s);
    DeviationWithinExtremes(s);
    BetweenExtremes(s);
    ShiftCoherent(Median(s), Mean(s), Least(s) as real, Greatest(s) as real, Radicand(s), off);
  }

  lemma ReportIs(s: seq<u64>, off: real, r: Report)
    requires s != [] && Reports(r, s, off) && MiddleFits(s)
    ensures r == Report(Median(s) - off, Mean(s) - off, Least(s) as real - off, Greatest(s) as real - off, Radicand(s))
  {
    hide Median, Mean, Least, Greatest, Radicand, MiddleFits;
  }

  /** An offset common to all four leaves a report coherent. */
  lemma ShiftCoherent(median: real, ave: real, min: real, max: real, radicand: real, off: real)
    requires 0.0 <= Product(median - ave, median - ave) <= radicand <= Product(max - ave, ave - min)
    requires min <= median <= max && min <= ave <= max
    ensures Coherent(Report(median - off, ave - off, min - off, max - off, radicand))
  {
    hide Product;
    assert (median - off) - (ave - off) == median - ave;
    assert (max - off) - (ave - off) == max - ave && (ave - off) - (min - off) == ave - min;
  }

  /** With samples below 2^63 the middle sum fits. */
  lemma {:induction false} SmallSamplesFit(s: seq<u64>)
    requires s != [] && forall i: nat :: i < |s| ==> s[i] < 0x8000_0000_0000_0000
    ensures MiddleFits(s)
  {
    SortSeqSorts(s);
    hide SortSeq, Sorted;
    var r := SortSeq(s);
    forall i: nat | i < |r| ensures r[i] < 0x8000_0000_0000_0000 {
      assert r[i] in multiset(r) && r[i] in multiset(s);
      var j: nat :| j < |s| && s[j] == r[i];
    }
  }
}
