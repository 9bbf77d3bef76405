/** The statistics of `bench_stats` in exact arithmetic: sums over a sample and the inequalities between
    median, mean, extremes and deviation. */
module Statistics {
  import opened Words

  function Sum(s: seq<int>): (r: int) { if s == [] then 0 else s[0] + Sum(s[1..]) }
  function SumSquares(s: seq<int>): (r: nat) { if s == [] then 0 else s[0] * s[0] + SumSquares(s[1..]) }
  function Abs(x: int): (r: nat) { if x < 0 then -x else x }
  function SumAbs(s: seq<int>): (r: nat) { if s == [] then 0 else Abs(s[0]) + SumAbs(s[1..]) }

  /** The sample under x -> a*x - c. */
  function Affine(s: seq<int>, a: int, c: int): (r: seq<int>)
    ensures |r| == |s|
  {
    if s == [] then [] else [a * s[0] - c] + Affine(s[1..], a, c)
  }

  lemma {:induction false} AffineAt(s: seq<int>, a: int, c: int, i: nat)
    requires i < |s|
    ensures Affine(s, a, c)[i] == a * s[i] - c
    decreases i
  {
    if i > 0 {
      AffineAt(s[1..], a, c, i - 1);
    }
  }

  /** Transforming a sample commutes with appending an element. */
  lemma {:induction false} AffineSnoc(s: seq<int>, x: int, a: int, c: int)
    ensures Affine(s + [x], a, c) == Affine(s, a, c) + [a * x - c]
    decreases |s|
  {
    if s == [] {
      assert s + [x] == [x] && [x][1..] == [];
    } else {
      AffineSnoc(s[1..], x, a, c);
      assert (s + [x])[1..] == s[1..] + [x];
    }
  }

  /** |s|^2 times the variance: n * (sum of squares) - (sum)^2. */
  function Spread(s: seq<int>): (r: int) { |s| * SumSquares(s) - Sum(s) * Sum(s) }

  // ----- Sums of transformed samples -----

  lemma {:induction false} AffineSum(s: seq<int>, a: int, c: int)
    ensures Sum(Affine(s, a, c)) == a * Sum(s) - |s| * c
    decreases |s|
  {
    if s != [] {
      AffineSum(s[1..], a, c);
      assert a * (s[0] + Sum(s[1..])) == a * s[0] + a * Sum(s[1..]);
      assert |s| * c == |s[1..]| * c + c;
    }
  }

  lemma SquareStep(x: int, s: int, q: int, n: int, a: int, c: int)
    ensures (a * x - c) * (a * x - c) + (a * a * q - 2 * a * c * s + n * (c * c)) ==
            a * a * (x * x + q) - 2 * a * c * (x + s) + (n + 1) * (c * c)
  {
  }

  lemma {:induction false} AffineSquares(s: seq<int>, a: int, c: int)
    ensures SumSquares(Affine(s, a, c)) == a * a * SumSquares(s) - 2 * a * c * Sum(s) + |s| * (c * c)
    decreases |s|
  {
    if s != [] {
      AffineSquares(s[1..], a, c);
      SquareStep(s[0], Sum(s[1..]), SumSquares(s[1..]), |s[1..]|, a, c);
      assert Affine(s, a, c)[1..] == Affine(s[1..], a, c);
      hide Affine;
    }
  }

  /** The sum of |s|^2 times the squared deviations is |s| times the spread. */
  lemma SpreadAsSquares(s: seq<int>)
    ensures SumSquares(Affine(s, |s|, Sum(s))) == |s| * Spread(s)
  {
    var n, q, t := |s|, SumSquares(s), Sum(s);
    AffineSquares(s, n, t);
    hide *;
    SpreadAlgebra(n, q, t);
    SpreadIs(s);
  }

  lemma SpreadIs(s: seq<int>)
    ensures Spread(s) == |s| * SumSquares(s) - Sum(s) * Sum(s)
  {
  }

  lemma SpreadAlgebra(n: int, q: int, t: int)
    ensures n * n * q - 2 * n * t * t + n * (t * t) == n * (n * q - t * t)
  {
  }

  lemma PositiveFactor(n: int, x: int)
    requires n > 0 && n * x >= 0
    ensures x >= 0
  {
  }

  /** The radicand of the deviation is never negative. */
  lemma SpreadNonNegative(s: seq<int>)
    ensures Spread(s) >= 0
  {
    if s != [] {
      SpreadAsSquares(s);
      PositiveFactor(|s|, Spread(s));
    }
  }

  /** Cauchy-Schwarz for a sample against the constant 1. */
  lemma {:induction false} SquareOfSum(s: seq<int>)
    ensures Sum(s) * Sum(s) <= |s| * SumSquares(s)
  {
    SpreadNonNegative(s);
  }

  function AbsAll(s: seq<int>): (r: seq<int>)
    ensures |r| == |s|
  {
    if s == [] then [] else [Abs(s[0])] + AbsAll(s[1..])
  }

  lemma {:induction false} AbsAllSums(s: seq<int>)
    ensures Sum(AbsAll(s)) == SumAbs(s) && SumSquares(AbsAll(s)) == SumSquares(s)
    decreases |s|
  {
    if s != [] {
      AbsAllSums(s[1..]);
      assert AbsAll(s)[1..] == AbsAll(s[1..]);
    }
  }

  lemma {:induction false} SquareOfSumAbs(s: seq<int>)
    ensures SumAbs(s) * SumAbs(s) <= |s| * SumSquares(s)
  {
    AbsAllSums(s);
    SquareOfSum(AbsAll(s));
  }

  lemma {:induction false} TriangleInequality(s: seq<int>)
    ensures Abs(Sum(s)) <= SumAbs(s)
    decreases |s|
  {
    if s != [] {
      TriangleInequality(s[1..]);
    }
  }

  // ----- Bounds by the extremes -----

  /** Sum of (hi - x)(x - lo). */
  function SumBetween(s: seq<int>, lo: int, hi: int): (r: int)
  {
    if s == [] then 0 else (hi - s[0]) * (s[0] - lo) + SumBetween(s[1..], lo, hi)
  }

  lemma BetweenStep(x: int, s: int, q: int, n: int, lo: int, hi: int)
    ensures (hi - x) * (x - lo) + ((hi + lo) * s - q - n * (hi * lo)) == (hi + lo) * (x + s) - (x * x + q) - (n + 1) * (hi * lo)
  {
  }

  lemma {:induction false} BetweenExpanded(s: seq<int>, lo: int, hi: int)
    ensures SumBetween(s, lo, hi) == (hi + lo) * Sum(s) - SumSquares(s) - |s| * (hi * lo)
    decreases |s|
  {
    if s != [] {
      BetweenExpanded(s[1..], lo, hi);
      BetweenStep(s[0], Sum(s[1..]), SumSquares(s[1..]), |s[1..]|, lo, hi);
    }
  }

  lemma {:induction false} BetweenNonNegative(s: seq<int>, lo: int, hi: int)
    requires forall i: nat :: i < |s| ==> lo <= s[i] <= hi
    ensures SumBetween(s, lo, hi) >= 0
    ensures |s| * lo <= Sum(s) <= |s| * hi
    decreases |s|
  {
    if s != [] {
      BetweenNonNegative(s[1..], lo, hi);
      ProductNonNegative(hi - s[0], s[0] - lo);
      OneMoreTime(|s[1..]|, lo);
      OneMoreTime(|s[1..]|, hi);
      assert |s| == |s[1..]| + 1;
    }
  }

  lemma ProductNonNegative(x: int, y: int)
    requires x >= 0 && y >= 0
    ensures x * y >= 0
  {
  }

  lemma BoundAlgebra(n: int, t: int, q: int, lo: int, hi: int)
    ensures (n * hi - t) * (t - n * lo) - (n * q - t * t) == n * ((hi + lo) * t - q - n * (hi * lo))
  {
  }

  /** The variance is at most (max - mean)(mean - min), here multiplied through by n^2. */
  lemma {:induction false} SpreadBound(s: seq<int>, lo: int, hi: int)
    requires forall i: nat :: i < |s| ==> lo <= s[i] <= hi
    ensures Spread(s) <= (|s| * hi - Sum(s)) * (Sum(s) - |s| * lo)
  {
    var n, t, q := |s|, Sum(s), SumSquares(s);
    BetweenNonNegative(s, lo, hi);
    BetweenExpanded(s, lo, hi);
    SpreadIs(s);
    hide *;
    BoundAlgebra(n, t, q, lo, hi);
    ProductNonNegative(n, SumBetween(s, lo, hi));
  }

  // ----- The median -----

  ghost predicate Ascending(s: seq<int>) { forall i: nat, j: nat :: i <= j < |s| ==> s[i] <= s[j] }

  /** Twice the median, as coded: the sum of the two middle samples. */
  function MiddleSum(s: seq<int>): (r: int)
    requires s != []
  {
    s[|s| / 2] + s[(|s| - 1) / 2]
  }

  lemma {:induction false} SumAbsSnoc(s: seq<int>, x: int)
    ensures SumAbs(s + [x]) == SumAbs(s) + Abs(x)
    decreases |s|
  {
    if s == [] {
      assert [] + [x] == [x] && [x][1..] == [];
    } else {
      SumAbsSnoc(s[1..], x);
      assert (s + [x])[1..] == s[1..] + [x];
    }
  }

  /** A middle value of an ascending sequence minimises the sum of absolute distances. */
  lemma {:induction false} MiddleMinimises(s: seq<int>, mid: int, c: int)
    requires Ascending(s)
    requires s != [] ==> s[(|s| - 1) / 2] <= mid <= s[|s| / 2]
    ensures SumAbs(Affine(s, 1, mid)) <= SumAbs(Affine(s, 1, c))
    decreases |s|
  {
    if |s| == 1 {
      assert Affine(s, 1, mid)[1..] == [] && Affine(s, 1, c)[1..] == [];
    } else if |s| > 1 {
      var n := |s|;
      var inner := s[1..n - 1];
      if inner != [] {
        assert inner[(|inner| - 1) / 2] == s[(n - 1) / 2] && inner[|inner| / 2] == s[n / 2];
      }
      MiddleMinimises(inner, mid, c);
      PeelEnds(s, mid);
      PeelEnds(s, c);
      assert s[0] <= s[(n - 1) / 2] && s[n / 2] <= s[n - 1];
    }
  }

  lemma PeelEnds(s: seq<int>, c: int)
    requires |s| > 1
    ensures SumAbs(Affine(s, 1, c)) ==
            Abs(s[0] - c) + SumAbs(Affine(s[1..|s| - 1], 1, c)) + Abs(s[|s| - 1] - c)
  {
    var n, inner := |s|, s[1..|s| - 1];
    assert s[1..] == inner + [s[n - 1]];
    AffineSnoc(inner, s[n - 1], 1, c);
    SumAbsSnoc(Affine(inner, 1, c), s[n - 1] - c);
    assert Affine(s, 1, c)[0] == s[0] - c && Affine(s, 1, c)[1..] == Affine(s[1..], 1, c);
    hide Affine, Abs;
  }

  lemma ScaleAscending(s: seq<int>, a: nat)
    requires Ascending(s)
    ensures Ascending(Affine(s, a, 0))
  {
    hide Affine;
    forall i: nat, j: nat | i <= j < |s| ensures Affine(s, a, 0)[i] <= Affine(s, a, 0)[j] {
      AffineAt(s, a, 0, i);
      AffineAt(s, a, 0, j);
      ScaleOrder(a, s[i], s[j]);
    }
  }

  lemma ScaleOrder(a: nat, x: int, y: int)
    requires x <= y
    ensures a * x <= a * y
  {
    ProductNonNegative(a, y - x);
  }

  lemma {:induction false} AffineTwice(s: seq<int>, a: int, c: int)
    ensures Affine(Affine(s, a, 0), 1, c) == Affine(s, a, c)
    decreases |s|
  {
    if s != [] {
      AffineTwice(s[1..], a, c);
      assert Affine(s, a, 0)[1..] == Affine(s[1..], a, 0);
    }
  }

  lemma SquaresMonotone(x: int, y: nat)
    requires Abs(x) <= y
    ensures x * x <= y * y
  {
    if x >= 0 {
      ProductNonNegative(y - x, y + x);
    } else {
      ProductNonNegative(y + x, y - x);
    }
  }

  lemma CancelSquare(n: int, x: int, y: int)
    requires n > 0 && (n * x) * (n * x) <= n * (n * y)
    ensures x * x <= y
  {
    SquareDifference(n, x, y);
    PositiveFactor(n, n * (y - x * x));
    PositiveFactor(n, y - x * x);
  }

  lemma SquareDifference(n: int, x: int, y: int)
    ensures n * (n * y) - (n * x) * (n * x) == n * (n * (y - x * x))
  {
  }

  /** The last step for the median: b bounds n*d in absolute value, and b^2 is bounded by the spread. */
  lemma DistanceFromSpread(n: int, d: int, b: nat, v: int)
    requires n > 0 && Abs(n * d) <= b && b * b <= n * (4 * (n * v))
    ensures d * d <= 4 * v
  {
    hide Abs;
    SquaresMonotone(n * d, b);
    FourOut(n, v);
    CancelSquare(n, d, 4 * v);
  }

  lemma FourOut(n: int, v: int)
    ensures n * (4 * (n * v)) == n * (n * (4 * v))
  {
  }

  lemma AbsNegated(x: int)
    ensures Abs(-x) == Abs(x)
  {
  }

  lemma MedianAlgebra(n: int, t: int, m2: int)
    ensures 2 * n * t - n * (n * m2) == -(n * (n * m2 - 2 * t))
  {
  }

  /** Median and mean are within one deviation: with m2 the sum of the two middle samples,
      (n*m2 - 2*sum)^2 <= 4 * n^2 * variance. */
  lemma {:induction false} MedianNearMean(s: seq<int>)
    requires s != [] && Ascending(s)
    ensures var d := |s| * MiddleSum(s) - 2 * Sum(s); d * d <= 4 * Spread(s)
  {
    hide *;
    var n, t, m2 := |s|, Sum(s), MiddleSum(s);
    var a, b := Affine(s, 2 * n, n * m2), Affine(s, 2 * n, 2 * t);
    // n*d is, up to sign, the sum over a; and a has the least absolute sum.
    MedianScaled(s);
    AffineSum(s, 2 * n, n * m2);
    TriangleInequality(a);
    MedianAlgebra(n, t, m2);
    AbsNegated(n * (n * m2 - 2 * t));
    SquareOfSumAbs(b);
    TwiceDeviations(s);
    DistanceFromSpread(n, n * m2 - 2 * t, SumAbs(b), Spread(s));
  }

  lemma TwiceDeviations(s: seq<int>)
    ensures SumSquares(Affine(s, 2 * |s|, 2 * Sum(s))) == 4 * (|s| * Spread(s))
  {
    var n, t, q := |s|, Sum(s), SumSquares(s);
    AffineSquares(s, 2 * n, 2 * t);
    SpreadIs(s);
    hide *;
    TwiceAlgebra(n, t, q);
  }

  lemma TwiceAlgebra(n: int, t: int, q: int)
    ensures 2 * n * (2 * n) * q - 2 * (2 * n) * (2 * t) * t + n * (2 * t * (2 * t)) == 4 * (n * (n * q - t * t))
  {
  }

  lemma BetweenScaled(n: int, lo: int, hi: int)
    requires n > 0 && lo <= hi
    ensures 2 * n * lo <= n * (hi + lo) <= 2 * n * hi
  {
    ProductNonNegative(n, hi - lo);
  }

  lemma {:induction false} ScaledMiddle(s: seq<int>)
    requires s != [] && Ascending(s)
    ensures var n, scaled := |s|, Affine(s, 2 * |s|, 0);
            |scaled| == n && Ascending(scaled) && scaled[(n - 1) / 2] <= n * MiddleSum(s) <= scaled[n / 2]
  {
    hide *;
    var n := |s|;
    var lo, hi := s[(n - 1) / 2], s[n / 2];
    MiddleParts(s);
    ScaleAscending(s, 2 * n);
    AffineAt(s, 2 * n, 0, (n - 1) / 2);
    AffineAt(s, 2 * n, 0, n / 2);
    BetweenScaled(n, lo, hi);
  }

  lemma MiddleParts(s: seq<int>)
    requires s != [] && Ascending(s)
    ensures MiddleSum(s) == s[|s| / 2] + s[(|s| - 1) / 2] && s[(|s| - 1) / 2] <= s[|s| / 2]
  {
  }

  /** The scaled median minimises the absolute sum of the scaled sample. */
  lemma {:induction false} MedianScaled(s: seq<int>)
    requires s != [] && Ascending(s)
    ensures SumAbs(Affine(s, 2 * |s|, |s| * MiddleSum(s))) <= SumAbs(Affine(s, 2 * |s|, 2 * Sum(s)))
  {
    hide *;
    var n := |s|;
    ScaledMiddle(s);
    MiddleMinimises(Affine(s, 2 * n, 0), n * MiddleSum(s), 2 * Sum(s));
    AffineTwice(s, 2 * n, n * MiddleSum(s));
    AffineTwice(s, 2 * n, 2 * Sum(s));
  }
}
