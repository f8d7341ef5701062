/**
 * The projection's linear regression: whole-millisecond times, values over the reals.
 * The method accumulates four sums; the lemmas say what its slope means.
 */
module LeastSquares {
  import opened Arithmetic

  datatype Point = Point(t: int, y: real)

  function SumT(ps: seq<Point>): int {
    if ps == [] then 0 else SumT(ps[..|ps| - 1]) + ps[|ps| - 1].t
  }

  function SumTT(ps: seq<Point>): int {
    if ps == [] then 0 else SumTT(ps[..|ps| - 1]) + ps[|ps| - 1].t * ps[|ps| - 1].t
  }

  function SumY(ps: seq<Point>): real {
    if ps == [] then 0.0 else SumY(ps[..|ps| - 1]) + ps[|ps| - 1].y
  }

  function SumTY(ps: seq<Point>): real {
    if ps == [] then 0.0 else SumTY(ps[..|ps| - 1]) + ps[|ps| - 1].t as real * ps[|ps| - 1].y
  }

  function Denominator(ps: seq<Point>): int {
    |ps| * SumTT(ps) - SumT(ps) * SumT(ps)
  }

  const GUARD := 0.000000000001

  /** The slope from the four accumulated sums. */
  function SlopeFrom(n: nat, sumT: int, sumTT: int, sumY: real, sumTY: real): real {
    var denom := n * sumTT - sumT * sumT;
    if Abs(denom as real) < GUARD then 0.0 else (n as real * sumTY - sumT as real * sumY) / denom as real
  }

  function Slope(ps: seq<Point>): real {
    if |ps| < 2 then 0.0 else SlopeFrom(|ps|, SumT(ps), SumTT(ps), SumY(ps), SumTY(ps))
  }

  lemma SumsSnoc(ps: seq<Point>, i: nat)
    requires i < |ps|
    ensures SumT(ps[..i + 1]) == SumT(ps[..i]) + ps[i].t && SumTT(ps[..i + 1]) == SumTT(ps[..i]) + ps[i].t * ps[i].t
    ensures SumY(ps[..i + 1]) == SumY(ps[..i]) + ps[i].y
    ensures SumTY(ps[..i + 1]) == SumTY(ps[..i]) + ps[i].t as real * ps[i].y
  {
    assert ps[..i + 1][..i] == ps[..i];
  }

  lemma SumsOfNothing(ps: seq<Point>)
    requires ps == []
    ensures SumT(ps) == 0 == SumTT(ps) && SumY(ps) == 0.0 == SumTY(ps)
  {
  }

  lemma SlopeIs(ps: seq<Point>)
    requires |ps| >= 2
    ensures Slope(ps) == SlopeFrom(|ps|, SumT(ps), SumTT(ps), SumY(ps), SumTY(ps))
  {
    hide SlopeFrom, SumT, SumTT, SumY, SumTY;
  }

  method LinearRegressionSlope(points: seq<Point>) returns (slope: real)
    ensures slope == Slope(points)
  {
    if |points| < 2 {
      return 0.0;
    }
    hide *;
    var n := |points|;
    var sumT, sumTT := 0, 0;
    var sumY, sumTY := 0.0, 0.0;
    SumsOfNothing(points[..0]);
    SlopeIs(points);
    for i := 0 to n
      invariant sumT == SumT(points[..i]) && sumTT == SumTT(points[..i])
      invariant sumY == SumY(points[..i]) && sumTY == SumTY(points[..i])
    {
      SumsSnoc(points, i);
      var t, y := points[i].t, points[i].y;
      sumT := sumT + t;
      sumY := sumY + y;
      sumTY := sumTY + t as real * y;
      sumTT := sumTT + t * t;
    }
    assert points[..n] == points;
    slope := SlopeFrom(n, sumT, sumTT, sumY, sumTY);
  }

  // ----- the denominator is a sum of pairwise squared differences -----

  /** The sum of (p.t - t)^2 over the points. */
  function SquaredDistances(ps: seq<Point>, t: int): int {
    if ps == [] then 0
    else SquaredDistances(ps[..|ps| - 1], t) + (ps[|ps| - 1].t - t) * (ps[|ps| - 1].t - t)
  }

  /** The sum of (p.t - q.t)^2 over all pairs of points, each pair once. */
  function PairwiseSquares(ps: seq<Point>): int {
    if ps == [] then 0
    else PairwiseSquares(ps[..|ps| - 1]) + SquaredDistances(ps[..|ps| - 1], ps[|ps| - 1].t)
  }

  lemma {:induction false} ExpandDistances(ps: seq<Point>, t: int)
    ensures SquaredDistances(ps, t) == SumTT(ps) - 2 * t * SumT(ps) + |ps| * t * t
    decreases |ps|
  {
    if ps != [] {
      var front, s := ps[..|ps| - 1], ps[|ps| - 1].t;
      ExpandDistances(front, t);
      DistanceStep(SquaredDistances(front, t), SumTT(front), SumT(front), |front|, s, t);
    }
  }

  lemma DistanceStep(v: int, stt: int, st: int, n: int, s: int, t: int)
    requires v == stt - 2 * t * st + n * t * t
    ensures v + (s - t) * (s - t) == (stt + s * s) - 2 * t * (st + s) + (n + 1) * t * t
  {
    assert (s - t) * (s - t) == s * s - 2 * t * s + t * t;
    assert 2 * t * (st + s) == 2 * t * st + 2 * t * s;
    assert (n + 1) * t * t == n * t * t + t * t;
  }

  lemma {:induction false} DenominatorIsPairwise(ps: seq<Point>)
    ensures Denominator(ps) == PairwiseSquares(ps)
    decreases |ps|
  {
    if ps != [] {
      var front, t := ps[..|ps| - 1], ps[|ps| - 1].t;
      DenominatorIsPairwise(front);
      ExpandDistances(front, t);
      AddOneTime(|front|, SumTT(front), SumT(front), t);
    }
  }

  lemma AddOneTime(n: int, stt: int, st: int, t: int)
    ensures (n + 1) * (stt + t * t) - (st + t) * (st + t) == (n * stt - st * st) + (stt - 2 * t * st + n * t * t)
  {
    assert (n + 1) * (stt + t * t) == n * stt + n * (t * t) + stt + t * t;
    assert n * t * t == n * (t * t);
    assert (st + t) * (st + t) == st * st + 2 * t * st + t * t;
  }

  ghost predicate SameTime(ps: seq<Point>) {
    forall i, j | 0 <= i < j < |ps| :: ps[i].t == ps[j].t
  }

  lemma {:induction false} DistancesVanishIff(ps: seq<Point>, t: int)
    ensures SquaredDistances(ps, t) >= 0
    ensures SquaredDistances(ps, t) == 0 <==> forall i | 0 <= i < |ps| :: ps[i].t == t
    decreases |ps|
  {
    if ps != [] {
      var n := |ps| - 1;
      DistancesVanishIff(ps[..n], t);
      var x := ps[n].t - t;
      assert x * x >= 0 && (x * x == 0 <==> x == 0);
      if forall i | 0 <= i < |ps| :: ps[i].t == t { assert forall i | 0 <= i < n :: ps[..n][i].t == t; }
      if SquaredDistances(ps, t) == 0 {
        forall i | 0 <= i < |ps| ensures ps[i].t == t { if i < n { assert ps[..n][i].t == t; } }
      }
    }
  }

  lemma {:induction false} PairwiseVanishIff(ps: seq<Point>)
    ensures PairwiseSquares(ps) >= 0
    ensures PairwiseSquares(ps) == 0 <==> SameTime(ps)
    decreases |ps|
  {
    if ps != [] {
      var n := |ps| - 1;
      PairwiseVanishIff(ps[..n]);
      DistancesVanishIff(ps[..n], ps[n].t);
      if SameTime(ps) {
        assert forall i | 0 <= i < n :: ps[..n][i].t == ps[n].t;
      }
      if PairwiseSquares(ps) == 0 {
        forall i, j | 0 <= i < j < |ps| ensures ps[i].t == ps[j].t {
          assert ps[..n][i].t == ps[n].t;
          if j < n { assert ps[..n][j].t == ps[n].t; }
        }
      }
    }
  }

  /** The tiny-denominator guard fires exactly when all times coincide; a denominator is never negative. */
  lemma GuardFiresIffSameTime(ps: seq<Point>)
    ensures Abs(Denominator(ps) as real) < GUARD <==> SameTime(ps)
    ensures Denominator(ps) >= 0 && (Denominator(ps) > 0 <==> !SameTime(ps))
  {
    DenominatorIsPairwise(ps);
    PairwiseVanishIff(ps);
  }

  // ----- the fitted line and its normal equations -----

  /** The intercept that goes with a slope: the line passes through the mean point. */
  function Intercept(ps: seq<Point>, slope: real): real {
    if ps == [] then 0.0 else (SumY(ps) - slope * SumT(ps) as real) / |ps| as real
  }

  function Numerator(ps: seq<Point>): real {
    |ps| as real * SumTY(ps) - SumT(ps) as real * SumY(ps)
  }

  lemma Divided(x: real, d: real)
    requires d != 0.0
    ensures d * (x / d) == x
  {
  }

  lemma {:induction false} SameTimeSums(ps: seq<Point>)
    requires ps != [] && SameTime(ps)
    ensures SumT(ps) == |ps| * ps[0].t && SumTY(ps) == ps[0].t as real * SumY(ps)
    decreases |ps|
  {
    var front := ps[..|ps| - 1];
    if front != [] {
      SameTimeSums(front);
      assert ps[|ps| - 1].t == ps[0].t == front[0].t;
      assert (|front| + 1) * ps[0].t == |front| * ps[0].t + ps[0].t;
      var t := ps[0].t as real;
      assert t * (SumY(front) + ps[|ps| - 1].y) == t * SumY(front) + t * ps[|ps| - 1].y;
    }
  }

  lemma ProportionalSums(n: real, t: real, st: real, sy: real, sty: real)
    requires sty == t * sy && st == n * t
    ensures n * sty - st * sy == 0.0
  {
    assert n * (t * sy) == (n * t) * sy;
  }

  lemma GuardedNumerator(ps: seq<Point>)
    requires ps != [] && SameTime(ps)
    ensures Numerator(ps) == 0.0
  {
    SameTimeSums(ps);
    var t := ps[0].t;
    assert SumT(ps) as real == |ps| as real * t as real by { assert (|ps| * t) as real == |ps| as real * t as real; }
    ProportionalSums(|ps| as real, t as real, SumT(ps) as real, SumY(ps), SumTY(ps));
  }

  lemma UnguardedSlope(ps: seq<Point>)
    requires !SameTime(ps)
    ensures Denominator(ps) > 0 && Slope(ps) == Numerator(ps) / Denominator(ps) as real
  {
    GuardFiresIffSameTime(ps);
  }

  /** The slope solves D * a = n * sum t y - sum t * sum y, in the guarded case too. */
  lemma SlopeSolves(ps: seq<Point>)
    requires ps != []
    ensures Denominator(ps) as real * Slope(ps) == Numerator(ps)
  {
    GuardFiresIffSameTime(ps);
    if SameTime(ps) {
      GuardedNumerator(ps);
    } else {
      UnguardedSlope(ps);
      Divided(Numerator(ps), Denominator(ps) as real);
    }
  }

  // ----- sums of a column -----

  ghost function Sum(ps: seq<Point>, column: Point -> real): real {
    if ps == [] then 0.0 else Sum(ps[..|ps| - 1], column) + column(ps[|ps| - 1])
  }

  ghost predicate Combines(f: Point -> real, g: Point -> real, u: Point -> real, v: Point -> real, w: Point -> real, c: real, d: real) {
    forall p :: f(p) == g(p) + c * u(p) + d * v(p) + w(p)
  }

  /** A column that is pointwise a combination of others sums to the same combination. */
  lemma {:induction false} SumCombination(ps: seq<Point>, f: Point -> real, g: Point -> real, u: Point -> real, v: Point -> real,
                                          w: Point -> real, c: real, d: real)
    requires Combines(f, g, u, v, w, c, d)
    ensures Sum(ps, f) == Sum(ps, g) + c * Sum(ps, u) + d * Sum(ps, v) + Sum(ps, w)
    decreases |ps|
  {
    if ps != [] {
      var front, p := ps[..|ps| - 1], ps[|ps| - 1];
      SumCombination(front, f, g, u, v, w, c, d);
      Distribute(c, Sum(front, u), u(p));
      Distribute(d, Sum(front, v), v(p));
    }
  }

  lemma Distribute(c: real, x: real, y: real)
    ensures c * (x + y) == c * x + c * y
  {
  }

  ghost const TIME: Point -> real := (p: Point) => p.t as real
  ghost const VALUE: Point -> real := (p: Point) => p.y
  ghost const ONE: Point -> real := (p: Point) => 1.0
  ghost const NOTHING: Point -> real := (p: Point) => 0.0
  ghost const TIME_VALUE: Point -> real := (p: Point) => p.t as real * p.y
  ghost const TIME_TIME: Point -> real := (p: Point) => p.t as real * p.t as real

  /** The method's accumulators are column sums. */
  lemma {:induction false} AccumulatorsAreSums(ps: seq<Point>)
    ensures SumT(ps) as real == Sum(ps, TIME) && SumY(ps) == Sum(ps, VALUE)
    ensures |ps| as real == Sum(ps, ONE) && Sum(ps, NOTHING) == 0.0
    decreases |ps|
  {
    if ps != [] { AccumulatorsAreSums(ps[..|ps| - 1]); }
  }

  lemma {:induction false} ProductsAreSums(ps: seq<Point>)
    ensures SumTY(ps) == Sum(ps, TIME_VALUE) && SumTT(ps) as real == Sum(ps, TIME_TIME)
    decreases |ps|
  {
    if ps != [] {
      ProductsAreSums(ps[..|ps| - 1]);
      var t := ps[|ps| - 1].t;
      assert (t * t) as real == t as real * t as real;
    }
  }

  // ----- errors of a line -----

  ghost function Error(p: Point, a: real, b: real): real {
    p.y - (a * p.t as real + b)
  }

  ghost function ErrorOf(a: real, b: real): Point -> real {
    (p: Point) => Error(p, a, b)
  }

  ghost function SquaredErrorOf(a: real, b: real): Point -> real {
    (p: Point) => Error(p, a, b) * Error(p, a, b)
  }

  ghost function MomentOf(a: real, b: real): Point -> real {
    (p: Point) => p.t as real * Error(p, a, b)
  }

  /** (p t + q)^2: how far two lines are apart at a point. */
  ghost function SquaredGapOf(p: real, q: real): Point -> real {
    (pt: Point) => (p * pt.t as real + q) * (p * pt.t as real + q)
  }

  /** The sum of (y - (a t + b))^2. */
  ghost function Residuals(ps: seq<Point>, a: real, b: real): real {
    Sum(ps, SquaredErrorOf(a, b))
  }

  lemma ErrorsCombine(a: real, b: real)
    ensures Combines(ErrorOf(a, b), VALUE, TIME, ONE, NOTHING, -a, -b)
  {
    forall p ensures ErrorOf(a, b)(p) == VALUE(p) + -a * TIME(p) + -b * ONE(p) + NOTHING(p) {
      assert -a * p.t as real == -(a * p.t as real);
    }
  }

  lemma ErrorSumIs(ps: seq<Point>, a: real, b: real)
    ensures Sum(ps, ErrorOf(a, b)) == Sum(ps, VALUE) + -a * Sum(ps, TIME) + -b * Sum(ps, ONE) + Sum(ps, NOTHING)
  {
    hide *;
    ErrorsCombine(a, b);
    SumCombination(ps, ErrorOf(a, b), VALUE, TIME, ONE, NOTHING, -a, -b);
  }

  lemma MomentsCombine(a: real, b: real)
    ensures Combines(MomentOf(a, b), TIME_VALUE, TIME_TIME, TIME, NOTHING, -a, -b)
  {
    forall p ensures MomentOf(a, b)(p) == TIME_VALUE(p) + -a * TIME_TIME(p) + -b * TIME(p) + NOTHING(p) {
      MomentPoint(p.t as real, p.y, a, b);
    }
  }

  lemma ErrorMomentIs(ps: seq<Point>, a: real, b: real)
    ensures Sum(ps, MomentOf(a, b)) == Sum(ps, TIME_VALUE) + -a * Sum(ps, TIME_TIME) + -b * Sum(ps, TIME) + Sum(ps, NOTHING)
  {
    hide *;
    MomentsCombine(a, b);
    SumCombination(ps, MomentOf(a, b), TIME_VALUE, TIME_TIME, TIME, NOTHING, -a, -b);
  }

  lemma MomentPoint(t: real, y: real, a: real, b: real)
    ensures t * (y - (a * t + b)) == t * y + -a * (t * t) + -b * t + 0.0
  {
    assert t * (a * t) == a * (t * t);
  }

  lemma SquareShift(e: real, t: real, p: real, q: real)
    ensures (e + (p * t + q)) * (e + (p * t + q)) == e * e + (2.0 * p) * (t * e) + (2.0 * q) * e + (p * t + q) * (p * t + q)
  {
    var s := p * t + q;
    assert (e + s) * (e + s) == e * e + 2.0 * (s * e) + s * s;
    assert s * e == p * (t * e) + q * e;
  }

  lemma SquareShiftAt(pt: Point, a0: real, b0: real, p: real, q: real)
    ensures SquaredErrorOf(a0 - p, b0 - q)(pt) == SquaredErrorOf(a0, b0)(pt)
                  + (2.0 * p) * MomentOf(a0, b0)(pt) + (2.0 * q) * ErrorOf(a0, b0)(pt) + SquaredGapOf(p, q)(pt)
  {
    var e, t := Error(pt, a0, b0), pt.t as real;
    assert Error(pt, a0 - p, b0 - q) == e + (p * t + q) by { assert (a0 - p) * t == a0 * t - p * t; }
    SquareShift(e, t, p, q);
  }

  lemma ResidualsAre(ps: seq<Point>, a: real, b: real)
    ensures Residuals(ps, a, b) == Sum(ps, SquaredErrorOf(a, b))
  {
  }

  lemma SquaredErrorsCombine(a0: real, b0: real, p: real, q: real, c: real, d: real)
    requires c == 2.0 * p && d == 2.0 * q
    ensures Combines(SquaredErrorOf(a0 - p, b0 - q), SquaredErrorOf(a0, b0), MomentOf(a0, b0), ErrorOf(a0, b0), SquaredGapOf(p, q), c, d)
  {
    var f, g, u, v, w := SquaredErrorOf(a0 - p, b0 - q), SquaredErrorOf(a0, b0), MomentOf(a0, b0), ErrorOf(a0, b0), SquaredGapOf(p, q);
    forall pt ensures f(pt) == g(pt) + c * u(pt) + d * v(pt) + w(pt) {
      SquareShiftAt(pt, a0, b0, p, q);
    }
  }

  /** Moving from one line to another changes the residuals by two cross terms and the squared gap. */
  lemma ResidualsShift(ps: seq<Point>, a0: real, b0: real, p: real, q: real, c: real, d: real)
    requires c == 2.0 * p && d == 2.0 * q
    ensures Residuals(ps, a0 - p, b0 - q) == Residuals(ps, a0, b0)
      + c * Sum(ps, MomentOf(a0, b0)) + d * Sum(ps, ErrorOf(a0, b0)) + Sum(ps, SquaredGapOf(p, q))
  {
    hide *;
    SquaredErrorsCombine(a0, b0, p, q, c, d);
    ResidualsAre(ps, a0, b0);
    ResidualsAre(ps, a0 - p, b0 - q);
    SumCombination(ps, SquaredErrorOf(a0 - p, b0 - q), SquaredErrorOf(a0, b0), MomentOf(a0, b0), ErrorOf(a0, b0), SquaredGapOf(p, q), c, d);
  }

  lemma {:induction false} NonnegativeSum(ps: seq<Point>, column: Point -> real)
    requires forall p :: column(p) >= 0.0
    ensures Sum(ps, column) >= 0.0
    ensures Sum(ps, column) == 0.0 ==> forall i | 0 <= i < |ps| :: column(ps[i]) == 0.0
    decreases |ps|
  {
    if ps != [] {
      var n := |ps| - 1;
      NonnegativeSum(ps[..n], column);
      if Sum(ps, column) == 0.0 {
        forall i | 0 <= i < |ps| ensures column(ps[i]) == 0.0 {
          if i < n { assert ps[..n][i] == ps[i]; }
        }
      }
    }
  }

  lemma GapAt(pt: Point, p: real, q: real)
    ensures SquaredGapOf(p, q)(pt) >= 0.0
    ensures SquaredGapOf(p, q)(pt) == 0.0 ==> p * pt.t as real + q == 0.0
  {
    SquareOf(p * pt.t as real + q, SquaredGapOf(p, q)(pt));
  }

  lemma SquareOf(x: real, y: real)
    requires y == x * x
    ensures y >= 0.0 && (y == 0.0 ==> x == 0.0)
  {
    if x > 0.0 { PositiveProduct(x, x, y); } else if x < 0.0 { PositiveProduct(-x, -x, y); }
  }

  /** Positive, with the product named, so that it also serves for squares. */
  lemma PositiveProduct(x: real, y: real, z: real)
    requires x > 0.0 && y > 0.0 && z == x * y
    ensures z > 0.0
  {
    Positive(x, y);
  }

  lemma GapVanishes(ps: seq<Point>, p: real, q: real)
    ensures Sum(ps, SquaredGapOf(p, q)) >= 0.0
    ensures Sum(ps, SquaredGapOf(p, q)) == 0.0 ==> forall i | 0 <= i < |ps| :: p * ps[i].t as real + q == 0.0
  {
    var gap := SquaredGapOf(p, q);
    forall pt ensures gap(pt) >= 0.0 && (gap(pt) == 0.0 ==> p * pt.t as real + q == 0.0) { GapAt(pt, p, q); }
    NonnegativeSum(ps, gap);
  }

  /** Two different lines do not agree at two different times. */
  lemma DifferentLinesPart(ps: seq<Point>, p: real, q: real)
    requires !SameTime(ps) && (p != 0.0 || q != 0.0)
    ensures Sum(ps, SquaredGapOf(p, q)) > 0.0
  {
    hide Sum, SquaredGapOf, SumT, SumTT;
    GapVanishes(ps, p, q);
    var i, j :| 0 <= i < j < |ps| && ps[i].t != ps[j].t;
    var s, t := ps[i].t as real, ps[j].t as real;
    if Sum(ps, SquaredGapOf(p, q)) == 0.0 {
      OneLineThroughTwoZeros(p, q, s, t);
    }
  }

  lemma OneLineThroughTwoZeros(p: real, q: real, s: real, t: real)
    requires p * s + q == 0.0 && p * t + q == 0.0 && s != t
    ensures p == 0.0 && q == 0.0
  {
    assert p * (s - t) == 0.0;
  }

  // ----- the normal equations -----

  lemma SecondNormalEquation(n: real, stt: real, st: real, sy: real, sty: real, a0: real, b0: real)
    requires n > 0.0 && sy - a0 * st - n * b0 == 0.0
    requires (n * stt - st * st) * a0 == n * sty - st * sy
    ensures sty - a0 * stt - b0 * st == 0.0
  {
    var m := sty - a0 * stt - b0 * st;
    assert n * m == n * sty - a0 * (n * stt) - (n * b0) * st;
    assert (n * b0) * st == (sy - a0 * st) * st == sy * st - a0 * (st * st);
    assert (n * stt - st * st) * a0 == a0 * (n * stt) - a0 * (st * st);
    assert n * m == 0.0;
  }

  lemma Rewrite(d: real, d': real, a0: real, g: real)
    requires d == d' && d * a0 == g
    ensures d' * a0 == g
  {
  }

  lemma CastProduct(x: int, y: int)
    ensures (x * y) as real == x as real * y as real
  {
  }

  lemma DenominatorAsReal(ps: seq<Point>)
    ensures Denominator(ps) as real == |ps| as real * SumTT(ps) as real - SumT(ps) as real * SumT(ps) as real
  {
    hide SumT, SumTT;
    CastProduct(|ps|, SumTT(ps));
    CastProduct(SumT(ps), SumT(ps));
  }

  lemma BalanceSum(n: real, st: real, sy: real, a0: real, b0: real, one: real, time: real, value: real)
    requires sy - a0 * st - n * b0 == 0.0 && one == n && time == st && value == sy
    ensures value + -a0 * time + -b0 * one + 0.0 == 0.0
  {
    assert -a0 * st == -(a0 * st) && -b0 * n == -(n * b0);
  }

  lemma BalanceMoment(n: real, stt: real, st: real, sy: real, sty: real, a0: real, b0: real, d: real, g: real,
                      timeTime: real, time: real, timeValue: real)
    requires n > 0.0 && sy - a0 * st - n * b0 == 0.0
    requires d == n * stt - st * st && g == n * sty - st * sy && d * a0 == g
    requires timeTime == stt && time == st && timeValue == sty
    ensures timeValue + -a0 * timeTime + -b0 * time + 0.0 == 0.0
  {
    Rewrite(d, n * stt - st * st, a0, g);
    SecondNormalEquation(n, stt, st, sy, sty, a0, b0);
    assert -a0 * stt == -(a0 * stt) && -b0 * st == -(b0 * st);
  }

  lemma ErrorsSumToZero(ps: seq<Point>, a0: real, b0: real)
    requires ps != [] && SumY(ps) - a0 * SumT(ps) as real - |ps| as real * b0 == 0.0
    ensures Sum(ps, ErrorOf(a0, b0)) == 0.0
  {
    hide *;
    AccumulatorsAreSums(ps);
    BalanceSum(|ps| as real, SumT(ps) as real, SumY(ps), a0, b0, Sum(ps, ONE), Sum(ps, TIME), Sum(ps, VALUE));
    ErrorSumIs(ps, a0, b0);
  }

  lemma NumeratorIs(ps: seq<Point>)
    ensures Numerator(ps) == |ps| as real * SumTY(ps) - SumT(ps) as real * SumY(ps)
  {
  }

  lemma MomentsSumToZero(ps: seq<Point>, a0: real, b0: real)
    requires ps != [] && Denominator(ps) as real * a0 == Numerator(ps)
    requires SumY(ps) - a0 * SumT(ps) as real - |ps| as real * b0 == 0.0
    ensures Sum(ps, MomentOf(a0, b0)) == 0.0
  {
    hide *;
    AccumulatorsAreSums(ps);
    ProductsAreSums(ps);
    DenominatorAsReal(ps);
    NumeratorIs(ps);
    BalanceMoment(|ps| as real, SumTT(ps) as real, SumT(ps) as real, SumY(ps), SumTY(ps), a0, b0,
                  Denominator(ps) as real, Numerator(ps), Sum(ps, TIME_TIME), Sum(ps, TIME), Sum(ps, TIME_VALUE));
    ErrorMomentIs(ps, a0, b0);
  }

  lemma InterceptSolves(ps: seq<Point>, slope: real)
    requires ps != []
    ensures SumY(ps) - slope * SumT(ps) as real - |ps| as real * Intercept(ps, slope) == 0.0
  {
    Divided(SumY(ps) - slope * SumT(ps) as real, |ps| as real);
  }

  lemma BalancedLineIsBest(ps: seq<Point>, a0: real, b0: real, a: real, b: real)
    requires Sum(ps, ErrorOf(a0, b0)) == 0.0 && Sum(ps, MomentOf(a0, b0)) == 0.0
    ensures Residuals(ps, a0, b0) <= Residuals(ps, a, b)
    ensures !SameTime(ps) && (a != a0 || b != b0) ==> Residuals(ps, a0, b0) < Residuals(ps, a, b)
  {
    hide *;
    var p, q := a0 - a, b0 - b;
    assert a0 - p == a && b0 - q == b;
    ResidualsShift(ps, a0, b0, p, q, 2.0 * p, 2.0 * q);
    GapVanishes(ps, p, q);
    if !SameTime(ps) && (a != a0 || b != b0) {
      DifferentLinesPart(ps, p, q);
    }
  }

  lemma NoPointsNoResiduals(ps: seq<Point>, a: real, b: real)
    ensures ps == [] ==> Residuals(ps, a, b) == 0.0 && SameTime(ps)
  {
  }

  /**
   * For every list of points: no line has smaller squared residuals than the one with
   * the returned slope and the matching intercept; and unless all times coincide, every
   * other line is strictly worse.
   */
  lemma SlopeMinimisesResiduals(ps: seq<Point>, a: real, b: real)
    ensures var a0 := Slope(ps); var b0 := Intercept(ps, a0);
      && Residuals(ps, a0, b0) <= Residuals(ps, a, b)
      && (!SameTime(ps) && (a != a0 || b != b0) ==> Residuals(ps, a0, b0) < Residuals(ps, a, b))
  {
    NoPointsNoResiduals(ps, a, b);
    NoPointsNoResiduals(ps, Slope(ps), Intercept(ps, Slope(ps)));
    hide *;
    if ps != [] {
      var a0 := Slope(ps);
      var b0 := Intercept(ps, a0);
      SlopeSolves(ps);
      InterceptSolves(ps, a0);
      ErrorsSumToZero(ps, a0, b0);
      MomentsSumToZero(ps, a0, b0);
      BalancedLineIsBest(ps, a0, b0, a, b);
    }
  }
}
