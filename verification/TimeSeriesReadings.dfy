/**
 * What the time-series decimator measures, told without its formulas: the y it reads off
 * a row, the mean of a bucket, and the triangle it compares rows by.
 */
module TimeSeriesReadings {
  import opened Arithmetic
  import opened BucketEdges
  import opened ChartFields
  import opened TimeSeriesDecimation

  // ----- the y of a row -----

  /** Field `k` is the first of the row that holds a number. */
  ghost predicate FirstNumberAt(row: Row, k: nat) {
    k < |row| && row[k].1.Num? && forall j | 0 <= j < k :: !row[j].1.Num?
  }

  lemma {:induction false} FirstNumberIsFirst(row: Row, fallback: real)
    ensures (forall j | 0 <= j < |row| :: !row[j].1.Num?) ==> FirstNumber(row, fallback) == fallback
    ensures forall k: nat | FirstNumberAt(row, k) :: FirstNumber(row, fallback) == row[k].1.v
    decreases |row|
  {
    if row != [] && !row[0].1.Num? {
      var rest := row[1..];
      FirstNumberIsFirst(rest, fallback);
      forall k: nat | FirstNumberAt(row, k) ensures FirstNumber(row, fallback) == row[k].1.v {
        assert FirstNumberAt(rest, k - 1);
      }
    }
  }

  /** The row has the number `v` under `key`, in the first field of that name. */
  ghost predicate HasNumber(row: Row, key: string, v: real) {
    exists k: nat :: k < |row| && row[k] == (key, Num(v)) && forall j | 0 <= j < k :: row[j].0 != key
  }

  lemma {:induction false} FieldIsFirst(row: Row, key: string, v: real)
    ensures Field(row, key) == Num(v) <==> HasNumber(row, key, v)
    decreases |row|
  {
    if row != [] {
      var rest := row[1..];
      FieldIsFirst(rest, key, v);
      if row[0].0 != key {
        if HasNumber(row, key, v) {
          var k: nat :| k < |row| && row[k] == (key, Num(v)) && forall j | 0 <= j < k :: row[j].0 != key;
          assert rest[k - 1] == (key, Num(v)) && forall j | 0 <= j < k - 1 :: rest[j] == row[j + 1];
        }
        if HasNumber(rest, key, v) {
          var k: nat :| k < |rest| && rest[k] == (key, Num(v)) && forall j | 0 <= j < k :: rest[j].0 != key;
          assert row[k + 1] == (key, Num(v)) && forall j | 0 < j < k + 1 :: row[j] == rest[j - 1];
        }
      } else if Field(row, key) == Num(v) {
        assert row[0] == (key, Num(v));
      }
    }
  }

  /** `numbers` are those the row has under the keys, in the order of the keys; a key without one gives none. */
  ghost predicate ListsNumbers(row: Row, keys: seq<string>, numbers: seq<real>) {
    if keys == [] then numbers == []
    else
      var front, key := keys[..|keys| - 1], keys[|keys| - 1];
      || (|numbers| > 0 && HasNumber(row, key, numbers[|numbers| - 1]) && ListsNumbers(row, front, numbers[..|numbers| - 1]))
      || ((forall v :: !HasNumber(row, key, v)) && ListsNumbers(row, front, numbers))
  }

  lemma {:induction false} KeysAreSummed(row: Row, keys: seq<string>) returns (numbers: seq<real>)
    ensures ListsNumbers(row, keys, numbers)
    ensures SumOfKeys(row, keys) == (SumOf(numbers), |numbers|)
    decreases |keys|
  {
    hide Field, HasNumber;
    if keys == [] {
      numbers := [];
    } else {
      var front, key := keys[..|keys| - 1], keys[|keys| - 1];
      var before := KeysAreSummed(row, front);
      forall v ensures Field(row, key) == Num(v) <==> HasNumber(row, key, v) { FieldIsFirst(row, key, v); }
      match Field(row, key) {
        case Num(v) =>
          SumOfSnoc(before, v);
          numbers := before + [v];
          assert numbers[..|before|] == before;
        case Other(_) => numbers := before;
      }
    }
  }

  /**
   * The y of a row: with no keys its first number; with keys the mean of the numbers it has
   * under them. A row with no such number stands at its own index.
   */
  lemma RowReading(row: Row, index: nat, keys: seq<string>) returns (numbers: seq<real>)
    ensures ListsNumbers(row, keys, numbers)
    ensures keys == [] ==> forall k: nat | FirstNumberAt(row, k) :: GetY(row, index, keys) == row[k].1.v
    ensures keys == [] && (forall j | 0 <= j < |row| :: !row[j].1.Num?) ==> GetY(row, index, keys) == index as real
    ensures keys != [] && numbers != [] ==> GetY(row, index, keys) * |numbers| as real == SumOf(numbers)
    ensures keys != [] && numbers == [] ==> GetY(row, index, keys) == index as real
  {
    FirstNumberIsFirst(row, index as real);
    numbers := KeysAreSummed(row, keys);
    if numbers != [] { MeanTimesCount(SumOf(numbers), |numbers|); }
    hide FirstNumber, SumOfKeys, SumOf, FirstNumberAt, ListsNumbers;
  }

  lemma MeanTimesCount(sum: real, n: nat)
    requires n >= 1
    ensures sum / n as real * n as real == sum
  {
  }

  // ----- the mean of a bucket -----

  lemma {:induction false} IndicesSum(lo: int, hi: int)
    requires lo <= hi
    ensures 2.0 * SumX(lo, hi) == (hi - lo) as real * (lo + hi - 1) as real
    decreases hi - lo
  {
    if lo < hi {
      IndicesSum(lo, hi - 1);
      var n, m := (hi - lo) as real, (lo + hi - 1) as real;
      assert (n - 1.0) * (m - 1.0) + 2.0 * (hi - 1) as real == n * m by {
        assert (n - 1.0) * (m - 1.0) == n * m - n - m + 1.0;
      }
    }
  }

  lemma {:induction false} HeightsSum(ys: seq<real>, lo: int, hi: int)
    requires 0 <= lo <= hi <= |ys|
    ensures SumHeights(ys, lo, hi) == SumOf(ys[lo..hi])
    decreases hi - lo
  {
    if lo < hi {
      HeightsSum(ys, lo, hi - 1);
      SumOfSnoc(ys[lo..hi - 1], ys[hi - 1]);
      assert ys[lo..hi] == ys[lo..hi - 1] + [ys[hi - 1]];
    }
  }

  lemma MidOf(sum: real, n: real, m: real)
    requires n > 0.0 && 2.0 * sum == n * m
    ensures 2.0 * (sum / n) == m
  {
    var q := QuotientOf(sum, n);
    ScaleOrder(2.0 * q, m, n);
    ScaleOrder(m, 2.0 * q, n);
    assert 2.0 * q * n == m * n;
  }

  lemma TargetIs(ys: seq<real>, maxPoints: nat, i: nat, lo: int, hi: int)
    requires 3 <= maxPoints < |ys| && i < maxPoints - 2
    requires lo == Start(|ys|, maxPoints, i + 1) && hi == NextEnd(|ys|, maxPoints, i)
    ensures 0 <= lo && hi <= |ys|
    ensures lo < hi ==> Target(ys, maxPoints, i) == Spot(SumX(lo, hi) / (hi - lo) as real, SumHeights(ys, lo, hi) / (hi - lo) as real)
    ensures lo >= hi ==> Target(ys, maxPoints, i) == Spot((|ys| - 1) as real, ys[|ys| - 1])
  {
    BucketShape(|ys|, maxPoints, i);
    hide Edge, SumX, SumHeights;
  }

  /**
   * The third corner of bucket `i`: the middle of the next bucket's indices and the mean of its
   * heights, or the last row when the next bucket is empty.
   */
  lemma TargetIsMean(ys: seq<real>, maxPoints: nat, i: nat)
    requires 3 <= maxPoints < |ys| && i < maxPoints - 2
    ensures var lo, hi, spot := Start(|ys|, maxPoints, i + 1), NextEnd(|ys|, maxPoints, i), Target(ys, maxPoints, i);
      && 0 <= lo && hi <= |ys|
      && (lo < hi ==> 2.0 * spot.x == (lo + hi - 1) as real && spot.y * (hi - lo) as real == SumOf(ys[lo..hi]))
      && (lo >= hi ==> spot == Spot((|ys| - 1) as real, ys[|ys| - 1]))
  {
    hide Edge, Start, NextEnd, SumX, SumHeights, SumOf, Target;
    var lo, hi := Start(|ys|, maxPoints, i + 1), NextEnd(|ys|, maxPoints, i);
    TargetIs(ys, maxPoints, i, lo, hi);
    if lo < hi {
      IndicesSum(lo, hi);
      HeightsSum(ys, lo, hi);
      MidOf(SumX(lo, hi), (hi - lo) as real, (lo + hi - 1) as real);
      MeanTimesCount(SumHeights(ys, lo, hi), hi - lo);
    }
  }

  /** The target lies ahead of every row before the next bucket. */
  lemma TargetIsAhead(ys: seq<real>, maxPoints: nat, i: nat, previous: nat)
    requires 3 <= maxPoints < |ys| && i < maxPoints - 3 && previous < Start(|ys|, maxPoints, i + 1)
    ensures previous as real < Target(ys, maxPoints, i).x && previous < |ys|
  {
    hide Edge, Start, NextEnd, SumOf, Target;
    BucketShape(|ys|, maxPoints, i);
    TargetIsMean(ys, maxPoints, i);
  }

  /**
   * Where buckets start and the next one ends: at the integer quotients, one row further. The
   * bucket before the last has the last row alone for its next bucket, the last one has none.
   */
  lemma BucketBounds(len: nat, maxPoints: nat, i: nat)
    requires 3 <= maxPoints < len && i < maxPoints - 2
    ensures Start(len, maxPoints, i) == (i + 1) * (len - 2) / (maxPoints - 2) + 1
    ensures i + 4 < maxPoints ==> NextEnd(len, maxPoints, i) == Start(len, maxPoints, i + 2)
    ensures i + 4 >= maxPoints ==> NextEnd(len, maxPoints, i) == len
    ensures i + 4 == maxPoints ==> Start(len, maxPoints, i + 1) == len - 1
    ensures i + 3 == maxPoints ==> Start(len, maxPoints, i + 1) >= len
  {
    var total, count := len - 2, maxPoints - 2;
    hide Edge;
    EdgeIsQuotient(i + 1, total, count);
    OuterEdges(total, count);
    EdgesIncrease(count, total, count);
    if i + 4 < maxPoints {
      EdgesOrdered(i + 3, count, total, count);
    } else {
      EdgesOrdered(count + 1, i + 3, total, count);
    }
  }

  /** The two last interior picks are measured against the last row itself. */
  lemma LastTargets(ys: seq<real>, maxPoints: nat, i: nat)
    requires 3 <= maxPoints < |ys| && maxPoints <= i + 4 && i < maxPoints - 2
    ensures Target(ys, maxPoints, i) == Spot((|ys| - 1) as real, ys[|ys| - 1])
  {
    hide Edge, Start, NextEnd, Target, SumX, SumHeights;
    var lo, hi := Start(|ys|, maxPoints, i + 1), NextEnd(|ys|, maxPoints, i);
    BucketBounds(|ys|, maxPoints, i);
    TargetIs(ys, maxPoints, i, lo, hi);
    if lo < hi { LoneRow(ys, lo, hi); }
  }

  lemma LoneRow(ys: seq<real>, lo: int, hi: int)
    requires 0 <= lo && hi == lo + 1 <= |ys|
    ensures SumX(lo, hi) / (hi - lo) as real == lo as real && SumHeights(ys, lo, hi) / (hi - lo) as real == ys[lo]
  {
  }

  // ----- the triangle -----

  /** Twice the signed area over three corners, corner by corner. */
  function Shoelace(p: Spot, q: Spot, r: Spot): real {
    (p.x * q.y - q.x * p.y) + (q.x * r.y - r.x * q.y) + (r.x * p.y - p.x * r.y)
  }

  /** Rows are compared by the area of the triangle over the previous pick, the row and the target. */
  lemma AreaIsTriangle(ys: seq<real>, a: nat, j: nat, spot: Spot)
    requires a < |ys| && j < |ys|
    ensures 2.0 * Area(ys, a, j, spot) == Abs(Shoelace(Spot(a as real, ys[a]), Spot(j as real, ys[j]), spot))
  {
    var w, x, rise, up := spot.x - a as real, j as real - a as real, spot.y - ys[a], ys[j] - ys[a];
    AreaParts(ys, a, j, spot, w, x, rise, up);
    Determinant(a as real, ys[a], j as real, ys[j], spot.x, spot.y, w, x, rise, up);
    hide Shoelace, Abs, Area;
  }

  lemma Determinant(ax: real, ay: real, jx: real, jy: real, sx: real, sy: real, w: real, x: real, rise: real, up: real)
    requires w == sx - ax && x == jx - ax && rise == sy - ay && up == jy - ay
    ensures rise * x - w * up == Shoelace(Spot(ax, ay), Spot(jx, jy), Spot(sx, sy))
  {
    assert rise * x == sy * jx - sy * ax - ay * jx + ay * ax;
    assert w * up == sx * jy - sx * ay - ax * jy + ax * ay;
  }

  /** The height at `x` of the line through row `a` and the target. */
  function Chord(ys: seq<real>, a: nat, spot: Spot, x: real): real
    requires a < |ys| && spot.x != a as real
  {
    ys[a] + (spot.y - ys[a]) * ((x - a as real) / (spot.x - a as real))
  }

  /** How far row `j` lies above or below that line. */
  function Deviation(ys: seq<real>, a: nat, j: nat, spot: Spot): real
    requires a < |ys| && j < |ys| && spot.x != a as real
  {
    Abs(ys[j] - Chord(ys, a, spot, j as real))
  }

  lemma AreaIsDeviation(ys: seq<real>, a: nat, j: nat, spot: Spot)
    requires a < |ys| && j < |ys| && a as real < spot.x
    ensures 2.0 * Area(ys, a, j, spot) == (spot.x - a as real) * Deviation(ys, a, j, spot)
  {
    var w, x, rise, up := spot.x - a as real, j as real - a as real, spot.y - ys[a], ys[j] - ys[a];
    var t := QuotientOf(x, w);
    Cross(w, x, rise, up, t);
    ScaledAbs(w, up - rise * t);
    assert ys[j] - Chord(ys, a, spot, j as real) == up - rise * t;
    AreaParts(ys, a, j, spot, w, x, rise, up);
    hide Area, Chord;
  }

  lemma AreaParts(ys: seq<real>, a: nat, j: nat, spot: Spot, w: real, x: real, rise: real, up: real)
    requires a < |ys| && j < |ys|
    requires w == spot.x - a as real && x == j as real - a as real && rise == spot.y - ys[a] && up == ys[j] - ys[a]
    ensures 2.0 * Area(ys, a, j, spot) == Abs(rise * x - w * up)
  {
    var ax := a as real;
    assert (ax - spot.x) * up == -(w * up);
    assert (ax - j as real) * rise == -(rise * x);
  }

  lemma Cross(w: real, x: real, rise: real, up: real, t: real)
    requires t * w == x
    ensures rise * x - w * up == -(w * (up - rise * t))
  {
    assert rise * x == rise * (t * w);
    assert w * (up - rise * t) == w * up - w * (rise * t);
  }

  lemma ScaledAbs(w: real, e: real)
    requires w > 0.0
    ensures Abs(-(w * e)) == w * Abs(e)
  {
    if e >= 0.0 { Nonnegative(w, e); } else { Nonnegative(w, -e); assert w * -e == -(w * e); }
  }

  /** The order by area is the order by deviation. */
  lemma DeviationOrders(ys: seq<real>, a: nat, spot: Spot, j: nat, p: nat)
    requires a < |ys| && j < |ys| && p < |ys| && a as real < spot.x
    ensures Area(ys, a, j, spot) <= Area(ys, a, p, spot) <==> Deviation(ys, a, j, spot) <= Deviation(ys, a, p, spot)
    ensures Area(ys, a, j, spot) < Area(ys, a, p, spot) <==> Deviation(ys, a, j, spot) < Deviation(ys, a, p, spot)
  {
    hide Area, Deviation;
    AreaIsDeviation(ys, a, j, spot);
    AreaIsDeviation(ys, a, p, spot);
    ScaleOrder(Deviation(ys, a, j, spot), Deviation(ys, a, p, spot), spot.x - a as real);
  }

  /** Row `p` is the first of bucket `i` that lies furthest, above or below, from the line from `previous` to the target. */
  ghost predicate DeviatesMost(ys: seq<real>, maxPoints: nat, i: nat, previous: nat, p: nat)
    requires 3 <= maxPoints < |ys| && i < maxPoints - 2 && previous < |ys| && previous as real < Target(ys, maxPoints, i).x
  {
    var lo, hi, spot := Start(|ys|, maxPoints, i), Start(|ys|, maxPoints, i + 1), Target(ys, maxPoints, i);
    && 0 <= lo <= p < hi <= |ys|
    && (forall j: nat | lo <= j < hi :: Deviation(ys, previous, j, spot) <= Deviation(ys, previous, p, spot))
    && (forall j: nat | lo <= j < p :: Deviation(ys, previous, j, spot) < Deviation(ys, previous, p, spot))
  }

  lemma LargestDeviatesMost(ys: seq<real>, maxPoints: nat, i: nat, previous: nat, p: nat)
    requires 3 <= maxPoints < |ys| && i < maxPoints - 3 && previous < |ys| && previous as real < Target(ys, maxPoints, i).x
    requires IsFirstLargest(ys, maxPoints, i, previous, p)
    ensures DeviatesMost(ys, maxPoints, i, previous, p)
  {
    hide Edge, Start, End, Target, Area, Deviation;
    BucketShape(|ys|, maxPoints, i);
    var spot := Target(ys, maxPoints, i);
    forall j: nat | j < |ys|
      ensures Area(ys, previous, j, spot) <= Area(ys, previous, p, spot)
         <==> Deviation(ys, previous, j, spot) <= Deviation(ys, previous, p, spot)
      ensures Area(ys, previous, j, spot) < Area(ys, previous, p, spot)
         <==> Deviation(ys, previous, j, spot) < Deviation(ys, previous, p, spot)
    {
      DeviationOrders(ys, previous, spot, j, p);
    }
  }

  /**
   * The decimation keeps, from each bucket in turn, the row the drawn line would miss by most: the
   * first one furthest from the line that joins the row kept before to the middle of the next bucket.
   */
  lemma SampledRowsDeviateMost(ys: seq<real>, maxPoints: nat, i: nat)
    requires 3 <= maxPoints < |ys| && i < maxPoints - 3
    ensures var ps := SampledIndices(ys, maxPoints);
      && ps[i] as real < Target(ys, maxPoints, i).x
      && DeviatesMost(ys, maxPoints, i, ps[i], ps[i + 1])
  {
    hide *;
    var ps := SampledIndices(ys, maxPoints);
    PickIsFromBucket(ys, maxPoints, i);
    PickedIsLargest(ys, maxPoints, ps, i);
    TargetIsAhead(ys, maxPoints, i, ps[i]);
    LargestDeviatesMost(ys, maxPoints, i, ps[i], ps[i + 1]);
  }

  lemma PickedIsLargest(ys: seq<real>, maxPoints: nat, ps: seq<nat>, i: nat)
    requires 3 <= maxPoints < |ys| && i < maxPoints - 3
    requires |ps| == maxPoints && forall k | 0 <= k < |ps| :: ps[k] < |ys|
    requires PickedFrom(ys, maxPoints, ps, i)
    ensures IsFirstLargest(ys, maxPoints, i, ps[i], ps[i + 1]) && ps[i] < Start(|ys|, maxPoints, i + 1)
  {
    hide Edge, Start, IsFirstLargest;
  }
}
