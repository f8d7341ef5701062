/** Largest-triangle-three-buckets decimation of a time series, over exact arithmetic. */
module TimeSeriesDecimation {
  import opened Arithmetic
  import opened BucketEdges
  import opened ChartFields

  /** A row's fields in insertion order. */
  type Row = seq<(string, Cell)>

  // ----- the y of a row -----

  function FirstNumber(row: Row, fallback: real): real {
    if row == [] then fallback
    else if row[0].1.Num? then row[0].1.v
    else FirstNumber(row[1..], fallback)
  }

  function Field(row: Row, key: string): Cell {
    if row == [] then Other("") else if row[0].0 == key then row[0].1 else Field(row[1..], key)
  }

  function SumOfKeys(row: Row, keys: seq<string>): (real, nat) {
    if keys == [] then (0.0, 0)
    else
      var (sum, count) := SumOfKeys(row, keys[..|keys| - 1]);
      match Field(row, keys[|keys| - 1])
      case Num(v) => (sum + v, count + 1)
      case Other(_) => (sum, count)
  }

  function GetY(row: Row, index: nat, keys: seq<string>): real {
    if keys == [] then FirstNumber(row, index as real)
    else
      var (sum, count) := SumOfKeys(row, keys);
      if count > 0 then sum / count as real else index as real
  }

  function Heights(data: seq<Row>, keys: seq<string>): (ys: seq<real>)
    ensures |ys| == |data|
  {
    seq(|data|, i requires 0 <= i < |data| => GetY(data[i], i, keys))
  }

  // ----- buckets -----

  /** Where bucket `i` starts; it ends where the next one starts, but never past the last row. */
  function Start(len: nat, maxPoints: nat, i: nat): int
    requires 3 <= maxPoints && 2 <= len
  {
    Edge(i + 1, len - 2, maxPoints - 2) + 1
  }

  function End(len: nat, maxPoints: nat, i: nat): int
    requires 3 <= maxPoints && 2 <= len
  {
    var e := Edge(i + 2, len - 2, maxPoints - 2) + 1;
    if e < len - 1 then e else len - 1
  }

  function NextEnd(len: nat, maxPoints: nat, i: nat): int
    requires 3 <= maxPoints && 2 <= len
  {
    var e := Edge(i + 3, len - 2, maxPoints - 2) + 1;
    if e < len then e else len
  }

  /** Interior buckets tile the rows from Start(0) on; the one numbered maxPoints - 3 is empty. */
  lemma BucketShape(len: nat, maxPoints: nat, i: nat)
    requires 3 <= maxPoints < len && i < maxPoints - 2
    ensures 2 <= Start(len, maxPoints, i) <= len - 1
    ensures i < maxPoints - 3 ==> Start(len, maxPoints, i) < End(len, maxPoints, i) == Start(len, maxPoints, i + 1) <= len - 1
    ensures i == maxPoints - 3 ==> Start(len, maxPoints, i) == End(len, maxPoints, i) == len - 1
    ensures 0 <= Start(len, maxPoints, i + 1)
  {
    var total, count := len - 2, maxPoints - 2;
    hide Edge;
    OuterEdges(total, count);
    EdgesOrdered(0, i + 1, total, count);
    EdgesOrdered(i + 1, count, total, count);
    EdgesIncrease(i + 1, total, count);
    if i + 2 <= count { EdgesOrdered(i + 2, count, total, count); }
  }

  // ----- the pick of one bucket -----

  function SumX(lo: int, hi: int): real
    decreases hi - lo
  {
    if hi <= lo then 0.0 else SumX(lo, hi - 1) + (hi - 1) as real
  }

  function SumHeights(ys: seq<real>, lo: int, hi: int): real
    requires 0 <= lo && hi <= |ys|
    decreases hi - lo
  {
    if hi <= lo then 0.0 else SumHeights(ys, lo, hi - 1) + ys[hi - 1]
  }

  datatype Spot = Spot(x: real, y: real)

  /** The average of the next bucket, or the last row when that bucket is empty. */
  function Target(ys: seq<real>, maxPoints: nat, i: nat): Spot
    requires 3 <= maxPoints < |ys| && i < maxPoints - 2
  {
    BucketShape(|ys|, maxPoints, i);
    var lo, hi := Start(|ys|, maxPoints, i + 1), NextEnd(|ys|, maxPoints, i);
    if hi - lo > 0 then Spot(SumX(lo, hi) / (hi - lo) as real, SumHeights(ys, lo, hi) / (hi - lo) as real)
    else Spot((|ys| - 1) as real, ys[|ys| - 1])
  }

  /** The area of the triangle over rows `a` and `j` and the target. */
  function Area(ys: seq<real>, a: nat, j: nat, spot: Spot): (area: real)
    requires a < |ys| && j < |ys|
    ensures area >= 0.0
  {
    Abs((a as real - spot.x) * (ys[j] - ys[a]) - (a as real - j as real) * (spot.y - ys[a])) * 0.5
  }

  /** The largest area over rows [lo, hi), -1 when there is none, and where it is first met. */
  function Largest(ys: seq<real>, a: nat, spot: Spot, lo: nat, hi: int): (r: (nat, real))
    requires a < |ys| && hi <= |ys|
    ensures hi <= lo ==> r == (lo, -1.0)
    ensures lo < hi ==> lo <= r.0 < hi
    decreases hi - lo
  {
    if hi <= lo then (lo, -1.0)
    else
      var best := Largest(ys, a, spot, lo, hi - 1);
      var area := Area(ys, a, hi - 1, spot);
      if area > best.1 then (hi - 1, area) else best
  }

  function Pick(ys: seq<real>, maxPoints: nat, i: nat, previous: nat): (p: nat)
    requires 3 <= maxPoints < |ys| && i < maxPoints - 2 && previous < |ys|
    ensures p < |ys|
  {
    BucketShape(|ys|, maxPoints, i);
    Largest(ys, previous, Target(ys, maxPoints, i), Start(|ys|, maxPoints, i), End(|ys|, maxPoints, i)).0
  }

  /** Row 0 and the picks of the first `count` buckets. */
  function Picks(ys: seq<real>, maxPoints: nat, count: nat): (ps: seq<nat>)
    requires 3 <= maxPoints < |ys| && count <= maxPoints - 2
    ensures |ps| == count + 1 && forall k | 0 <= k < |ps| :: ps[k] < |ys|
  {
    if count == 0 then [0]
    else
      var before := Picks(ys, maxPoints, count - 1);
      before + [Pick(ys, maxPoints, count - 1, before[count - 1])]
  }

  function RowsAt(data: seq<Row>, ps: seq<nat>): (rows: seq<Row>)
    requires forall k | 0 <= k < |ps| :: ps[k] < |data|
    ensures |rows| == |ps|
  {
    seq(|ps|, k requires 0 <= k < |ps| => data[ps[k]])
  }

  /** The indices of the sampled rows: the picks, then the last row. */
  function SampledIndices(ys: seq<real>, maxPoints: nat): (ps: seq<nat>)
    requires 3 <= maxPoints < |ys|
    ensures |ps| == maxPoints && forall k | 0 <= k < |ps| :: ps[k] < |ys|
  {
    Picks(ys, maxPoints, maxPoints - 2) + [|ys| - 1]
  }

  method AverageOf(ys: seq<real>, maxPoints: nat, i: nat) returns (spot: Spot)
    requires 3 <= maxPoints < |ys| && i < maxPoints - 2
    ensures spot == Target(ys, maxPoints, i)
  {
    BucketShape(|ys|, maxPoints, i);
    var len := |ys|;
    var nextRangeStart := Start(len, maxPoints, i + 1);
    var nextRangeEnd := NextEnd(len, maxPoints, i);
    var nextCount := if nextRangeEnd - nextRangeStart > 0 then nextRangeEnd - nextRangeStart else 0;
    var avgX, avgY := (len - 1) as real, ys[len - 1];
    hide Edge;
    if nextCount > 0 {
      avgX, avgY := 0.0, 0.0;
      for j := nextRangeStart to nextRangeEnd
        invariant avgX == SumX(nextRangeStart, j) && avgY == SumHeights(ys, nextRangeStart, j)
      {
        avgX := avgX + j as real;
        avgY := avgY + ys[j];
      }
      avgX := avgX / nextCount as real;
      avgY := avgY / nextCount as real;
    }
    spot := Spot(avgX, avgY);
  }

  /** The inner loop: the first row of the bucket with the largest triangle. */
  method LargestTriangle(ys: seq<real>, a: nat, spot: Spot, rangeStart: nat, rangeEnd: int) returns (maxIndex: nat)
    requires a < |ys| && rangeStart <= |ys| && rangeEnd <= |ys|
    ensures maxIndex == Largest(ys, a, spot, rangeStart, rangeEnd).0
  {
    hide Area;
    var maxArea := -1.0;
    maxIndex := rangeStart;
    var j := rangeStart;
    while j < rangeEnd
      invariant rangeStart <= j && (j <= rangeEnd || j == rangeStart)
      invariant (maxIndex, maxArea) == Largest(ys, a, spot, rangeStart, j)
    {
      var area := Area(ys, a, j, spot);
      if area > maxArea {
        maxArea, maxIndex := area, j;
      }
      j := j + 1;
    }
  }

  /** One turn of the outer loop. */
  method PickFromBucket(ys: seq<real>, maxPoints: nat, i: nat, previousIndex: nat) returns (maxIndex: nat)
    requires 3 <= maxPoints < |ys| && i < maxPoints - 2 && previousIndex < |ys|
    ensures maxIndex == Pick(ys, maxPoints, i, previousIndex)
  {
    BucketShape(|ys|, maxPoints, i);
    hide Edge, Area, Target, Largest;
    var spot := AverageOf(ys, maxPoints, i);
    maxIndex := LargestTriangle(ys, previousIndex, spot, Start(|ys|, maxPoints, i), End(|ys|, maxPoints, i));
  }

  function LastPick(ys: seq<real>, maxPoints: nat, count: nat): (p: nat)
    requires 3 <= maxPoints < |ys| && count <= maxPoints - 2
    ensures p < |ys|
  {
    Picks(ys, maxPoints, count)[count]
  }

  /** The rows sampled after `count` turns. */
  function RowsSoFar(data: seq<Row>, ys: seq<real>, maxPoints: nat, count: nat): seq<Row>
    requires 3 <= maxPoints < |ys| == |data| && count <= maxPoints - 2
  {
    RowsAt(data, Picks(ys, maxPoints, count))
  }

  lemma OneMorePick(data: seq<Row>, ys: seq<real>, maxPoints: nat, i: nat)
    requires 3 <= maxPoints < |ys| == |data| && i < maxPoints - 2
    ensures var p := Pick(ys, maxPoints, i, LastPick(ys, maxPoints, i));
      && LastPick(ys, maxPoints, i + 1) == p
      && RowsSoFar(data, ys, maxPoints, i + 1) == RowsSoFar(data, ys, maxPoints, i) + [data[p]]
  {
    hide Pick;
  }

  lemma NothingPicked(data: seq<Row>, ys: seq<real>, maxPoints: nat)
    requires 3 <= maxPoints < |ys| == |data|
    ensures LastPick(ys, maxPoints, 0) == 0 && RowsSoFar(data, ys, maxPoints, 0) == [data[0]]
  {
  }

  lemma LastRowSampled(data: seq<Row>, ys: seq<real>, maxPoints: nat)
    requires 3 <= maxPoints < |ys| == |data|
    ensures RowsAt(data, SampledIndices(ys, maxPoints)) == RowsSoFar(data, ys, maxPoints, maxPoints - 2) + [data[|data| - 1]]
  {
    hide Picks;
  }

  /** The outer loop: row 0, then one row per bucket. */
  method SampleBuckets(data: seq<Row>, ys: seq<real>, maxPoints: nat) returns (sampled: seq<Row>)
    requires 3 <= maxPoints < |ys| == |data|
    ensures sampled == RowsSoFar(data, ys, maxPoints, maxPoints - 2)
  {
    hide *;
    NothingPicked(data, ys, maxPoints);
    sampled := [data[0]];
    var previousIndex := 0;
    for i := 0 to maxPoints - 2
      invariant previousIndex == LastPick(ys, maxPoints, i)
      invariant sampled == RowsSoFar(data, ys, maxPoints, i)
    {
      OneMorePick(data, ys, maxPoints, i);
      previousIndex := PickFromBucket(ys, maxPoints, i, previousIndex);
      sampled := sampled + [data[previousIndex]];
    }
  }

  method DecimateTimeSeries(data: seq<Row>, maxPoints: int, valueKeys: seq<string>) returns (sampled: seq<Row>)
    ensures maxPoints >= |data| || maxPoints < 3 ==> sampled == data
    ensures 3 <= maxPoints < |data| ==> sampled == RowsAt(data, SampledIndices(Heights(data, valueKeys), maxPoints))
  {
    var len := |data|;
    if maxPoints >= len || maxPoints < 3 {
      return data;
    }
    hide *;
    var ys := Heights(data, valueKeys);
    LastRowSampled(data, ys, maxPoints);
    sampled := SampleBuckets(data, ys, maxPoints);
    sampled := sampled + [data[len - 1]];
  }

  // ----- what the picks are -----

  /** `p` is the first row of [lo, hi) whose triangle with row `a` and the target is largest. */
  ghost predicate FirstLargest(ys: seq<real>, a: nat, spot: Spot, lo: int, hi: int, p: nat)
    requires a < |ys|
  {
    && 0 <= lo <= p < hi <= |ys|
    && (forall j: nat | lo <= j < hi :: Area(ys, a, j, spot) <= Area(ys, a, p, spot))
    && (forall j: nat | lo <= j < p :: Area(ys, a, j, spot) < Area(ys, a, p, spot))
  }

  /** ... of bucket `i`. */
  ghost predicate IsFirstLargest(ys: seq<real>, maxPoints: nat, i: nat, previous: nat, p: nat)
    requires 3 <= maxPoints < |ys| && i < maxPoints - 2 && previous < |ys|
  {
    FirstLargest(ys, previous, Target(ys, maxPoints, i), Start(|ys|, maxPoints, i), End(|ys|, maxPoints, i), p)
  }

  lemma {:induction false} LargestIsFirst(ys: seq<real>, a: nat, spot: Spot, lo: nat, hi: int)
    requires a < |ys| && lo < hi <= |ys|
    ensures FirstLargest(ys, a, spot, lo, hi, Largest(ys, a, spot, lo, hi).0)
    ensures Largest(ys, a, spot, lo, hi).1 == Area(ys, a, Largest(ys, a, spot, lo, hi).0, spot)
    decreases hi - lo
  {
    hide Area;
    if lo < hi - 1 {
      LargestIsFirst(ys, a, spot, lo, hi - 1);
    }
  }

  /** Each bucket but the last yields its first largest triangle; the last one, being empty, yields the last row. */
  lemma PickIsLargest(ys: seq<real>, maxPoints: nat, i: nat, previous: nat)
    requires 3 <= maxPoints < |ys| && i < maxPoints - 2 && previous < |ys|
    ensures i < maxPoints - 3 ==> IsFirstLargest(ys, maxPoints, i, previous, Pick(ys, maxPoints, i, previous))
    ensures i == maxPoints - 3 ==> Pick(ys, maxPoints, i, previous) == |ys| - 1
  {
    hide Edge, Area, Target, FirstLargest;
    BucketShape(|ys|, maxPoints, i);
    if i < maxPoints - 3 {
      LargestIsFirst(ys, previous, Target(ys, maxPoints, i), Start(|ys|, maxPoints, i), End(|ys|, maxPoints, i));
    }
  }

  /** The picks, bucket by bucket. */
  lemma {:induction false} PicksFollowBuckets(ys: seq<real>, maxPoints: nat, count: nat, i: nat)
    requires 3 <= maxPoints < |ys| && i < count <= maxPoints - 2
    ensures var ps := Picks(ys, maxPoints, count);
      && ps[0] == 0
      && ps[i + 1] == Pick(ys, maxPoints, i, ps[i])
    decreases count
  {
    hide Pick;
    if count > 1 {
      PicksFollowBuckets(ys, maxPoints, count - 1, if i < count - 1 then i else 0);
    }
  }

  /**
   * The pick of bucket `i` is a later row than the one before it, and not before the first
   * bucket. It is the first largest triangle of the bucket over the pick before it; only the last
   * bucket, being empty, yields the last row.
   */
  ghost predicate PickedFrom(ys: seq<real>, maxPoints: nat, ps: seq<nat>, i: nat)
    requires 3 <= maxPoints < |ys| && i < maxPoints - 2
    requires |ps| == maxPoints && forall k | 0 <= k < |ps| :: ps[k] < |ys|
  {
    && ps[i] < ps[i + 1]
    && Start(|ys|, maxPoints, 0) <= Start(|ys|, maxPoints, i) <= ps[i + 1]
    && (if i < maxPoints - 3 then
          ps[i + 1] < Start(|ys|, maxPoints, i + 1) && IsFirstLargest(ys, maxPoints, i, ps[i], ps[i + 1])
        else ps[i + 1] == |ys| - 1)
  }

  lemma PickInBucket(ys: seq<real>, maxPoints: nat, i: nat, previous: nat)
    requires 3 <= maxPoints < |ys| && i < maxPoints - 2 && previous < |ys|
    ensures Start(|ys|, maxPoints, 0) <= Start(|ys|, maxPoints, i) <= Pick(ys, maxPoints, i, previous)
    ensures i < maxPoints - 3 ==> Pick(ys, maxPoints, i, previous) < Start(|ys|, maxPoints, i + 1)
  {
    EdgesOrdered(1, i + 1, |ys| - 2, maxPoints - 2);
    PickIsLargest(ys, maxPoints, i, previous);
    BucketShape(|ys|, maxPoints, i);
    hide Edge, Pick, Target, Area;
  }

  lemma PickIsFromBucket(ys: seq<real>, maxPoints: nat, i: nat)
    requires 3 <= maxPoints < |ys| && i < maxPoints - 2
    ensures PickedFrom(ys, maxPoints, SampledIndices(ys, maxPoints), i)
  {
    hide Edge, Start, Pick, Picks, IsFirstLargest;
    var ps := Picks(ys, maxPoints, maxPoints - 2);
    PicksFollowBuckets(ys, maxPoints, maxPoints - 2, i);
    PickIsLargest(ys, maxPoints, i, ps[i]);
    PickInBucket(ys, maxPoints, i, ps[i]);
    if i > 0 {
      PicksFollowBuckets(ys, maxPoints, maxPoints - 2, i - 1);
      PickInBucket(ys, maxPoints, i - 1, ps[i - 1]);
    } else {
      BucketShape(|ys|, maxPoints, i);
    }
  }

  lemma {:induction false} PicksIncrease(ys: seq<real>, maxPoints: nat, i: nat, j: nat)
    requires 3 <= maxPoints < |ys| && i < j <= maxPoints - 2
    ensures SampledIndices(ys, maxPoints)[i] < SampledIndices(ys, maxPoints)[j]
  {
    hide SampledIndices, IsFirstLargest, Start;
    PickIsFromBucket(ys, maxPoints, j - 1);
    if i < j - 1 { PicksIncrease(ys, maxPoints, i, j - 1); }
  }

  /**
   * The decimated series has maxPoints rows. It starts with row 0 and ends with the last row,
   * twice; up to its first copy the indices strictly increase, one from each bucket. Rows 1 up to
   * the first bucket are never taken.
   */
  lemma DecimationPicks(ys: seq<real>, maxPoints: nat)
    requires 3 <= maxPoints < |ys|
    ensures var ps := SampledIndices(ys, maxPoints);
      && |ps| == maxPoints && ps[0] == 0
      && ps[maxPoints - 2] == ps[maxPoints - 1] == |ys| - 1
      && (forall i: nat, j: nat | i < j <= maxPoints - 2 :: ps[i] < ps[j])
      && (forall i: nat | i < maxPoints - 2 :: PickedFrom(ys, maxPoints, ps, i))
      && (forall p: nat | p in ps && p > 0 :: p >= Start(|ys|, maxPoints, 0) >= 2)
  {
    var ps := SampledIndices(ys, maxPoints);
    PicksFollowBuckets(ys, maxPoints, maxPoints - 2, 0);
    BucketShape(|ys|, maxPoints, 0);
    hide Edge, IsFirstLargest, Picks, Start;
    forall i: nat, j: nat | i < j <= maxPoints - 2 ensures ps[i] < ps[j] {
      PicksIncrease(ys, maxPoints, i, j);
    }
    forall i: nat | i < maxPoints - 2 ensures PickedFrom(ys, maxPoints, ps, i) {
      PickIsFromBucket(ys, maxPoints, i);
    }
    assert PickedFrom(ys, maxPoints, ps, maxPoints - 3);
    forall k: nat | 0 < k < |ps| ensures ps[k] >= Start(|ys|, maxPoints, 0) {
      if k < maxPoints - 1 { assert PickedFrom(ys, maxPoints, ps, k - 1); }
    }
  }
}
