/** Reading the live line at a time: binary search for the segment, then interpolation. */
module LiveCursor {
  import opened Arithmetic
  import opened LiveRange
  import opened Wrappers

  /** Points `i` and `i + 1` bracket the time. */
  predicate Brackets(points: seq<Point>, time: real, i: nat) {
    i + 1 < |points| && points[i].time <= time < points[i + 1].time
  }

  function Line(p1: Point, p2: Point, time: real): real
    requires p1.time != p2.time
  {
    p1.value + (p2.value - p1.value) * ((time - p1.time) / (p2.time - p1.time))
  }

  /** The line over segment `i`. */
  function OnSegment(points: seq<Point>, time: real, i: nat): real
    requires Brackets(points, time, i)
  {
    Line(points[i], points[i + 1], time)
  }

  ghost predicate Sorted(points: seq<Point>) {
    forall i, j | 0 <= i < j < |points| :: points[i].time <= points[j].time
  }

  /** The first segment, from `i` on, that ends after the time. */
  function Scan(points: seq<Point>, time: real, i: nat): (k: nat)
    requires i < |points| && time < points[|points| - 1].time && points[i].time <= time
    ensures i <= k && Brackets(points, time, k)
    ensures forall j: nat | i < j <= k :: points[j].time <= time
    decreases |points| - i
  {
    if time < points[i + 1].time then i else Scan(points, time, i + 1)
  }

  /** Piecewise linear interpolation by linear scan, constant beyond both ends. */
  function Interpolated(points: seq<Point>, time: real): Option<real> {
    if points == [] then None
    else if time <= points[0].time then Some(points[0].value)
    else if time >= points[|points| - 1].time then Some(points[|points| - 1].value)
    else Some(OnSegment(points, time, Scan(points, time, 0)))
  }

  /** In time order at most one segment brackets a time. */
  lemma BracketIsUnique(points: seq<Point>, time: real, i: nat, j: nat)
    requires Sorted(points) && Brackets(points, time, i) && Brackets(points, time, j)
    ensures i == j
  {
    hide Sorted;
    if i < j { TimesOrdered(points, i + 1, j); }
    if j < i { TimesOrdered(points, j + 1, i); }
  }

  lemma TimesOrdered(points: seq<Point>, i: nat, j: nat)
    requires Sorted(points) && i <= j < |points|
    ensures points[i].time <= points[j].time
  {
  }

  /**
   * In any order, the answer past the ends is on a segment that brackets the time (so the
   * source's guard against a zero time difference never fires); in time order it is the linear
   * scan's.
   */
  method InterpolateAtTime(points: seq<Point>, timeSec: real) returns (r: Option<real>)
    ensures r == None <==> points == []
    ensures points != [] && timeSec <= points[0].time ==> r == Some(points[0].value)
    ensures points != [] && points[0].time < timeSec && points[|points| - 1].time <= timeSec ==> r == Some(points[|points| - 1].value)
    ensures points != [] && points[0].time < timeSec < points[|points| - 1].time ==>
      exists i: nat :: Brackets(points, timeSec, i) && r == Some(OnSegment(points, timeSec, i))
    ensures Sorted(points) ==> r == Interpolated(points, timeSec)
  {
    if |points| == 0 {
      return None;
    }
    var firstPt, lastPt := points[0], points[|points| - 1];
    if timeSec <= firstPt.time {
      return Some(firstPt.value);
    }
    if timeSec >= lastPt.time {
      return Some(lastPt.value);
    }
    var lo, hi := 0, |points| - 1;
    while hi - lo > 1
      invariant 0 <= lo < hi < |points|
      invariant points[lo].time <= timeSec < points[hi].time
    {
      var mid := (lo + hi) / 2;
      if points[mid].time <= timeSec {
        lo := mid;
      } else {
        hi := mid;
      }
    }
    var p1, p2 := points[lo], points[hi];
    var dt := p2.time - p1.time;
    if dt == 0.0 {
      return Some(p1.value);
    }
    assert Brackets(points, timeSec, lo);
    if Sorted(points) { BracketIsUnique(points, timeSec, lo, Scan(points, timeSec, 0)); }
    hide Line, Sorted;
    r := Some(Line(p1, p2, timeSec));
    assert r == Some(OnSegment(points, timeSec, lo));
  }

  lemma Share(x: real, d: real) returns (t: real)
    requires 0.0 <= x < d
    ensures t == x / d && t * d == x && 0.0 <= t < 1.0
  {
    t := x / d;
    Unscale(t, x, d);
  }

  lemma Unscale(t: real, x: real, d: real)
    requires t * d == x && 0.0 <= x < d
    ensures 0.0 <= t < 1.0
  {
  }

  /** On a segment the line stays between the two end values. */
  lemma SegmentStaysBetween(points: seq<Point>, time: real, i: nat)
    requires Brackets(points, time, i)
    ensures var a, b := points[i].value, points[i + 1].value;
      a <= OnSegment(points, time, i) <= b || b <= OnSegment(points, time, i) <= a
  {
    var p1, p2 := points[i], points[i + 1];
    var t := Share(time - p1.time, p2.time - p1.time);
    Portion(p1.value, p2.value, t);
    assert OnSegment(points, time, i) == p1.value + (p2.value - p1.value) * t;
    hide *;
  }

  lemma Portion(a: real, b: real, t: real)
    requires 0.0 <= t < 1.0
    ensures a <= a + (b - a) * t <= b || b <= a + (b - a) * t <= a
  {
    var x := b - a;
    assert x * t + x * (1.0 - t) == x;
    if x >= 0.0 {
      Nonnegative(x, t);
      Nonnegative(x, 1.0 - t);
    } else {
      Nonnegative(-x, t);
      Nonnegative(-x, 1.0 - t);
      assert -x * t == -(x * t) && -x * (1.0 - t) == -(x * (1.0 - t));
    }
  }

  /** On a segment the reading rises in proportion to the time since its first point, up to its second one. */
  lemma SegmentIsStraight(points: seq<Point>, time: real, i: nat)
    requires Brackets(points, time, i)
    ensures (OnSegment(points, time, i) - points[i].value) * (points[i + 1].time - points[i].time)
         == (points[i + 1].value - points[i].value) * (time - points[i].time)
  {
    var p1, p2 := points[i], points[i + 1];
    var t := Share(time - p1.time, p2.time - p1.time);
    assert OnSegment(points, time, i) == p1.value + (p2.value - p1.value) * t;
    Proportional(p2.value - p1.value, t, p2.time - p1.time, time - p1.time);
    hide *;
  }

  lemma Proportional(rise: real, t: real, d: real, x: real)
    requires t * d == x
    ensures (rise * t) * d == rise * x
  {
    assert (rise * t) * d == rise * (t * d);
  }

  /** In time order, every reading between the ends lies on the straight line between the two points around it. */
  lemma ReadingIsOnLine(points: seq<Point>, time: real, i: nat)
    requires Sorted(points) && Brackets(points, time, i) && points[0].time < time
    ensures Interpolated(points, time).Some?
    ensures (Interpolated(points, time).value - points[i].value) * (points[i + 1].time - points[i].time)
         == (points[i + 1].value - points[i].value) * (time - points[i].time)
  {
    TimesOrdered(points, i + 1, |points| - 1);
    BracketIsUnique(points, time, i, Scan(points, time, 0));
    SegmentIsStraight(points, time, i);
    hide OnSegment, Sorted;
  }

  /** Between the ends the reading never leaves the range of the data values. */
  lemma ReadingStaysInRange(points: seq<Point>, time: real)
    requires |points| >= 1
    ensures Interpolated(points, time).Some?
    ensures Min(points) <= Interpolated(points, time).value <= Max(points)
  {
    MinMaxBound(points, 0);
    MinMaxBound(points, |points| - 1);
    if points[0].time < time < points[|points| - 1].time {
      var k := Scan(points, time, 0);
      SegmentStaysBetween(points, time, k);
      MinMaxBound(points, k);
      MinMaxBound(points, k + 1);
      hide OnSegment, Min, Max;
    }
  }

  /** The line passes through its points: of those at one time, the last one, or the first at the left end. */
  lemma PassesThrough(points: seq<Point>, k: nat)
    requires Sorted(points) && k < |points|
    requires k == 0 || points[0].time < points[k].time
    requires 0 < k < |points| - 1 ==> points[k].time < points[k + 1].time
    ensures Interpolated(points, points[k].time) == Some(points[k].value)
  {
    if 0 < k < |points| - 1 {
      var time := points[k].time;
      assert points[k + 1].time <= points[|points| - 1].time;
      BracketIsUnique(points, time, k, Scan(points, time, 0));
      var t := Share(0.0, points[k + 1].time - time);
    }
  }
}
