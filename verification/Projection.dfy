/** The chart's projection: anchor, cadence, slope and the points ahead, over exact arithmetic. */
module Projection {
  import opened Arithmetic
  import opened LeastSquares
  import opened Wrappers

  /** A data row after its date (whole milliseconds) and value have been read, where readable. */
  datatype Row = Row(date: Option<int>, value: Option<real>)

  datatype Projected = Projected(date: int, value: real)

  datatype AutoMethod = LinearRegression | LastSegment

  datatype Density = Stepped | Endpoints

  datatype Mode = Auto | ToTarget | Manual

  // ----- anchor and cadence -----

  function Clamp(x: int, n: nat): (k: nat)
    requires n >= 1
    ensures k < n && (0 <= x < n ==> k == x)
  {
    if x < 0 then 0 else if x < n then x else n - 1
  }

  function StartIndex(n: nat, startIndex: Option<real>): (k: nat)
    requires n >= 1
    ensures k < n
  {
    match startIndex
    case None => n - 1
    case Some(x) => Clamp(x.Floor, n)
  }

  /** The time from row `i` to row `j`, when both dates are readable and it is positive. */
  function Gap(rows: seq<Row>, i: nat, j: nat): Option<int>
    requires i < |rows| && j < |rows|
  {
    if rows[i].date.Some? && rows[j].date.Some? && rows[j].date.value > rows[i].date.value
    then Some(rows[j].date.value - rows[i].date.value)
    else None
  }

  /** The step to the anchor row, else the mean step of the series, else a day. */
  function Interval(rows: seq<Row>, k: nat): (ms: real)
    requires k < |rows|
    ensures ms > 0.0
  {
    if k >= 1 && Gap(rows, k - 1, k).Some? then Gap(rows, k - 1, k).value as real
    else if |rows| >= 2 && Gap(rows, 0, |rows| - 1).Some? then
      MeanIsPositive(Gap(rows, 0, |rows| - 1).value, |rows| - 1);
      Gap(rows, 0, |rows| - 1).value as real / (|rows| - 1) as real
    else 86400000.0
  }

  lemma MeanIsPositive(span: int, n: nat)
    requires span > 0 && n >= 1
    ensures span as real / n as real > 0.0
  {
  }

  /** Rows whose readable dates are `d` apart throughout. */
  ghost predicate Even(rows: seq<Row>, first: int, d: int) {
    forall i: nat | i < |rows| :: rows[i].date == Some(first + i * d)
  }

  lemma EvenSpan(n: nat, d: int)
    requires n >= 1
    ensures (n * d) as real / n as real == d as real
  {
    assert (n * d) as real == n as real * d as real;
  }

  /** On evenly dated rows the cadence is their step, whichever row is the anchor. */
  lemma EvenCadence(rows: seq<Row>, first: int, d: int, k: nat)
    requires Even(rows, first, d) && d > 0 && k < |rows| && |rows| >= 2
    ensures Interval(rows, k) == d as real
  {
    var n := |rows| - 1;
    assert rows[0].date == Some(first + 0 * d) && rows[n].date == Some(first + n * d);
    if k >= 1 {
      assert rows[k - 1].date == Some(first + (k - 1) * d) && rows[k].date == Some(first + k * d);
      assert k * d == (k - 1) * d + d;
    } else {
      assert n * d > 0 by { assert n * d == (n - 1) * d + d && (n - 1) * d >= 0; }
      EvenSpan(n, d);
    }
  }

  /** The next projected date on evenly dated rows is where the next row would be. */
  lemma EvenDatesContinue(rows: seq<Row>, first: int, d: int, k: nat, i: nat)
    requires Even(rows, first, d) && d > 0 && k < |rows| && |rows| >= 2
    ensures rows[k].date.Some? && DateAhead(rows[k].date.value, Interval(rows, k), i) == first + (k + i) * d
  {
    EvenCadence(rows, first, d, k);
    var t := first + k * d;
    assert rows[k].date == Some(t);
    assert d as real * i as real == (d * i) as real;
    ClipOfWhole(t + d * i);
    assert (k + i) * d == k * d + d * i;
    hide Interval, Clip, Even;
  }

  /** The readable points among the first `n` rows. */
  function History(rows: seq<Row>, n: nat): seq<Point>
    requires n <= |rows|
  {
    if n == 0 then []
    else
      var front := History(rows, n - 1);
      match (rows[n - 1].date, rows[n - 1].value)
      case (Some(t), Some(y)) => front + [Point(t, y)]
      case _ => front
  }

  // ----- the points ahead -----

  function AnchorSlope(autoMethod: AutoMethod, history: seq<Point>): real {
    if autoMethod == LastSegment && |history| >= 2 then
      var prev, last := history[|history| - 2], history[|history| - 1];
      if last.t - prev.t == 0 then 0.0 else (last.y - prev.y) / (last.t - prev.t) as real
    else Slope(history)
  }

  /** A Date keeps whole milliseconds, cutting towards zero. */
  function Clip(time: real): int {
    if time >= 0.0 then time.Floor else -((-time).Floor)
  }

  /** The time `i` intervals past the anchor. */
  function TimeAhead(anchorTime: int, intervalMs: real, i: int): real {
    anchorTime as real + intervalMs * i as real
  }

  function DateAhead(anchorTime: int, intervalMs: real, i: int): int {
    Clip(TimeAhead(anchorTime, intervalMs, i))
  }

  /** What the line through the anchor gives `i` intervals on. */
  function StepAt(anchorTime: int, anchorValue: real, slope: real, intervalMs: real, i: int): Projected {
    Projected(DateAhead(anchorTime, intervalMs, i), anchorValue + slope * intervalMs * i as real)
  }

  ghost predicate IsAutoPath(
    path: seq<Projected>, anchorTime: int, anchorValue: real, slope: real, horizonPoints: int, intervalMs: real, density: Density)
  {
    && |path| == (if density == Endpoints then 2 else if horizonPoints >= 0 then horizonPoints + 1 else 1)
    && path[0] == Projected(anchorTime, anchorValue)
    && (density == Endpoints ==> path[1] == StepAt(anchorTime, anchorValue, slope, intervalMs, horizonPoints))
    && (density == Stepped ==>
          forall i | 1 <= i < |path| :: path[i] == StepAt(anchorTime, anchorValue, slope, intervalMs, i))
  }

  method BuildAutoFutureValues(
    anchorTime: int, anchorValue: real, autoMethod: AutoMethod, history: seq<Point>, horizonPoints: int,
    intervalMs: real, density: Density)
    returns (result: seq<Projected>)
    ensures IsAutoPath(result, anchorTime, anchorValue, AnchorSlope(autoMethod, history), horizonPoints, intervalMs, density)
  {
    var slope := 0.0;
    if autoMethod == LastSegment && |history| >= 2 {
      var prev, last := history[|history| - 2], history[|history| - 1];
      var dt := last.t - prev.t;
      slope := if dt == 0 then 0.0 else (last.y - prev.y) / dt as real;
    } else {
      slope := LinearRegressionSlope(history);
    }
    assert slope == AnchorSlope(autoMethod, history);
    hide AnchorSlope, StepAt;
    if density == Endpoints {
      return [Projected(anchorTime, anchorValue), StepAt(anchorTime, anchorValue, slope, intervalMs, horizonPoints)];
    }
    result := [Projected(anchorTime, anchorValue)];
    var i := 1;
    while i <= horizonPoints
      invariant 1 <= i == |result| && (i <= horizonPoints + 1 || i == 1)
      invariant result[0] == Projected(anchorTime, anchorValue)
      invariant forall j | 1 <= j < i :: result[j] == StepAt(anchorTime, anchorValue, slope, intervalMs, j)
    {
      result := result + [StepAt(anchorTime, anchorValue, slope, intervalMs, i)];
      i := i + 1;
    }
  }

  /** Manual mode without two points, and target mode without a target, project automatically. */
  method BuildProjectionPath(
    rows: seq<Row>, mode: Mode, autoMethod: AutoMethod, density: Density, startIndex: Option<real>,
    horizonPoints: int, endValue: Option<real>, points: seq<Projected>)
    returns (path: seq<Projected>)
    ensures mode == Manual && |points| >= 2 ==> path == points
    ensures !(mode == Manual && |points| >= 2) ==>
      if rows == [] then path == []
      else
        var k := StartIndex(|rows|, startIndex);
        var ms := Interval(rows, k);
        match (rows[k].date, rows[k].value)
        case (Some(t), Some(y)) =>
          if mode == ToTarget && endValue.Some? then
            path == [Projected(t, y), Projected(DateAhead(t, ms, horizonPoints), endValue.value)]
          else IsAutoPath(path, t, y, AnchorSlope(autoMethod, History(rows, k + 1)), horizonPoints, ms, density)
        case _ => path == []
  {
    if mode == Manual && |points| >= 2 {
      return points;
    }
    if |rows| == 0 {
      return [];
    }
    var k := StartIndex(|rows|, startIndex);
    if rows[k].date == None || rows[k].value == None {
      return [];
    }
    var anchorTime, anchorValue := rows[k].date.value, rows[k].value.value;
    var intervalMs := Interval(rows, k);
    hide Interval, IsAutoPath, DateAhead, AnchorSlope;
    var history := [];
    for i := 0 to k + 1
      invariant history == History(rows, i)
    {
      if rows[i].date.Some? && rows[i].value.Some? {
        history := history + [Point(rows[i].date.value, rows[i].value.value)];
      }
    }
    if mode == ToTarget && endValue.Some? {
      return [Projected(anchorTime, anchorValue), Projected(DateAhead(anchorTime, intervalMs, horizonPoints), endValue.value)];
    }
    path := BuildAutoFutureValues(anchorTime, anchorValue, autoMethod, history, horizonPoints, intervalMs, density);
  }

  // ----- a line is continued -----

  function Line(a: real, b: real, time: real): real {
    a * time + b
  }

  ghost predicate OnLine(points: seq<Point>, a: real, b: real) {
    forall i | 0 <= i < |points| :: points[i].y == Line(a, b, points[i].t as real)
  }

  lemma {:induction false} NoErrors(points: seq<Point>, a: real, b: real)
    requires OnLine(points, a, b)
    ensures Residuals(points, a, b) == 0.0
  {
    if points != [] {
      NoErrors(points[..|points| - 1], a, b);
      assert Error(points[|points| - 1], a, b) == 0.0;
    }
  }

  lemma SquaresAreNonnegative(points: seq<Point>, a: real, b: real)
    ensures Residuals(points, a, b) >= 0.0
  {
    forall p ensures SquaredErrorOf(a, b)(p) >= 0.0 {
      var e := Error(p, a, b);
      assert e * e >= 0.0;
    }
    NonnegativeSum(points, SquaredErrorOf(a, b));
  }

  /** The regression of points on a line is that line, being the only one without residuals. */
  lemma RegressionFindsLine(points: seq<Point>, a: real, b: real)
    requires OnLine(points, a, b) && !SameTime(points)
    ensures Slope(points) == a
  {
    hide *;
    NoErrors(points, a, b);
    SquaresAreNonnegative(points, Slope(points), Intercept(points, Slope(points)));
    SlopeMinimisesResiduals(points, a, b);
  }

  lemma SegmentFindsLine(a: real, b: real, t: int, u: int)
    requires t != u
    ensures (Line(a, b, u as real) - Line(a, b, t as real)) / (u - t) as real == a
  {
    var d := (u - t) as real;
    assert Line(a, b, u as real) - Line(a, b, t as real) == a * d;
  }

  /** Whether the method sees two different times to go by. */
  ghost predicate HasSlope(autoMethod: AutoMethod, history: seq<Point>) {
    if autoMethod == LastSegment && |history| >= 2
    then history[|history| - 2].t != history[|history| - 1].t
    else !SameTime(history)
  }

  lemma AnchorSlopeOfLine(autoMethod: AutoMethod, history: seq<Point>, a: real, b: real)
    requires OnLine(history, a, b)
    ensures HasSlope(autoMethod, history) ==> AnchorSlope(autoMethod, history) == a
    ensures !HasSlope(autoMethod, history) ==> AnchorSlope(autoMethod, history) == 0.0
  {
    var n := |history|;
    if autoMethod == LastSegment && n >= 2 {
      if HasSlope(autoMethod, history) {
        SegmentFindsLine(a, b, history[n - 2].t, history[n - 1].t);
      }
    } else if HasSlope(autoMethod, history) {
      RegressionFindsLine(history, a, b);
    } else {
      GuardFiresIffSameTime(history);
      assert n >= 2 ==> Slope(history) == SlopeFrom(n, SumT(history), SumTT(history), SumY(history), SumTY(history));
    }
  }

  lemma AnchorEndsHistory(rows: seq<Row>, k: nat)
    requires k < |rows| && rows[k].date.Some? && rows[k].value.Some?
    ensures var h := History(rows, k + 1);
      h != [] && h[|h| - 1] == Point(rows[k].date.value, rows[k].value.value)
  {
  }

  lemma StepOnLine(a: real, b: real, t: int, y: real, slope: real, ms: real, i: int)
    requires y == Line(a, b, t as real)
    ensures slope == a ==> StepAt(t, y, slope, ms, i).value == Line(a, b, TimeAhead(t, ms, i))
    ensures slope == 0.0 ==> StepAt(t, y, slope, ms, i).value == y
  {
    hide DateAhead;
    if slope == 0.0 { assert slope * ms == 0.0; }
  }

  lemma HistoryIsContinued(h: seq<Point>, autoMethod: AutoMethod, a: real, b: real, t: int, y: real, ms: real, i: int)
    requires OnLine(h, a, b) && h != [] && h[|h| - 1] == Point(t, y)
    ensures StepAt(t, y, AnchorSlope(autoMethod, h), ms, i).value
         == if HasSlope(autoMethod, h) then Line(a, b, TimeAhead(t, ms, i)) else y
  {
    assert y == Line(a, b, t as real);
    hide *;
    AnchorSlopeOfLine(autoMethod, h, a, b);
    StepOnLine(a, b, t, y, AnchorSlope(autoMethod, h), ms, i);
  }

  /**
   * When the readable history up to the anchor lies on a line, every point of the automatic
   * path, by either method and at either density, lies on that line too; with no two times to
   * tell the line from, the path is flat.
   */
  lemma {:induction false} LineIsContinued(rows: seq<Row>, k: nat, autoMethod: AutoMethod, a: real, b: real, i: int)
    requires k < |rows| && rows[k].date.Some? && rows[k].value.Some?
    requires OnLine(History(rows, k + 1), a, b)
    ensures var t, y := rows[k].date.value, rows[k].value.value;
      var h, ms := History(rows, k + 1), Interval(rows, k);
      StepAt(t, y, AnchorSlope(autoMethod, h), ms, i).value
      == if HasSlope(autoMethod, h) then Line(a, b, TimeAhead(t, ms, i)) else y
  {
    hide *;
    AnchorEndsHistory(rows, k);
    HistoryIsContinued(
      History(rows, k + 1), autoMethod, a, b, rows[k].date.value, rows[k].value.value, Interval(rows, k), i);
  }

  /** The endpoint path is the first and the last point of the stepped one. */
  lemma EndpointsAreEnds(
    stepped: seq<Projected>, ends: seq<Projected>, t: int, y: real, slope: real, horizonPoints: int, ms: real)
    requires IsAutoPath(stepped, t, y, slope, horizonPoints, ms, Stepped)
    requires IsAutoPath(ends, t, y, slope, horizonPoints, ms, Endpoints)
    ensures ends[0] == stepped[0]
    ensures horizonPoints >= 0 ==> ends[1] == stepped[|stepped| - 1]
  {
    NoStep(t, y, slope, ms);
    hide StepAt;
  }

  lemma NoStep(t: int, y: real, slope: real, ms: real)
    ensures StepAt(t, y, slope, ms, 0) == Projected(t, y)
  {
    assert slope * ms * 0.0 == 0.0;
    ClipOfWhole(t);
    hide Clip;
  }

  lemma ClipOfWhole(t: int)
    ensures Clip(t as real) == t
  {
  }

  // ----- anchor, cadence and slope on any rows -----

  /** The anchor is the last row unless an index is given; then it is the last row not after it, or the first row. */
  lemma AnchorIsLastNotAfter(n: nat, startIndex: Option<real>, k: nat)
    requires k < n
    ensures startIndex.None? ==> (StartIndex(n, startIndex) == k <==> k == n - 1)
    ensures startIndex.Some? ==>
      (StartIndex(n, startIndex) == k
       <==> (k == 0 || k as real <= startIndex.value) && (k == n - 1 || startIndex.value < k as real + 1.0))
  {
  }

  /** Both rows have a date, the second one later. */
  predicate Later(rows: seq<Row>, i: nat, j: nat)
    requires i < |rows| && j < |rows|
  {
    rows[i].date.Some? && rows[j].date.Some? && rows[i].date.value < rows[j].date.value
  }

  /** The times from each row to the next. */
  function Steps(rows: seq<Row>): seq<real>
    requires forall i: nat | i < |rows| :: rows[i].date.Some?
  {
    if |rows| < 2 then []
    else
      var n := |rows| - 1;
      Steps(rows[..n]) + [(rows[n].date.value - rows[n - 1].date.value) as real]
  }

  lemma {:induction false} StepsTelescope(rows: seq<Row>)
    requires forall i: nat | i < |rows| :: rows[i].date.Some?
    requires |rows| >= 1
    ensures |Steps(rows)| == |rows| - 1
    ensures SumOf(Steps(rows)) == (rows[|rows| - 1].date.value - rows[0].date.value) as real
    decreases |rows|
  {
    if |rows| >= 2 {
      var n := |rows| - 1;
      StepsTelescope(rows[..n]);
      SumOfSnoc(Steps(rows[..n]), (rows[n].date.value - rows[n - 1].date.value) as real);
    }
  }

  lemma MeanTimesCount(span: real, n: nat)
    requires n >= 1
    ensures span / n as real * n as real == span
  {
  }

  /**
   * On any rows the cadence is the step into the anchor if that is forward in time, otherwise the
   * mean step from the first row to the last if that is, otherwise a day of 24 hours.
   */
  lemma CadenceOnAnyRows(rows: seq<Row>, k: nat)
    requires k < |rows|
    ensures k >= 1 && Later(rows, k - 1, k) ==>
      rows[k - 1].date.value as real + Interval(rows, k) == rows[k].date.value as real
    ensures !(k >= 1 && Later(rows, k - 1, k)) && Later(rows, 0, |rows| - 1) ==>
      |rows| >= 2
      && rows[0].date.value as real + Interval(rows, k) * (|rows| - 1) as real == rows[|rows| - 1].date.value as real
    ensures !(k >= 1 && Later(rows, k - 1, k)) && !Later(rows, 0, |rows| - 1) ==> Interval(rows, k) == 24.0 * 3600000.0
  {
    var n := |rows| - 1;
    hide Clamp;
    if !(k >= 1 && Later(rows, k - 1, k)) && Later(rows, 0, n) {
      SpanCadence(rows, k, (rows[n].date.value - rows[0].date.value) as real, n);
    }
  }

  lemma SpanCadence(rows: seq<Row>, k: nat, span: real, n: nat)
    requires k < |rows| == n + 1 && !(k >= 1 && Later(rows, k - 1, k)) && Later(rows, 0, n)
    requires span == (rows[n].date.value - rows[0].date.value) as real
    ensures n >= 1 && Interval(rows, k) * n as real == span
  {
    assert Interval(rows, k) == span / n as real;
    hide Interval;
    MeanTimesCount(span, n);
  }

  /** That mean is the mean of all the steps between consecutive rows. */
  lemma MeanCadence(rows: seq<Row>, k: nat)
    requires k < |rows| && !(k >= 1 && Later(rows, k - 1, k)) && Later(rows, 0, |rows| - 1)
    requires forall i: nat | i < |rows| :: rows[i].date.Some?
    ensures |Steps(rows)| == |rows| - 1 && Interval(rows, k) * |Steps(rows)| as real == SumOf(Steps(rows))
  {
    StepsTelescope(rows);
    CadenceOnAnyRows(rows, k);
    hide Interval, Steps, SumOf;
  }

  /**
   * On any history: the last segment's slope takes its first point to its second, and is 0 when
   * they coincide in time; the regression's slope leaves no larger residuals than any line does,
   * and is 0 when all points coincide in time.
   */
  lemma AnchorSlopeOfAny(autoMethod: AutoMethod, history: seq<Point>, a: real, b: real)
    ensures !HasSlope(autoMethod, history) ==> AnchorSlope(autoMethod, history) == 0.0
    ensures autoMethod == LastSegment && |history| >= 2 ==>
      var p, q := history[|history| - 2], history[|history| - 1];
      p.t != q.t ==> p.y + AnchorSlope(autoMethod, history) * (q.t - p.t) as real == q.y
    ensures (autoMethod == LinearRegression || |history| < 2) && !SameTime(history) ==>
      var slope := AnchorSlope(autoMethod, history);
      Residuals(history, slope, Intercept(history, slope)) <= Residuals(history, a, b)
  {
    var n := |history|;
    if autoMethod == LastSegment && n >= 2 {
      if history[n - 2].t != history[n - 1].t {
        SegmentSlope(history[n - 1].y - history[n - 2].y, (history[n - 1].t - history[n - 2].t) as real);
      }
    } else if SameTime(history) {
      NoSlope(history);
    } else {
      SlopeMinimisesResiduals(history, a, b);
    }
    hide Slope, Residuals, Intercept, SameTime;
  }

  lemma NoSlope(history: seq<Point>)
    requires SameTime(history)
    ensures Slope(history) == 0.0
  {
    GuardFiresIffSameTime(history);
    var n := |history|;
    assert n >= 2 ==> Slope(history) == SlopeFrom(n, SumT(history), SumTT(history), SumY(history), SumTY(history));
  }

  lemma SegmentSlope(rise: real, run: real)
    requires run != 0.0
    ensures rise / run * run == rise
  {
  }

  /**
   * Every projected point: its value lies on the ray from the anchor with the given slope, over
   * the time `i` intervals on, and its date is that time cut to a whole millisecond towards zero.
   */
  lemma StepIsOnRay(t: int, y: real, slope: real, ms: real, i: int)
    ensures var time, p := t as real + ms * i as real, StepAt(t, y, slope, ms, i);
      && p.value - y == slope * (time - t as real)
      && (time >= 0.0 ==> p.date >= 0 && p.date as real <= time < p.date as real + 1.0)
      && (time < 0.0 ==> p.date <= 0 && p.date as real - 1.0 < time <= p.date as real)
  {
    var time := t as real + ms * i as real;
    assert slope * ms * i as real == slope * (ms * i as real);
    ClipIsNear(time);
    hide Clip;
  }

  lemma ClipIsNear(time: real)
    ensures time >= 0.0 ==> Clip(time) >= 0 && Clip(time) as real <= time < Clip(time) as real + 1.0
    ensures time < 0.0 ==> Clip(time) <= 0 && Clip(time) as real - 1.0 < time <= Clip(time) as real
  {
  }
}
