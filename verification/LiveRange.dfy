/** The animated y-range of the live line chart, over exact arithmetic. */
module LiveRange {
  import opened Arithmetic

  datatype Point = Point(time: real, value: real)

  datatype Range = Range(yMin: real, yMax: real)

  /** One animation frame; the clock it also carries does not affect the rest. */
  datatype Frame = Frame(yMin: real, yMax: real, displayValue: real)

  // ----- the target range -----

  function Min(data: seq<Point>): real
    requires |data| >= 1
  {
    var last := data[|data| - 1].value;
    if |data| == 1 then last
    else
      var m := Min(data[..|data| - 1]);
      if last < m then last else m
  }

  function Max(data: seq<Point>): real
    requires |data| >= 1
  {
    var last := data[|data| - 1].value;
    if |data| == 1 then last
    else
      var m := Max(data[..|data| - 1]);
      if last > m then last else m
  }

  /** A zero range gets a fixed pad; any other a share of itself. */
  function Pad(rawRange: real, exaggerate: bool): real {
    var scaled := rawRange * (if exaggerate then 0.03 else 0.15);
    if scaled != 0.0 then scaled else if exaggerate then 0.04 else 10.0
  }

  function Target(data: seq<Point>, value: real, exaggerate: bool): Range {
    if data == [] then Range(0.0, 100.0)
    else
      var lo := if value < Min(data) then value else Min(data);
      var hi := if value > Max(data) then value else Max(data);
      Range(lo - Pad(hi - lo, exaggerate), hi + Pad(hi - lo, exaggerate))
  }

  method ComputeTargetRange(data: seq<Point>, value: real, exaggerate: bool) returns (r: Range)
    ensures r == Target(data, value, exaggerate)
  {
    if |data| == 0 {
      return Range(0.0, 100.0);
    }
    // The first comparison of the loop replaces the infinities it starts from.
    var min, max := data[0].value, data[0].value;
    for i := 0 to |data|
      invariant i == 0 ==> min == max == data[0].value
      invariant i > 0 ==> min == Min(data[..i]) && max == Max(data[..i])
    {
      assert data[..i + 1][..i] == data[..i];
      if data[i].value < min { min := data[i].value; }
      if data[i].value > max { max := data[i].value; }
    }
    assert data[..|data|] == data;
    if value < min { min := value; }
    if value > max { max := value; }
    var rangePad := Pad(max - min, exaggerate);
    r := Range(min - rangePad, max + rangePad);
  }

  ghost predicate Inside(v: real, yMin: real, yMax: real) {
    yMin < v < yMax
  }

  lemma {:induction false} MinMaxBound(data: seq<Point>, k: nat)
    requires k < |data|
    ensures Min(data) <= data[k].value <= Max(data)
  {
    if k < |data| - 1 {
      MinMaxBound(data[..|data| - 1], k);
    }
  }

  lemma {:induction false} MinMaxAttained(data: seq<Point>)
    requires |data| >= 1
    ensures exists p :: p in data && p.value == Min(data)
    ensures exists p :: p in data && p.value == Max(data)
  {
    var front, last := data[..|data| - 1], data[|data| - 1];
    assert last in data;
    if |data| > 1 {
      MinMaxAttained(front);
      var p :| p in front && p.value == Min(front);
      var q :| q in front && q.value == Max(front);
      assert p in data && q in data;
    }
  }

  lemma PadIsPositive(rawRange: real, exaggerate: bool)
    requires rawRange >= 0.0
    ensures Pad(rawRange, exaggerate) > 0.0
  {
  }

  /** The pad is 15 hundredths of a range, 3 hundredths when exaggerated; of no range it is 10, or 4 hundredths. */
  lemma PadIsShare(rawRange: real, exaggerate: bool)
    ensures rawRange != 0.0 && !exaggerate ==> 100.0 * Pad(rawRange, exaggerate) == 15.0 * rawRange
    ensures rawRange != 0.0 && exaggerate ==> 100.0 * Pad(rawRange, exaggerate) == 3.0 * rawRange
    ensures rawRange == 0.0 ==> 100.0 * Pad(rawRange, exaggerate) == if exaggerate then 4.0 else 1000.0
  {
  }

  /** So the target is 1.3 times as high as what it shows, or 1.06 times when exaggerated, and centred on it. */
  lemma TargetHeight(data: seq<Point>, value: real, exaggerate: bool) returns (lo: real, hi: real)
    requires |data| >= 1
    ensures lo <= value <= hi && (forall p | p in data :: lo <= p.value <= hi)
    ensures (lo == value || exists p :: p in data && p.value == lo) && (hi == value || exists p :: p in data && p.value == hi)
    ensures var r := Target(data, value, exaggerate);
      && r.yMin + r.yMax == lo + hi
      && (lo < hi ==> 100.0 * (r.yMax - r.yMin) == (if exaggerate then 106.0 else 130.0) * (hi - lo))
      && (lo == hi ==> r.yMax - r.yMin == if exaggerate then 0.08 else 20.0)
  {
    lo, hi := TargetIsTight(data, value, exaggerate);
    PadIsShare(hi - lo, exaggerate);
    hide Pad, Target;
  }

  /** With data, the target range holds every data value and the live value strictly inside. */
  lemma TargetHoldsData(data: seq<Point>, value: real, exaggerate: bool)
    requires |data| >= 1
    ensures var r := Target(data, value, exaggerate);
      && Inside(value, r.yMin, r.yMax)
      && forall p | p in data :: Inside(p.value, r.yMin, r.yMax)
  {
    var lo := if value < Min(data) then value else Min(data);
    var hi := if value > Max(data) then value else Max(data);
    MinMaxBound(data, 0);
    PadIsPositive(hi - lo, exaggerate);
    var r := Target(data, value, exaggerate);
    forall p | p in data ensures Inside(p.value, r.yMin, r.yMax) {
      var k :| 0 <= k < |data| && data[k] == p;
      MinMaxBound(data, k);
    }
  }

  /** ... and no more than its pad beyond them: without the pad it ends at a data or live value on each side. */
  lemma TargetIsTight(data: seq<Point>, value: real, exaggerate: bool) returns (lo: real, hi: real)
    requires |data| >= 1
    ensures lo <= hi && Target(data, value, exaggerate) == Range(lo - Pad(hi - lo, exaggerate), hi + Pad(hi - lo, exaggerate))
    ensures lo == value || exists p :: p in data && p.value == lo
    ensures hi == value || exists p :: p in data && p.value == hi
    ensures lo <= value <= hi && forall p | p in data :: lo <= p.value <= hi
  {
    MinMaxAttained(data);
    lo := if value < Min(data) then value else Min(data);
    hi := if value > Max(data) then value else Max(data);
    forall p | p in data ensures lo <= p.value <= hi {
      var k :| 0 <= k < |data| && data[k] == p;
      MinMaxBound(data, k);
    }
    MinMaxBound(data, 0);
  }

  // ----- one frame -----

  function Lerp(a: real, b: real, speed: real): real {
    a + (b - a) * speed
  }

  /** The range grows to a wider target at once, and otherwise eases towards it. */
  function NextFrame(prev: Frame, target: Range, targetValue: real, speed: real): Frame {
    Frame(
      if target.yMin < prev.yMin then target.yMin else Lerp(prev.yMin, target.yMin, speed),
      if target.yMax > prev.yMax then target.yMax else Lerp(prev.yMax, target.yMax, speed),
      Lerp(prev.displayValue, targetValue, speed))
  }

  /** What a frame is drawn from: the props of that moment. */
  datatype Props = Props(data: seq<Point>, value: real, exaggerate: bool, speed: real)

  function Tick(prev: Frame, p: Props): Frame {
    NextFrame(prev, Target(p.data, p.value, p.exaggerate), p.value, p.speed)
  }

  /** The frame after a run of ticks, the props jumping at will between them. */
  function Run(start: Frame, props: seq<Props>): Frame {
    if props == [] then start else Tick(Run(start, props[..|props| - 1]), props[|props| - 1])
  }

  lemma LerpStaysBelow(a: real, b: real, speed: real)
    requires a <= b && speed <= 1.0
    ensures Lerp(a, b, speed) <= b
  {
    Nonnegative(b - a, 1.0 - speed);
    assert b - Lerp(a, b, speed) == (b - a) * (1.0 - speed);
  }

  lemma LerpStaysAbove(a: real, b: real, speed: real)
    requires a >= b && speed <= 1.0
    ensures Lerp(a, b, speed) >= b
  {
    Nonnegative(a - b, 1.0 - speed);
    assert Lerp(a, b, speed) - b == (a - b) * (1.0 - speed);
  }

  lemma FrameCoversTarget(prev: Frame, target: Range, targetValue: real, speed: real)
    requires speed <= 1.0
    ensures var next := NextFrame(prev, target, targetValue, speed);
      next.yMin <= target.yMin && target.yMax <= next.yMax
  {
    if target.yMin >= prev.yMin { LerpStaysBelow(prev.yMin, target.yMin, speed); }
    if target.yMax <= prev.yMax { LerpStaysAbove(prev.yMax, target.yMax, speed); }
    hide Lerp;
  }

  /** Whatever came before, every frame drawn from data holds all of it and the live value. */
  lemma EveryFrameHoldsItsData(start: Frame, props: seq<Props>, i: nat)
    requires i < |props| && |props[i].data| >= 1 && props[i].speed <= 1.0
    ensures var frame := Run(start, props[..i + 1]);
      && Inside(props[i].value, frame.yMin, frame.yMax)
      && forall p | p in props[i].data :: Inside(p.value, frame.yMin, frame.yMax)
  {
    var p := props[i];
    assert props[..i + 1][..i] == props[..i];
    var target := Target(p.data, p.value, p.exaggerate);
    var before := Run(start, props[..i]);
    assert Run(start, props[..i + 1]) == NextFrame(before, target, p.value, p.speed);
    TargetHoldsData(p.data, p.value, p.exaggerate);
    FrameCoversTarget(before, target, p.value, p.speed);
    hide Target, NextFrame;
  }

  /** The frame after a run holds what it was drawn from. */
  ghost predicate HoldsLast(start: Frame, props: seq<Props>)
    requires props != []
  {
    var f, p := Run(start, props), props[|props| - 1];
    Inside(p.value, f.yMin, f.yMax) && forall q | q in p.data :: Inside(q.value, f.yMin, f.yMax)
  }

  lemma OneMoreTick(start: Frame, props: seq<Props>, p: Props)
    ensures Run(start, props + [p]) == Tick(Run(start, props), p)
    ensures props == [] ==> Run(start, props) == start
  {
    assert (props + [p])[..|props|] == props;
    hide Tick;
  }

  lemma RunOfTwo(start: Frame, p: Props, q: Props)
    ensures Run(start, [p, q]) == Tick(Tick(start, p), q)
  {
    hide *;
    var none: seq<Props> := [];
    OneMoreTick(start, none, p);
    OneMoreTick(start, none + [p], q);
    assert none + [p] + [q] == [p, q];
  }

  function Still(y: real, speed: real): Props {
    Props([Point(0.0, y)], y, false, speed)
  }

  lemma StillTarget(y: real, speed: real)
    ensures Target(Still(y, speed).data, y, false) == Range(y - 10.0, y + 10.0)
  {
  }

  lemma Overshot(speed: real) returns (far: real)
    requires speed > 1.0
    ensures far > 0.0 && Lerp(-far - 10.0, -10.0, speed) == 0.0
  {
    far := QuotientOf(10.0, speed - 1.0);
    if far <= 0.0 { Nonnegative(-far, speed - 1.0); }
    assert Lerp(-far - 10.0, -10.0, speed) == -10.0 + far * (speed - 1.0);
  }

  /** Past speed 1 the range overshoots its target: two ticks from the start of any animation lose a point. */
  lemma OvershootLosesData(speed: real, value: real) returns (props: seq<Props>)
    requires speed > 1.0
    ensures |props| == 2 && forall p | p in props :: p.speed == speed && |p.data| >= 1
    ensures !HoldsLast(Frame(0.0, 100.0, value), props)
  {
    var far := Overshot(speed);
    var p, q := Still(-far, speed), Still(0.0, speed);
    props := [p, q];
    var start := Frame(0.0, 100.0, value);
    RunOfTwo(start, p, q);
    StillTarget(-far, speed);
    StillTarget(0.0, speed);
    hide Target, Run, Lerp;
    assert Tick(start, p).yMin == -far - 10.0;
    assert Tick(Tick(start, p), q).yMin == 0.0;
  }

  /** Every frame of every animation at this speed holds its data if and only if the speed is at most 1. */
  lemma DataIsHeldIffSpeedAtMostOne(speed: real)
    ensures speed <= 1.0 <==>
      forall value: real, props: seq<Props> | props != [] && (forall p | p in props :: p.speed == speed && |p.data| >= 1) ::
        HoldsLast(Frame(0.0, 100.0, value), props)
  {
    if speed <= 1.0 {
      forall value: real, props: seq<Props> | props != [] && (forall p | p in props :: p.speed == speed && |p.data| >= 1)
        ensures HoldsLast(Frame(0.0, 100.0, value), props)
      {
        var n := |props| - 1;
        assert props[n] in props && props[..n + 1] == props;
        EveryFrameHoldsItsData(Frame(0.0, 100.0, value), props, n);
        hide Run, Inside;
      }
    } else {
      var props := OvershootLosesData(speed, 0.0);
      hide HoldsLast;
      assert props != [] && !HoldsLast(Frame(0.0, 100.0, 0.0), props);
    }
  }

  // ----- the dot -----

  ghost predicate DotInRange(f: Frame) {
    f.yMin <= f.displayValue <= f.yMax
  }

  lemma LerpIsMonotone(a: real, b: real, c: real, d: real, speed: real)
    requires a <= c && b <= d && 0.0 <= speed <= 1.0
    ensures Lerp(a, b, speed) <= Lerp(c, d, speed)
  {
    Nonnegative(c - a, 1.0 - speed);
    Nonnegative(d - b, speed);
    assert Lerp(c, d, speed) - Lerp(a, b, speed) == (c - a) * (1.0 - speed) + (d - b) * speed;
  }

  lemma DotStaysInRangeOnce(prev: Frame, target: Range, value: real, speed: real)
    requires 0.0 <= speed <= 1.0 && DotInRange(prev) && target.yMin <= value <= target.yMax
    ensures DotInRange(NextFrame(prev, target, value, speed))
  {
    LerpIsMonotone(prev.yMin, target.yMin, prev.displayValue, value, speed);
    LerpIsMonotone(prev.displayValue, value, prev.yMax, target.yMax, speed);
    if target.yMin < prev.yMin { LerpIsMonotone(target.yMin, target.yMin, prev.displayValue, value, speed); }
    if target.yMax > prev.yMax { LerpIsMonotone(prev.displayValue, value, target.yMax, target.yMax, speed); }
    assert Lerp(target.yMin, target.yMin, speed) == target.yMin && Lerp(target.yMax, target.yMax, speed) == target.yMax;
    hide Lerp;
  }

  /** A dot inside the range never leaves it, however the data and the value jump. */
  lemma {:induction false} DotStaysInRange(start: Frame, props: seq<Props>)
    requires DotInRange(start)
    requires forall p | p in props :: |p.data| >= 1 && 0.0 <= p.speed <= 1.0
    ensures DotInRange(Run(start, props))
  {
    if props != [] {
      var n := |props| - 1;
      var p := props[n];
      DotStaysInRange(start, props[..n]);
      TargetHoldsData(p.data, p.value, p.exaggerate);
      hide Target, NextFrame;
      DotStaysInRangeOnce(Run(start, props[..n]), Target(p.data, p.value, p.exaggerate), p.value, p.speed);
    }
  }

  /** The chart's animation reference, overwritten by every tick. */
  class Animation {
    var frame: Frame

    constructor (value: real)
      ensures frame == Frame(0.0, 100.0, value)
    {
      frame := Frame(0.0, 100.0, value);
    }

    method OnTick(p: Props)
      modifies this
      ensures frame == Tick(old(frame), p)
      ensures |p.data| >= 1 && p.speed <= 1.0 ==> Inside(p.value, frame.yMin, frame.yMax)
      ensures |p.data| >= 1 && p.speed <= 1.0 ==> forall q | q in p.data :: Inside(q.value, frame.yMin, frame.yMax)
    {
      var target := ComputeTargetRange(p.data, p.value, p.exaggerate);
      if |p.data| >= 1 && p.speed <= 1.0 {
        TargetHoldsData(p.data, p.value, p.exaggerate);
        FrameCoversTarget(frame, target, p.value, p.speed);
      }
      hide Target;
      frame := NextFrame(frame, target, p.value, p.speed);
    }
  }

  // ----- settling on a fixed target -----

  function Pow(x: real, n: nat): real {
    if n == 0 then 1.0 else x * Pow(x, n - 1)
  }

  function Repeat(p: Props, n: nat): (ps: seq<Props>)
    ensures |ps| == n
  {
    if n == 0 then [] else Repeat(p, n - 1) + [p]
  }

  /** Frame `f` covers the target, and each of its three distances is `q` times that of `f0`. */
  ghost predicate Decayed(f: Frame, f0: Frame, target: Range, value: real, q: real) {
    && f.yMin <= target.yMin && target.yMax <= f.yMax
    && f.yMin - target.yMin == q * (f0.yMin - target.yMin)
    && f.yMax - target.yMax == q * (f0.yMax - target.yMax)
    && f.displayValue - value == q * (f0.displayValue - value)
  }

  /** One frame over a covered target scales each distance by 1 - speed. */
  lemma FrameDecays(f: Frame, target: Range, value: real, speed: real)
    requires speed <= 1.0 && f.yMin <= target.yMin && target.yMax <= f.yMax
    ensures Decayed(NextFrame(f, target, value, speed), f, target, value, 1.0 - speed)
  {
    FrameCoversTarget(f, target, value, speed);
  }

  lemma Scaled(e: real, e1: real, e0: real, x: real, q: real)
    requires e == x * e1 && e1 == q * e0
    ensures e == (x * q) * e0
  {
  }

  lemma DecayedTwice(f: Frame, f1: Frame, f0: Frame, target: Range, value: real, x: real, q: real, xq: real)
    requires Decayed(f, f1, target, value, x) && Decayed(f1, f0, target, value, q) && xq == x * q
    ensures Decayed(f, f0, target, value, xq)
  {
    Scaled(f.yMin - target.yMin, f1.yMin - target.yMin, f0.yMin - target.yMin, x, q);
    Scaled(f.yMax - target.yMax, f1.yMax - target.yMax, f0.yMax - target.yMax, x, q);
    Scaled(f.displayValue - value, f1.displayValue - value, f0.displayValue - value, x, q);
  }

  /**
   * Under fixed props, once the range covers its target each of the three distances is
   * multiplied by exactly 1 - speed per frame.
   */
  lemma {:induction false} ExcessDecays(start: Frame, p: Props, n: nat)
    requires p.speed <= 1.0
    requires start.yMin <= Target(p.data, p.value, p.exaggerate).yMin
    requires start.yMax >= Target(p.data, p.value, p.exaggerate).yMax
    ensures Decayed(Run(start, Repeat(p, n)), start, Target(p.data, p.value, p.exaggerate), p.value, Pow(1.0 - p.speed, n))
  {
    var target := Target(p.data, p.value, p.exaggerate);
    hide *;
    RunOfRepeated(start, p, n);
    PowUnfolds(1.0 - p.speed, n);
    if n == 0 {
      NotDecayed(start, target, p.value);
    } else {
      ExcessDecays(start, p, n - 1);
      var f := Run(start, Repeat(p, n - 1));
      DecayedCovers(f, start, target, p.value, Pow(1.0 - p.speed, n - 1));
      TickUnfolds(f, p);
      FrameDecays(f, target, p.value, p.speed);
      DecayedTwice(Tick(f, p), f, start, target, p.value, 1.0 - p.speed, Pow(1.0 - p.speed, n - 1), Pow(1.0 - p.speed, n));
    }
  }

  lemma RunOfRepeated(start: Frame, p: Props, n: nat)
    ensures n == 0 ==> Run(start, Repeat(p, n)) == start
    ensures n > 0 ==> Run(start, Repeat(p, n)) == Tick(Run(start, Repeat(p, n - 1)), p)
  {
    if n > 0 {
      assert Repeat(p, n)[..n - 1] == Repeat(p, n - 1) && Repeat(p, n)[n - 1] == p;
    }
  }

  lemma TickUnfolds(f: Frame, p: Props)
    ensures Tick(f, p) == NextFrame(f, Target(p.data, p.value, p.exaggerate), p.value, p.speed)
  {
  }

  lemma PowUnfolds(x: real, n: nat)
    ensures Pow(x, n) == if n == 0 then 1.0 else x * Pow(x, n - 1)
  {
  }

  lemma NotDecayed(f: Frame, target: Range, value: real)
    requires f.yMin <= target.yMin && target.yMax <= f.yMax
    ensures Decayed(f, f, target, value, 1.0)
  {
  }

  lemma DecayedCovers(f: Frame, f0: Frame, target: Range, value: real, q: real)
    requires Decayed(f, f0, target, value, q)
    ensures f.yMin <= target.yMin && target.yMax <= f.yMax
  {
  }

  function Growth(speed: real, n: nat): real {
    1.0 + n as real * speed
  }

  /** Bernoulli's inequality, turned upside down. */
  lemma {:induction false} DecayIsFast(speed: real, n: nat)
    requires 0.0 <= speed <= 1.0
    ensures Pow(1.0 - speed, n) >= 0.0 && Growth(speed, n) >= 0.0
    ensures Pow(1.0 - speed, n) * Growth(speed, n) <= 1.0
  {
    Nonnegative(n as real, speed);
    if n > 0 {
      DecayIsFast(speed, n - 1);
      var x, m := 1.0 - speed, (n - 1) as real;
      var q := Pow(x, n - 1);
      assert Pow(x, n) == x * q;
      hide Pow;
      DecayStep(q, speed, m);
      assert n as real == m + 1.0;
    }
  }

  lemma DecayStep(q: real, s: real, m: real)
    requires q >= 0.0 && 0.0 <= s <= 1.0 && m >= 0.0 && q * (1.0 + m * s) <= 1.0
    ensures (1.0 - s) * q >= 0.0
    ensures (1.0 - s) * q * (1.0 + (m + 1.0) * s) <= 1.0
  {
    var rest := s * s * (m + 1.0);
    assert (1.0 - s) * (1.0 + (m + 1.0) * s) == 1.0 + m * s - rest;
    assert rest >= 0.0;
    assert (1.0 - s) * q * (1.0 + (m + 1.0) * s) == q * (1.0 + m * s) - q * rest;
    assert q * rest >= 0.0;
  }

  /** Each excess over the target is at most 1 / c of what it was at frame `f0`. */
  ghost predicate Settled(f: Frame, f0: Frame, target: Range, c: real) {
    && 0.0 <= (f.yMax - target.yMax) * c <= f0.yMax - target.yMax
    && 0.0 <= (target.yMin - f.yMin) * c <= target.yMin - f0.yMin
  }

  lemma DecayedIsSettled(f: Frame, f0: Frame, target: Range, value: real, q: real, c: real)
    requires Decayed(f, f0, target, value, q) && f0.yMin <= target.yMin && target.yMax <= f0.yMax
    requires q >= 0.0 && c >= 0.0 && q * c <= 1.0
    ensures Settled(f, f0, target, c)
  {
    Shrunk(f.yMax - target.yMax, f0.yMax - target.yMax, q, c);
    assert target.yMin - f.yMin == q * (target.yMin - f0.yMin);
    Shrunk(target.yMin - f.yMin, target.yMin - f0.yMin, q, c);
  }

  /**
   * From any frame at all, under fixed props: the first frame covers the target, and n frames
   * later the range exceeds it by at most 1 / (1 + n * speed), its growth, of what it did then.
   */
  lemma RangeSettles(start: Frame, p: Props, n: nat)
    requires 0.0 <= p.speed <= 1.0
    ensures var first := Tick(start, p);
      Settled(Run(first, Repeat(p, n)), first, Target(p.data, p.value, p.exaggerate), Growth(p.speed, n))
  {
    var target := Target(p.data, p.value, p.exaggerate);
    var first := Tick(start, p);
    hide *;
    TickUnfolds(start, p);
    FrameCoversTarget(start, target, p.value, p.speed);
    ExcessDecays(first, p, n);
    DecayIsFast(p.speed, n);
    DecayedIsSettled(Run(first, Repeat(p, n)), first, target, p.value, Pow(1.0 - p.speed, n), Growth(p.speed, n));
  }

  lemma Shrunk(e: real, e0: real, q: real, c: real)
    requires e == q * e0 && e0 >= 0.0 && q >= 0.0 && c >= 0.0 && q * c <= 1.0
    ensures 0.0 <= e * c <= e0
  {
    assert q * c >= 0.0;
    assert e * c == (q * c) * e0;
    assert (1.0 - q * c) * e0 >= 0.0;
    assert e0 - e * c == (1.0 - q * c) * e0;
  }
}
