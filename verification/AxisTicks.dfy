/** The tick values of the live y-axis: the multiples of the interval in a slightly widened domain. */
module AxisTicks {
  import opened Arithmetic

  function Ceil(x: real): int {
    -((-x).Floor)
  }

  /** Math.round(v * 1e10) / 1e10; halves round up. */
  function Rounded(v: real): real {
    (v * 10000000000.0 + 0.5).Floor as real / 10000000000.0
  }

  predicate IsInteger(v: real) {
    v.Floor as real == v
  }

  function Multiple(k: int, interval: real): real {
    k as real * interval
  }

  /** The index of the first and of the last multiple within half an interval of the domain. */
  function FirstTick(minVal: real, interval: real): int
    requires interval > 0.0
  {
    Ceil((minVal - interval * 0.5) / interval)
  }

  function LastTick(maxVal: real, interval: real): int
    requires interval > 0.0
  {
    ((maxVal + interval * 0.5) / interval).Floor
  }

  predicate Shown(k: int, interval: real, allowDecimals: bool) {
    allowDecimals || IsInteger(Rounded(Multiple(k, interval)))
  }

  /** The shown ticks with indices in [lo, hi). */
  function Ticks(lo: int, hi: int, interval: real, allowDecimals: bool): seq<real>
    decreases hi - lo
  {
    if lo >= hi then []
    else Ticks(lo, hi - 1, interval, allowDecimals)
         + (if Shown(hi - 1, interval, allowDecimals) then [Rounded(Multiple(hi - 1, interval))] else [])
  }

  /** A multiple is at or below a bound exactly when its index is at or below the floored quotient. */
  lemma AtMost(k: int, x: real, i: real)
    requires i > 0.0
    ensures Multiple(k, i) <= x <==> k <= (x / i).Floor
  {
    var q := QuotientOf(x, i);
    ScaleOrder(k as real, q, i);
  }

  lemma AtLeast(k: int, x: real, i: real)
    requires i > 0.0
    ensures x <= Multiple(k, i) <==> Ceil(x / i) <= k
  {
    var q := QuotientOf(x, i);
    ScaleOrder(q, k as real, i);
  }

  /** The tick indices are exactly those of the multiples within half an interval of the domain. */
  lemma TickIndices(k: int, minVal: real, maxVal: real, interval: real)
    requires interval > 0.0
    ensures FirstTick(minVal, interval) <= k <= LastTick(maxVal, interval)
       <==> minVal - interval * 0.5 <= Multiple(k, interval) <= maxVal + interval * 0.5
  {
    AtLeast(k, minVal - interval * 0.5, interval);
    AtMost(k, maxVal + interval * 0.5, interval);
  }

  lemma NextMultiple(k: int, interval: real)
    ensures Multiple(k + 1, interval) == Multiple(k, interval) + interval
  {
    assert (k as real + 1.0) * interval == k as real * interval + interval;
  }

  method StableTickValues(minVal: real, maxVal: real, interval: real, allowDecimals: bool) returns (values: seq<real>)
    ensures interval <= 0.0 || maxVal - minVal <= 0.0 ==> values == []
    ensures interval > 0.0 && maxVal - minVal > 0.0 ==>
      values == Ticks(FirstTick(minVal, interval), LastTick(maxVal, interval) + 1, interval, allowDecimals)
  {
    if interval <= 0.0 || maxVal - minVal <= 0.0 {
      return [];
    }
    var expandedMin := minVal - interval * 0.5;
    var expandedMax := maxVal + interval * 0.5;
    var first := Ceil(expandedMin / interval) as real * interval;
    var v := first;
    values := [];
    ghost var lo, hi := FirstTick(minVal, interval), LastTick(maxVal, interval);
    ghost var k := lo;
    RangeIsNotEmpty(minVal, maxVal, interval);
    AtMost(k, expandedMax, interval);
    while v <= expandedMax
      invariant lo <= k <= hi + 1 && v == Multiple(k, interval)
      invariant v <= expandedMax <==> k <= hi
      invariant values == Ticks(lo, k, interval, allowDecimals)
      decreases hi - k
    {
      var rounded := Rounded(v);
      var isDecimal := !IsInteger(rounded);
      NextMultiple(k, interval);
      AtMost(k + 1, expandedMax, interval);
      if !(isDecimal && !allowDecimals) {
        values := values + [rounded];
      }
      v := v + interval;
      k := k + 1;
    }
  }

  lemma RangeIsNotEmpty(minVal: real, maxVal: real, interval: real)
    requires interval > 0.0 && minVal < maxVal
    ensures FirstTick(minVal, interval) <= LastTick(maxVal, interval) + 1
  {
    var k := LastTick(maxVal, interval) + 1;
    AtMost(k, maxVal + interval * 0.5, interval);
    AtLeast(k, minVal - interval * 0.5, interval);
  }

  lemma {:induction false} TickCount(lo: int, hi: int, interval: real)
    requires lo <= hi
    ensures |Ticks(lo, hi, interval, true)| == hi - lo
    decreases hi - lo
  {
    if lo < hi { TickCount(lo, hi - 1, interval); }
  }

  /** With decimals allowed, the i-th tick is the i-th multiple from the first one on. */
  lemma {:induction false} TickAt(lo: int, hi: int, interval: real, i: nat)
    requires lo + i < hi
    ensures i < |Ticks(lo, hi, interval, true)|
    ensures Ticks(lo, hi, interval, true)[i] == Rounded(Multiple(lo + i, interval))
    decreases hi - lo
  {
    hide Rounded, Multiple;
    TickCount(lo, hi - 1, interval);
    if lo + i < hi - 1 {
      TickAt(lo, hi - 1, interval, i);
    }
  }

  // ----- which values are ticked -----

  /** `n` ten-billionths are the nearest to `v`, the larger ones at a tie. */
  predicate IsNearest(n: int, v: real) {
    2.0 * n as real - 1.0 <= 20000000000.0 * v < 2.0 * n as real + 1.0
  }

  /** A tick is shown at the nearest multiple of 1e-10. */
  lemma RoundedIsNearest(v: real, n: int)
    ensures Rounded(v) == n as real / 10000000000.0 <==> IsNearest(n, v)
  {
    var f := (v * 10000000000.0 + 0.5).Floor;
    assert IsNearest(f, v);
    assert IsNearest(n, v) ==> n == f;
  }

  predicate IsWhole(v: real, n: int) {
    v == n as real
  }

  /** `v` is `n` ten-billionths, the nearest to the multiple. */
  predicate IsShownAs(v: real, k: int, interval: real, n: int) {
    IsNearest(n, k as real * interval) && v == n as real / 10000000000.0
  }

  /** `v` is the value shown for a multiple; one with decimals is not shown unless allowed. */
  ghost predicate IsTickFor(v: real, k: int, interval: real, allowDecimals: bool) {
    && (exists n: int :: IsShownAs(v, k, interval, n))
    && (allowDecimals || exists n: int :: IsWhole(v, n))
  }

  /** The multiple lies within half an interval of the domain. */
  predicate IsInReach(k: int, minVal: real, maxVal: real, interval: real) {
    minVal - interval * 0.5 <= k as real * interval <= maxVal + interval * 0.5
  }

  lemma ShownTick(v: real, k: int, interval: real, allowDecimals: bool)
    ensures IsTickFor(v, k, interval, allowDecimals)
       <==> Shown(k, interval, allowDecimals) && v == Rounded(Multiple(k, interval))
  {
    var m := k as real * interval;
    var f := (m * 10000000000.0 + 0.5).Floor;
    RoundedIsNearest(m, f);
    assert IsNearest(f, m) && IsShownAs(f as real / 10000000000.0, k, interval, f);
    forall n: int | IsShownAs(v, k, interval, n) ensures n == f { RoundedIsNearest(m, n); }
    assert IsWhole(v, v.Floor) <==> IsInteger(v);
    hide Rounded, IsNearest;
  }

  lemma {:induction false} TicksAre(lo: int, hi: int, interval: real, allowDecimals: bool, v: real)
    ensures v in Ticks(lo, hi, interval, allowDecimals)
       <==> exists k: int :: lo <= k < hi && IsTickFor(v, k, interval, allowDecimals)
    decreases hi - lo
  {
    hide Shown, Rounded, Multiple, IsTickFor;
    if lo < hi {
      TicksAre(lo, hi - 1, interval, allowDecimals, v);
      ShownTick(v, hi - 1, interval, allowDecimals);
    }
  }

  /** Multiples at least 1e-10 apart are shown at different values, in order. */
  lemma RoundingKeepsOrder(k: int, l: int, interval: real)
    requires k < l && interval >= 0.0000000001
    ensures Rounded(Multiple(k, interval)) < Rounded(Multiple(l, interval))
  {
    var d := (l - k) as real;
    Nonnegative(d - 1.0, interval);
    assert Multiple(l, interval) - Multiple(k, interval) == d * interval;
    assert (d - 1.0) * interval == d * interval - interval;
    var a, b := Multiple(k, interval), Multiple(l, interval);
    FloorsApart(a, b);
  }

  lemma FloorsApart(a: real, b: real)
    requires b - a >= 0.0000000001
    ensures Rounded(a) < Rounded(b)
  {
    var x, y := a * 10000000000.0 + 0.5, b * 10000000000.0 + 0.5;
    assert y >= x + 1.0;
    assert x.Floor + 1 <= y.Floor;
  }

  lemma {:induction false} TicksAscend(lo: int, hi: int, interval: real, allowDecimals: bool)
    requires interval >= 0.0000000001
    ensures var ts := Ticks(lo, hi, interval, allowDecimals);
      forall i, j | 0 <= i < j < |ts| :: ts[i] < ts[j]
    decreases hi - lo
  {
    if lo < hi {
      var front := Ticks(lo, hi - 1, interval, allowDecimals);
      TicksAscend(lo, hi - 1, interval, allowDecimals);
      forall i | 0 <= i < |front| ensures front[i] < Rounded(Multiple(hi - 1, interval)) {
        TicksAre(lo, hi - 1, interval, allowDecimals, front[i]);
        var k: int :| lo <= k < hi - 1 && IsTickFor(front[i], k, interval, allowDecimals);
        ShownTick(front[i], k, interval, allowDecimals);
        RoundingKeepsOrder(k, hi - 1, interval);
      }
      hide Shown, Rounded, Multiple;
    }
  }

  /**
   * The ticks of a chart are, in ascending order, the values shown for the multiples of the
   * interval that lie within half an interval of the domain: each to the nearest 1e-10, and
   * whole numbers only unless decimals are allowed.
   */
  lemma TickValues(minVal: real, maxVal: real, interval: real, allowDecimals: bool, v: real)
    requires interval > 0.0
    ensures v in Ticks(FirstTick(minVal, interval), LastTick(maxVal, interval) + 1, interval, allowDecimals)
       <==> exists k: int :: IsInReach(k, minVal, maxVal, interval) && IsTickFor(v, k, interval, allowDecimals)
    ensures interval >= 0.0000000001 ==>
      var ts := Ticks(FirstTick(minVal, interval), LastTick(maxVal, interval) + 1, interval, allowDecimals);
      forall i, j | 0 <= i < j < |ts| :: ts[i] < ts[j]
  {
    var lo, hi := FirstTick(minVal, interval), LastTick(maxVal, interval) + 1;
    TicksAre(lo, hi, interval, allowDecimals, v);
    if interval >= 0.0000000001 { TicksAscend(lo, hi, interval, allowDecimals); }
    forall k: int ensures lo <= k < hi <==> IsInReach(k, minVal, maxVal, interval) {
      TickIndices(k, minVal, maxVal, interval);
    }
    hide IsTickFor, IsInReach, FirstTick, LastTick, Ticks;
  }
}
