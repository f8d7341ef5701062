/** The live y-axis: picking a "nice" tick interval with hysteresis, over exact reals. */
module NiceInterval {
  import opened Arithmetic

  // ----- powers of ten -----

  function Pow10(k: int): (r: real)
    ensures r > 0.0
    decreases if k >= 0 then k else -k
  {
    if k == 0 then 1.0 else if k > 0 then 10.0 * Pow10(k - 1) else Pow10(k + 1) / 10.0
  }

  lemma Pow10Step(k: int)
    ensures Pow10(k + 1) == 10.0 * Pow10(k)
  {
  }

  lemma {:induction false} Pow10AtLeastOne(k: nat)
    ensures Pow10(k) >= 1.0
  {
    if k > 0 { Pow10AtLeastOne(k - 1); }
  }

  function CeilUp(x: real, k: nat): (r: int)
    requires Pow10(k - 1) < x
    ensures Pow10(r - 1) < x <= Pow10(r)
    decreases (x - Pow10(k)).Floor
  {
    if x <= Pow10(k) then k
    else
      Pow10AtLeastOne(k);
      Pow10Step(k);
      CeilUp(x, k + 1)
  }

  function CeilDown(x: real, k: int): (r: int)
    requires 0.0 < x <= Pow10(k)
    ensures Pow10(r - 1) < x <= Pow10(r)
    decreases (Pow10(k) / x).Floor
  {
    if Pow10(k - 1) < x then k
    else
      Pow10Step(k - 1);
      RatioShrinks(Pow10(k), Pow10(k - 1), x);
      CeilDown(x, k - 1)
  }

  lemma RatioShrinks(p: real, q: real, x: real)
    requires 0.0 < x <= q && p == 10.0 * q
    ensures 0 <= (q / x).Floor < (p / x).Floor
  {
    var r := q / x;
    assert r * x == q;
    assert p / x == 10.0 * r by { assert (10.0 * r) * x == p; }
    assert r >= 1.0;
  }

  /** Math.ceil(Math.log10(x)): the least k with x <= 10^k. */
  function CeilLog10(x: real): (k: int)
    requires x > 0.0
    ensures Pow10(k - 1) < x <= Pow10(k)
  {
    if x > 1.0 then CeilUp(x, 1) else CeilDown(x, 0)
  }

  // ----- the search -----

  /** The divisor the search uses for its i-th step, for each of the three sequences. */
  function Divisor(which: nat, i: nat): (d: real)
    ensures d == 2.0 || d == 2.5
  {
    if i % 3 == (if which == 0 then 1 else if which == 1 then 2 else 0) then 2.5 else 2.0
  }

  /** The i-th span of a sequence that starts at 10^k. */
  function Chain(which: nat, k: int, i: nat): (r: real)
    ensures r > 0.0
  {
    if i == 0 then Pow10(k) else Chain(which, k, i - 1) / Divisor(which, i - 1)
  }

  /** How many gaps fit into the spacing of a span: the search's progress measure. */
  function Slack(span: real, pxPerUnit: real, minGap: real): int
    requires minGap > 0.0
  {
    (span * pxPerUnit / minGap).Floor
  }

  lemma HalvedFloor(x: real, d: real, z: real)
    requires x >= 1.0 && d >= 2.0 && z == d * x
    ensures 0 <= x.Floor < z.Floor
  {
    assert (d - 2.0) * x >= 0.0 by { Nonnegative(d - 2.0, x); }
    assert (d - 2.0) * x == d * x - 2.0 * x;
    assert z >= 2.0 * x;
  }

  lemma SlackIs(span: real, px: real, gap: real, x: real)
    requires gap > 0.0 && x * gap == span * px
    ensures Slack(span, px, gap) == x.Floor
  {
    var q := QuotientOf(span * px, gap);
    SameScale(q, x, gap, span * px);
  }

  /** Dividing a span again would leave labels at least a gap apart. */
  predicate RoomFor(span: real, d: real, pxPerUnit: real, minGap: real)
    requires d > 0.0
  {
    span / d * pxPerUnit >= minGap
  }

  lemma SlackShrinks(span: real, d: real, px: real, gap: real)
    requires px > 0.0 && gap > 0.0 && d >= 2.0 && RoomFor(span, d, px, gap)
    ensures 0 <= Slack(span / d, px, gap) < Slack(span, px, gap)
  {
    var part := QuotientOf(span, d);
    var x := QuotientOf(part * px, gap);
    Regroup(d, x, gap, part, px, span);
    assert x >= 1.0 by { ScaleOrder(x, 1.0, gap); }
    hide Slack;
    SlackIs(part, px, gap, x);
    SlackIs(span, px, gap, d * x);
    HalvedFloor(x, d, d * x);
  }

  lemma Regroup(d: real, x: real, gap: real, part: real, px: real, span: real)
    requires x * gap == part * px && part * d == span
    ensures (d * x) * gap == span * px
  {
    assert (d * x) * gap == d * (x * gap) == d * (part * px) == (part * d) * px;
  }

  lemma SameScale(x: real, y: real, g: real, z: real)
    requires g > 0.0 && x * g == z && y * g == z
    ensures x == y
  {
    ScaleOrder(x, y, g);
    ScaleOrder(y, x, g);
  }

  /** Labels `v` apart are at least a gap apart on screen. */
  predicate FarApart(v: real, pxPerUnit: real, minGap: real) {
    v * pxPerUnit >= minGap
  }

  predicate Fits(which: nat, k: int, i: nat, pxPerUnit: real, minGap: real) {
    FarApart(Chain(which, k, i), pxPerUnit, minGap)
  }

  lemma FitsNext(which: nat, k: int, i: nat, px: real, gap: real)
    ensures Fits(which, k, i + 1, px, gap) <==> RoomFor(Chain(which, k, i), Divisor(which, i), px, gap)
  {
    assert Chain(which, k, i + 1) == Chain(which, k, i) / Divisor(which, i);
  }

  lemma ChainSlack(which: nat, k: int, i: nat, px: real, gap: real)
    requires px > 0.0 && gap > 0.0 && Fits(which, k, i + 1, px, gap)
    ensures 0 <= Slack(Chain(which, k, i + 1), px, gap) < Slack(Chain(which, k, i), px, gap)
  {
    var span, d := Chain(which, k, i), Divisor(which, i);
    assert Chain(which, k, i + 1) == span / d;
    FitsNext(which, k, i, px, gap);
    hide *;
    SlackShrinks(span, d, px, gap);
  }

  /** Keep dividing while the labels would still be at least `minGap` pixels apart. */
  function Search(which: nat, k: int, pxPerUnit: real, minGap: real, i: nat): (n: nat)
    requires pxPerUnit > 0.0 && minGap > 0.0
    ensures n >= i
    ensures n > i ==> Fits(which, k, n, pxPerUnit, minGap)
    ensures !Fits(which, k, n + 1, pxPerUnit, minGap)
    decreases Slack(Chain(which, k, i), pxPerUnit, minGap)
  {
    if !Fits(which, k, i + 1, pxPerUnit, minGap) then i
    else
      ChainSlack(which, k, i, pxPerUnit, minGap);
      Search(which, k, pxPerUnit, minGap, i + 1)
  }

  function Min(a: real, b: real): real {
    if b < a then b else a
  }

  /** Where a sequence stops. */
  function Stop(which: nat, k: int, pxPerUnit: real, minGap: real): real
    requires pxPerUnit > 0.0 && minGap > 0.0
  {
    Chain(which, k, Search(which, k, pxPerUnit, minGap, 0))
  }

  /** The least of the spans the first `count` sequences stop at. */
  function BestOf(count: nat, k: int, pxPerUnit: real, minGap: real): real
    requires pxPerUnit > 0.0 && minGap > 0.0 && count >= 1
  {
    var last := Stop(count - 1, k, pxPerUnit, minGap);
    if count == 1 then last else Min(BestOf(count - 1, k, pxPerUnit, minGap), last)
  }

  function Best(k: int, pxPerUnit: real, minGap: real): real
    requires pxPerUnit > 0.0 && minGap > 0.0
  {
    BestOf(3, k, pxPerUnit, minGap)
  }

  predicate StillFits(interval: real, pxPerUnit: real, minGap: real) {
    interval > 0.0 && interval * pxPerUnit >= minGap * 0.5 && interval * pxPerUnit <= minGap * 3.0
  }

  lemma PositiveQuotient(x: real, y: real)
    requires x > 0.0 && y > 0.0
    ensures x / y > 0.0
  {
  }

  function NiceFor(valRange: real, chartHeight: real, minGap: real, prevInterval: real): real
    requires minGap > 0.0
  {
    if valRange <= 0.0 || chartHeight <= 0.0 then 1.0
    else if StillFits(prevInterval, chartHeight / valRange, minGap) then prevInterval
    else
      PositiveQuotient(chartHeight, valRange);
      Best(CeilLog10(valRange), chartHeight / valRange, minGap)
  }

  lemma NiceCases(valRange: real, chartHeight: real, minGap: real, prevInterval: real, pxPerUnit: real)
    requires minGap > 0.0 && valRange > 0.0 && chartHeight > 0.0 && pxPerUnit == chartHeight / valRange && pxPerUnit > 0.0
    ensures NiceFor(valRange, chartHeight, minGap, prevInterval) ==
      if prevInterval > 0.0 && prevInterval * pxPerUnit >= minGap * 0.5 && prevInterval * pxPerUnit <= minGap * 3.0
      then prevInterval else Best(CeilLog10(valRange), pxPerUnit, minGap)
  {
    hide Best, BestOf, CeilLog10;
  }

  lemma BestIs(k: int, pxPerUnit: real, minGap: real)
    requires pxPerUnit > 0.0 && minGap > 0.0
    ensures Best(k, pxPerUnit, minGap) == BestOf(3, k, pxPerUnit, minGap)
  {
  }

  lemma StopIs(which: nat, k: int, px: real, gap: real)
    requires px > 0.0 && gap > 0.0
    ensures Stop(which, k, px, gap) == Chain(which, k, Search(which, k, px, gap, 0))
  {
  }

  lemma ChainStart(which: nat, k: int)
    ensures Chain(which, k, 0) == Pow10(k)
  {
  }

  /** One step of the search, as the loop takes it. */
  lemma StepOfSearch(which: nat, k: int, px: real, gap: real, i: nat)
    requires px > 0.0 && gap > 0.0
    ensures Chain(which, k, i + 1) == Chain(which, k, i) / Divisor(which, i)
    ensures Search(which, k, px, gap, i) ==
      if RoomFor(Chain(which, k, i), Divisor(which, i), px, gap) then Search(which, k, px, gap, i + 1) else i
  {
    FitsNext(which, k, i, px, gap);
    hide Slack, Fits, RoomFor;
  }

  lemma StepOfBest(which: nat, k: int, px: real, gap: real)
    requires px > 0.0 && gap > 0.0
    ensures BestOf(which + 1, k, px, gap) ==
      var span := Stop(which, k, px, gap);
      if which == 0 || span < BestOf(which, k, px, gap) then span else BestOf(which, k, px, gap)
  {
    hide Stop;
  }

  /** One divisor sequence: divide while there is room. */
  method SearchSpan(which: nat, k: int, pxPerUnit: real, minGap: real) returns (span: real)
    requires pxPerUnit > 0.0 && minGap > 0.0
    ensures span == Stop(which, k, pxPerUnit, minGap)
  {
    hide *;
    span := Pow10(k);
    var i := 0;
    var d := Divisor(which, 0);
    ChainStart(which, k);
    while RoomFor(span, d, pxPerUnit, minGap)
      invariant span == Chain(which, k, i) && d == Divisor(which, i) && (d == 2.0 || d == 2.5)
      invariant Search(which, k, pxPerUnit, minGap, 0) == Search(which, k, pxPerUnit, minGap, i)
      decreases Slack(span, pxPerUnit, minGap)
    {
      SlackShrinks(span, d, pxPerUnit, minGap);
      StepOfSearch(which, k, pxPerUnit, minGap, i);
      span := span / d;
      i := i + 1;
      d := Divisor(which, i);
    }
    StepOfSearch(which, k, pxPerUnit, minGap, i);
    StopIs(which, k, pxPerUnit, minGap);
  }

  method PickNiceInterval(valRange: real, chartHeight: real, minGap: real, prevInterval: real) returns (interval: real)
    requires minGap > 0.0
    ensures interval == NiceFor(valRange, chartHeight, minGap, prevInterval)
  {
    if valRange <= 0.0 || chartHeight <= 0.0 {
      return 1.0;
    }
    var pxPerUnit := chartHeight / valRange;
    PositiveQuotient(chartHeight, valRange);
    NiceCases(valRange, chartHeight, minGap, prevInterval, pxPerUnit);
    hide *;
    if prevInterval > 0.0 {
      var px := prevInterval * pxPerUnit;
      if px >= minGap * 0.5 && px <= minGap * 3.0 {
        return prevInterval;
      }
    }
    var k := CeilLog10(valRange);
    BestIs(k, pxPerUnit, minGap);
    var found, best := false, 0.0;
    for which := 0 to 3
      invariant found == (which > 0)
      invariant which > 0 ==> best == BestOf(which, k, pxPerUnit, minGap)
    {
      var span := SearchSpan(which, k, pxPerUnit, minGap);
      StepOfBest(which, k, pxPerUnit, minGap);
      if !found || span < best {
        found, best := true, span;
      }
    }
    interval := best;
  }

  // ----- the spans in closed form -----

  /** The fractions of a power of ten a sequence passes through. */
  function Fraction(which: nat, j: nat): real
    requires which < 3 && j < 3
  {
    if j == 0 then 1.0
    else if j == 1 then if which == 2 then 0.4 else 0.5
    else if which == 1 then 0.25 else 0.2
  }

  lemma ChainStep(which: nat, k: int, i: nat)
    ensures Chain(which, k, i + 1) == Chain(which, k, i) / Divisor(which, i)
    ensures Chain(which, k, 0) == Pow10(k)
  {
  }

  /** Three steps divide by ten. */
  lemma ChainRound(which: nat, k: int, q: nat, top: real)
    requires which < 3 && Chain(which, k, 3 * q) == top
    ensures Chain(which, k, 3 * q + 1) == Fraction(which, 1) * top
    ensures Chain(which, k, 3 * q + 2) == Fraction(which, 2) * top
    ensures Chain(which, k, 3 * (q + 1)) == top / 10.0
  {
    hide Chain;
    var i := 3 * q;
    ChainStep(which, k, i);
    ChainStep(which, k, i + 1);
    ChainStep(which, k, i + 2);
    assert 3 * (q + 1) == i + 3;
    DivisorsOfRound(which, q);
  }

  lemma DivisorsOfRound(which: nat, q: nat)
    requires which < 3
    ensures Divisor(which, 3 * q) == (if which == 2 then 2.5 else 2.0)
    ensures Divisor(which, 3 * q + 1) == (if which == 0 then 2.5 else 2.0)
    ensures Divisor(which, 3 * q + 2) == (if which == 1 then 2.5 else 2.0)
  {
    assert (3 * q) % 3 == 0 && (3 * q + 1) % 3 == 1 && (3 * q + 2) % 3 == 2;
  }

  lemma {:induction false} ChainForm(which: nat, k: int, q: nat)
    requires which < 3
    ensures Chain(which, k, 3 * q) == Pow10(k - q)
    ensures Chain(which, k, 3 * q + 1) == Fraction(which, 1) * Pow10(k - q)
    ensures Chain(which, k, 3 * q + 2) == Fraction(which, 2) * Pow10(k - q)
    decreases q
  {
    if q == 0 { ChainStep(which, k, 0); }
    hide *;
    if q > 0 {
      ChainForm(which, k, q - 1);
      ChainRound(which, k, q - 1, Pow10(k - (q - 1)));
      Pow10Step(k - q);
      assert k - q + 1 == k - (q - 1) && 3 * (q - 1 + 1) == 3 * q;
    }
    ChainRound(which, k, q, Pow10(k - q));
  }

  /** 1, 1/2, 2/5, 1/4 or 1/5 of a power of ten. */
  predicate IsNice(v: real, j: int, m: real) {
    v == m * Pow10(j) && (m == 1.0 || m == 0.5 || m == 0.4 || m == 0.25 || m == 0.2)
  }

  lemma ChainIsNice(which: nat, k: int, i: nat) returns (j: int, m: real)
    requires which < 3
    ensures IsNice(Chain(which, k, i), j, m)
  {
    hide Chain, Pow10;
    var q := i / 3;
    ChainForm(which, k, q);
    j, m := k - q, Fraction(which, i % 3);
    assert i == 3 * q + i % 3;
  }

  /** Every nice number up to 10^k is met by one of the sequences. */
  lemma NiceIsOnAChain(v: real, j: int, m: real, k: int) returns (which: nat, i: nat)
    requires IsNice(v, j, m) && j <= k
    ensures which < 3 && Chain(which, k, i) == v
  {
    hide Chain, Pow10;
    var q := k - j;
    which := if m == 0.4 then 2 else if m == 0.25 then 1 else 0;
    i := 3 * q + (if m == 1.0 then 0 else if m == 0.5 || m == 0.4 then 1 else 2);
    ChainForm(which, k, q);
  }

  lemma {:induction false} ChainDecreases(which: nat, k: int, i: nat, j: nat)
    requires i <= j
    ensures Chain(which, k, j) <= Chain(which, k, i)
    decreases j - i
  {
    if i < j { ChainDecreases(which, k, i, j - 1); }
  }

  lemma {:induction false} Pow10Increases(i: int, j: int)
    requires i <= j
    ensures Pow10(i) <= Pow10(j)
    decreases j - i
  {
    if i < j {
      Pow10Increases(i, j - 1);
      Pow10Step(j - 1);
    }
  }

  // ----- main results -----

  lemma FarApartGrows(small: real, big: real, px: real, gap: real)
    requires px > 0.0 && small <= big && FarApart(small, px, gap)
    ensures FarApart(big, px, gap)
  {
    if small < big { ScaleOrder(small, big, px); }
  }

  lemma FitsIs(which: nat, k: int, i: nat, px: real, gap: real)
    ensures Fits(which, k, i, px, gap) <==> FarApart(Chain(which, k, i), px, gap)
  {
  }

  lemma StopIsBelowFits(which: nat, k: int, px: real, gap: real, i: nat)
    requires px > 0.0 && gap > 0.0 && FarApart(Chain(which, k, i), px, gap)
    ensures Stop(which, k, px, gap) <= Chain(which, k, i)
  {
    var n := Search(which, k, px, gap, 0);
    StopIs(which, k, px, gap);
    hide *;
    FitsIs(which, k, n + 1, px, gap);
    if i > n {
      ChainDecreases(which, k, n + 1, i);
      FarApartGrows(Chain(which, k, i), Chain(which, k, n + 1), px, gap);
    } else {
      ChainDecreases(which, k, i, n);
    }
  }

  predicate NotTooFar(v: real, pxPerUnit: real, minGap: real) {
    v * pxPerUnit < 2.5 * minGap
  }

  /** Where a sequence stops: at most 10^k, a gap apart if 10^k is, and less than two and a half gaps. */
  lemma StopSpacing(which: nat, k: int, px: real, gap: real)
    requires px > 0.0 && gap > 0.0 && which < 3
    ensures Stop(which, k, px, gap) <= Pow10(k)
    ensures NotTooFar(Stop(which, k, px, gap), px, gap)
    ensures FarApart(Stop(which, k, px, gap), px, gap) <==> FarApart(Pow10(k), px, gap)
  {
    var n := Search(which, k, px, gap, 0);
    StopIs(which, k, px, gap);
    hide *;
    ChainStep(which, k, n);
    ChainDecreases(which, k, 0, n);
    FitsIs(which, k, n, px, gap);
    FitsIs(which, k, n + 1, px, gap);
    NextTooClose(Chain(which, k, n), Divisor(which, n), px, gap);
    if FarApart(Chain(which, k, n), px, gap) { FarApartGrows(Chain(which, k, n), Pow10(k), px, gap); }
  }

  lemma NextTooClose(span: real, d: real, px: real, gap: real)
    requires (d == 2.0 || d == 2.5) && gap > 0.0 && !FarApart(span / d, px, gap)
    ensures NotTooFar(span, px, gap)
  {
    var part := QuotientOf(span, d);
    assert span * px == d * (part * px);
  }

  lemma BestIsAStop(k: int, px: real, gap: real) returns (which: nat)
    requires px > 0.0 && gap > 0.0
    ensures which < 3 && Best(k, px, gap) == Stop(which, k, px, gap)
    ensures forall w: nat | w < 3 :: Best(k, px, gap) <= Stop(w, k, px, gap)
  {
    hide Stop;
    var a, b, c := Stop(0, k, px, gap), Stop(1, k, px, gap), Stop(2, k, px, gap);
    assert BestOf(1, k, px, gap) == a && BestOf(2, k, px, gap) == Min(a, b);
    assert Best(k, px, gap) == Min(Min(a, b), c);
    which := if c < Min(a, b) then 2 else if b < a then 1 else 0;
  }

  predicate Searches(valRange: real, chartHeight: real, minGap: real, prevInterval: real) {
    valRange > 0.0 && chartHeight > 0.0 && minGap > 0.0 && !StillFits(prevInterval, chartHeight / valRange, minGap)
  }

  /**
   * When the previous interval no longer fits: the result is nice, its labels are less
   * than 2.5 gaps apart, and they are at least a gap apart exactly when those of the power
   * of ten above the range are; a chart at least one gap high is always enough for that.
   */
  lemma SearchedInterval(valRange: real, chartHeight: real, minGap: real, prevInterval: real) returns (j: int, m: real)
    requires Searches(valRange, chartHeight, minGap, prevInterval)
    ensures var r, px := NiceFor(valRange, chartHeight, minGap, prevInterval), chartHeight / valRange;
      && IsNice(r, j, m)
      && NotTooFar(r, px, minGap)
      && (FarApart(r, px, minGap) <==> FarApart(Pow10(CeilLog10(valRange)), px, minGap))
      && (chartHeight >= minGap ==> FarApart(r, px, minGap))
  {
    var px := NiceIsBest(valRange, chartHeight, minGap, prevInterval);
    hide *;
    var k := CeilLog10(valRange);
    var which := BestIsAStop(k, px, minGap);
    StopSpacing(which, k, px, minGap);
    StopIs(which, k, px, minGap);
    j, m := ChainIsNice(which, k, Search(which, k, px, minGap, 0));
    TallChart(valRange, chartHeight, px, Pow10(k), minGap);
  }

  lemma NiceIsBest(valRange: real, chartHeight: real, minGap: real, prevInterval: real) returns (px: real)
    requires Searches(valRange, chartHeight, minGap, prevInterval)
    ensures valRange > 0.0 && chartHeight > 0.0 && minGap > 0.0 && px == chartHeight / valRange && px > 0.0
    ensures NiceFor(valRange, chartHeight, minGap, prevInterval) == Best(CeilLog10(valRange), px, minGap)
  {
    px := chartHeight / valRange;
    PositiveQuotient(chartHeight, valRange);
    hide Best, StillFits;
  }

  lemma TallChart(valRange: real, chartHeight: real, px: real, top: real, gap: real)
    requires valRange > 0.0 && chartHeight > 0.0 && px == chartHeight / valRange && px > 0.0 && top >= valRange
    ensures chartHeight >= gap ==> FarApart(top, px, gap)
  {
    assert valRange * px == chartHeight;
    if top > valRange { ScaleOrder(valRange, top, px); }
  }

  /** ... and it is the least nice number whose labels are at least a gap apart. */
  lemma SearchedIntervalIsLeast(valRange: real, chartHeight: real, minGap: real, prevInterval: real, v: real, j: int, m: real)
    requires Searches(valRange, chartHeight, minGap, prevInterval)
    requires IsNice(v, j, m) && FarApart(v, chartHeight / valRange, minGap)
    ensures NiceFor(valRange, chartHeight, minGap, prevInterval) <= v
  {
    var px := NiceIsBest(valRange, chartHeight, minGap, prevInterval);
    hide *;
    var k := CeilLog10(valRange);
    var which := BestIsAStop(k, px, minGap);
    if j <= k {
      var w, i := NiceIsOnAChain(v, j, m, k);
      StopIsBelowFits(w, k, px, minGap, i);
    } else {
      StopSpacing(which, k, px, minGap);
      NiceAbove(v, j, m, k);
    }
  }

  /** A nice number of a higher power of ten is above 10^k. */
  lemma NiceAbove(v: real, j: int, m: real, k: int)
    requires IsNice(v, j, m) && j > k
    ensures v > Pow10(k)
  {
    Pow10Increases(k + 1, j);
    Pow10Step(k);
    hide Pow10;
    assert m * Pow10(j) >= 0.2 * Pow10(j);
  }

  // ----- hysteresis -----

  lemma BestIsPositive(k: int, px: real, gap: real)
    requires px > 0.0 && gap > 0.0
    ensures Best(k, px, gap) > 0.0
  {
    var which := BestIsAStop(k, px, gap);
    StopIs(which, k, px, gap);
    hide Best, Search;
  }

  /** A chart too short for a label per power of ten is not searched at all. */
  lemma ShortChartStopsAtOnce(k: int, px: real, gap: real)
    requires px > 0.0 && gap > 0.0 && !FarApart(Pow10(k), px, gap)
    ensures Best(k, px, gap) == Pow10(k)
  {
    hide *;
    var which := BestIsAStop(k, px, gap);
    var n := Search(which, k, px, gap, 0);
    StopIs(which, k, px, gap);
    ChainStart(which, k);
    if n > 0 {
      FitsIs(which, k, n, px, gap);
      ChainDecreases(which, k, 0, n);
      FarApartGrows(Chain(which, k, n), Pow10(k), px, gap);
    }
  }

  /** Spacings between half a gap and three gaps are kept. */
  lemma KeptSpacing(v: real, px: real, gap: real)
    requires v > 0.0 && gap > 0.0
    ensures StillFits(v, px, gap) <==> gap * 0.5 <= v * px <= gap * 3.0
    ensures NotTooFar(v, px, gap) && !StillFits(v, px, gap) ==> !FarApart(v, px, gap)
  {
  }

  lemma SameRangeKeeps(valRange: real, chartHeight: real, minGap: real, prevInterval: real)
    requires minGap > 0.0
    ensures var r := NiceFor(valRange, chartHeight, minGap, prevInterval); NiceFor(valRange, chartHeight, minGap, r) == r
  {
    hide Best;
  }

  /**
   * On any chart an interval is kept if and only if it still fits, except that a chart too short
   * for a label per power of ten is given that power, whatever the interval was; a chart at
   * least one gap high has no such exception.
   */
  lemma KeptExactlyWhen(valRange: real, chartHeight: real, minGap: real, prevInterval: real)
    requires valRange > 0.0 && chartHeight > 0.0 && minGap > 0.0
    ensures var px, top := chartHeight / valRange, Pow10(CeilLog10(valRange));
      && (NiceFor(valRange, chartHeight, minGap, prevInterval) == prevInterval
          <==> StillFits(prevInterval, px, minGap) || (prevInterval == top && !FarApart(top, px, minGap)))
      && (chartHeight >= minGap ==> FarApart(top, px, minGap))
    ensures var r := NiceFor(valRange, chartHeight, minGap, prevInterval); NiceFor(valRange, chartHeight, minGap, r) == r
  {
    SameRangeKeeps(valRange, chartHeight, minGap, prevInterval);
    var px, k := chartHeight / valRange, CeilLog10(valRange);
    PositiveQuotient(chartHeight, valRange);
    NiceCases(valRange, chartHeight, minGap, prevInterval, px);
    assert StillFits(prevInterval, px, minGap) ==> NiceFor(valRange, chartHeight, minGap, prevInterval) == prevInterval;
    var fits := StillFits(prevInterval, px, minGap);
    hide *;
    TallChart(valRange, chartHeight, px, Pow10(k), minGap);
    if !fits {
      var _ := NiceIsSearched(valRange, chartHeight, minGap, prevInterval);
      var which := BestIsAStop(k, px, minGap);
      StopSpacing(which, k, px, minGap);
      BestIsPositive(k, px, minGap);
      KeptSpacing(Best(k, px, minGap), px, minGap);
      if !FarApart(Pow10(k), px, minGap) { ShortChartStopsAtOnce(k, px, minGap); }
    }
  }

  lemma NiceIsSearched(valRange: real, chartHeight: real, minGap: real, prevInterval: real) returns (px: real)
    requires valRange > 0.0 && chartHeight > 0.0 && minGap > 0.0 && !StillFits(prevInterval, chartHeight / valRange, minGap)
    ensures px == chartHeight / valRange && px > 0.0
    ensures NiceFor(valRange, chartHeight, minGap, prevInterval) == Best(CeilLog10(valRange), px, minGap)
  {
    assert Searches(valRange, chartHeight, minGap, prevInterval);
    px := NiceIsBest(valRange, chartHeight, minGap, prevInterval);
    hide *;
  }

  /** The spacing of an interval's labels on screen, times the range. */
  function Reach(v: real, chartHeight: real): real {
    v * chartHeight
  }

  /** The ranges at which an interval of this reach still fits. */
  predicate WithinBand(range: real, reach: real, minGap: real) {
    minGap * range <= reach * 2.0 && reach <= (minGap * range) * 3.0
  }

  /** The ranges at which an interval of this reach comes out of a search. */
  predicate WithinSearch(range: real, reach: real, minGap: real) {
    minGap * range <= reach < (minGap * range) * 2.5
  }

  lemma FitsIsBand(v: real, range: real, height: real, gap: real)
    requires v > 0.0 && range > 0.0 && height > 0.0 && gap > 0.0
    ensures StillFits(v, height / range, gap) <==> WithinBand(range, Reach(v, height), gap)
  {
    var px := QuotientOf(height, range);
    ScaleOrder(v * px, gap * 3.0, range);
    ScaleOrder(gap * 0.5, v * px, range);
    assert (v * px) * range == v * (px * range);
    assert (gap * 3.0) * range == (gap * range) * 3.0;
    assert (gap * 0.5) * range == (gap * range) * 0.5;
  }

  lemma SpacingIsSearch(v: real, range: real, height: real, gap: real)
    requires range > 0.0 && height > 0.0 && FarApart(v, height / range, gap) && NotTooFar(v, height / range, gap)
    ensures WithinSearch(range, Reach(v, height), gap)
  {
    var px := QuotientOf(height, range);
    ScaleOrder(gap, v * px, range);
    ScaleOrder(v * px, 2.5 * gap, range);
    assert (v * px) * range == v * (px * range);
    assert (2.5 * gap) * range == (gap * range) * 2.5;
  }

  /** Shrinking by a sixth and doubling stay in the band; shrinking below a third and growing fivefold do not. */
  lemma RangeMoves(gap: real, r: real, r2: real, reach: real)
    requires gap > 0.0 && WithinSearch(r, reach, gap)
    ensures 5.0 * r <= 6.0 * r2 && r2 <= 2.0 * r ==> WithinBand(r2, reach, gap)
    ensures r2 >= 5.0 * r || 3.0 * r2 < r ==> !WithinBand(r2, reach, gap)
  {
    ScaleOrder(5.0 * r, 6.0 * r2, gap);
    ScaleOrder(r2, 2.0 * r, gap);
    ScaleOrder(5.0 * r, r2, gap);
    ScaleOrder(3.0 * r2, r, gap);
    assert (5.0 * r) * gap == 5.0 * (gap * r) && (6.0 * r2) * gap == 6.0 * (gap * r2);
    assert (2.0 * r) * gap == 2.0 * (gap * r) && (3.0 * r2) * gap == 3.0 * (gap * r2);
  }

  lemma SearchedReach(valRange: real, chartHeight: real, minGap: real, prevInterval: real)
    requires Searches(valRange, chartHeight, minGap, prevInterval) && chartHeight >= minGap
    ensures valRange > 0.0 && chartHeight > 0.0 && minGap > 0.0
    ensures var v := NiceFor(valRange, chartHeight, minGap, prevInterval);
      v > 0.0 && WithinSearch(valRange, Reach(v, chartHeight), minGap)
  {
    assert minGap > 0.0;
    hide *;
    var v := NiceFor(valRange, chartHeight, minGap, prevInterval);
    var px := NiceIsBest(valRange, chartHeight, minGap, prevInterval);
    var _, _ := SearchedInterval(valRange, chartHeight, minGap, prevInterval);
    BestIsPositive(CeilLog10(valRange), px, minGap);
    SpacingIsSearch(v, valRange, chartHeight, minGap);
  }

  /**
   * No step changes near a boundary: once an interval has been searched at one range, on a
   * chart at least one gap high it is kept at another range if and only if that range lies in
   * the interval's band. The band always leaves room for the range to shrink by a sixth or to
   * double, and never for it to shrink below a third or to grow fivefold.
   */
  lemma Hysteresis(valRange: real, newRange: real, chartHeight: real, minGap: real, prevInterval: real)
    requires Searches(valRange, chartHeight, minGap, prevInterval) && chartHeight >= minGap && newRange > 0.0
    ensures var v := NiceFor(valRange, chartHeight, minGap, prevInterval);
      var kept := NiceFor(newRange, chartHeight, minGap, v) == v;
      && (kept <==> WithinBand(newRange, Reach(v, chartHeight), minGap))
      && (5.0 * valRange <= 6.0 * newRange && newRange <= 2.0 * valRange ==> kept)
      && (newRange >= 5.0 * valRange || 3.0 * newRange < valRange ==> !kept)
  {
    assert minGap > 0.0;
    hide *;
    var v := NiceFor(valRange, chartHeight, minGap, prevInterval);
    SearchedReach(valRange, chartHeight, minGap, prevInterval);
    KeptExactlyWhen(newRange, chartHeight, minGap, v);
    FitsIsBand(v, newRange, chartHeight, minGap);
    RangeMoves(minGap, valRange, newRange, Reach(v, chartHeight));
  }
}
