/** Bucketing price rows into fewer candles. */
module OhlcDecimation {
  import opened BucketEdges
  import opened ChartFields

  /** A price row; `rest` stands for all its other fields. */
  datatype Candle = Candle(open: Cell, high: Cell, low: Cell, close: Cell, rest: string)

  // ----- one bucket -----

  /** The larger of two highs; a number wins over a field that is none, and the later of two such. */
  function Higher(a: Cell, b: Cell): Cell {
    if a.Num? && (b.Other? || a.v > b.v) then a else b
  }

  function Lower(a: Cell, b: Cell): Cell {
    if a.Num? && (b.Other? || a.v < b.v) then a else b
  }

  function High(rows: seq<Candle>): Cell
    requires |rows| >= 1
  {
    if |rows| == 1 then rows[0].high else Higher(High(rows[..|rows| - 1]), rows[|rows| - 1].high)
  }

  function Low(rows: seq<Candle>): Cell
    requires |rows| >= 1
  {
    if |rows| == 1 then rows[0].low else Lower(Low(rows[..|rows| - 1]), rows[|rows| - 1].low)
  }

  /** One candle for all of `rows`. */
  function Summary(rows: seq<Candle>): Candle
    requires |rows| >= 1
  {
    var last := rows[|rows| - 1];
    Candle(rows[0].open, High(rows), Low(rows), last.close, last.rest)
  }

  /** The high is the greatest number among the highs, when there is one, and else the last row's field. */
  lemma {:induction false} HighIsGreatest(rows: seq<Candle>)
    requires |rows| >= 1
    ensures High(rows).Num? <==> exists k | 0 <= k < |rows| :: rows[k].high.Num?
    ensures High(rows).Num? ==> exists k | 0 <= k < |rows| :: rows[k].high == High(rows)
    ensures forall k | 0 <= k < |rows| && rows[k].high.Num? :: High(rows).Num? && rows[k].high.v <= High(rows).v
    ensures High(rows).Other? ==> High(rows) == rows[|rows| - 1].high
  {
    var n := |rows| - 1;
    if n > 0 {
      var front := rows[..n];
      HighIsGreatest(front);
      assert forall k | 0 <= k < n :: rows[k] == front[k];
      if High(front).Num? {
        var k :| 0 <= k < n && front[k].high == High(front);
        assert rows[k].high == High(front);
      }
    }
    assert rows[n].high.Num? || rows[n].high.Other?;
  }

  lemma {:induction false} LowIsLeast(rows: seq<Candle>)
    requires |rows| >= 1
    ensures Low(rows).Num? <==> exists k | 0 <= k < |rows| :: rows[k].low.Num?
    ensures Low(rows).Num? ==> exists k | 0 <= k < |rows| :: rows[k].low == Low(rows)
    ensures forall k | 0 <= k < |rows| && rows[k].low.Num? :: Low(rows).Num? && Low(rows).v <= rows[k].low.v
    ensures Low(rows).Other? ==> Low(rows) == rows[|rows| - 1].low
  {
    var n := |rows| - 1;
    if n > 0 {
      var front := rows[..n];
      LowIsLeast(front);
      assert forall k | 0 <= k < n :: rows[k] == front[k];
      if Low(front).Num? {
        var k :| 0 <= k < n && front[k].low == Low(front);
        assert rows[k].low == Low(front);
      }
    }
    assert rows[n].low.Num? || rows[n].low.Other?;
  }

  /** The bucket loop of the source: running extremes that start out as "none yet". */
  method Bucket(data: seq<Candle>, start: nat, end: nat) returns (candle: Candle)
    requires start < end <= |data|
    ensures candle == Summary(data[start..end])
  {
    var bucket := data[start..end];
    var first, last := bucket[0], bucket[|bucket| - 1];
    var high, low := Other("-Infinity"), Other("Infinity");
    for k := 0 to |bucket|
      invariant k > 0 ==> high == (if High(bucket[..k]).Num? then High(bucket[..k]) else Other("-Infinity"))
      invariant k > 0 ==> low == (if Low(bucket[..k]).Num? then Low(bucket[..k]) else Other("Infinity"))
      invariant k == 0 ==> high == Other("-Infinity") && low == Other("Infinity")
    {
      var rowHigh, rowLow := bucket[k].high, bucket[k].low;
      if rowHigh.Num? && (high.Other? || rowHigh.v > high.v) {
        high := rowHigh;
      }
      if rowLow.Num? && (low.Other? || rowLow.v < low.v) {
        low := rowLow;
      }
      assert bucket[..k + 1][..k] == bucket[..k];
    }
    assert bucket[..|bucket|] == bucket;
    HighIsGreatest(bucket);
    LowIsLeast(bucket);
    candle := Candle(first.open, if high.Num? then high else last.high, if low.Num? then low else last.low, last.close, last.rest);
  }

  // ----- the buckets -----

  /** With more rows than candles, every bucket is non-empty and they tile the rows. */
  lemma BucketsTile(len: nat, maxPoints: nat, i: nat)
    requires 2 <= maxPoints < len && i < maxPoints
    ensures 0 <= Edge(i, len, maxPoints) < Edge(i + 1, len, maxPoints) <= len
    ensures Edge(0, len, maxPoints) == 0 && Edge(maxPoints, len, maxPoints) == len
  {
    hide Edge;
    OuterEdges(len, maxPoints);
    EdgesIncrease(i, len, maxPoints);
    EdgesOrdered(i + 1, maxPoints, len, maxPoints);
  }

  /** The candles of the first `count` buckets. */
  function Candles(data: seq<Candle>, maxPoints: nat, count: nat): (cs: seq<Candle>)
    requires 2 <= maxPoints < |data| && count <= maxPoints
    ensures |cs| == count
  {
    if count == 0 then []
    else
      BucketsTile(|data|, maxPoints, count - 1);
      Candles(data, maxPoints, count - 1)
      + [Summary(data[Edge(count - 1, |data|, maxPoints)..Edge(count, |data|, maxPoints)])]
  }

  /** Candle `i` covers bucket `i`, whatever comes after. */
  lemma {:induction false} CandleAt(data: seq<Candle>, maxPoints: nat, count: nat, i: nat)
    requires 2 <= maxPoints < |data| && i < count <= maxPoints
    ensures 0 <= Edge(i, |data|, maxPoints) < Edge(i + 1, |data|, maxPoints) <= |data|
    ensures Candles(data, maxPoints, count)[i]
         == Summary(data[Edge(i, |data|, maxPoints)..Edge(i + 1, |data|, maxPoints)])
    decreases count
  {
    BucketsTile(|data|, maxPoints, i);
    hide Edge, Summary;
    if i < count - 1 {
      CandleAt(data, maxPoints, count - 1, i);
    }
  }

  method DecimateOhlcData(data: seq<Candle>, maxPoints: int) returns (sampled: seq<Candle>)
    ensures maxPoints >= |data| || maxPoints < 2 ==> sampled == data
    ensures 2 <= maxPoints < |data| ==> sampled == Candles(data, maxPoints, maxPoints)
  {
    var len := |data|;
    if maxPoints >= len || maxPoints < 2 {
      return data;
    }
    sampled := [];
    for i := 0 to maxPoints
      invariant sampled == Candles(data, maxPoints, i)
    {
      hide Edge, Summary;
      BucketsTile(len, maxPoints, i);
      var start := Edge(i, len, maxPoints);
      var end := if Edge(i + 1, len, maxPoints) < len then Edge(i + 1, len, maxPoints) else len;
      if start >= end { continue; }
      var candle := Bucket(data, start, end);
      sampled := sampled + [candle];
    }
  }

  // ----- nothing is lost -----

  /** Joining the candles of two adjacent stretches. */
  function Join(a: Candle, b: Candle): Candle {
    Candle(a.open, Higher(a.high, b.high), Lower(a.low, b.low), b.close, b.rest)
  }

  lemma {:induction false} SummaryOfConcat(a: seq<Candle>, b: seq<Candle>)
    requires |a| >= 1 && |b| >= 1
    ensures Summary(a + b) == Join(Summary(a), Summary(b))
    decreases |b|
  {
    var n := |b| - 1;
    assert (a + b)[..|a + b| - 1] == a + b[..n];
    if n > 0 {
      SummaryOfConcat(a, b[..n]);
    } else {
      assert a + b[..n] == a;
    }
  }

  lemma SummaryOfOne(c: Candle)
    ensures Summary([c]) == c
  {
  }

  lemma OneMoreCandle(data: seq<Candle>, maxPoints: nat, count: nat)
    requires 2 <= maxPoints < |data| && 1 <= count <= maxPoints
    ensures 0 <= Edge(count - 1, |data|, maxPoints) < Edge(count, |data|, maxPoints) <= |data|
    ensures Candles(data, maxPoints, count)
         == (if count == 1 then [] else Candles(data, maxPoints, count - 1))
            + [Summary(data[Edge(count - 1, |data|, maxPoints)..Edge(count, |data|, maxPoints)])]
  {
    BucketsTile(|data|, maxPoints, count - 1);
    hide Edge, Summary;
  }

  /**
   * Collapsing the candles gives what collapsing the rows gives: the first open, the greatest
   * high, the least low and the last close (and the other fields of the last row) survive, after
   * every bucket.
   */
  lemma {:induction false} CandlesKeepSummary(data: seq<Candle>, maxPoints: nat, count: nat)
    requires 2 <= maxPoints < |data| && 1 <= count <= maxPoints
    ensures 1 <= Edge(count, |data|, maxPoints) <= |data|
    ensures Summary(Candles(data, maxPoints, count)) == Summary(data[..Edge(count, |data|, maxPoints)])
  {
    hide *;
    BucketsTile(|data|, maxPoints, count - 1);
    var lo, hi := Edge(count - 1, |data|, maxPoints), Edge(count, |data|, maxPoints);
    var candle := Summary(data[lo..hi]);
    SummaryOfOne(candle);
    OneMoreCandle(data, maxPoints, count);
    if count == 1 {
      BucketsTile(|data|, maxPoints, 0);
      assert data[lo..hi] == data[..hi] && [] + [candle] == [candle];
    } else {
      CandlesKeepSummary(data, maxPoints, count - 1);
      SummaryOfConcat(Candles(data, maxPoints, count - 1), [candle]);
      SummaryOfConcat(data[..lo], data[lo..hi]);
      assert data[..hi] == data[..lo] + data[lo..hi];
    }
  }

  /**
   * Decimation to 2 <= maxPoints < n rows yields exactly maxPoints candles, the first one opening
   * as the first row did, the last one closing as the last row did, with the same greatest high
   * and the same least low overall.
   */
  lemma DecimationKeepsExtremes(data: seq<Candle>, maxPoints: nat)
    requires 2 <= maxPoints < |data|
    ensures var cs := Candles(data, maxPoints, maxPoints);
      && |cs| == maxPoints
      && cs[0].open == data[0].open
      && cs[maxPoints - 1].close == data[|data| - 1].close
      && High(cs) == High(data) && Low(cs) == Low(data)
  {
    CandlesKeepSummary(data, maxPoints, maxPoints);
    BucketsTile(|data|, maxPoints, 0);
    hide Edge;
    assert data[..|data|] == data;
  }

  /** Decimating twice gives the candle totals of decimating once. */
  lemma DecimationComposes(data: seq<Candle>, fine: nat, coarse: nat)
    requires 2 <= coarse < fine < |data|
    ensures Summary(Candles(Candles(data, fine, fine), coarse, coarse)) == Summary(data)
    ensures Summary(Candles(data, coarse, coarse)) == Summary(data)
  {
    var cs := Candles(data, fine, fine);
    CandlesKeepSummary(data, fine, fine);
    CandlesKeepSummary(data, coarse, coarse);
    CandlesKeepSummary(cs, coarse, coarse);
    BucketsTile(|data|, fine, 0);
    BucketsTile(|data|, coarse, 0);
    BucketsTile(|cs|, coarse, 0);
    hide Edge, Summary, Candles;
    assert data[..|data|] == data && cs[..|cs|] == cs;
  }
}
