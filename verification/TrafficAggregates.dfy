/** The dashboard's aggregate queries over the request table, over exact arithmetic. */
module TrafficAggregates {
  import opened Wrappers

  /** One row of the request table; `requestedAt` counts microseconds, UTC. */
  datatype Row = Row(
    project: int, model: string, provider: Option<int>, success: bool, inputTokens: int, outputTokens: int,
    cost: real, latencyMs: int, tags: seq<string>, requestedAt: int)

  // ----- SQL's aggregate functions -----

  datatype Totals = Totals(count: nat, cost: real, latency: real, tokens: int, errors: nat)

  function Nothing(): Totals {
    Totals(0, 0.0, 0.0, 0, 0)
  }

  function Add(a: Totals, r: Row): Totals {
    Totals(
      a.count + 1, a.cost + r.cost, a.latency + r.latencyMs as real,
      a.tokens + (r.inputTokens + r.outputTokens), a.errors + if r.success then 0 else 1)
  }

  function Sum(rows: seq<Row>): (t: Totals)
    ensures t.count == |rows|
  {
    if rows == [] then Nothing() else Add(Sum(rows[..|rows| - 1]), rows[|rows| - 1])
  }

  /** The columns a query returns; an empty average is reported as 0. */
  datatype Stats = Stats(count: nat, cost: real, avgLatency: real, tokens: int, errors: nat)

  function Report(t: Totals): Stats {
    Stats(t.count, t.cost, if t.count == 0 then 0.0 else t.latency / t.count as real, t.tokens, t.errors)
  }

  function Query(rows: seq<Row>): Stats {
    Report(Sum(rows))
  }

  /** How a reader combines two results: everything adds up, the means by their counts. */
  function Merge(a: Stats, b: Stats): Stats {
    var n := a.count + b.count;
    Stats(
      n, a.cost + b.cost,
      if n == 0 then 0.0 else (a.avgLatency * a.count as real + b.avgLatency * b.count as real) / n as real,
      a.tokens + b.tokens, a.errors + b.errors)
  }

  function Plus(a: Totals, b: Totals): Totals {
    Totals(a.count + b.count, a.cost + b.cost, a.latency + b.latency, a.tokens + b.tokens, a.errors + b.errors)
  }

  lemma MeanTimesCount(latency: real, count: nat)
    requires count == 0 ==> latency == 0.0
    ensures (if count == 0 then 0.0 else latency / count as real) * count as real == latency
  {
  }

  lemma ReportAdds(a: Totals, b: Totals)
    requires a.count == 0 ==> a.latency == 0.0
    requires b.count == 0 ==> b.latency == 0.0
    ensures Report(Plus(a, b)) == Merge(Report(a), Report(b))
  {
    MeanTimesCount(a.latency, a.count);
    MeanTimesCount(b.latency, b.count);
  }

  lemma EmptySum(rows: seq<Row>)
    ensures Sum(rows).count == 0 ==> Sum(rows).latency == 0.0
  {
  }

  // ----- group by -----

  datatype Group<K> = Group(key: K, stats: Stats)

  /** The rows, in order, whose key is one of `keys`. */
  function RowsIn<K(==)>(pairs: seq<(K, Row)>, keys: set<K>): (rows: seq<Row>)
    ensures |rows| <= |pairs|
  {
    if pairs == [] then []
    else
      var last := pairs[|pairs| - 1];
      var front := RowsIn(pairs[..|pairs| - 1], keys);
      if last.0 in keys then front + [last.1] else front
  }

  function RowsOf<K>(pairs: seq<(K, Row)>): seq<Row> {
    if pairs == [] then [] else RowsOf(pairs[..|pairs| - 1]) + [pairs[|pairs| - 1].1]
  }

  function Keys<K(==)>(groups: seq<Group<K>>): set<K> {
    set g | g in groups :: g.key
  }

  /** One group per key, each with the aggregates of exactly its rows. */
  ghost predicate AreGroups<K>(pairs: seq<(K, Row)>, groups: seq<Group<K>>) {
    && (forall i, j | 0 <= i < j < |groups| :: groups[i].key != groups[j].key)
    && (forall i | 0 <= i < |groups| :: groups[i].stats == Query(RowsIn(pairs, {groups[i].key})))
  }

  /** The answer to a GROUP BY: a group for every key that occurs and for no other, in some order. */
  ghost predicate IsGroupBy<K(!new)>(pairs: seq<(K, Row)>, groups: seq<Group<K>>) {
    && AreGroups(pairs, groups)
    && (forall i | 0 <= i < |pairs| :: pairs[i].0 in Keys(groups))
    && (forall i | 0 <= i < |groups| :: exists j :: 0 <= j < |pairs| && pairs[j].0 == groups[i].key)
  }

  function MergeAll<K>(groups: seq<Group<K>>): Stats {
    if groups == [] then Report(Nothing()) else Merge(MergeAll(groups[..|groups| - 1]), groups[|groups| - 1].stats)
  }

  /** Adding a key adds its rows' totals. */
  lemma {:induction false} SumOfOneMoreKey<K>(pairs: seq<(K, Row)>, keys: set<K>, k: K)
    requires k !in keys
    ensures Sum(RowsIn(pairs, keys + {k})) == Plus(Sum(RowsIn(pairs, keys)), Sum(RowsIn(pairs, {k})))
  {
    hide *;
    if pairs == [] {
      NoPairs(pairs, keys);
      NoPairs(pairs, {k});
      NoPairs(pairs, keys + {k});
      NothingIsNeutral(Nothing());
    } else {
      var front, last := pairs[..|pairs| - 1], pairs[|pairs| - 1];
      OneMorePair(pairs, keys);
      OneMorePair(pairs, {k});
      OneMorePair(pairs, keys + {k});
      SumOfOneMoreKey(front, keys, k);
      AddToEither(Sum(RowsIn(front, keys)), Sum(RowsIn(front, {k})), last.1);
    }
  }

  lemma OneMorePair<K>(pairs: seq<(K, Row)>, keys: set<K>)
    requires pairs != []
    ensures var last := pairs[|pairs| - 1];
      var front := RowsIn(pairs[..|pairs| - 1], keys);
      Sum(RowsIn(pairs, keys)) == if last.0 in keys then Add(Sum(front), last.1) else Sum(front)
  {
    SumOfAppend(RowsIn(pairs[..|pairs| - 1], keys), pairs[|pairs| - 1].1);
    hide Sum, Add;
  }

  lemma NoPairs<K>(pairs: seq<(K, Row)>, keys: set<K>)
    requires pairs == []
    ensures Sum(RowsIn(pairs, keys)) == Nothing()
  {
  }

  lemma NothingIsNeutral(a: Totals)
    ensures Plus(a, Nothing()) == a
  {
  }

  lemma AddToEither(a: Totals, b: Totals, r: Row)
    ensures Plus(Add(a, r), b) == Add(Plus(a, b), r) == Plus(a, Add(b, r))
  {
  }

  lemma SumOfAppend(rows: seq<Row>, r: Row)
    ensures Sum(rows + [r]) == Add(Sum(rows), r)
  {
    assert (rows + [r])[..|rows|] == rows;
  }

  /** Any set of groups merges to the query over just their rows. */
  lemma {:induction false} GroupsMerge<K>(pairs: seq<(K, Row)>, groups: seq<Group<K>>)
    requires AreGroups(pairs, groups)
    ensures MergeAll(groups) == Query(RowsIn(pairs, Keys(groups)))
  {
    if groups == [] {
      NoKeys(pairs, Keys(groups));
    } else {
      var front, last := groups[..|groups| - 1], groups[|groups| - 1];
      KeysOfAppend(front, last);
      assert groups == front + [last];
      WithoutLastGroup(pairs, groups);
      assert last.key !in Keys(front);
      hide RowsIn, Sum, Plus, Merge, Report, Keys, AreGroups;
      GroupsMerge(pairs, front);
      SumOfOneMoreKey(pairs, Keys(front), last.key);
      EmptySum(RowsIn(pairs, Keys(front)));
      EmptySum(RowsIn(pairs, {last.key}));
      ReportAdds(Sum(RowsIn(pairs, Keys(front))), Sum(RowsIn(pairs, {last.key})));
    }
  }

  lemma KeysOfAppend<K>(groups: seq<Group<K>>, g: Group<K>)
    ensures Keys(groups + [g]) == Keys(groups) + {g.key}
  {
  }

  lemma {:induction false} NoKeys<K>(pairs: seq<(K, Row)>, keys: set<K>)
    requires keys == {}
    ensures |RowsIn(pairs, keys)| == 0 && Sum(RowsIn(pairs, keys)) == Nothing()
  {
    if pairs != [] { NoKeys(pairs[..|pairs| - 1], keys); }
  }

  lemma {:induction false} AllKeys<K>(pairs: seq<(K, Row)>, keys: set<K>)
    requires forall i | 0 <= i < |pairs| :: pairs[i].0 in keys
    ensures RowsIn(pairs, keys) == RowsOf(pairs)
  {
    if pairs != [] { AllKeys(pairs[..|pairs| - 1], keys); }
  }

  /** Every GROUP BY merges back to the ungrouped query. */
  lemma GroupsMergeToWhole<K(!new)>(pairs: seq<(K, Row)>, groups: seq<Group<K>>)
    requires IsGroupBy(pairs, groups)
    ensures MergeAll(groups) == Query(RowsOf(pairs))
  {
    GroupsMerge(pairs, groups);
    AllKeys(pairs, Keys(groups));
  }

  /** Every GROUP BY has an answer. */
  lemma GroupByHasAnswer<K(!new)>(pairs: seq<(K, Row)>) returns (groups: seq<Group<K>>)
    ensures IsGroupBy(pairs, groups)
  {
    var keys := set i | 0 <= i < |pairs| :: pairs[i].0;
    groups := GroupsFor(pairs, keys);
    forall i | 0 <= i < |groups| ensures exists j :: 0 <= j < |pairs| && pairs[j].0 == groups[i].key {
      assert groups[i].key in Keys(groups);
    }
    hide AreGroups;
  }

  lemma {:induction false} GroupsFor<K>(pairs: seq<(K, Row)>, keys: set<K>) returns (groups: seq<Group<K>>)
    ensures AreGroups(pairs, groups) && Keys(groups) == keys
    decreases keys
  {
    if keys == {} {
      groups := [];
    } else {
      var k: K :| k in keys;
      var rest := GroupsFor(pairs, keys - {k});
      var last := Group(k, Query(RowsIn(pairs, {k})));
      assert forall g | g in rest :: g.key in Keys(rest);
      OneMoreGroup(pairs, rest, last);
      KeysOfAppend(rest, last);
      groups := rest + [last];
      hide AreGroups, Keys;
      assert keys - {k} + {k} == keys;
    }
  }

  /** Two answers hold the same groups. */
  lemma AnswersAgree<K(!new)>(pairs: seq<(K, Row)>, a: seq<Group<K>>, b: seq<Group<K>>, i: nat)
    requires IsGroupBy(pairs, a) && IsGroupBy(pairs, b) && i < |a|
    ensures a[i] in b
  {
    var mine := a[i];
    assert mine.stats == Query(RowsIn(pairs, {mine.key}));
    var j :| 0 <= j < |pairs| && pairs[j].0 == mine.key;
    assert pairs[j].0 in Keys(b);
    var g :| g in b && g.key == mine.key;
    var k :| 0 <= k < |b| && b[k] == g;
    assert b[k].stats == Query(RowsIn(pairs, {b[k].key}));
    hide Query, RowsIn;
  }

  // ----- the queries -----

  /** A query's rows: one project, from `since` on and before `until`. */
  function Window(table: seq<Row>, project: int, since: int, until: int): seq<Row> {
    if table == [] then []
    else
      var r := table[|table| - 1];
      var front := Window(table[..|table| - 1], project, since, until);
      if r.project == project && since <= r.requestedAt < until then front + [r] else front
  }

  datatype Granularity = Minute | Hour | Day

  function Size(g: Granularity): nat {
    match g
    case Minute => 60_000_000
    case Hour => 3_600_000_000
    case Day => 86_400_000_000
  }

  /** date_trunc in UTC. */
  function Trunc(g: Granularity, t: int): int {
    t - t % Size(g)
  }

  function ByBucket(rows: seq<Row>, g: Granularity): seq<(int, Row)> {
    if rows == [] then []
    else ByBucket(rows[..|rows| - 1], g) + [(Trunc(g, rows[|rows| - 1].requestedAt), rows[|rows| - 1])]
  }

  function ByModel(rows: seq<Row>): seq<(string, Row)> {
    if rows == [] then [] else ByModel(rows[..|rows| - 1]) + [(rows[|rows| - 1].model, rows[|rows| - 1])]
  }

  predicate HasProvider(r: Row, types: map<int, string>) {
    r.provider.Some? && r.provider.value in types
  }

  /** The inner join with the provider table drops the rows without a provider. */
  function ByProvider(rows: seq<Row>, types: map<int, string>): seq<(string, Row)> {
    if rows == [] then []
    else
      var r := rows[|rows| - 1];
      var front := ByProvider(rows[..|rows| - 1], types);
      if HasProvider(r, types) then front + [(types[r.provider.value], r)] else front
  }

  function WithTags(r: Row, tags: seq<string>): seq<(string, Row)> {
    if tags == [] then [] else WithTags(r, tags[..|tags| - 1]) + [(tags[|tags| - 1], r)]
  }

  /** Unnesting the tags repeats a row once per tag. */
  function ByTag(rows: seq<Row>): seq<(string, Row)> {
    if rows == [] then []
    else ByTag(rows[..|rows| - 1]) + WithTags(rows[|rows| - 1], rows[|rows| - 1].tags)
  }

  ghost predicate InTimeOrder(series: seq<Group<int>>) {
    forall i, j | 0 <= i < j < |series| :: series[i].key < series[j].key
  }

  /** The time series: groups by bucket, in time order. */
  ghost predicate IsSeries(rows: seq<Row>, g: Granularity, series: seq<Group<int>>) {
    && IsGroupBy(ByBucket(rows, g), series)
    && InTimeOrder(series)
  }

  /** What the summary counts in place of errors. */
  function Successes(rows: seq<Row>): (n: nat)
    ensures n + Sum(rows).errors == |rows|
  {
    if rows == [] then 0 else Successes(rows[..|rows| - 1]) + if rows[|rows| - 1].success then 1 else 0
  }

  lemma {:induction false} BucketRows(rows: seq<Row>, g: Granularity)
    ensures RowsOf(ByBucket(rows, g)) == rows
  {
    if rows != [] { BucketRows(rows[..|rows| - 1], g); }
  }

  lemma {:induction false} ModelRows(rows: seq<Row>)
    ensures RowsOf(ByModel(rows)) == rows
  {
    if rows != [] { ModelRows(rows[..|rows| - 1]); }
  }

  ghost predicate Within(a: seq<Group<int>>, b: seq<Group<int>>) {
    forall i | 0 <= i < |a| :: a[i] in b
  }

  lemma LastIsLatest(a: seq<Group<int>>, g: Group<int>)
    requires InTimeOrder(a) && g in a
    ensures a != [] && (g.key < a[|a| - 1].key || g == a[|a| - 1])
    ensures g.key < a[|a| - 1].key ==> g in a[..|a| - 1]
  {
    var i :| 0 <= i < |a| && a[i] == g;
    assert i < |a| - 1 ==> a[..|a| - 1][i] == g;
  }

  lemma FrontsAgree(a: seq<Group<int>>, b: seq<Group<int>>)
    requires InTimeOrder(a) && InTimeOrder(b) && Within(a, b) && a != [] && b != []
    requires a[|a| - 1] == b[|b| - 1]
    ensures Within(a[..|a| - 1], b[..|b| - 1])
  {
    var front := a[..|a| - 1];
    forall i | 0 <= i < |front| ensures front[i] in b[..|b| - 1] {
      assert front[i] == a[i] && a[i] in b && a[i].key < a[|a| - 1].key;
      LastIsLatest(b, a[i]);
    }
  }

  lemma LastWithin(a: seq<Group<int>>, b: seq<Group<int>>)
    requires Within(a, b) && a != []
    ensures a[|a| - 1] in b
  {
  }

  lemma FrontInOrder(a: seq<Group<int>>)
    requires InTimeOrder(a) && a != []
    ensures InTimeOrder(a[..|a| - 1])
  {
  }

  lemma FirstWithin(a: seq<Group<int>>, b: seq<Group<int>>)
    requires Within(a, b) && a != []
    ensures a[0] in b
  {
  }

  /** Two time-ordered series of the same groups are the same sequence. */
  lemma {:induction false} OrderedGroupsAgree(a: seq<Group<int>>, b: seq<Group<int>>)
    requires InTimeOrder(a) && InTimeOrder(b) && Within(a, b) && Within(b, a)
    ensures a == b
  {
    hide *;
    if a != [] && b != [] {
      var x, y := a[|a| - 1], b[|b| - 1];
      LastWithin(a, b);
      LastWithin(b, a);
      LastIsLatest(b, x);
      LastIsLatest(a, y);
      FrontsAgree(a, b);
      FrontsAgree(b, a);
      var c, d := a[..|a| - 1], b[..|b| - 1];
      FrontInOrder(a);
      FrontInOrder(b);
      assert a == c + [x] && b == d + [y];
      OrderedGroupsAgree(c, d);
    } else if a != [] {
      FirstWithin(a, b);
    } else if b != [] {
      FirstWithin(b, a);
    }
  }

  /** The query has one answer, so the day breakdown and the daily series can never disagree. */
  lemma SeriesIsUnique(rows: seq<Row>, g: Granularity, a: seq<Group<int>>, b: seq<Group<int>>)
    requires IsSeries(rows, g, a) && IsSeries(rows, g, b)
    ensures a == b
  {
    hide IsGroupBy, InTimeOrder;
    forall i | 0 <= i < |a| ensures a[i] in b { AnswersAgree(ByBucket(rows, g), a, b, i); }
    forall i | 0 <= i < |b| ensures b[i] in a { AnswersAgree(ByBucket(rows, g), b, a, i); }
    OrderedGroupsAgree(a, b);
  }

  /** The rows the provider join keeps, and those it loses. */
  function Attributed(rows: seq<Row>, types: map<int, string>, has: bool): seq<Row> {
    if rows == [] then []
    else
      var r := rows[|rows| - 1];
      var front := Attributed(rows[..|rows| - 1], types, has);
      if HasProvider(r, types) == has then front + [r] else front
  }

  lemma {:induction false} ProviderRows(rows: seq<Row>, types: map<int, string>)
    ensures RowsOf(ByProvider(rows, types)) == Attributed(rows, types, true)
  {
    if rows != [] {
      var front, r := rows[..|rows| - 1], rows[|rows| - 1];
      ProviderRows(front, types);
      if HasProvider(r, types) {
        assert (ByProvider(front, types) + [(types[r.provider.value], r)])[..|ByProvider(front, types)|] == ByProvider(front, types);
      }
    }
  }

  lemma AttributedStep(rows: seq<Row>, types: map<int, string>, has: bool)
    ensures rows == [] ==> Sum(Attributed(rows, types, has)) == Nothing()
    ensures rows != [] ==>
      var r := rows[|rows| - 1];
      var front := Sum(Attributed(rows[..|rows| - 1], types, has));
      Sum(Attributed(rows, types, has)) == if HasProvider(r, types) == has then Add(front, r) else front
  {
    if rows != [] {
      SumOfAppend(Attributed(rows[..|rows| - 1], types, has), rows[|rows| - 1]);
      hide Sum, Add, HasProvider;
    }
  }

  lemma SumStep(rows: seq<Row>)
    ensures Sum(rows) == if rows == [] then Nothing() else Add(Sum(rows[..|rows| - 1]), rows[|rows| - 1])
  {
  }

  lemma {:induction false} AttributionSplits(rows: seq<Row>, types: map<int, string>)
    ensures Sum(rows) == Plus(Sum(Attributed(rows, types, true)), Sum(Attributed(rows, types, false)))
  {
    hide *;
    SumStep(rows);
    AttributedStep(rows, types, true);
    AttributedStep(rows, types, false);
    if rows == [] {
      NothingIsNeutral(Nothing());
    } else {
      var front, r := rows[..|rows| - 1], rows[|rows| - 1];
      AttributionSplits(front, types);
      AddToEither(Sum(Attributed(front, types, true)), Sum(Attributed(front, types, false)), r);
    }
  }

  function Times(cost: real, n: nat): real {
    cost * n as real
  }

  /** Cost weighted by the number of tags. */
  function TagCost(rows: seq<Row>): real {
    if rows == [] then 0.0
    else TagCost(rows[..|rows| - 1]) + Times(rows[|rows| - 1].cost, |rows[|rows| - 1].tags|)
  }

  function TagCount(rows: seq<Row>): nat {
    if rows == [] then 0 else TagCount(rows[..|rows| - 1]) + |rows[|rows| - 1].tags|
  }

  lemma RowsOfAppend<K>(pairs: seq<(K, Row)>, pair: (K, Row))
    ensures RowsOf(pairs + [pair]) == RowsOf(pairs) + [pair.1]
  {
    assert (pairs + [pair])[..|pairs|] == pairs;
  }

  lemma {:induction false} TagsRepeatRow(pairs: seq<(string, Row)>, r: Row, tags: seq<string>)
    ensures var t, u := Sum(RowsOf(pairs)), Sum(RowsOf(pairs + WithTags(r, tags)));
      u.cost == t.cost + Times(r.cost, |tags|) && u.count == t.count + |tags|
  {
    hide Sum, RowsOf, Times;
    OneMoreTime(r.cost, 0);
    if tags == [] {
      assert pairs + WithTags(r, tags) == pairs;
    } else {
      var front := tags[..|tags| - 1];
      var before := pairs + WithTags(r, front);
      assert pairs + WithTags(r, tags) == before + [(tags[|tags| - 1], r)];
      hide WithTags;
      TagsRepeatRow(pairs, r, front);
      RowsOfAppend(before, (tags[|tags| - 1], r));
      SumOfAppend(RowsOf(before), r);
      OneMoreTime(r.cost, |front|);
    }
  }

  lemma OneMoreTime(x: real, n: nat)
    ensures Times(x, n + 1) == Times(x, n) + x
    ensures Times(x, 0) == 0.0
  {
  }

  lemma {:induction false} TagRows(rows: seq<Row>)
    ensures Sum(RowsOf(ByTag(rows))).cost == TagCost(rows)
    ensures Sum(RowsOf(ByTag(rows))).count == TagCount(rows)
  {
    SumStep(RowsOf(ByTag(rows)));
    hide Sum;
    if rows != [] {
      var front, r := rows[..|rows| - 1], rows[|rows| - 1];
      assert ByTag(rows) == ByTag(front) + WithTags(r, r.tags);
      hide RowsOf, WithTags, ByTag, Times;
      TagRows(front);
      TagsRepeatRow(ByTag(front), r, r.tags);
    }
  }

  // ----- rolling up time -----

  predicate Finer(f: Granularity, c: Granularity) {
    f == Minute || c == Day || f == c
  }

  lemma TruncComposes(f: Granularity, c: Granularity, t: int)
    requires Finer(f, c)
    ensures Trunc(c, Trunc(f, t)) == Trunc(c, t)
  {
    ModComposes(t, Size(f), if f == c then 1 else if c == Hour then 60 else if f == Hour then 24 else 1440);
  }

  lemma ModComposes(t: int, s: nat, m: nat)
    requires s >= 1 && m >= 1 && m * s >= 1
    ensures (t - t % s) - (t - t % s) % (m * s) == t - t % (m * s)
  {
    var q, r := t / s, t % s;
    var a, b := q / m, q % m;
    assert t == q * s + r && q == a * m + b;
    MulAdd(a, m, b, s);
    assert b * s + r < m * s by { Below(b, m, s); }
    assert b * s >= 0;
    RemainderIs(t, m * s, a, b * s + r);
    RemainderIs(q * s, m * s, a, b * s);
  }

  lemma MulAdd(a: int, m: int, b: int, s: int)
    ensures (a * m + b) * s == a * (m * s) + b * s
  {
  }

  lemma Below(b: nat, m: nat, s: nat)
    requires b + 1 <= m
    ensures b * s + s <= m * s
  {
    assert (m - b - 1) * s >= 0;
    assert m * s == (m - b - 1) * s + b * s + s;
  }

  lemma RemainderIs(x: int, d: nat, q: int, r: nat)
    requires d >= 1 && x == q * d + r && r < d
    ensures x % d == r
  {
    var k := x / d - q;
    assert x == (x / d) * d + x % d;
    assert (x / d) * d == q * d + k * d;
    BoundedMultiple(k, d);
  }

  /** A multiple of `d` strictly between -d and d is 0. */
  lemma BoundedMultiple(k: int, d: int)
    requires d >= 1 && -d < k * d < d
    ensures k == 0
  {
  }

  /** The groups whose bucket falls into coarse bucket `k`. */
  function Falling(series: seq<Group<int>>, c: Granularity, k: int): (part: seq<Group<int>>)
    ensures forall g :: g in part <==> g in series && Trunc(c, g.key) == k
  {
    if series == [] then []
    else
      var g := series[|series| - 1];
      var front := Falling(series[..|series| - 1], c, k);
      if Trunc(c, g.key) == k then front + [g] else front
  }

  lemma {:induction false} FallingGroups(pairs: seq<(int, Row)>, series: seq<Group<int>>, c: Granularity, k: int)
    requires AreGroups(pairs, series)
    ensures AreGroups(pairs, Falling(series, c, k))
  {
    if series != [] {
      var front, last := series[..|series| - 1], series[|series| - 1];
      WithoutLastGroup(pairs, series);
      hide AreGroups, Trunc;
      FallingGroups(pairs, front, c, k);
      if Trunc(c, last.key) == k { OneMoreGroup(pairs, Falling(front, c, k), last); }
    }
  }

  lemma WithoutLastGroup<K>(pairs: seq<(K, Row)>, groups: seq<Group<K>>)
    requires AreGroups(pairs, groups) && groups != []
    ensures var last := groups[|groups| - 1];
      && AreGroups(pairs, groups[..|groups| - 1])
      && last.stats == Query(RowsIn(pairs, {last.key}))
      && forall g | g in groups[..|groups| - 1] :: g.key != last.key
  {
    hide Query, RowsIn;
  }

  lemma OneMoreGroup<K>(pairs: seq<(K, Row)>, groups: seq<Group<K>>, last: Group<K>)
    requires AreGroups(pairs, groups) && last.stats == Query(RowsIn(pairs, {last.key}))
    requires forall g | g in groups :: g.key != last.key
    ensures AreGroups(pairs, groups + [last])
  {
    hide Query, RowsIn;
  }

  /** The fine rows of coarse bucket `k` are the coarse rows of bucket `k`. */
  lemma {:induction false} SameRows(rows: seq<Row>, f: Granularity, c: Granularity, k: int, keys: set<int>)
    requires Finer(f, c)
    requires forall i | 0 <= i < |ByBucket(rows, f)| :: ByBucket(rows, f)[i].0 in keys <==> Trunc(c, ByBucket(rows, f)[i].0) == k
    ensures RowsIn(ByBucket(rows, f), keys) == RowsIn(ByBucket(rows, c), {k})
  {
    if rows != [] {
      var front, r := rows[..|rows| - 1], rows[|rows| - 1];
      var fine, coarse := ByBucket(rows, f), ByBucket(rows, c);
      assert fine == ByBucket(front, f) + [(Trunc(f, r.requestedAt), r)];
      assert coarse == ByBucket(front, c) + [(Trunc(c, r.requestedAt), r)];
      assert forall i | 0 <= i < |fine| - 1 :: fine[i] == ByBucket(front, f)[i];
      TruncComposes(f, c, r.requestedAt);
      hide Trunc, ByBucket;
      SameRows(front, f, c, k, keys);
      assert fine[|fine| - 1].0 in keys <==> Trunc(c, r.requestedAt) == k;
      assert fine[..|fine| - 1] == ByBucket(front, f) && coarse[..|coarse| - 1] == ByBucket(front, c);
    }
  }

  /** Every coarse bucket is the merge of the fine buckets that fall into it. */
  lemma SeriesRollUp(rows: seq<Row>, f: Granularity, c: Granularity, fine: seq<Group<int>>, coarse: seq<Group<int>>, i: nat)
    requires Finer(f, c) && i < |coarse|
    requires IsSeries(rows, f, fine) && IsSeries(rows, c, coarse)
    ensures coarse[i].stats == MergeAll(Falling(fine, c, coarse[i].key))
    ensures Falling(fine, c, coarse[i].key) != []
  {
    var k := coarse[i].key;
    var part := Falling(fine, c, k);
    FallingGroups(ByBucket(rows, f), fine, c, k);
    GroupsMerge(ByBucket(rows, f), part);
    forall j | 0 <= j < |ByBucket(rows, f)|
      ensures ByBucket(rows, f)[j].0 in Keys(part) <==> Trunc(c, ByBucket(rows, f)[j].0) == k
    {
      var key := ByBucket(rows, f)[j].0;
      assert key in Keys(fine);
      var g :| g in fine && g.key == key;
      assert g in part <==> Trunc(c, key) == k;
    }
    SameRows(rows, f, c, k, Keys(part));
    assert coarse[i].stats == Query(RowsIn(ByBucket(rows, c), {k}));
    if part == [] {
      NoKeys(ByBucket(rows, f), Keys(part));
      var j :| 0 <= j < |ByBucket(rows, c)| && ByBucket(rows, c)[j].0 == k;
      KeyHasRows(ByBucket(rows, c), j);
    }
  }

  lemma {:induction false} KeyHasRows<K>(pairs: seq<(K, Row)>, j: nat)
    requires j < |pairs|
    ensures RowsIn(pairs, {pairs[j].0}) != []
  {
    if j < |pairs| - 1 { KeyHasRows(pairs[..|pairs| - 1], j); }
  }

  // ----- splitting the window -----

  /** Adjacent windows merge to the whole one. */
  lemma WindowsMerge(table: seq<Row>, project: int, since: int, cut: int, until: int)
    requires since <= cut <= until
    ensures Query(Window(table, project, since, until))
         == Merge(Query(Window(table, project, since, cut)), Query(Window(table, project, cut, until)))
  {
    WindowSplits(table, project, since, cut, until);
    var a, b := Window(table, project, since, cut), Window(table, project, cut, until);
    EmptySum(a);
    EmptySum(b);
    ReportAdds(Sum(a), Sum(b));
    hide Merge, Report, Sum, Plus;
  }

  lemma WindowStep(table: seq<Row>, project: int, since: int, until: int)
    ensures table == [] ==> Sum(Window(table, project, since, until)) == Nothing()
    ensures table != [] ==>
      var r := table[|table| - 1];
      var front := Sum(Window(table[..|table| - 1], project, since, until));
      Sum(Window(table, project, since, until))
      == if r.project == project && since <= r.requestedAt < until then Add(front, r) else front
  {
    if table != [] {
      SumOfAppend(Window(table[..|table| - 1], project, since, until), table[|table| - 1]);
      hide Sum, Add;
    }
  }

  lemma {:induction false} WindowSplits(table: seq<Row>, project: int, since: int, cut: int, until: int)
    requires since <= cut <= until
    ensures Sum(Window(table, project, since, until))
         == Plus(Sum(Window(table, project, since, cut)), Sum(Window(table, project, cut, until)))
  {
    hide *;
    WindowStep(table, project, since, until);
    WindowStep(table, project, since, cut);
    WindowStep(table, project, cut, until);
    if table == [] {
      NothingIsNeutral(Nothing());
    } else {
      var front, r := table[..|table| - 1], table[|table| - 1];
      WindowSplits(front, project, since, cut, until);
      AddToEither(Sum(Window(front, project, since, cut)), Sum(Window(front, project, cut, until)), r);
    }
  }
}
