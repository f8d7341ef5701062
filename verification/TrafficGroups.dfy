/**
 * What each breakdown of the traffic says, told by the columns of the rows: which keys
 * have a group, which rows its aggregates are taken over, and what those aggregates are.
 */
module TrafficGroups {
  import opened Arithmetic
  import opened Wrappers
  import opened TrafficAggregates

  // ----- aggregates, column by column -----

  function Column(rows: seq<Row>, f: Row -> real): (c: seq<real>)
    ensures |c| == |rows| && forall i | 0 <= i < |rows| :: c[i] == f(rows[i])
  {
    seq(|rows|, i requires 0 <= i < |rows| => f(rows[i]))
  }

  function One(holds: bool): real {
    if holds then 1.0 else 0.0
  }

  lemma ColumnSnoc(rows: seq<Row>, f: Row -> real)
    ensures rows == [] ==> SumOf(Column(rows, f)) == 0.0
    ensures rows != [] ==> SumOf(Column(rows, f)) == SumOf(Column(rows[..|rows| - 1], f)) + f(rows[|rows| - 1])
  {
    if rows != [] {
      assert Column(rows, f)[..|rows| - 1] == Column(rows[..|rows| - 1], f);
    }
  }

  lemma {:induction false} TotalsByColumn(
    rows: seq<Row>, cost: Row -> real, latency: Row -> real, input: Row -> real, output: Row -> real, failed: Row -> real)
    requires forall r :: cost(r) == r.cost && latency(r) == r.latencyMs as real
    requires forall r :: input(r) == r.inputTokens as real && output(r) == r.outputTokens as real
    requires forall r :: failed(r) == One(!r.success)
    ensures Sum(rows).cost == SumOf(Column(rows, cost)) && Sum(rows).latency == SumOf(Column(rows, latency))
    ensures Sum(rows).tokens as real == SumOf(Column(rows, input)) + SumOf(Column(rows, output))
    ensures Sum(rows).errors as real == SumOf(Column(rows, failed))
    decreases |rows|
  {
    hide SumOf, Column;
    ColumnSnoc(rows, cost);
    ColumnSnoc(rows, latency);
    ColumnSnoc(rows, input);
    ColumnSnoc(rows, output);
    ColumnSnoc(rows, failed);
    if rows != [] {
      TotalsByColumn(rows[..|rows| - 1], cost, latency, input, output, failed);
    }
  }

  /**
   * A query answers with the number of rows, the sum of the costs, the sum of all input and all
   * output tokens, the number of rows that did not succeed, and the mean latency, 0 for no rows.
   */
  lemma QueryByColumn(rows: seq<Row>)
    ensures var q := Query(rows);
      && q.count == |rows|
      && q.cost == SumOf(Column(rows, (r: Row) => r.cost))
      && q.tokens as real == SumOf(Column(rows, (r: Row) => r.inputTokens as real)) + SumOf(Column(rows, (r: Row) => r.outputTokens as real))
      && q.errors as real == SumOf(Column(rows, (r: Row) => One(!r.success)))
      && (rows == [] ==> q.avgLatency == 0.0)
      && (rows != [] ==> q.avgLatency == SumOf(Column(rows, (r: Row) => r.latencyMs as real)) / |rows| as real)
  {
    TotalsByColumn(rows, (r: Row) => r.cost, (r: Row) => r.latencyMs as real, (r: Row) => r.inputTokens as real,
                   (r: Row) => r.outputTokens as real, (r: Row) => One(!r.success));
    hide Sum, SumOf, Column;
  }

  // ----- which rows -----

  /** The rows a predicate keeps, in order. */
  function Where(rows: seq<Row>, p: Row -> bool): seq<Row> {
    if rows == [] then []
    else if p(rows[|rows| - 1]) then Where(rows[..|rows| - 1], p) + [rows[|rows| - 1]]
    else Where(rows[..|rows| - 1], p)
  }

  lemma {:induction false} WhereKeeps(rows: seq<Row>, p: Row -> bool, r: Row)
    ensures multiset(Where(rows, p))[r] == if p(r) then multiset(rows)[r] else 0
    ensures r in Where(rows, p) <==> r in rows && p(r)
    decreases |rows|
  {
    if rows != [] {
      WhereKeeps(rows[..|rows| - 1], p, r);
      assert rows == rows[..|rows| - 1] + [rows[|rows| - 1]];
    }
  }

  lemma WhereIsEmpty(rows: seq<Row>, p: Row -> bool)
    ensures Where(rows, p) != [] <==> exists r :: r in rows && p(r)
  {
    if Where(rows, p) != [] {
      WhereKeeps(rows, p, Where(rows, p)[0]);
      assert Where(rows, p)[0] in Where(rows, p);
    }
    if r :| r in rows && p(r) { WhereKeeps(rows, p, r); }
  }

  /** The window holds the project's rows from `since` on and before `until`. */
  lemma {:induction false} WindowRows(table: seq<Row>, project: int, since: int, until: int, p: Row -> bool)
    requires forall r: Row :: p(r) <==> r.project == project && since <= r.requestedAt && r.requestedAt < until
    ensures Window(table, project, since, until) == Where(table, p)
    decreases |table|
  {
    if table != [] { WindowRows(table[..|table| - 1], project, since, until, p); }
  }

  /** The rows the provider join loses name no provider, or one that is gone. */
  lemma {:induction false} UnattributedRows(rows: seq<Row>, types: map<int, string>, p: Row -> bool)
    requires forall r: Row :: p(r) <==> r.provider == None || r.provider.value !in types
    ensures Attributed(rows, types, false) == Where(rows, p)
    decreases |rows|
  {
    if rows != [] { UnattributedRows(rows[..|rows| - 1], types, p); }
  }

  // ----- the groups of any answer -----

  ghost predicate HasKey<K(!new)>(groups: seq<Group<K>>, key: K) {
    exists g :: g in groups && g.key == key
  }

  lemma {:induction false} KeyMeansRows<K>(pairs: seq<(K, Row)>, key: K)
    ensures RowsIn(pairs, {key}) != [] <==> exists j :: 0 <= j < |pairs| && pairs[j].0 == key
    decreases |pairs|
  {
    if pairs != [] {
      var n := |pairs| - 1;
      KeyMeansRows(pairs[..n], key);
      if j :| 0 <= j < n && pairs[j].0 == key { assert pairs[..n][j].0 == key; }
      if j :| 0 <= j < n && pairs[..n][j].0 == key { assert pairs[j].0 == key; }
      if pairs[n].0 == key { assert pairs[n].0 in {key}; }
      assert forall j | 0 <= j < |pairs| && pairs[j].0 == key :: j < n ==> pairs[..n][j].0 == key;
    }
  }

  lemma GroupsOfAnswer<K(!new)>(pairs: seq<(K, Row)>, groups: seq<Group<K>>, key: K)
    requires IsGroupBy(pairs, groups)
    ensures HasKey(groups, key) <==> RowsIn(pairs, {key}) != []
    ensures forall g | g in groups && g.key == key :: g.stats == Query(RowsIn(pairs, {key}))
  {
    KeyMeansRows(pairs, key);
    if g :| g in groups && g.key == key {
      var i :| 0 <= i < |groups| && groups[i] == g;
      var j :| 0 <= j < |pairs| && pairs[j].0 == groups[i].key;
    }
    if j :| 0 <= j < |pairs| && pairs[j].0 == key {
      assert pairs[j].0 in Keys(groups);
      var g :| g in groups && g.key == key;
    }
    hide Query, RowsIn;
  }

  /** Key `key` has a group if and only if some row satisfies `p`, and its aggregates are those of exactly these rows. */
  ghost predicate Breaks<K(!new)>(rows: seq<Row>, groups: seq<Group<K>>, key: K, p: Row -> bool) {
    && (HasKey(groups, key) <==> exists r :: r in rows && p(r))
    && forall g | g in groups && g.key == key :: g.stats == Query(Where(rows, p))
  }

  lemma SameRowsBreak<K(!new)>(rows: seq<Row>, pairs: seq<(K, Row)>, groups: seq<Group<K>>, key: K, p: Row -> bool)
    requires IsGroupBy(pairs, groups) && RowsIn(pairs, {key}) == Where(rows, p)
    ensures Breaks(rows, groups, key, p)
  {
    GroupsOfAnswer(pairs, groups, key);
    WhereIsEmpty(rows, p);
  }

  // ----- the breakdowns -----

  lemma {:induction false} RowsOfModel(rows: seq<Row>, key: string, p: Row -> bool)
    requires forall r: Row :: p(r) <==> r.model == key
    ensures RowsIn(ByModel(rows), {key}) == Where(rows, p)
    decreases |rows|
  {
    if rows != [] {
      var front := ByModel(rows[..|rows| - 1]);
      assert ByModel(rows)[..|front|] == front;
      RowsOfModel(rows[..|rows| - 1], key, p);
    }
  }

  /** A model has a group exactly when some row names it, with the aggregates of the rows that do. */
  lemma ModelBreakdown(rows: seq<Row>, groups: seq<Group<string>>, model: string)
    requires IsGroupBy(ByModel(rows), groups)
    ensures Breaks(rows, groups, model, (r: Row) => r.model == model)
  {
    RowsOfModel(rows, model, (r: Row) => r.model == model);
    SameRowsBreak(rows, ByModel(rows), groups, model, (r: Row) => r.model == model);
  }

  /** The row's provider exists and has this type. */
  predicate HasType(r: Row, types: map<int, string>, providerType: string) {
    r.provider.Some? && r.provider.value in types && types[r.provider.value] == providerType
  }

  lemma {:induction false} RowsOfProvider(rows: seq<Row>, types: map<int, string>, key: string, p: Row -> bool)
    requires forall r: Row :: p(r) <==> HasType(r, types, key)
    ensures RowsIn(ByProvider(rows, types), {key}) == Where(rows, p)
    decreases |rows|
  {
    if rows != [] {
      var front, r := ByProvider(rows[..|rows| - 1], types), rows[|rows| - 1];
      RowsOfProvider(rows[..|rows| - 1], types, key, p);
      if HasProvider(r, types) {
        assert (front + [(types[r.provider.value], r)])[..|front|] == front;
      }
    }
  }

  /** A provider type has a group exactly when some row's provider has it, with the aggregates of those rows. */
  lemma ProviderBreakdown(rows: seq<Row>, types: map<int, string>, groups: seq<Group<string>>, providerType: string)
    requires IsGroupBy(ByProvider(rows, types), groups)
    ensures Breaks(rows, groups, providerType, (r: Row) => HasType(r, types, providerType))
  {
    RowsOfProvider(rows, types, providerType, (r: Row) => HasType(r, types, providerType));
    SameRowsBreak(rows, ByProvider(rows, types), groups, providerType, (r: Row) => HasType(r, types, providerType));
  }

  lemma {:induction false} RowsOfBucket(rows: seq<Row>, g: Granularity, key: int, p: Row -> bool)
    requires forall r: Row :: p(r) <==> Trunc(g, r.requestedAt) == key
    ensures RowsIn(ByBucket(rows, g), {key}) == Where(rows, p)
    decreases |rows|
  {
    hide Trunc;
    if rows != [] {
      var front := ByBucket(rows[..|rows| - 1], g);
      assert ByBucket(rows, g)[..|front|] == front;
      RowsOfBucket(rows[..|rows| - 1], g, key, p);
    }
  }

  /** `length` is a minute, an hour or a day, in microseconds. */
  predicate IsLengthOf(length: int, g: Granularity) {
    && (g == Minute ==> length == 60 * 1_000_000)
    && (g == Hour ==> length == 3600 * 1_000_000)
    && (g == Day ==> length == 86_400 * 1_000_000)
  }

  /** `t` lies in the bucket that starts at `start`, a whole number of lengths from the epoch. */
  predicate InBucket(t: int, start: int, length: int)
    requires length > 0
  {
    start % length == 0 && start <= t < start + length
  }

  lemma TruncIsStart(g: Granularity, t: int, start: int, length: int)
    requires IsLengthOf(length, g)
    ensures Trunc(g, t) == start <==> InBucket(t, start, length)
  {
    assert length == Size(g);
    if InBucket(t, start, length) {
      RemainderIs(t, length, start / length, t - start);
    }
    if Trunc(g, t) == start {
      RemainderIs(start, length, t / length, 0);
    }
  }

  /**
   * A bucket has a point exactly when it starts on a whole minute, hour or day and some request
   * falls into it, with the aggregates of the requests that do.
   */
  lemma TimeBreakdown(rows: seq<Row>, g: Granularity, series: seq<Group<int>>, start: int, length: int)
    requires IsSeries(rows, g, series) && IsLengthOf(length, g)
    ensures Breaks(rows, series, start, (r: Row) => InBucket(r.requestedAt, start, length))
  {
    forall r: Row ensures Trunc(g, r.requestedAt) == start <==> InBucket(r.requestedAt, start, length) {
      TruncIsStart(g, r.requestedAt, start, length);
    }
    hide InBucket, Trunc;
    RowsOfBucket(rows, g, start, (r: Row) => InBucket(r.requestedAt, start, length));
    SameRowsBreak(rows, ByBucket(rows, g), series, start, (r: Row) => InBucket(r.requestedAt, start, length));
  }

  // ----- tags -----

  lemma {:induction false} RowsInConcat<K>(a: seq<(K, Row)>, b: seq<(K, Row)>, keys: set<K>)
    ensures RowsIn(a + b, keys) == RowsIn(a, keys) + RowsIn(b, keys)
    decreases |b|
  {
    if b == [] {
      assert a + b == a;
    } else {
      assert (a + b)[..|a + b| - 1] == a + b[..|b| - 1];
      RowsInConcat(a, b[..|b| - 1], keys);
    }
  }

  lemma {:induction false} RowPerTag(r: Row, tags: seq<string>, tag: string, q: Row)
    ensures multiset(RowsIn(WithTags(r, tags), {tag}))[q] == if q == r then multiset(tags)[tag] else 0
    decreases |tags|
  {
    if tags != [] {
      var front, last := tags[..|tags| - 1], tags[|tags| - 1];
      assert tags == front + [last];
      assert WithTags(r, tags)[..|WithTags(r, tags)| - 1] == WithTags(r, front);
      RowPerTag(r, front, tag, q);
    }
  }

  /** `part` lists each row once per copy of it in `rows` and occurrence of the tag in it. */
  ghost predicate ListsTagged(part: seq<Row>, rows: seq<Row>, tag: string) {
    forall r :: multiset(part)[r] == Product(multiset(rows)[r], multiset(r.tags)[tag])
  }

  function Product(a: nat, b: nat): nat {
    a * b
  }

  lemma OneMoreCopy(a: nat, b: nat)
    ensures Product(a + 1, b) == Product(a, b) + b && Product(0, b) == 0
  {
  }

  lemma ByTagStep(rows: seq<Row>)
    ensures rows == [] ==> ByTag(rows) == []
    ensures rows != [] ==> ByTag(rows) == ByTag(rows[..|rows| - 1]) + WithTags(rows[|rows| - 1], rows[|rows| - 1].tags)
  {
  }

  lemma NoPairsNoRows<K>(pairs: seq<(K, Row)>, keys: set<K>)
    requires pairs == []
    ensures RowsIn(pairs, keys) == []
  {
  }

  lemma CopiesOfSnoc(front: seq<Row>, last: Row, r: Row)
    ensures multiset(front + [last])[r] == multiset(front)[r] + if r == last then 1 else 0
  {
  }

  lemma CopiesOfConcat(a: seq<Row>, b: seq<Row>, r: Row)
    ensures multiset(a + b)[r] == multiset(a)[r] + multiset(b)[r]
  {
  }

  lemma {:induction false} TaggedRows(rows: seq<Row>, tag: string, r: Row)
    ensures multiset(RowsIn(ByTag(rows), {tag}))[r] == Product(multiset(rows)[r], multiset(r.tags)[tag])
    decreases |rows|
  {
    hide *;
    ByTagStep(rows);
    if rows == [] {
      OneMoreCopy(0, multiset(r.tags)[tag]);
      NoPairsNoRows(ByTag(rows), {tag});
    } else {
      var front, last := rows[..|rows| - 1], rows[|rows| - 1];
      assert rows == front + [last];
      TaggedRows(front, tag, r);
      OneMoreCopy(multiset(front)[r], multiset(r.tags)[tag]);
      RowsInConcat(ByTag(front), WithTags(last, last.tags), {tag});
      RowPerTag(last, last.tags, tag, r);
      CopiesOfSnoc(front, last, r);
      CopiesOfConcat(RowsIn(ByTag(front), {tag}), RowsIn(WithTags(last, last.tags), {tag}), r);
    }
  }

  /** Totals do not depend on the order of the rows. */
  lemma {:induction false} QueryIgnoresOrder(a: seq<Row>, b: seq<Row>)
    requires multiset(a) == multiset(b)
    ensures Sum(a) == Sum(b) && Query(a) == Query(b)
    decreases |a|
  {
    hide *;
    if a == [] {
      assert |b| == |multiset(b)| == 0;
    } else {
      var front, last := a[..|a| - 1], a[|a| - 1];
      assert a == front + [last];
      SumOfAppend(front, last);
      var pre, post := TakeOut(front, last, b);
      QueryIgnoresOrder(front, pre + post);
      MoveToEnd(pre, last, post);
    }
    QueryOfSum(a, b);
  }

  lemma QueryOfSum(a: seq<Row>, b: seq<Row>)
    requires Sum(a) == Sum(b)
    ensures Query(a) == Query(b)
  {
    hide Sum;
  }

  lemma TakeOut(front: seq<Row>, last: Row, b: seq<Row>) returns (pre: seq<Row>, post: seq<Row>)
    requires multiset(front + [last]) == multiset(b)
    ensures b == pre + [last] + post && multiset(front) == multiset(pre + post)
  {
    assert last in multiset(front + [last]);
    assert last in b;
    var k :| 0 <= k < |b| && b[k] == last;
    pre, post := b[..k], b[k + 1..];
    assert b == pre + [last] + post;
    assert multiset(b) == multiset(pre) + multiset{last} + multiset(post);
    assert multiset(front + [last]) == multiset(front) + multiset{last};
    assert multiset(front) == multiset(b) - multiset{last};
  }

  lemma {:induction false} MoveToEnd(pre: seq<Row>, r: Row, post: seq<Row>)
    ensures Sum(pre + [r] + post) == Add(Sum(pre + post), r)
    decreases |post|
  {
    hide Sum;
    if post == [] {
      assert pre + [r] + post == pre + [r] && pre + post == pre;
      SumOfAppend(pre, r);
    } else {
      var front, last := post[..|post| - 1], post[|post| - 1];
      assert pre + [r] + post == (pre + [r] + front) + [last];
      assert pre + post == (pre + front) + [last];
      MoveToEnd(pre, r, front);
      SumOfAppend(pre + [r] + front, last);
      SumOfAppend(pre + front, last);
    }
  }

  /**
   * A tag has a group exactly when some row carries it, with the aggregates of every listing of
   * the rows in which each comes once per occurrence of the tag in it.
   */
  lemma TagBreakdown(rows: seq<Row>, groups: seq<Group<string>>, tag: string, part: seq<Row>)
    requires IsGroupBy(ByTag(rows), groups) && ListsTagged(part, rows, tag)
    ensures HasKey(groups, tag) <==> exists r :: r in rows && tag in r.tags
    ensures forall g | g in groups && g.key == tag :: g.stats == Query(part)
  {
    hide *;
    var mine := TaggedListing(rows, tag);
    GroupsOfAnswer(ByTag(rows), groups, tag);
    ListingIsEmpty(mine, rows, tag);
    SameListing(mine, part, rows, tag);
    QueryIgnoresOrder(mine, part);
  }

  lemma ListingIsEmpty(part: seq<Row>, rows: seq<Row>, tag: string)
    requires ListsTagged(part, rows, tag)
    ensures part != [] <==> exists r :: r in rows && tag in r.tags
  {
    if part != [] {
      var r := part[0];
      assert multiset(part)[r] == Product(multiset(rows)[r], multiset(r.tags)[tag]);
      assert r in multiset(part);
      FactorsArePositive(multiset(rows)[r], multiset(r.tags)[tag]);
      assert r in multiset(rows) && tag in multiset(r.tags);
    }
    if r :| r in rows && tag in r.tags {
      assert r in multiset(rows) && tag in multiset(r.tags);
      FactorsArePositive(multiset(rows)[r], multiset(r.tags)[tag]);
      assert multiset(part)[r] > 0;
    }
  }

  lemma FactorsArePositive(a: nat, b: nat)
    ensures Product(a, b) > 0 <==> a > 0 && b > 0
  {
  }

  lemma SameListing(a: seq<Row>, b: seq<Row>, rows: seq<Row>, tag: string)
    requires ListsTagged(a, rows, tag) && ListsTagged(b, rows, tag)
    ensures multiset(a) == multiset(b)
  {
    hide Product;
    forall r: Row ensures multiset(a)[r] == multiset(b)[r] {
      assert multiset(a)[r] == Product(multiset(rows)[r], multiset(r.tags)[tag]);
    }
  }

  /** There is such a listing. */
  lemma TaggedListing(rows: seq<Row>, tag: string) returns (part: seq<Row>)
    ensures ListsTagged(part, rows, tag) && part == RowsIn(ByTag(rows), {tag})
  {
    part := RowsIn(ByTag(rows), {tag});
    forall r ensures multiset(part)[r] == Product(multiset(rows)[r], multiset(r.tags)[tag]) {
      TaggedRows(rows, tag, r);
    }
    hide ByTag, RowsIn, Product;
  }

  // ----- breakdowns and the summary -----

  /** The buckets of a window add up to its summary: counts, cost, tokens, errors and the mean latency. */
  lemma SeriesMergesToSummary(table: seq<Row>, project: int, since: int, until: int, g: Granularity, series: seq<Group<int>>)
    requires IsSeries(Window(table, project, since, until), g, series)
    ensures MergeAll(series) == Query(Window(table, project, since, until))
    ensures MergeAll(series).errors == MergeAll(series).count - Successes(Window(table, project, since, until))
  {
    var rows := Window(table, project, since, until);
    GroupsMergeToWhole(ByBucket(rows, g), series);
    BucketRows(rows, g);
  }

  ghost predicate ModelGroup(rows: seq<Row>, groups: seq<Group<string>>, model: string) {
    Breaks(rows, groups, model, (r: Row) => r.model == model)
  }

  /** The model breakdown has one group per model of the rows, over that model's rows, and adds up to the total. */
  lemma ModelsMergeToSummary(rows: seq<Row>, groups: seq<Group<string>>)
    requires IsGroupBy(ByModel(rows), groups)
    ensures forall model :: ModelGroup(rows, groups, model)
    ensures MergeAll(groups) == Query(rows)
  {
    forall model ensures ModelGroup(rows, groups, model) { ModelBreakdown(rows, groups, model); }
    GroupsMergeToWhole(ByModel(rows), groups);
    ModelRows(rows);
  }

  ghost predicate ProviderGroup(rows: seq<Row>, types: map<int, string>, groups: seq<Group<string>>, providerType: string) {
    Breaks(rows, groups, providerType, (r: Row) => HasType(r, types, providerType))
  }

  /** The provider breakdown has one group per joined type and falls short of the summary by exactly the rows without a provider. */
  lemma ProvidersMergeToAttributed(rows: seq<Row>, types: map<int, string>, groups: seq<Group<string>>)
    requires IsGroupBy(ByProvider(rows, types), groups)
    ensures forall providerType :: ProviderGroup(rows, types, groups, providerType)
    ensures Merge(MergeAll(groups), Query(Where(rows, (r: Row) => r.provider == None || r.provider.value !in types))) == Query(rows)
  {
    hide *;
    forall providerType ensures ProviderGroup(rows, types, groups, providerType) {
      ProviderBreakdown(rows, types, groups, providerType);
      ProviderGroupIs(rows, types, groups, providerType);
    }
    var lost := (r: Row) => r.provider == None || r.provider.value !in types;
    UnattributedRows(rows, types, lost);
    GroupsMergeToWhole(ByProvider(rows, types), groups);
    ProviderRows(rows, types);
    AttributedMerges(rows, types);
  }

  lemma ProviderGroupIs(rows: seq<Row>, types: map<int, string>, groups: seq<Group<string>>, providerType: string)
    ensures ProviderGroup(rows, types, groups, providerType)
       <==> Breaks(rows, groups, providerType, (r: Row) => HasType(r, types, providerType))
  {
  }

  lemma AttributedMerges(rows: seq<Row>, types: map<int, string>)
    ensures Merge(Query(Attributed(rows, types, true)), Query(Attributed(rows, types, false))) == Query(rows)
  {
    AttributionSplits(rows, types);
    var a, b := Attributed(rows, types, true), Attributed(rows, types, false);
    EmptySum(a);
    EmptySum(b);
    ReportAdds(Sum(a), Sum(b));
    hide Merge, Report, Sum, Plus;
  }

  /** The tag breakdown adds up to cost and count weighted by the number of tags of each row. */
  lemma TagsMergeToWeighted(rows: seq<Row>, groups: seq<Group<string>>)
    requires IsGroupBy(ByTag(rows), groups)
    ensures MergeAll(groups).cost == TagCost(rows) && MergeAll(groups).count == TagCount(rows)
  {
    GroupsMergeToWhole(ByTag(rows), groups);
    TagRows(rows);
  }
}
