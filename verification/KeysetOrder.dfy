/**
 * Paging by position in a total order, independently of what the rows are: `key`
 * gives each row its (instant, id) position, and ids are unique within a table.
 */
module KeysetOrder {
  import opened Wrappers

  datatype Key = Key(instant: int, id: nat)

  /** A fetched page: its rows and, if more follow, the position of the last one. */
  datatype Slice<T> = Slice(data: seq<T>, next: Option<Key>)

  /** `a` sorts after `b` in the descending order. */
  predicate Below(a: Key, b: Key) {
    a.instant < b.instant || (a.instant == b.instant && a.id < b.id)
  }

  ghost predicate Keyed<T(!new)>(table: set<T>, key: T -> Key) {
    forall r, s | r in table && s in table :: key(r).id == key(s).id ==> r == s
  }

  /** The rows strictly past a position. */
  function Past<T(!new)>(table: set<T>, key: T -> Key, after: Option<Key>): (s: set<T>)
    ensures s <= table
  {
    set r | r in table && (after.Some? ==> Below(key(r), after.value))
  }

  ghost predicate Descending<T>(rows: seq<T>, key: T -> Key) {
    forall i, j | 0 <= i < j < |rows| :: Below(key(rows[j]), key(rows[i]))
  }

  predicate IsTop<T(!new, ==)>(m: T, s: set<T>, key: T -> Key) {
    m in s && forall x | x in s :: x == m || Below(key(x), key(m))
  }

  lemma {:induction false} TopExists<T(!new)>(s: set<T>, key: T -> Key)
    requires Keyed(s, key) && s != {}
    ensures exists m :: IsTop(m, s, key)
    decreases s
  {
    var x :| x in s;
    if s == {x} {
      assert IsTop(x, s, key);
    } else {
      TopExists(s - {x}, key);
      var m :| IsTop(m, s - {x}, key);
      if Below(key(x), key(m)) { assert IsTop(m, s, key); } else { assert IsTop(x, s, key); }
    }
  }

  /** ORDER BY timestamp DESC, id DESC. */
  function SortDesc<T(!new, ==)>(s: set<T>, key: T -> Key): (rows: seq<T>)
    requires Keyed(s, key)
    ensures |rows| == |s|
    ensures forall r :: r in rows <==> r in s
    ensures Descending(rows, key)
    decreases s
  {
    if s == {} then []
    else
      TopExists(s, key);
      var m :| m in s && IsTop(m, s, key);
      var rest := SortDesc(s - {m}, key);
      PutOnTop(m, rest, s, key);
      [m] + rest
  }

  lemma PutOnTop<T(!new)>(m: T, rest: seq<T>, s: set<T>, key: T -> Key)
    requires IsTop(m, s, key) && |rest| == |s - {m}| && Descending(rest, key)
    requires forall r :: r in rest <==> r in s - {m}
    ensures |[m] + rest| == |s| && Descending([m] + rest, key)
    ensures forall r :: r in [m] + rest <==> r in s
  {
    forall k | 0 <= k < |rest| ensures Below(key(rest[k]), key(m)) {
      assert rest[k] in rest;
    }
  }

  function Take<T>(rows: seq<T>, n: nat): seq<T> {
    if |rows| <= n then rows else rows[..n]
  }

  /** One fetch: up to `limit` rows past `after`, with a probe for one row more. */
  function FetchSlice<T(!new, ==)>(table: set<T>, key: T -> Key, after: Option<Key>, limit: nat): Slice<T>
    requires Keyed(table, key) && limit >= 1
  {
    PastIsKeyed(table, key, after);
    Cut(SortDesc(Past(table, key, after), key), key, limit)
  }

  function Cut<T(!new)>(all: seq<T>, key: T -> Key, limit: nat): Slice<T>
    requires limit >= 1
  {
    var rows := Take(all, limit + 1);
    if |rows| > limit then Slice(rows[..limit], Some(key(rows[limit - 1]))) else Slice(rows, None)
  }

  lemma PastIsKeyed<T(!new)>(table: set<T>, key: T -> Key, after: Option<Key>)
    requires Keyed(table, key)
    ensures Keyed(Past(table, key, after), key)
  {
  }

  /** A page is a descending run of rows past the cursor that skips nothing down to its last row. */
  ghost predicate IsSlice<T(!new)>(table: set<T>, key: T -> Key, after: Option<Key>, limit: nat, p: Slice<T>) {
    && Descending(p.data, key)
    && (forall r | r in p.data :: r in Past(table, key, after))
    && |p.data| <= limit
    && (p.next.None? ==> forall r | r in Past(table, key, after) :: r in p.data)
    && (p.next.Some? ==> Continues(table, key, after, limit, p))
  }

  ghost predicate Continues<T(!new)>(table: set<T>, key: T -> Key, after: Option<Key>, limit: nat, p: Slice<T>)
    requires p.next.Some?
  {
    && 1 <= limit == |p.data| && p.next.value == key(p.data[limit - 1])
    && (forall r | r in Past(table, key, after) :: r in p.data || Below(key(r), p.next.value))
    && exists r :: r in Past(table, key, after) && Below(key(r), p.next.value)
  }

  lemma FetchIsSlice<T(!new)>(table: set<T>, key: T -> Key, after: Option<Key>, limit: nat)
    requires Keyed(table, key) && limit >= 1
    ensures IsSlice(table, key, after, limit, FetchSlice(table, key, after, limit))
  {
    hide *;
    PastIsKeyed(table, key, after);
    var past := Past(table, key, after);
    var all := SortDesc(past, key);
    FetchCuts(table, key, after, limit);
    CutIsFront(all, key, limit);
    if |all| > limit {
      FrontAndNext(all, past, key, limit);
      FullSlice(table, key, after, limit, Slice(all[..limit], Some(key(all[limit - 1]))), all[limit]);
    } else {
      LastSlice(table, key, after, limit, Slice(all, None));
    }
  }

  lemma FetchCuts<T(!new)>(table: set<T>, key: T -> Key, after: Option<Key>, limit: nat)
    requires Keyed(table, key) && limit >= 1
    ensures Keyed(Past(table, key, after), key)
    ensures FetchSlice(table, key, after, limit) == Cut(SortDesc(Past(table, key, after), key), key, limit)
  {
    PastIsKeyed(table, key, after);
    hide Past, Keyed, SortDesc, Cut;
  }

  lemma LastSlice<T(!new)>(table: set<T>, key: T -> Key, after: Option<Key>, limit: nat, p: Slice<T>)
    requires Descending(p.data, key) && |p.data| <= limit && p.next.None?
    requires forall r :: r in p.data <==> r in Past(table, key, after)
    ensures IsSlice(table, key, after, limit, p)
  {
    hide Past, Descending;
  }

  lemma FullSlice<T(!new)>(table: set<T>, key: T -> Key, after: Option<Key>, limit: nat, p: Slice<T>, more: T)
    requires Descending(p.data, key) && 1 <= limit == |p.data| && p.next == Some(key(p.data[limit - 1]))
    requires forall r | r in p.data :: r in Past(table, key, after)
    requires forall r | r in Past(table, key, after) :: r in p.data || Below(key(r), p.next.value)
    requires more in Past(table, key, after) && Below(key(more), p.next.value)
    ensures IsSlice(table, key, after, limit, p)
  {
    hide Past, Descending, Below;
  }

  lemma CutIsFront<T(!new)>(all: seq<T>, key: T -> Key, limit: nat)
    requires limit >= 1
    ensures |all| <= limit ==> Cut(all, key, limit) == Slice(all, None)
    ensures |all| > limit ==> Cut(all, key, limit) == Slice(all[..limit], Some(key(all[limit - 1])))
  {
    if |all| > limit { assert all[..limit + 1][..limit] == all[..limit]; }
  }

  /** The first `limit` rows of a sorted set that has more. */
  lemma FrontAndNext<T(!new)>(all: seq<T>, past: set<T>, key: T -> Key, limit: nat)
    requires Descending(all, key) && 1 <= limit < |all|
    requires forall r :: r in all <==> r in past
    ensures Descending(all[..limit], key) && forall r | r in all[..limit] :: r in past
    ensures key(all[..limit][limit - 1]) == key(all[limit - 1])
    ensures forall r | r in past :: r in all[..limit] || Below(key(r), key(all[limit - 1]))
    ensures all[limit] in past && Below(key(all[limit]), key(all[limit - 1]))
  {
    forall r | r in past ensures r in all[..limit] || Below(key(r), key(all[limit - 1])) {
      var k :| 0 <= k < |all| && all[k] == r;
      if k < limit { assert all[..limit][k] == r; }
    }
    assert all[limit] in all;
  }

  /** Pages fetched one after the other; `tables[i]` is the table as fetch `i` saw it. */
  ghost predicate Walk<T(!new)>(tables: seq<set<T>>, key: T -> Key, limit: nat, pages: seq<Slice<T>>)
    decreases |pages|
  {
    && |pages| == |tables|
    && (pages != [] ==>
          var n := |pages| - 1;
          && Walk(tables[..n], key, limit, pages[..n])
          && !Ended(pages[..n])
          && IsSlice(tables[n], key, From(pages[..n]), limit, pages[n]))
  }

  ghost predicate Ended<T>(pages: seq<Slice<T>>) {
    |pages| > 0 && pages[|pages| - 1].next.None?
  }

  /** The position the next page is fetched from. */
  ghost function From<T>(pages: seq<Slice<T>>): Option<Key> {
    if pages == [] then None else pages[|pages| - 1].next
  }

  ghost function Concat<T>(pages: seq<Slice<T>>): seq<T>
    decreases |pages|
  {
    if pages == [] then [] else Concat(pages[..|pages| - 1]) + pages[|pages| - 1].data
  }

  lemma ExtendWalk<T(!new)>(tables: seq<set<T>>, key: T -> Key, limit: nat, front: seq<Slice<T>>, p: Slice<T>)
    requires |tables| == |front| + 1 && Walk(tables[..|front|], key, limit, front) && !Ended(front)
    requires IsSlice(tables[|front|], key, From(front), limit, p)
    ensures Walk(tables, key, limit, front + [p]) && Concat(front + [p]) == Concat(front) + p.data
  {
    assert (front + [p])[..|front|] == front;
  }

  /** Everything returned so far is strictly descending and at or above the next position. */
  lemma {:induction false} WalkDescends<T(!new)>(tables: seq<set<T>>, key: T -> Key, limit: nat, pages: seq<Slice<T>>)
    requires Walk(tables, key, limit, pages)
    ensures Descending(Concat(pages), key)
    ensures From(pages).Some? ==>
      forall r | r in Concat(pages) :: key(r) == From(pages).value || Below(From(pages).value, key(r))
    decreases |pages|
  {
    if pages != [] {
      var n := |pages| - 1;
      WalkDescends(tables[..n], key, limit, pages[..n]);
      AppendDescending(Concat(pages[..n]), pages[n].data, key, From(pages[..n]), tables[n]);
      if pages[n].next.Some? { PageAboveNext(tables[n], key, From(pages[..n]), limit, pages[n]); }
    }
  }

  lemma AppendDescending<T(!new)>(front: seq<T>, data: seq<T>, key: T -> Key, from: Option<Key>, table: set<T>)
    requires Descending(front, key) && Descending(data, key)
    requires front != [] ==> from.Some?
    requires from.Some? ==> forall r | r in front :: key(r) == from.value || Below(from.value, key(r))
    requires forall r | r in data :: r in Past(table, key, from)
    ensures Descending(front + data, key)
    ensures forall r, t | r in front && t in data :: Below(key(t), key(r))
  {
    forall i, j | 0 <= i < |front| && 0 <= j < |data| ensures Below(key(data[j]), key(front[i])) {
      assert front[i] in front && data[j] in Past(table, key, from);
    }
  }

  lemma PageAboveNext<T(!new)>(table: set<T>, key: T -> Key, from: Option<Key>, limit: nat, p: Slice<T>)
    requires IsSlice(table, key, from, limit, p) && p.next.Some?
    ensures forall r | r in p.data :: key(r) == p.next.value || Below(p.next.value, key(r))
    ensures from.Some? ==> Below(p.next.value, from.value)
  {
    assert p.data[limit - 1] in Past(table, key, from);
  }

  /** A row that was there at every fetch is returned, or still lies below the next position. */
  lemma {:induction false} WalkSkipsNothing<T(!new)>(tables: seq<set<T>>, key: T -> Key, limit: nat, pages: seq<Slice<T>>, r: T)
    requires Walk(tables, key, limit, pages)
    requires forall i | 0 <= i < |tables| :: r in tables[i]
    ensures r in Concat(pages) || r in Past({r}, key, From(pages))
    ensures Ended(pages) ==> r in Concat(pages)
    decreases |pages|
  {
    if pages != [] {
      var n := |pages| - 1;
      WalkSkipsNothing(tables[..n], key, limit, pages[..n], r);
      assert r in tables[n];
    }
  }

  /** Every row returned was in the table its page was fetched from. */
  lemma {:induction false} WalkInventsNothing<T(!new)>(tables: seq<set<T>>, key: T -> Key, limit: nat, pages: seq<Slice<T>>, r: T)
    requires Walk(tables, key, limit, pages) && r in Concat(pages)
    ensures exists i | 0 <= i < |pages| :: r in pages[i].data && r in tables[i]
    decreases |pages|
  {
    var n := |pages| - 1;
    if r in pages[n].data {
      assert r in Past(tables[n], key, From(pages[..n]));
      assert r in tables[n];
    } else {
      WalkInventsNothing(tables[..n], key, limit, pages[..n], r);
      var i :| 0 <= i < n && r in pages[..n][i].data && r in tables[..n][i];
      assert r in pages[i].data && r in tables[i];
    }
  }

  /** A descending enumeration of a table is its sorted form. */
  lemma {:induction false} DescendingIsSorted<T(!new)>(rows: seq<T>, s: set<T>, key: T -> Key)
    requires Keyed(s, key) && Descending(rows, key)
    requires forall r :: r in rows <==> r in s
    ensures rows == SortDesc(s, key)
    decreases s
  {
    if s == {} {
      FirstOccurs(rows, s);
    } else {
      var sorted := SortDesc(s, key);
      var m := sorted[0];
      assert rows != [] by { assert m in rows; }
      FirstIsTop(rows, s, key);
      FirstIsTop(sorted, s, key);
      assert rows[0] == m;
      TailIsRest(rows, s, key);
      DescendingIsSorted(rows[1..], s - {m}, key);
      TailIsRest(sorted, s, key);
      DescendingIsSorted(sorted[1..], s - {m}, key);
      assert rows == [m] + rows[1..] && sorted == [m] + sorted[1..];
    }
  }

  lemma FirstOccurs<T>(rows: seq<T>, s: set<T>)
    requires forall r :: r in rows <==> r in s
    ensures rows != [] ==> rows[0] in s
  {
    if rows != [] { assert rows[0] in rows; }
  }

  lemma FirstIsTop<T(!new)>(rows: seq<T>, s: set<T>, key: T -> Key)
    requires Descending(rows, key) && rows != []
    requires forall r :: r in rows <==> r in s
    ensures IsTop(rows[0], s, key)
  {
    forall x | x in s ensures x == rows[0] || Below(key(x), key(rows[0])) {
      var k :| 0 <= k < |rows| && rows[k] == x;
    }
    assert rows[0] in rows;
  }

  lemma TailIsRest<T(!new)>(rows: seq<T>, s: set<T>, key: T -> Key)
    requires Descending(rows, key) && rows != []
    requires forall r :: r in rows <==> r in s
    ensures Descending(rows[1..], key)
    ensures forall r :: r in rows[1..] <==> r in s - {rows[0]}
  {
    forall r ensures r in rows[1..] <==> r in s - {rows[0]} {
      if r in rows[1..] {
        var k :| 0 <= k < |rows[1..]| && rows[1..][k] == r;
        assert Below(key(rows[k + 1]), key(rows[0])) && rows[k + 1] in rows;
      }
      if r in s - {rows[0]} {
        var k :| 0 <= k < |rows| && rows[k] == r;
        assert rows[1..][k - 1] == r;
      }
    }
  }

  lemma {:induction false} PageSizes<T(!new)>(tables: seq<set<T>>, key: T -> Key, limit: nat, pages: seq<Slice<T>>)
    requires Walk(tables, key, limit, pages)
    ensures forall i | 0 <= i < |pages| :: |pages[i].data| <= limit && (pages[i].next.Some? ==> |pages[i].data| == limit)
    ensures forall i | 0 <= i < |pages| - 1 :: pages[i].next.Some?
    ensures !Ended(pages) ==> |Concat(pages)| == Times(|pages|, limit)
    ensures Ended(pages) ==> |Concat(pages)| == Times(|pages| - 1, limit) + |pages[|pages| - 1].data|
    decreases |pages|
  {
    if pages != [] {
      var n := |pages| - 1;
      PageSizes(tables[..n], key, limit, pages[..n]);
      forall i | 0 <= i < |pages|
        ensures |pages[i].data| <= limit && (pages[i].next.Some? ==> |pages[i].data| == limit)
        ensures i < n ==> pages[i].next.Some?
      {
        if i < n { assert pages[..n][i] == pages[i]; }
      }
    }
  }

  // ----- counting pages -----

  function Times(a: nat, b: nat): nat {
    if a == 0 then 0 else Times(a - 1, b) + b
  }

  /** How many pages a table of `n` rows takes: max(1, ceil(n / limit)). */
  function PagesNeeded(n: nat, limit: nat): nat
    requires limit >= 1
  {
    if n == 0 then 1 else (n + limit - 1) / limit
  }

  lemma {:induction false} TimesDivided(a: nat, b: nat, r: nat)
    requires b >= 1 && r < b
    ensures (Times(a, b) + r) / b == a
  {
    TimesIsProduct(a, b);
    DivUnique(Times(a, b) + r, b, a, r);
  }

  lemma {:induction false} TimesIsProduct(a: nat, b: nat)
    ensures Times(a, b) == a * b
  {
    if a > 0 {
      TimesIsProduct(a - 1, b);
      assert (a - 1) * b + b == a * b;
    }
  }

  lemma DivUnique(x: nat, d: nat, q: nat, r: nat)
    requires d >= 1 && r < d && x == q * d + r
    ensures x / d == q
  {
    var e := x / d - q;
    assert e * d == r - x % d by {
      assert (x / d) * d + x % d == x;
      assert (x / d) * d - q * d == e * d;
    }
    if e >= 1 { Grows(e, d); } else if e <= -1 { Grows(-e, d); }
  }

  lemma Grows(e: int, d: nat)
    requires e >= 1
    ensures e * d >= d && (-e) * d <= 0 - d
  {
    assert e * d == (e - 1) * d + d;
    assert (-e) * d == -(e * d);
  }

  /** If a fetch announced another page and nothing changed, that page has a row. */
  lemma LastPageHasRow<T(!new)>(table: set<T>, tables: seq<set<T>>, key: T -> Key, limit: nat, pages: seq<Slice<T>>)
    requires Walk(tables, key, limit, pages) && Ended(pages) && |pages| > 1
    requires forall i | 0 <= i < |tables| :: tables[i] == table
    ensures pages[|pages| - 1].data != []
  {
    var n := |pages| - 1;
    var front := pages[..n];
    var from := From(front[..n - 1]);
    assert front[n - 1] == pages[n - 1] && tables[..n][n - 1] == table;
    assert Continues(table, key, from, limit, pages[n - 1]);
    var r :| r in Past(table, key, from) && Below(key(r), pages[n - 1].next.value);
    assert r in Past(tables[n], key, From(front));
    assert r in pages[n].data;
  }

  lemma QuiescentContents<T(!new)>(table: set<T>, tables: seq<set<T>>, key: T -> Key, limit: nat, pages: seq<Slice<T>>)
    requires Keyed(table, key) && Walk(tables, key, limit, pages) && Ended(pages)
    requires forall i | 0 <= i < |tables| :: tables[i] == table
    ensures Concat(pages) == SortDesc(table, key)
  {
    WalkDescends(tables, key, limit, pages);
    forall r ensures r in Concat(pages) <==> r in table {
      if r in table { WalkSkipsNothing(tables, key, limit, pages, r); }
      if r in Concat(pages) { WalkInventsNothing(tables, key, limit, pages, r); }
    }
    DescendingIsSorted(Concat(pages), table, key);
  }

  /** The pages of a finished walk over an unchanging table spell it out in order. */
  lemma QuiescentWalk<T(!new)>(table: set<T>, tables: seq<set<T>>, key: T -> Key, limit: nat, pages: seq<Slice<T>>)
    requires Keyed(table, key) && limit >= 1 && Walk(tables, key, limit, pages) && Ended(pages)
    requires forall i | 0 <= i < |tables| :: tables[i] == table
    ensures Concat(pages) == SortDesc(table, key)
    ensures forall i | 0 <= i < |pages| - 1 :: |pages[i].data| == limit
    ensures |pages| == PagesNeeded(|table|, limit)
  {
    QuiescentContents(table, tables, key, limit, pages);
    PageSizes(tables, key, limit, pages);
    if |pages| > 1 { LastPageHasRow(table, tables, key, limit, pages); }
    CountPages(|table|, limit, |pages| - 1, |pages[|pages| - 1].data|);
  }

  /** A descending list of a table's rows is no longer than the table. */
  lemma {:induction false} DescendingFits<T(!new)>(rows: seq<T>, s: set<T>, key: T -> Key)
    requires Descending(rows, key)
    requires forall r | r in rows :: r in s
    ensures |rows| <= |s|
    decreases |rows|
  {
    if rows != [] {
      var front, last := rows[..|rows| - 1], rows[|rows| - 1];
      forall r | r in front ensures r in s - {last} {
        var k :| 0 <= k < |front| && front[k] == r;
        assert Below(key(last), key(rows[k]));
      }
      assert last in s;
      DescendingFits(front, s - {last}, key);
    }
  }

  /** If a fetch announced another page and nothing changed, the pages so far leave a row out. */
  lemma AnnouncedRow<T(!new)>(table: set<T>, tables: seq<set<T>>, key: T -> Key, limit: nat, pages: seq<Slice<T>>) returns (r: T)
    requires Walk(tables, key, limit, pages) && !Ended(pages) && pages != []
    requires forall i | 0 <= i < |tables| :: tables[i] == table
    ensures r in table && From(pages).Some? && Below(key(r), From(pages).value)
  {
    var n := |pages| - 1;
    assert Continues(tables[n], key, From(pages[..n]), limit, pages[n]);
    r :| r in Past(tables[n], key, From(pages[..n])) && Below(key(r), pages[n].next.value);
  }

  /** A walk over an unchanging table that has not ended has returned fewer rows than the table holds. */
  lemma UnfinishedWalkIsShort<T(!new)>(table: set<T>, tables: seq<set<T>>, key: T -> Key, limit: nat, pages: seq<Slice<T>>)
    requires limit >= 1 && Walk(tables, key, limit, pages) && !Ended(pages)
    requires forall i | 0 <= i < |tables| :: tables[i] == table
    ensures pages != [] ==> Times(|pages|, limit) < |table|
    ensures |pages| < PagesNeeded(|table|, limit)
  {
    hide *;
    if pages == [] {
      SomePageNeeded(|table|, limit);
    } else {
      var rows := Concat(pages);
      PageSizes(tables, key, limit, pages);
      WalkDescends(tables, key, limit, pages);
      var r := AnnouncedRow(table, tables, key, limit, pages);
      QuiescentRows(table, tables, key, limit, pages);
      OneRowBelow(rows, r, From(pages).value, key);
      DescendingFits(rows + [r], table, key);
      MorePagesNeeded(|pages|, limit, |table|);
    }
  }

  lemma SomePageNeeded(n: nat, limit: nat)
    requires limit >= 1
    ensures PagesNeeded(n, limit) >= 1
  {
    if n > 0 { QuotientAtLeast(n + limit - 1, limit, 1); }
  }

  lemma QuiescentRows<T(!new)>(table: set<T>, tables: seq<set<T>>, key: T -> Key, limit: nat, pages: seq<Slice<T>>)
    requires Walk(tables, key, limit, pages)
    requires forall i | 0 <= i < |tables| :: tables[i] == table
    ensures forall x | x in Concat(pages) :: x in table
  {
    WalkLengths(tables, key, limit, pages);
    hide Walk, Concat;
    forall x | x in Concat(pages) ensures x in table {
      WalkInventsNothing(tables, key, limit, pages, x);
    }
  }

  lemma WalkLengths<T(!new)>(tables: seq<set<T>>, key: T -> Key, limit: nat, pages: seq<Slice<T>>)
    requires Walk(tables, key, limit, pages)
    ensures |pages| == |tables|
  {
  }

  lemma OneRowBelow<T>(rows: seq<T>, r: T, next: Key, key: T -> Key)
    requires Descending(rows, key) && Below(key(r), next)
    requires forall x | x in rows :: key(x) == next || Below(next, key(x))
    ensures Descending(rows + [r], key)
  {
    forall i | 0 <= i < |rows| ensures Below(key(r), key(rows[i])) {
      assert rows[i] in rows;
    }
  }

  lemma MorePagesNeeded(pages: nat, limit: nat, n: nat)
    requires limit >= 1 && pages >= 1 && Times(pages, limit) < n
    ensures pages < PagesNeeded(n, limit)
  {
    var x := n + limit - 1;
    TimesIsProduct(pages, limit);
    QuotientAtLeast(x, limit, pages + 1);
  }

  lemma QuotientAtLeast(x: nat, d: nat, q: nat)
    requires d >= 1 && x >= (q - 1) * d + d
    ensures x / d >= q
  {
    var e := q - 1 - x / d;
    assert x == (x / d) * d + x % d;
    assert (q - 1) * d == e * d + (x / d) * d;
    if e >= 1 { Grows(e, d); }
  }

  lemma CountPages(n: nat, limit: nat, full: nat, last: nat)
    requires limit >= 1 && n == Times(full, limit) + last && last <= limit && (full > 0 ==> last > 0)
    ensures PagesNeeded(n, limit) == full + 1
  {
    if last > 0 {
      TimesDivided(full + 1, limit, last - 1);
    }
  }
}
