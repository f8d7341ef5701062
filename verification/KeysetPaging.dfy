/**
 * Repository paging: rows ordered by (timestamp, id) descending, fetched page by page
 * through an opaque cursor, while other sessions insert and delete rows in between.
 */
module KeysetPaging {
  import opened Wrappers
  import opened CursorCodec
  import opened Instants
  import opened KeysetOrder

  /** A row as far as paging is concerned: its ordering timestamp and its primary key. */
  datatype Row = Row(at: Timestamp, id: nat)

  datatype Page = Page(data: seq<Row>, nextCursor: Option<string>)

  function KeyOf(r: Row): Key {
    Key(Instant(r.at), r.id)
  }

  predicate ValidRow(r: Row) {
    ValidTimestamp(r.at) && r.id < UUID_LIMIT
  }

  /** A table: valid rows under a primary key. */
  ghost predicate ValidTable(table: set<Row>) {
    (forall r | r in table :: ValidRow(r)) && Keyed(table, KeyOf)
  }

  function EncodedKey(r: Row): string
    requires ValidRow(r)
  {
    EncodeCursor(r.at, r.id)
  }

  /** The position a cursor parameter stands for; "" is no cursor. */
  function ReadCursor(cursor: string): Result<Option<Key>, CursorError> {
    if cursor == "" then Ok(None)
    else match DecodeCursor(cursor)
      case Ok((t, id)) => Ok(Some(Key(Instant(t), id)))
      case Err(e) => Err(e)
  }

  lemma CursorMeansKey(r: Row)
    requires ValidRow(r)
    ensures ReadCursor(EncodedKey(r)) == Ok(Some(KeyOf(r)))
  {
    CursorRoundTrip(r.at, r.id);
  }

  /** The page a fetch from position `after` yields on the table it sees. */
  ghost function FetchPage(table: set<Row>, after: Option<Key>, limit: nat): Page
    requires ValidTable(table) && limit >= 1
  {
    var s := FetchSlice(table, KeyOf, after, limit);
    Page(s.data, CursorAfter(s))
  }

  /** The cursor announced with a page: the encoded key of its last row, when more rows follow. */
  ghost function CursorAfter(s: Slice<Row>): Option<string> {
    if s.next.Some? && s.data != [] && ValidRow(s.data[|s.data| - 1])
    then Some(EncodedKey(s.data[|s.data| - 1])) else None
  }

  // ----- the order by fields -----

  /** `a` is listed after `b`: by date, clock time and id when both are written with one offset, else by instant and id. */
  ghost predicate Older(a: Row, b: Row) {
    if ReadOffset(a.at) == ReadOffset(b.at) then EarlierFields(a.at, b.at) || (SameFields(a.at, b.at) && a.id < b.id)
    else Instant(a.at) < Instant(b.at) || (Instant(a.at) == Instant(b.at) && a.id < b.id)
  }

  lemma OlderIsBelow(a: Row, b: Row)
    requires ValidTimestamp(a.at) && ValidTimestamp(b.at)
    ensures Older(a, b) <==> Below(KeyOf(a), KeyOf(b))
  {
    if ReadOffset(a.at) == ReadOffset(b.at) { InstantsOrderByFields(a.at, b.at); }
    hide Instant, EarlierFields, SameFields, ReadOffset, ValidTimestamp;
  }

  /** The rows are listed newest first. */
  ghost predicate NewestFirst(rows: seq<Row>) {
    forall i, j | 0 <= i < j < |rows| :: Older(rows[j], rows[i])
  }

  ghost predicate PastCursor(r: Row, cursor: string) {
    cursor == "" || (DecodeCursor(cursor).Ok? && Older(r, Row(DecodeCursor(cursor).value.0, DecodeCursor(cursor).value.1)))
  }

  /** The newest rows past the cursor, at most `limit` of them, and the cursor of the last one when there are more. */
  ghost predicate IsPage(table: set<Row>, cursor: string, limit: nat, p: Page) {
    && NewestFirst(p.data) && |p.data| <= limit
    && (forall r | r in p.data :: r in table && PastCursor(r, cursor))
    && (p.nextCursor.None? ==> forall r | r in table && PastCursor(r, cursor) :: r in p.data)
    && (p.nextCursor.Some? ==>
        && 1 <= |p.data| == limit
        && var last := p.data[limit - 1];
        && DecodeCursor(p.nextCursor.value) == Ok((last.at, last.id))
        && (forall r | r in table && PastCursor(r, cursor) :: r in p.data || Older(r, last))
        && exists r :: r in table && PastCursor(r, cursor) && Older(r, last))
  }

  lemma DescendingIsNewestFirst(rows: seq<Row>)
    requires forall r | r in rows :: ValidTimestamp(r.at)
    ensures Descending(rows, KeyOf) <==> NewestFirst(rows)
  {
    hide Older, KeyOf, Below, ValidTimestamp;
    forall i, j | 0 <= i < j < |rows| ensures Older(rows[j], rows[i]) <==> Below(KeyOf(rows[j]), KeyOf(rows[i])) {
      OlderIsBelow(rows[j], rows[i]);
    }
  }

  lemma PastIsPastCursor(table: set<Row>, cursor: string, after: Option<Key>, r: Row)
    requires ValidTable(table) && ReadCursor(cursor) == Ok(after) && r in table
    ensures r in Past(table, KeyOf, after) <==> PastCursor(r, cursor)
  {
    hide Older, KeyOf, Below, Keyed;
    assert ValidRow(r);
    if cursor != "" {
      var (t, id) := DecodeCursor(cursor).value;
      CursorKey(t, id);
      OlderIsBelow(r, Row(t, id));
    }
    hide DecodeCursor, ValidTimestamp, Instant;
  }

  lemma CursorKey(t: Timestamp, id: nat)
    ensures KeyOf(Row(t, id)) == Key(Instant(t), id)
  {
  }

  lemma LastRowsCursor(table: set<Row>, after: Option<Key>, limit: nat)
    requires ValidTable(table) && limit >= 1
    ensures var p, s := FetchPage(table, after, limit), FetchSlice(table, KeyOf, after, limit);
      && p.data == s.data
      && (p.nextCursor.None? <==> s.next.None?)
      && (p.nextCursor.Some? ==>
          1 <= |p.data| == limit
          && DecodeCursor(p.nextCursor.value) == Ok((p.data[limit - 1].at, p.data[limit - 1].id)))
  {
    hide Instant, SortDesc, ReadCursor, ValidTimestamp, FetchSlice, DecodeCursor, EncodeCursor;
    var s := FetchSlice(table, KeyOf, after, limit);
    FetchIsSlice(table, KeyOf, after, limit);
    if s.next.Some? {
      var last := s.data[limit - 1];
      assert last in Past(table, KeyOf, after);
      CursorRoundTrip(last.at, last.id);
    }
  }

  lemma PastRowsAreValid(table: set<Row>, after: Option<Key>, r: Row)
    requires ValidTable(table) && r in Past(table, KeyOf, after)
    ensures r in table && ValidTimestamp(r.at)
  {
    hide ValidTimestamp, KeyOf;
    assert ValidRow(r);
  }

  lemma TableRowsAreValid(table: set<Row>, r: Row)
    requires ValidTable(table) && r in table
    ensures ValidTimestamp(r.at)
  {
    hide ValidTimestamp, KeyOf;
    assert ValidRow(r);
  }

  lemma SliceIsPage(table: set<Row>, cursor: string, after: Option<Key>, limit: nat, s: Slice<Row>, p: Page)
    requires IsSlice(table, KeyOf, after, limit, s) && p.data == s.data
    requires p.nextCursor.None? <==> s.next.None?
    requires p.nextCursor.Some? ==>
      1 <= |p.data| == limit
      && DecodeCursor(p.nextCursor.value) == Ok((p.data[limit - 1].at, p.data[limit - 1].id))
    requires forall r | r in table :: ValidTimestamp(r.at) && (r in Past(table, KeyOf, after) <==> PastCursor(r, cursor))
    requires forall r | r in Past(table, KeyOf, after) :: r in table
    ensures IsPage(table, cursor, limit, p)
  {
    hide PastCursor, Past, KeyOf, Below, Older, DecodeCursor, ValidTimestamp, Descending, NewestFirst;
    forall r | r in s.data ensures ValidTimestamp(r.at) {
      assert r in Past(table, KeyOf, after);
    }
    DescendingIsNewestFirst(s.data);
    if s.next.Some? {
      var last := s.data[limit - 1];
      forall r | r in table ensures Older(r, last) <==> Below(KeyOf(r), s.next.value) {
        OlderIsBelow(r, last);
      }
    }
  }

  /** What a fetch yields, told by fields. */
  lemma FetchedPageIsPage(table: set<Row>, cursor: string, limit: nat)
    requires ValidTable(table) && limit >= 1 && ReadCursor(cursor).Ok?
    ensures IsPage(table, cursor, limit, FetchPage(table, ReadCursor(cursor).value, limit))
  {
    hide *;
    var after := ReadCursor(cursor).value;
    TableIsKeyed(table);
    var p, s := FetchPage(table, after, limit), FetchSlice(table, KeyOf, after, limit);
    FetchIsSlice(table, KeyOf, after, limit);
    LastRowsCursor(table, after, limit);
    forall r | r in table ensures ValidTimestamp(r.at) && (r in Past(table, KeyOf, after) <==> PastCursor(r, cursor)) {
      PastIsPastCursor(table, cursor, after, r);
      TableRowsAreValid(table, r);
    }
    forall r | r in Past(table, KeyOf, after) ensures r in table {
      PastRowsAreValid(table, after, r);
    }
    SliceIsPage(table, cursor, after, limit, s, p);
  }

  lemma TableIsKeyed(table: set<Row>)
    requires ValidTable(table)
    ensures Keyed(table, KeyOf)
  {
  }

  lemma CursorIsMalformed(cursor: string)
    ensures ReadCursor(cursor).Err? <==> cursor != "" && DecodeCursor(cursor).Err?
  {
  }

  class Repository {
    var table: set<Row>

    constructor ()
      ensures table == {} && ValidTable(table)
    {
      table := {};
    }

    method ListPage(cursor: string, limit: nat) returns (r: Result<Page, CursorError>)
      requires ValidTable(table) && limit >= 1
      ensures r == match ReadCursor(cursor)
        case Ok(after) => Ok(FetchPage(table, after, limit))
        case Err(e) => Err(e)
      ensures r.Err? <==> cursor != "" && DecodeCursor(cursor).Err?
      ensures r.Ok? ==> IsPage(table, cursor, limit, r.value)
    {
      hide IsPage, DecodeCursor, ReadCursor, Instant, EncodedKey, ValidTimestamp;
      CursorIsMalformed(cursor);
      var after := ReadCursor(cursor);
      if after.Ok? { FetchedPageIsPage(table, cursor, limit); }
      if after.Err? { return Err(after.error); }
      var query := Past(table, KeyOf, after.value);
      var rows := Take(SortDesc(query, KeyOf), limit + 1);
      ghost var slice := FetchSlice(table, KeyOf, after.value, limit);
      var nextCursor: Option<string> := None;
      if |rows| > limit {
        rows := rows[..limit];
        var last := rows[|rows| - 1];
        assert last in SortDesc(query, KeyOf) && last in table;
        nextCursor := Some(EncodedKey(last));
      }
      assert slice.data == rows && CursorAfter(slice) == nextCursor;
      r := Ok(Page(rows, nextCursor));
    }

    method Add(row: Row)
      requires ValidTable(table) && ValidRow(row) && forall r | r in table :: r.id != row.id
      modifies this
      ensures ValidTable(table) && table == old(table) + {row}
    {
      table := table + {row};
    }

    method DeleteById(id: nat) returns (found: bool)
      requires ValidTable(table)
      modifies this
      ensures ValidTable(table)
      ensures found <==> exists r :: r in old(table) && r.id == id
      ensures forall r :: r in table <==> r in old(table) && r.id != id
    {
      found := exists r | r in table :: r.id == id;
      if found {
        var row :| row in table && row.id == id;
        assert forall r | r in table && r.id == id :: KeyOf(r).id == KeyOf(row).id;
        table := table - {row};
      }
    }
  }

  // ----- following the cursor while the table changes -----

  /** `tables[i]` is the table as fetch `i` saw it; anything may have happened in between. */
  ghost predicate PageWalk(tables: seq<set<Row>>, limit: nat, pages: seq<Page>)
    decreases |pages|
  {
    && limit >= 1 && |pages| == |tables|
    && (pages != [] ==>
          var n := |pages| - 1;
          && PageWalk(tables[..n], limit, pages[..n])
          && ValidTable(tables[n])
          && NextRequest(pages[..n]).Ok?
          && pages[n] == FetchPage(tables[n], NextRequest(pages[..n]).value, limit))
  }

  /** What the client asks for next: no cursor at first, then the last page's; an error once there is none. */
  ghost function NextRequest(pages: seq<Page>): Result<Option<Key>, CursorError> {
    if pages == [] then Ok(None)
    else match pages[|pages| - 1].nextCursor
      case Some(cursor) => ReadCursor(cursor)
      case None => Err(MalformedCursor)
  }

  ghost predicate Finished(pages: seq<Page>) {
    |pages| > 0 && pages[|pages| - 1].nextCursor.None?
  }

  ghost function Rows(pages: seq<Page>): seq<Row>
    decreases |pages|
  {
    if pages == [] then [] else Rows(pages[..|pages| - 1]) + pages[|pages| - 1].data
  }

  lemma FetchedCursor(table: set<Row>, after: Option<Key>, limit: nat)
    requires ValidTable(table) && limit >= 1
    ensures var p, s := FetchPage(table, after, limit), FetchSlice(table, KeyOf, after, limit);
      && (p.nextCursor.None? <==> s.next.None?)
      && (p.nextCursor.Some? ==> ReadCursor(p.nextCursor.value) == Ok(s.next))
  {
    hide Instant, SortDesc, EncodedKey, ReadCursor, ValidTimestamp, FetchSlice;
    var s := FetchSlice(table, KeyOf, after, limit);
    FetchIsSlice(table, KeyOf, after, limit);
    if s.next.Some? {
      var last := s.data[limit - 1];
      assert last in Past(table, KeyOf, after);
      CursorMeansKey(last);
    }
  }

  /** `slices` are the pages with positions in place of cursors. */
  ghost predicate SamePages(pages: seq<Page>, slices: seq<Slice<Row>>) {
    && |slices| == |pages|
    && Concat(slices) == Rows(pages)
    && (forall i | 0 <= i < |pages| :: slices[i].data == pages[i].data)
    && (Ended(slices) <==> Finished(pages))
    && (!Finished(pages) ==> NextRequest(pages) == Ok(From(slices)))
  }

  lemma OneMoreSamePage(pages: seq<Page>, front: seq<Slice<Row>>, s: Slice<Row>)
    requires pages != [] && SamePages(pages[..|pages| - 1], front)
    requires pages[|pages| - 1].data == s.data
    requires pages[|pages| - 1].nextCursor.None? <==> s.next.None?
    requires s.next.Some? ==> ReadCursor(pages[|pages| - 1].nextCursor.value) == Ok(s.next)
    ensures SamePages(pages, front + [s])
  {
    var n := |pages| - 1;
    ConcatSnoc(front, s);
    assert Rows(pages) == Rows(pages[..n]) + s.data;
    hide ReadCursor, Rows, Concat;
    forall i | 0 <= i < |pages| ensures (front + [s])[i].data == pages[i].data {
      if i < n { assert pages[..n][i] == pages[i]; }
    }
  }

  lemma ConcatSnoc(front: seq<Slice<Row>>, s: Slice<Row>)
    ensures Concat(front + [s]) == Concat(front) + s.data
  {
    assert (front + [s])[..|front|] == front;
  }

  lemma PageWalkStep(tables: seq<set<Row>>, limit: nat, pages: seq<Page>)
    requires PageWalk(tables, limit, pages)
    ensures |pages| == |tables|
    ensures pages != [] ==>
      var n := |pages| - 1;
      && limit >= 1 && PageWalk(tables[..n], limit, pages[..n]) && ValidTable(tables[n])
      && NextRequest(pages[..n]).Ok? && pages[n] == FetchPage(tables[n], NextRequest(pages[..n]).value, limit)
  {
    hide FetchPage, ValidTable, NextRequest;
  }

  lemma NextIsFrom(pages: seq<Page>, slices: seq<Slice<Row>>)
    requires SamePages(pages, slices) && NextRequest(pages).Ok?
    ensures !Ended(slices) && NextRequest(pages).value == From(slices)
  {
    hide Rows, Concat, ReadCursor;
  }

  lemma NoPages(tables: seq<set<Row>>, limit: nat, pages: seq<Page>)
    requires pages == [] && |tables| == 0
    ensures Walk(tables, KeyOf, limit, []) && SamePages(pages, [])
  {
  }

  /** A walk through cursors is a walk through positions: the codec loses nothing. */
  lemma {:induction false} CursorsCarryPositions(tables: seq<set<Row>>, limit: nat, pages: seq<Page>) returns (slices: seq<Slice<Row>>)
    requires PageWalk(tables, limit, pages)
    ensures Walk(tables, KeyOf, limit, slices)
    ensures SamePages(pages, slices)
    decreases |pages|
  {
    hide *;
    PageWalkStep(tables, limit, pages);
    if pages == [] {
      NoPages(tables, limit, pages);
      slices := [];
    } else {
      var n := |pages| - 1;
      var front := CursorsCarryPositions(tables[..n], limit, pages[..n]);
      var after := NextRequest(pages[..n]).value;
      NextIsFrom(pages[..n], front);
      var last := FetchedSlice(tables[n], after, limit, pages[n]);
      OneMoreSamePage(pages, front, last);
      WalkLengths(tables[..n], KeyOf, limit, front);
      ExtendWalk(tables, KeyOf, limit, front, last);
      slices := front + [last];
    }
  }

  lemma FetchedSlice(table: set<Row>, after: Option<Key>, limit: nat, p: Page) returns (s: Slice<Row>)
    requires ValidTable(table) && limit >= 1 && p == FetchPage(table, after, limit)
    ensures IsSlice(table, KeyOf, after, limit, s) && s.data == p.data
    ensures p.nextCursor.None? <==> s.next.None?
    ensures s.next.Some? ==> ReadCursor(p.nextCursor.value) == Ok(s.next)
  {
    s := FetchSlice(table, KeyOf, after, limit);
    assert s.data == p.data;
    hide FetchPage, FetchSlice, KeyOf;
    FetchedCursor(table, after, limit);
    FetchIsSlice(table, KeyOf, after, limit);
  }

  // ----- main theorems -----

  lemma {:induction false} WalkedTablesAreValid(tables: seq<set<Row>>, limit: nat, pages: seq<Page>)
    requires PageWalk(tables, limit, pages)
    ensures forall i | 0 <= i < |tables| :: ValidTable(tables[i])
    decreases |pages|
  {
    hide ValidTable, PageWalk;
    PageWalkStep(tables, limit, pages);
    if pages != [] {
      var n := |pages| - 1;
      WalkedTablesAreValid(tables[..n], limit, pages[..n]);
      assert forall i | 0 <= i < n :: tables[..n][i] == tables[i];
    }
  }

  lemma OlderIsStrict(a: Row, b: Row)
    requires Older(a, b)
    ensures a.id != b.id || a.at != b.at
  {
    hide Instant;
  }

  /**
   * With arbitrary inserts and deletes between fetches, a finished walk returns every row
   * present throughout exactly once, no row twice, and only rows that were really there,
   * newest first across all pages. The row a cursor was made from may be gone, and
   * timestamps may tie.
   */
  lemma PagingUnderWriters(tables: seq<set<Row>>, limit: nat, pages: seq<Page>)
    requires PageWalk(tables, limit, pages)
    ensures Descending(Rows(pages), KeyOf) && NewestFirst(Rows(pages))
    ensures forall i, j | 0 <= i < j < |Rows(pages)| :: Rows(pages)[i].id != Rows(pages)[j].id || Rows(pages)[i].at != Rows(pages)[j].at
    ensures forall r | r in Rows(pages) :: exists i | 0 <= i < |tables| :: r in tables[i]
    ensures Finished(pages) ==>
      forall r | (forall i | 0 <= i < |tables| :: r in tables[i]) :: r in Rows(pages)
  {
    hide *;
    var slices := CursorsCarryPositions(tables, limit, pages);
    SamePagesFacts(pages, slices);
    WalkDescends(tables, KeyOf, limit, slices);
    WalkedTablesAreValid(tables, limit, pages);
    forall r | r in Rows(pages) ensures ValidTimestamp(r.at) && exists i | 0 <= i < |tables| :: r in tables[i] {
      WalkInventsNothing(tables, KeyOf, limit, slices, r);
      PageWalkStep(tables, limit, pages);
      var i :| 0 <= i < |tables| && r in tables[i];
      TableRowsAreValid(tables[i], r);
    }
    DescendingIsNewestFirst(Rows(pages));
    NewestFirstIsStrict(Rows(pages));
    forall r | (forall i | 0 <= i < |tables| :: r in tables[i]) ensures Finished(pages) ==> r in Rows(pages) {
      WalkSkipsNothing(tables, KeyOf, limit, slices, r);
    }
  }

  lemma NewestFirstIsStrict(rows: seq<Row>)
    requires NewestFirst(rows)
    ensures forall i, j | 0 <= i < j < |rows| :: rows[i].id != rows[j].id || rows[i].at != rows[j].at
  {
    hide Older;
    forall i, j | 0 <= i < j < |rows| ensures rows[i].id != rows[j].id || rows[i].at != rows[j].at {
      OlderIsStrict(rows[j], rows[i]);
    }
  }

  /** A walk never runs into a malformed cursor of its own: it can go on until the last page says there is no more. */
  lemma OwnCursorsAreWellFormed(tables: seq<set<Row>>, limit: nat, pages: seq<Page>, table: set<Row>)
    requires PageWalk(tables, limit, pages) && !Finished(pages) && ValidTable(table) && limit >= 1
    ensures NextRequest(pages).Ok?
    ensures PageWalk(tables + [table], limit, pages + [FetchPage(table, NextRequest(pages).value, limit)])
  {
    var slices := CursorsCarryPositions(tables, limit, pages);
    var longer := pages + [FetchPage(table, NextRequest(pages).value, limit)];
    assert longer[..|longer| - 1] == pages && (tables + [table])[..|tables|] == tables;
  }

  /**
   * On a table nobody changes, the pages of a finished walk spell out the whole table
   * in order, all but the last are full, and there are max(1, ceil(n / limit)) of them.
   */
  lemma QuiescentPaging(table: set<Row>, tables: seq<set<Row>>, limit: nat, pages: seq<Page>)
    requires PageWalk(tables, limit, pages) && Finished(pages)
    requires forall i | 0 <= i < |tables| :: tables[i] == table
    ensures ValidTable(table) && Rows(pages) == SortDesc(table, KeyOf)
    ensures NewestFirst(Rows(pages)) && |Rows(pages)| == |table| && forall r :: r in Rows(pages) <==> r in table
    ensures forall i | 0 <= i < |pages| - 1 :: |pages[i].data| == limit
    ensures |pages| == PagesNeeded(|table|, limit)
  {
    hide *;
    var slices := CursorsCarryPositions(tables, limit, pages);
    SamePagesFacts(pages, slices);
    WalkedTablesAreValid(tables, limit, pages);
    FinishedHasPages(tables, limit, pages);
    assert tables[|tables| - 1] == table;
    TableIsKeyed(table);
    QuiescentWalk(table, tables, KeyOf, limit, slices);
    forall r | r in Rows(pages) ensures ValidTimestamp(r.at) { TableRowsAreValid(table, r); }
    DescendingIsNewestFirst(Rows(pages));
  }

  lemma FinishedHasPages(tables: seq<set<Row>>, limit: nat, pages: seq<Page>)
    requires PageWalk(tables, limit, pages) && Finished(pages)
    ensures |tables| == |pages| > 0 && limit >= 1
  {
  }

  /** A walk over an unchanging table that still has a cursor has taken fewer pages than are needed. */
  lemma UnfinishedPagingIsShort(table: set<Row>, tables: seq<set<Row>>, limit: nat, pages: seq<Page>)
    requires PageWalk(tables, limit, pages) && !Finished(pages) && limit >= 1
    requires forall i | 0 <= i < |tables| :: tables[i] == table
    ensures |pages| < PagesNeeded(|table|, limit)
  {
    var slices := CursorsCarryPositions(tables, limit, pages);
    hide *;
    SamePagesFacts(pages, slices);
    UnfinishedWalkIsShort(table, tables, KeyOf, limit, slices);
  }

  lemma SamePagesFacts(pages: seq<Page>, slices: seq<Slice<Row>>)
    requires SamePages(pages, slices)
    ensures |slices| == |pages| && (Ended(slices) <==> Finished(pages)) && Concat(slices) == Rows(pages)
    ensures forall i | 0 <= i < |pages| :: slices[i].data == pages[i].data
  {
  }

  ghost function Unchanged(table: set<Row>, n: nat): (tables: seq<set<Row>>)
    ensures |tables| == n && forall i | 0 <= i < n :: tables[i] == table
  {
    seq(n, _ => table)
  }

  lemma OneMoreUnchanged(table: set<Row>, n: nat)
    ensures Unchanged(table, n + 1) == Unchanged(table, n) + [table]
  {
  }

  /**
   * The walk ends: from any point, following the cursor on an unchanging table reaches a page
   * without one, after exactly max(1, ceil(n / limit)) pages in all.
   */
  lemma {:induction false} FollowingTheCursorEnds(table: set<Row>, limit: nat, pages: seq<Page>) returns (all: seq<Page>)
    requires ValidTable(table) && limit >= 1 && PageWalk(Unchanged(table, |pages|), limit, pages)
    ensures PageWalk(Unchanged(table, |all|), limit, all) && Finished(all) && pages <= all
    ensures |all| == PagesNeeded(|table|, limit)
    decreases PagesNeeded(|table|, limit) - |pages|
  {
    hide *;
    var tables := Unchanged(table, |pages|);
    if Finished(pages) {
      all := pages;
      QuiescentPaging(table, tables, limit, pages);
    } else {
      UnfinishedPagingIsShort(table, tables, limit, pages);
      OwnCursorsAreWellFormed(tables, limit, pages, table);
      var longer := pages + [FetchPage(table, NextRequest(pages).value, limit)];
      OneMoreUnchanged(table, |pages|);
      all := FollowingTheCursorEnds(table, limit, longer);
    }
  }
}
