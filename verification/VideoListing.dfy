/**
  Keyset pagination of the video lists: list_all_videos in api/admin.py (created_at, descending) and
  list_videos in api/public.py with date sort (published_at, either order).
  */
module VideoListing {
  import opened Options
  import opened DateTimes
  import opened Cursors
  import opened Sorting

  /** A video as the list queries see it; `stamp` is the column they sort by, null allowed. */
  datatype Row = Row(id: int, stamp: Option<Timestamp>, status: string, deleted: bool)

  type Table = seq<Row>

  datatype Direction = DESC | ASC

  function Place(t: Timestamp): int {
    Instant(t)
  }

  /** Ascending order of (stamp, id), where the database puts a null stamp last. */
  predicate UpTo(a: Row, b: Row) {
    if a.stamp.Some? && b.stamp.Some? then
      Place(a.stamp.value) < Place(b.stamp.value)
      || (Place(a.stamp.value) == Place(b.stamp.value) && a.id <= b.id)
    else if a.stamp.None? && b.stamp.None? then a.id <= b.id
    else b.stamp.None?
  }

  predicate DownTo(a: Row, b: Row) {
    UpTo(b, a)
  }

  function Order(dir: Direction): (Row, Row) -> bool {
    if dir.DESC? then DownTo else UpTo
  }

  predicate Strictly(dir: Direction, a: Row, b: Row) {
    Order(dir)(a, b) && !Order(dir)(b, a)
  }

  /** The cursor condition as SQL evaluates it: a null stamp compares UNKNOWN, so the row is not kept. */
  predicate Beyond(dir: Direction, cursor: Option<(Timestamp, int)>, r: Row) {
    cursor.Some? ==>
      r.stamp.Some? &&
      var (here, there) := (Place(r.stamp.value), Place(cursor.value.0));
      if dir.DESC? then here < there || (here == there && r.id < cursor.value.1)
      else here > there || (here == there && r.id > cursor.value.1)
  }

  function Cut(dir: Direction, cursor: Option<(Timestamp, int)>): Row -> bool {
    r => Beyond(dir, cursor, r)
  }

  datatype Page = Page(rows: seq<Row>, hasMore: bool, next: Option<string>)

  /** Everything the query would return without a limit. */
  function Matching(table: Table, dir: Direction, where: Row -> bool, cursor: Option<string>): seq<Row> {
    Sort(Filter(Filter(table, where), Cut(dir, ValidateCursor(cursor))), Order(dir))
  }

  /** One request: fetch one row more than asked for, cut it off, and point the cursor at the last row kept. */
  function List(table: Table, dir: Direction, where: Row -> bool, cursor: Option<string>, limit: nat): Page
    requires limit >= 1
  {
    var all := Matching(table, dir, where, cursor);
    var hasMore := |all| > limit;
    var rows := if hasMore then all[..limit] else all;
    var next :=
      if hasMore && rows[limit - 1].stamp.Some?
      then Some(EncodeCursor(rows[limit - 1].stamp.value, rows[limit - 1].id))
      else None;
    Page(rows, hasMore, next)
  }

  /** Follow next_cursor from page to page; the k-th request sees the k-th of `tables`. */
  function Traverse(tables: seq<Table>, dir: Direction, where: Row -> bool, cursor: Option<string>,
        limit: nat): seq<Page>
    requires limit >= 1
    decreases |tables|
  {
    if tables == [] then []
    else
      var page := List(tables[0], dir, where, cursor, limit);
      [page] + if page.next.Some? then Traverse(tables[1..], dir, where, page.next, limit) else []
  }

  function Rows(pages: seq<Page>): seq<Row> {
    if pages == [] then [] else pages[0].rows + Rows(pages[1..])
  }

  // ---------- The order ----------

  lemma OrderIsTotal(dir: Direction)
    ensures TotalPreorder(Order(dir))
  {
    hide Place;
    forall x, y, z | Order(dir)(x, y) && Order(dir)(y, z)
      ensures Order(dir)(x, z)
    {
    }
  }

  lemma StrictlyIsOrder(dir: Direction)
    ensures forall a, b, c :: Strictly(dir, a, b) && Strictly(dir, b, c) ==> Strictly(dir, a, c)
    ensures forall a, b :: Order(dir)(a, b) && a.id != b.id ==> Strictly(dir, a, b)
  {
    hide Place;
  }

  function IdOf(r: Row): int {
    r.id
  }

  /** Ids are the primary key. */
  ghost predicate Keyed(table: Table) {
    Distinct(table, IdOf)
  }

  ghost predicate StrictlySorted(dir: Direction, s: seq<Row>) {
    forall i, j :: 0 <= i < j < |s| ==> Strictly(dir, s[i], s[j])
  }

  lemma MatchingIsStrictlySorted(table: Table, dir: Direction, where: Row -> bool, cursor: Option<string>)
    requires Keyed(table)
    ensures StrictlySorted(dir, Matching(table, dir, where, cursor))
    ensures var c := ValidateCursor(cursor);
            forall r :: r in Matching(table, dir, where, cursor) <==> r in table && where(r) && Beyond(dir, c, r)
  {
    hide ValidateCursor, Order, Beyond, Strictly;
    var p := Cut(dir, ValidateCursor(cursor));
    var f := Filter(Filter(table, where), p);
    FilterDistinct(table, where, IdOf);
    FilterDistinct(Filter(table, where), p, IdOf);
    SortDistinct(f, Order(dir), IdOf);
    OrderIsTotal(dir);
    SortSorts(f, Order(dir));
    StrictlyIsOrder(dir);
    SameElements(Sort(f, Order(dir)), f);
  }

  /** A cursor made from a row cuts exactly behind that row. */
  lemma CursorCutsBehindRow(dir: Direction, q: Row, r: Row)
    requires q.stamp.Some?
    ensures var c := ValidateCursor(Some(EncodeCursor(q.stamp.value, q.id)));
            Beyond(dir, c, r) <==> r.stamp.Some? && Strictly(dir, q, r)
  {
    hide EncodeCursor, ValidateCursor;
    CursorRoundTrip(q.stamp.value, q.id);
  }

  // ---------- Any traversal, under concurrent change ----------

  lemma StrictConcat(dir: Direction, s: seq<Row>, t: seq<Row>)
    requires StrictlySorted(dir, s) && StrictlySorted(dir, t)
    requires s != [] && forall r :: r in t ==> Strictly(dir, s[|s| - 1], r)
    ensures StrictlySorted(dir, s + t)
  {
    StrictlyIsOrder(dir);
    hide Strictly;
    forall i, j | 0 <= i < |s| && 0 <= j < |t|
      ensures Strictly(dir, s[i], t[j])
    {
      assert t[j] in t;
      assert i < |s| - 1 ==> Strictly(dir, s[i], s[|s| - 1]);
    }
  }

  /** What one request sees: a strictly sorted page behind the cursor, the next cursor cutting behind its last row. */
  lemma ListIsStrictlySorted(table: Table, dir: Direction, where: Row -> bool, cursor: Option<string>, limit: nat)
    requires limit >= 1 && Keyed(table)
    ensures var page := List(table, dir, where, cursor, limit);
            && StrictlySorted(dir, page.rows)
            && (forall r :: r in page.rows ==> where(r) && r in table && Beyond(dir, ValidateCursor(cursor), r))
            && (page.next.Some? ==>
                  |page.rows| == limit && page.rows[limit - 1].stamp.Some?
                  && forall r :: Beyond(dir, ValidateCursor(page.next), r) <==>
                                 r.stamp.Some? && Strictly(dir, page.rows[limit - 1], r))
  {
    hide ValidateCursor, EncodeCursor, Beyond, Strictly, Matching;
    var page := List(table, dir, where, cursor, limit);
    var all := Matching(table, dir, where, cursor);
    MatchingIsStrictlySorted(table, dir, where, cursor);
    assert forall i :: 0 <= i < |page.rows| ==> page.rows[i] == all[i] && all[i] in all;
    if page.next.Some? {
      forall r
        ensures Beyond(dir, ValidateCursor(page.next), r) <==>
                r.stamp.Some? && Strictly(dir, page.rows[limit - 1], r)
      {
        CursorCutsBehindRow(dir, page.rows[limit - 1], r);
      }
    }
  }

  /** The first page, and the pages after it. */
  lemma RowsSplit(tables: seq<Table>, dir: Direction, where: Row -> bool, cursor: Option<string>, limit: nat)
    requires limit >= 1 && tables != []
    ensures var page := List(tables[0], dir, where, cursor, limit);
            Rows(Traverse(tables, dir, where, cursor, limit))
            == page.rows + if page.next.Some? then Rows(Traverse(tables[1..], dir, where, page.next, limit)) else []
  {
    hide List;
    var page := List(tables[0], dir, where, cursor, limit);
    var rest := if page.next.Some? then Traverse(tables[1..], dir, where, page.next, limit) else [];
    assert Traverse(tables, dir, where, cursor, limit) == [page] + rest && ([page] + rest)[1..] == rest;
  }

  lemma BeyondIsUpwardClosed(dir: Direction, cursor: Option<(Timestamp, int)>, q: Row, r: Row)
    requires Beyond(dir, cursor, q) && Strictly(dir, q, r) && r.stamp.Some? && q.stamp.Some?
    ensures Beyond(dir, cursor, r)
  {
    hide Place;
  }

  ghost predicate BeyondAll(dir: Direction, cursor: Option<string>, rows: seq<Row>) {
    forall r :: r in rows ==> Beyond(dir, ValidateCursor(cursor), r)
  }

  /** Rows strictly behind the last row of a page are behind its cursor as well. */
  lemma PagesConcat(dir: Direction, rows: seq<Row>, rest: seq<Row>, cursor: Option<(Timestamp, int)>)
    requires rows != [] && rows[|rows| - 1].stamp.Some?
    requires StrictlySorted(dir, rows) && StrictlySorted(dir, rest)
    requires forall r :: r in rows ==> Beyond(dir, cursor, r)
    requires forall r :: r in rest ==> r.stamp.Some? && Strictly(dir, rows[|rows| - 1], r)
    ensures StrictlySorted(dir, rows + rest) && forall r :: r in rows + rest ==> Beyond(dir, cursor, r)
  {
    hide *;
    var last := rows[|rows| - 1];
    assert last in rows;
    StrictConcat(dir, rows, rest);
    forall r | r in rest
      ensures Beyond(dir, cursor, r)
    {
      BeyondIsUpwardClosed(dir, cursor, last, r);
    }
  }

  lemma AllBeyond(dir: Direction, cursor: Option<string>, rows: seq<Row>)
    requires forall r :: r in rows ==> Beyond(dir, ValidateCursor(cursor), r)
    ensures BeyondAll(dir, cursor, rows)
  {
    hide Beyond, ValidateCursor;
  }

  lemma BehindThePage(dir: Direction, page: Page, rest: seq<Row>, limit: nat)
    requires limit >= 1 && page.next.Some? && |page.rows| == limit && BeyondAll(dir, page.next, rest)
    requires forall r :: Beyond(dir, ValidateCursor(page.next), r) <==>
                         r.stamp.Some? && Strictly(dir, page.rows[limit - 1], r)
    ensures forall r :: r in rest ==> r.stamp.Some? && Strictly(dir, page.rows[limit - 1], r)
  {
    hide Beyond, ValidateCursor, Strictly;
  }

  lemma NoPages(tables: seq<Table>, dir: Direction, where: Row -> bool, cursor: Option<string>, limit: nat)
    requires limit >= 1 && tables == []
    ensures var rows := Rows(Traverse(tables, dir, where, cursor, limit));
            StrictlySorted(dir, rows) && BeyondAll(dir, cursor, rows)
  {}

  /** Each page, and each page after it, lies strictly behind what came before. */
  lemma {:induction false} TraversalIsStrictlySorted(
      tables: seq<Table>, dir: Direction, where: Row -> bool, cursor: Option<string>, limit: nat)
    requires limit >= 1 && forall t :: t in tables ==> Keyed(t)
    ensures var rows := Rows(Traverse(tables, dir, where, cursor, limit));
            StrictlySorted(dir, rows) && BeyondAll(dir, cursor, rows)
    decreases |tables|
  {
    hide *;
    if tables == [] {
      NoPages(tables, dir, where, cursor, limit);
    } else {
      var page := List(tables[0], dir, where, cursor, limit);
      ListIsStrictlySorted(tables[0], dir, where, cursor, limit);
      RowsSplit(tables, dir, where, cursor, limit);
      if page.next.Some? {
        TraversalIsStrictlySorted(tables[1..], dir, where, page.next, limit);
        var rest := Rows(Traverse(tables[1..], dir, where, page.next, limit));
        assert page.rows[limit - 1] in page.rows;
        BehindThePage(dir, page, rest, limit);
        PagesConcat(dir, page.rows, rest, ValidateCursor(cursor));
        AllBeyond(dir, cursor, page.rows + rest);
      } else {
        assert page.rows + [] == page.rows;
        AllBeyond(dir, cursor, page.rows);
      }
    }
  }

  /**
    If no id ever changes its stamp, no id is returned twice, whatever else is inserted, deleted or edited
    meanwhile.
    */
  lemma NoIdTwice(tables: seq<Table>, dir: Direction, where: Row -> bool, limit: nat, stampOf: int -> Option<Timestamp>)
    requires limit >= 1 && forall t :: t in tables ==> Keyed(t)
    requires forall t, r :: t in tables && r in t ==> r.stamp == stampOf(r.id)
    ensures Distinct(Rows(Traverse(tables, dir, where, None, limit)), IdOf)
  {
    hide Strictly;
    var rows := Rows(Traverse(tables, dir, where, None, limit));
    TraversalIsStrictlySorted(tables, dir, where, None, limit);
    RowsComeFromTables(tables, dir, where, None, limit);
    forall i, j | 0 <= i < j < |rows|
      ensures rows[i].id != rows[j].id
    {
      assert rows[i] in rows && rows[j] in rows;
      assert Strictly(dir, rows[i], rows[j]);
      SameKeyIsNotStrict(dir, rows[i], rows[j]);
    }
  }

  lemma SameKeyIsNotStrict(dir: Direction, a: Row, b: Row)
    requires Strictly(dir, a, b)
    ensures a.stamp != b.stamp || a.id != b.id
  {
    hide Place;
  }

  lemma {:induction false} RowsComeFromTables(
      tables: seq<Table>, dir: Direction, where: Row -> bool, cursor: Option<string>, limit: nat)
    requires limit >= 1 && forall t :: t in tables ==> Keyed(t)
    ensures forall r :: r in Rows(Traverse(tables, dir, where, cursor, limit)) ==>
              where(r) && exists t :: t in tables && r in t
    decreases |tables|
  {
    hide ValidateCursor, EncodeCursor, Beyond, Matching;
    if tables != [] {
      var page := List(tables[0], dir, where, cursor, limit);
      MatchingIsStrictlySorted(tables[0], dir, where, cursor);
      var all := Matching(tables[0], dir, where, cursor);
      assert forall r :: r in page.rows ==> r in all;
      var rest := if page.next.Some? then Traverse(tables[1..], dir, where, page.next, limit) else [];
      assert Traverse(tables, dir, where, cursor, limit) == [page] + rest;
      assert ([page] + rest)[1..] == rest;
      RowsComeFromTables(tables[1..], dir, where, page.next, limit);
    }
  }

  /** The traversal reached a page that offers no further cursor. */
  predicate Finished(pages: seq<Page>) {
    pages != [] && pages[|pages| - 1].next.None?
  }

  /**
    A matching row that is there, unchanged, in every table the requests see is returned exactly once,
    provided the stamps of matching rows are not null.
    */
  lemma {:induction false} UnchangedRowsAreReturnedOnce(
      tables: seq<Table>, dir: Direction, where: Row -> bool, cursor: Option<string>, limit: nat, r: Row)
    requires limit >= 1 && forall t :: t in tables ==> Keyed(t)
    requires forall t, q :: t in tables && q in t && where(q) ==> q.stamp.Some?
    requires where(r) && forall t :: t in tables ==> r in t
    requires Beyond(dir, ValidateCursor(cursor), r)
    requires Finished(Traverse(tables, dir, where, cursor, limit))
    ensures multiset(Rows(Traverse(tables, dir, where, cursor, limit)))[r] == 1
    decreases |tables|
  {
    hide ValidateCursor, EncodeCursor, Beyond, Strictly, Matching;
    var pages := Traverse(tables, dir, where, cursor, limit);
    var page := List(tables[0], dir, where, cursor, limit);
    assert tables[0] in tables;
    ListIsStrictlySorted(tables[0], dir, where, cursor, limit);
    if r !in page.rows {
      MissedRowsComeLater(tables[0], dir, where, cursor, limit, r);
      var rest := Traverse(tables[1..], dir, where, page.next, limit);
      assert pages == [page] + rest && pages[1..] == rest;
      assert rest != [];
      assert pages[|pages| - 1] == rest[|rest| - 1];
      UnchangedRowsAreReturnedOnce(tables[1..], dir, where, page.next, limit, r);
      assert r in Rows(rest);
    }
    assert r in Rows(pages);
    TraversalIsStrictlySorted(tables, dir, where, cursor, limit);
    StrictHasNoRepeats(dir, Rows(pages), r);
  }

  /** A row this page has no room for lies behind the next cursor, which is there. */
  lemma MissedRowsComeLater(table: Table, dir: Direction, where: Row -> bool, cursor: Option<string>, limit: nat,
        r: Row)
    requires limit >= 1 && Keyed(table)
    requires forall q :: q in table && where(q) ==> q.stamp.Some?
    requires where(r) && r in table && Beyond(dir, ValidateCursor(cursor), r)
    requires r !in List(table, dir, where, cursor, limit).rows
    ensures var page := List(table, dir, where, cursor, limit);
            page.next.Some? && Beyond(dir, ValidateCursor(page.next), r)
  {
    hide ValidateCursor, EncodeCursor, Beyond, Strictly, Matching;
    var page := List(table, dir, where, cursor, limit);
    var all := Matching(table, dir, where, cursor);
    MatchingIsStrictlySorted(table, dir, where, cursor);
    ListIsStrictlySorted(table, dir, where, cursor, limit);
    assert r in all;
    var k :| 0 <= k < |all| && all[k] == r;
    assert forall i :: 0 <= i < |page.rows| ==> page.rows[i] == all[i] && all[i] in page.rows;
    assert k >= limit;
    assert all[limit - 1] in all;
    assert Strictly(dir, all[limit - 1], r);
  }

  lemma StrictHasNoRepeats(dir: Direction, s: seq<Row>, r: Row)
    requires StrictlySorted(dir, s) && r in s
    ensures multiset(s)[r] == 1
  {
    hide Order;
    var k :| 0 <= k < |s| && s[k] == r;
    assert s == s[..k] + [r] + s[k + 1..];
    assert r !in s[..k] && r !in s[k + 1..] by {
      assert forall i :: 0 <= i < |s| && i != k ==> Strictly(dir, s[i], s[k]) || Strictly(dir, s[k], s[i]);
    }
  }

  // ---------- A fixed table ----------

  predicate Repeats(tables: seq<Table>, table: Table) {
    forall i :: 0 <= i < |tables| ==> tables[i] == table
  }

  /** What the traversal should enumerate. */
  function Everything(table: Table, dir: Direction, where: Row -> bool): seq<Row> {
    Sort(Filter(table, where), Order(dir))
  }

  lemma MatchingIsCutFromEverything(table: Table, dir: Direction, where: Row -> bool, cursor: Option<string>)
    ensures Matching(table, dir, where, cursor) == Filter(Everything(table, dir, where), Cut(dir, ValidateCursor(cursor)))
  {
    hide ValidateCursor, Order, Beyond;
    OrderIsTotal(dir);
    FilterSort(Filter(table, where), Order(dir), Cut(dir, ValidateCursor(cursor)));
  }

  lemma EverythingIsStrictlySorted(table: Table, dir: Direction, where: Row -> bool)
    requires Keyed(table)
    ensures StrictlySorted(dir, Everything(table, dir, where))
    ensures Matching(table, dir, where, None) == Everything(table, dir, where)
    ensures forall r :: r in Everything(table, dir, where) <==> r in table && where(r)
  {
    hide Order;
    MatchingIsStrictlySorted(table, dir, where, None);
    MatchingIsCutFromEverything(table, dir, where, None);
    FilterAll(Everything(table, dir, where), Cut(dir, None));
  }

  /** With the cursor on row `k - 1` of the list, the query returns the list from row `k` on. */
  lemma CursorContinues(table: Table, dir: Direction, where: Row -> bool, k: nat)
    requires Keyed(table)
    requires 1 <= k <= |Everything(table, dir, where)|
    requires forall i :: k - 1 <= i < |Everything(table, dir, where)| ==> Everything(table, dir, where)[i].stamp.Some?
    ensures var all := Everything(table, dir, where);
            Matching(table, dir, where, Some(EncodeCursor(all[k - 1].stamp.value, all[k - 1].id))) == all[k..]
  {
    hide ValidateCursor, EncodeCursor, Beyond, Order, Strictly, Everything;
    var all := Everything(table, dir, where);
    EverythingIsStrictlySorted(table, dir, where);
    var cursor := Some(EncodeCursor(all[k - 1].stamp.value, all[k - 1].id));
    var p := Cut(dir, ValidateCursor(cursor));
    MatchingIsCutFromEverything(table, dir, where, cursor);
    forall i | 0 <= i < |all|
      ensures p(all[i]) <==> i >= k
    {
      CursorCutsBehindRow(dir, all[k - 1], all[i]);
      StrictIsAsymmetric(dir, all[i], all[k - 1]);
    }
    FilterSuffix(all, p, k);
  }

  lemma StrictIsAsymmetric(dir: Direction, a: Row, b: Row)
    ensures Strictly(dir, a, b) ==> !Strictly(dir, b, a)
  {
  }

  /** Requests needed for `n` rows: one, and one more for each further `limit` rows. */
  function Requests(n: nat, limit: nat): nat
    requires limit >= 1
  {
    if n <= limit then 1 else 1 + Requests(n - limit, limit)
  }

  lemma {:induction false} RequestsIsCeiling(n: nat, limit: nat)
    requires limit >= 1
    ensures Requests(n, limit) == if n == 0 then 1 else (n + limit - 1) / limit
  {
    if n > limit {
      RequestsIsCeiling(n - limit, limit);
      var m := n - limit;
      assert (m + limit - 1 + limit) / limit == (m + limit - 1) / limit + 1 by {
        DivideStep(m + limit - 1, limit);
      }
    } else if n > 0 {
      assert limit <= n + limit - 1 < 2 * limit;
      DivideStep(n - 1, limit);
      assert (n - 1) / limit == 0;
    }
  }

  lemma DivideStep(a: nat, d: nat)
    requires d >= 1
    ensures (a + d) / d == a / d + 1
  {
    QuotientIsUnique(a + d, d, a / d + 1, a % d);
  }

  lemma QuotientIsUnique(x: nat, d: nat, q: nat, r: nat)
    requires d >= 1 && r < d && x == q * d + r
    ensures x / d == q
  {
    var p := x / d;
    assert x == p * d + x % d;
    assert (q + 1) * d == q * d + d && (p + 1) * d == p * d + d;
    TimesIsMonotone(q + 1, p, d);
    TimesIsMonotone(p + 1, q, d);
  }

  lemma TimesIsMonotone(a: nat, b: nat, d: nat)
    ensures a <= b ==> a * d <= b * d
  {
    if a <= b {
      assert b * d == a * d + (b - a) * d;
    }
  }

  /** Once a cursor exists, the pages cut the rest of the list into pieces of `limit`, to the end. */
  lemma {:induction false} TraversalContinues(
      tables: seq<Table>, table: Table, dir: Direction, where: Row -> bool, limit: nat, k: nat)
    requires limit >= 1 && Keyed(table) && Repeats(tables, table)
    requires 1 <= k < |Everything(table, dir, where)|
    requires forall i :: k - 1 <= i < |Everything(table, dir, where)| ==> Everything(table, dir, where)[i].stamp.Some?
    requires |tables| >= Requests(|Everything(table, dir, where)| - k, limit)
    ensures var all := Everything(table, dir, where);
            var pages := Traverse(tables, dir, where, Some(EncodeCursor(all[k - 1].stamp.value, all[k - 1].id)), limit);
            Rows(pages) == all[k..] && |pages| == Requests(|all| - k, limit)
    decreases |tables|
  {
    hide ValidateCursor, EncodeCursor, Everything, Matching;
    var all := Everything(table, dir, where);
    var cursor := Some(EncodeCursor(all[k - 1].stamp.value, all[k - 1].id));
    CursorContinues(table, dir, where, k);
    var page := List(table, dir, where, cursor, limit);
    var pages := Traverse(tables, dir, where, cursor, limit);
    if |all| - k > limit {
      assert all[k..][limit - 1] == all[k + limit - 1];
      TraversalContinues(tables[1..], table, dir, where, limit, k + limit);
      assert pages[1..] == Traverse(tables[1..], dir, where, page.next, limit);
      assert all[k..][..limit] + all[k + limit..] == all[k..];
    } else {
      assert pages == [page] && pages[1..] == [];
      assert page.rows + [] == page.rows;
    }
  }

  function NullCount(table: Table, where: Row -> bool): nat {
    |Filter(Filter(table, where), (r: Row) => r.stamp.None?)|
  }

  /** In descending order the rows with a null stamp come first. */
  lemma NullsComeFirst(table: Table, where: Row -> bool)
    requires Keyed(table)
    ensures var all := Everything(table, DESC, where);
            && NullCount(table, where) <= |all|
            && forall i :: 0 <= i < |all| ==> (all[i].stamp.None? <==> i < NullCount(table, where))
  {
    hide Order, Everything;
    var all := Everything(table, DESC, where);
    var p := (r: Row) => r.stamp.None?;
    OrderIsTotal(DESC);
    EverythingIsStrictlySorted(table, DESC, where);
    var k := 0;
    while k < |all| && all[k].stamp.None?
      invariant 0 <= k <= |all|
      invariant forall i :: 0 <= i < k ==> all[i].stamp.None?
    {
      k := k + 1;
    }
    forall i | k <= i < |all|
      ensures all[i].stamp.Some?
    {
      if i > k {
        NullIsFirst(all[k], all[i]);
      }
    }
    FilterPrefix(all, p, k);
    NullCountOfEverything(table, where);
  }

  lemma NullIsFirst(a: Row, b: Row)
    requires Strictly(DESC, a, b) && a.stamp.Some?
    ensures b.stamp.Some?
  {
  }

  lemma NullCountOfEverything(table: Table, where: Row -> bool)
    ensures NullCount(table, where) == |Filter(Everything(table, DESC, where), (r: Row) => r.stamp.None?)|
  {
    hide Order;
    OrderIsTotal(DESC);
    FilterSort(Filter(table, where), Order(DESC), (r: Row) => r.stamp.None?);
  }

  lemma OneRequest(n: nat, limit: nat)
    requires limit >= 1
    ensures n <= limit ==> Requests(n, limit) == 1
  {}

  /**
    On a fixed table the pages enumerate the whole sorted list, in max(1, ceil(n / limit)) requests,
    exactly when null stamps do not fill the first page of a longer list: a page that ends in a null stamp
    offers no cursor.
    */
  lemma FixedTableIsEnumerated(tables: seq<Table>, table: Table, where: Row -> bool, limit: nat)
    requires limit >= 1 && Keyed(table) && Repeats(tables, table)
    requires |tables| >= Requests(|Everything(table, DESC, where)|, limit)
    ensures var all := Everything(table, DESC, where);
            var pages := Traverse(tables, DESC, where, None, limit);
            && (Rows(pages) == all <==> |all| <= limit || NullCount(table, where) < limit)
            && (Rows(pages) == all ==> |pages| == Requests(|all|, limit))
  {
    hide *;
    var all := Everything(table, DESC, where);
    NullsComeFirst(table, where);
    OneRequest(|all|, limit);
    FirstPage(tables, table, DESC, where, limit);
  }

  /** The same without nulls, in either order; the public listing excludes null stamps by its own filter. */
  lemma FixedTableWithoutNullsIsEnumerated(tables: seq<Table>, table: Table, dir: Direction, where: Row -> bool,
        limit: nat)
    requires limit >= 1 && Keyed(table) && Repeats(tables, table)
    requires forall r :: r in table && where(r) ==> r.stamp.Some?
    requires |tables| >= Requests(|Everything(table, dir, where)|, limit)
    ensures var all := Everything(table, dir, where);
            var pages := Traverse(tables, dir, where, None, limit);
            && Rows(pages) == all
            && |pages| == if |all| == 0 then 1 else (|all| + limit - 1) / limit
  {
    hide *;
    var all := Everything(table, dir, where);
    EverythingIsStrictlySorted(table, dir, where);
    RequestsIsCeiling(|all|, limit);
    OneRequest(|all|, limit);
    assert forall i :: 0 <= i < |all| ==> all[i] in all;
    FirstPage(tables, table, dir, where, limit);
  }

  lemma FirstPage(tables: seq<Table>, table: Table, dir: Direction, where: Row -> bool, limit: nat)
    requires limit >= 1 && Keyed(table) && Repeats(tables, table)
    requires |tables| >= Requests(|Everything(table, dir, where)|, limit)
    ensures var all := Everything(table, dir, where);
            var pages := Traverse(tables, dir, where, None, limit);
            && (|all| <= limit ==> Rows(pages) == all && |pages| == 1)
            && (|all| > limit && all[limit - 1].stamp.None? ==> Rows(pages) == all[..limit] != all)
            && (|all| > limit && (forall i :: limit - 1 <= i < |all| ==> all[i].stamp.Some?) ==>
                  Rows(pages) == all && |pages| == Requests(|all|, limit))
  {
    hide ValidateCursor, EncodeCursor, Everything, Matching;
    var all := Everything(table, dir, where);
    EverythingIsStrictlySorted(table, dir, where);
    var page := List(table, dir, where, None, limit);
    var pages := Traverse(tables, dir, where, None, limit);
    assert page.rows + [] == page.rows;
    if page.next.Some? {
      assert pages[1..] == Traverse(tables[1..], dir, where, page.next, limit);
      if forall i :: limit - 1 <= i < |all| ==> all[i].stamp.Some? {
        TraversalContinues(tables[1..], table, dir, where, limit, limit);
        assert all[..limit] + all[limit..] == all;
      }
    } else {
      assert pages == [page] && pages[1..] == [];
    }
  }
}
