/** The order of the video lists, said in instants and ids: what newest first and oldest first mean. */
module ListingTimes {
  import opened Options
  import opened DateTimes
  import opened Cursors
  import opened Sorting
  import opened VideoListing

  /** Below in time, or at the same instant with the smaller id. */
  predicate Below(a: Timestamp, aId: int, b: Timestamp, bId: int) {
    Instant(a) < Instant(b) || (Instant(a) == Instant(b) && aId < bId)
  }

  /**
    Descending means the later instant first and then the greater id, and rows without a stamp before all others;
    ascending means the reverse.
    */
  predicate ComesBefore(dir: Direction, a: Row, b: Row) {
    match (a.stamp, b.stamp)
    case (Some(s), Some(t)) => if dir == DESC then Below(t, b.id, s, a.id) else Below(s, a.id, t, b.id)
    case (None, None) => if dir == DESC then b.id < a.id else a.id < b.id
    case (None, Some(_)) => dir == DESC
    case (Some(_), None) => dir == ASC
  }

  lemma StrictlyMeans(dir: Direction, a: Row, b: Row)
    ensures Strictly(dir, a, b) <==> ComesBefore(dir, a, b)
  {
    hide Instant;
  }

  /** A row lies behind a cursor iff its stamp and id are below the cursor's (descending), or above (ascending). */
  lemma BeyondMeans(dir: Direction, t: Timestamp, id: int, r: Row)
    ensures Beyond(dir, Some((t, id)), r) <==>
            r.stamp.Some? && if dir == DESC then Below(r.stamp.value, r.id, t, id) else Below(t, id, r.stamp.value, r.id)
  {
    hide Instant;
  }

  /** The rows of one page come in that order. */
  lemma PageRunsInTime(table: Table, dir: Direction, where: Row -> bool, cursor: Option<string>, limit: nat,
        i: nat, j: nat)
    requires limit >= 1 && Keyed(table) && i < j < |List(table, dir, where, cursor, limit).rows|
    ensures var rows := List(table, dir, where, cursor, limit).rows;
            ComesBefore(dir, rows[i], rows[j])
  {
    ListIsStrictlySorted(table, dir, where, cursor, limit);
    hide List, Strictly;
    var rows := List(table, dir, where, cursor, limit).rows;
    StrictlyMeans(dir, rows[i], rows[j]);
  }

  /** And so do the rows of all pages together, over tables that change in between. */
  lemma TraversalRunsInTime(tables: seq<Table>, dir: Direction, where: Row -> bool, cursor: Option<string>, limit: nat,
        i: nat, j: nat)
    requires limit >= 1 && (forall t :: t in tables ==> Keyed(t))
    requires i < j < |Rows(Traverse(tables, dir, where, cursor, limit))|
    ensures var rows := Rows(Traverse(tables, dir, where, cursor, limit));
            ComesBefore(dir, rows[i], rows[j])
  {
    TraversalIsStrictlySorted(tables, dir, where, cursor, limit);
    hide Traverse, Rows, Strictly;
    var rows := Rows(Traverse(tables, dir, where, cursor, limit));
    StrictlyMeans(dir, rows[i], rows[j]);
  }

  /** A page leaves nothing out: a matching row behind the cursor is on it, or comes after a full page. */
  lemma PageIsTheNearest(table: Table, dir: Direction, where: Row -> bool, cursor: Option<string>, limit: nat, r: Row,
        q: Row)
    requires limit >= 1 && Keyed(table) && r in table && where(r) && Beyond(dir, ValidateCursor(cursor), r)
    requires var page := List(table, dir, where, cursor, limit);
             r !in page.rows && q in page.rows
    ensures |List(table, dir, where, cursor, limit).rows| == limit && List(table, dir, where, cursor, limit).hasMore
    ensures ComesBefore(dir, q, r)
  {
    MatchingIsStrictlySorted(table, dir, where, cursor);
    hide ValidateCursor, EncodeCursor, Beyond, Strictly, Matching;
    var all := Matching(table, dir, where, cursor);
    var rows := List(table, dir, where, cursor, limit).rows;
    assert r in all;
    var k :| 0 <= k < |all| && all[k] == r;
    var l :| 0 <= l < |rows| && rows[l] == q;
    assert rows[l] == all[l];
    assert forall x :: 0 <= x < |rows| ==> all[x] == rows[x] && rows[x] in rows;
    assert k >= |rows|;
    StrictlyMeans(dir, all[l], all[k]);
  }
}
