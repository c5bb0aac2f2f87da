/**
  The chapter handlers of api/admin.py on one video. Unlike playlist items, chapters carry a unique constraint
  on (video_id, position) that is not deferrable: the database checks it each time it rewrites a row.
  */
module Chapters {
  import opened Options
  import opened Positions
  import opened ChapterDetection
  import Sorting
  import Playlists

  datatype Refusal = NotFound | BadRequest | Conflict | UniqueViolation | FeatureNotSupported

  const MAX_CHAPTERS_PER_VIDEO := 50

  // ---------- An UPDATE under the constraint ----------

  /** Rewriting one row: refused when another row holds the new position at that moment. */
  function Rewrite(m: Column, k: Id, position: int): Option<Column> {
    if exists j :: j in m && j != k && m[j] == position then None else Some(m[k := position])
  }

  ghost predicate Occupied(m: Column, position: int) {
    exists j :: j in m && m[j] == position
  }

  /** The statement visits rows in an order of the database's choosing and gives each its new position. */
  function UpdateRows(m: Column, visit: seq<Id>, target: Column): Option<Column>
    requires forall i :: 0 <= i < |visit| ==> visit[i] in target
    decreases visit
  {
    if visit == [] then Some(m)
    else
      var next :- Rewrite(m, visit[0], target[visit[0]]);
      UpdateRows(next, visit[1..], target)
  }

  /** `target` is a new position for each row: only visited rows move, each to a position now occupied. */
  ghost predicate Rearranges(m: Column, visit: seq<Id>, target: Column) {
    && target.Keys == m.Keys
    && (forall i :: 0 <= i < |visit| ==> visit[i] in target)
    && (forall k :: k in m ==> Occupied(m, target[k]))
    && (forall k :: k in m && k !in Ids(visit) ==> target[k] == m[k])
  }

  /**
    A rearrangement of the occupied positions is refused, in whatever order the rows are visited, unless it
    changes nothing: the first row to move finds its new place occupied.
    */
  lemma {:induction false} RearrangingIsRefused(m: Column, visit: seq<Id>, target: Column)
    requires Distinct(m) && Rearranges(m, visit, target)
    ensures UpdateRows(m, visit, target) == if target == m then Some(m) else None
    decreases visit
  {
    if visit == [] {
      forall k | k in m
        ensures target[k] == m[k]
      {
        assert k !in Ids(visit);
      }
      assert target == m;
    } else {
      var v := visit[0];
      FirstRow(m, v, target[v]);
      if target[v] == m[v] {
        RestRearranges(m, visit, target);
        hide *;
        RearrangingIsRefused(m, visit[1..], target);
        OneVisit(m, visit, target);
      }
    }
  }

  lemma FirstRow(m: Column, v: Id, position: int)
    requires Distinct(m) && v in m && Occupied(m, position)
    ensures Rewrite(m, v, position) == if position == m[v] then Some(m) else None
  {
    if position == m[v] {
      assert m[v := position] == m;
    }
  }

  lemma RestRearranges(m: Column, visit: seq<Id>, target: Column)
    requires Rearranges(m, visit, target) && visit != [] && target[visit[0]] == m[visit[0]]
    ensures Rearranges(m, visit[1..], target)
  {
    forall k | k in m && k !in Ids(visit[1..])
      ensures target[k] == m[k]
    {
      assert k != visit[0] ==> k !in Ids(visit);
    }
  }

  lemma OneVisit(m: Column, visit: seq<Id>, target: Column)
    requires visit != [] && forall i :: 0 <= i < |visit| ==> visit[i] in target
    ensures UpdateRows(m, visit, target) ==
            match Rewrite(m, visit[0], target[visit[0]])
              case None => None
              case Some(next) => UpdateRows(next, visit[1..], target)
  {}

  /** Positions 0 .. i - 1 and i + 1 .. n: what a deleted chapter leaves. */
  ghost predicate GapAt(m: Column, s: seq<Id>, i: nat) {
    Lists(m, s) && i <= |s| && forall j :: 0 <= j < |s| ==> m[s[j]] == if j < i then j else j + 1
  }

  /** Closing the gap succeeds exactly when the rows behind it are visited in list order. */
  lemma {:induction false} ClosingTheGap(m: Column, s: seq<Id>, i: nat, visit: seq<Id>, target: Column)
    requires GapAt(m, s, i) && NoRepeats(visit) && Ids(visit) == Ids(s[i..])
    requires forall j :: i <= j < |s| ==> s[j] in target && target[s[j]] == j
    requires forall j :: 0 <= j < |visit| ==> visit[j] in target
    ensures UpdateRows(m, visit, target).Some? <==> visit == s[i..]
    ensures UpdateRows(m, visit, target).Some? ==> Dense(UpdateRows(m, visit, target).value, s)
    decreases visit
  {
    if visit == [] {
      assert s[i..] == [];
    } else {
      var v := visit[0];
      assert v in Ids(s[i..]);
      var j :| 0 <= j < |s[i..]| && s[i..][j] == v;
      hide Ids, UpdateRows;
      OneVisit(m, visit, target);
      if j > 0 {
        BehindTheNext(m, s, i, i + j);
      } else {
        FillingTheGap(m, s, i);
        GapIsFree(m, s, i);
        ListedHaveNoRepeats(m, s);
        RestOfVisit(s, i, visit);
        ClosingTheGap(m[v := i], s, i + 1, visit[1..], target);
      }
    }
  }

  lemma GapIsFree(m: Column, s: seq<Id>, i: nat)
    requires GapAt(m, s, i)
    ensures !Occupied(m, i)
  {
    forall k | k in m
      ensures m[k] != i
    {
      var j := PlaceOf(m, s, k);
    }
  }

  lemma BehindTheNext(m: Column, s: seq<Id>, i: nat, j: nat)
    requires GapAt(m, s, i) && i < j < |s|
    ensures Rewrite(m, s[j], j) == None
  {
    var before := s[j - 1];
    assert before in m && m[before] == j && m[before] < m[s[j]];
  }

  lemma FillingTheGap(m: Column, s: seq<Id>, i: nat)
    requires GapAt(m, s, i) && i < |s|
    ensures GapAt(m[s[i] := i], s, i + 1)
  {
    ListedHaveNoRepeats(m, s);
    assert m[s[i] := i].Keys == m.Keys;
  }

  lemma RestOfVisit(s: seq<Id>, i: nat, visit: seq<Id>)
    requires i < |s| && NoRepeats(s) && NoRepeats(visit) && visit != []
    requires visit[0] == s[i] && Ids(visit) == Ids(s[i..])
    ensures Ids(visit[1..]) == Ids(s[i + 1..])
    ensures visit == s[i..] <==> visit[1..] == s[i + 1..]
  {
    var t := s[i..];
    HeadAndRest(visit);
    assert NoRepeats(t);
    HeadAndRest(t);
    assert t[1..] == s[i + 1..];
  }

  lemma HeadAndRest(s: seq<Id>)
    requires NoRepeats(s) && s != []
    ensures Ids(s[1..]) == Ids(s) - {s[0]}
    ensures s == [s[0]] + s[1..]
  {
    RemovedIds(s, 0);
    assert Remove(s, 0) == s[1..];
  }

  // ---------- The handlers ----------

  ghost predicate Covers(content: map<Id, Chapter>, s: seq<Id>) {
    forall i :: 0 <= i < |s| ==> s[i] in content
  }

  ghost function Along(content: map<Id, Chapter>, s: seq<Id>): (r: seq<Chapter>)
    requires Covers(content, s)
    ensures |r| == |s|
  {
    seq(|s|, i requires 0 <= i < |s| => content[s[i]])
  }

  function OrZero(duration: Option<real>): real {
    if duration.Some? then duration.value else 0.0
  }

  /** Place of each id in a request without repeats. */
  function PlacesIn(request: seq<Id>): map<Id, nat>
    requires NoRepeats(request)
  {
    map i | 0 <= i < |request| :: request[i] := i
  }

  /** What automatic detection stores: the filtered chapters, cut at the limit. */
  function Stored(detected: seq<Chapter>, minLength: int, duration: real): (r: seq<Chapter>)
    ensures |r| <= MAX_CHAPTERS_PER_VIDEO
  {
    var kept := Filtered(detected, minLength, duration);
    if |kept| > MAX_CHAPTERS_PER_VIDEO then kept[..MAX_CHAPTERS_PER_VIDEO] else kept
  }

  /** What is stored are the first of the filtered chapters, fifty if there are more. */
  lemma StoredAreTheFirst(detected: seq<Chapter>, minLength: int, duration: real)
    ensures var kept, stored := Filtered(detected, minLength, duration), Stored(detected, minLength, duration);
            stored <= kept && |stored| == if |kept| > 50 then 50 else |kept|
  {
    hide Filtered;
  }

  lemma StoredIsEmptyOnlyIfNoneDetected(detected: seq<Chapter>, minLength: int, duration: real)
    ensures Stored(detected, minLength, duration) == [] <==> detected == []
  {
    var s := Sorting.Sort(detected, ByStart);
    if s != [] {
      assert Keeps(s[0], None, minLength, duration);
    }
  }

  lemma Held(s: seq<Id>, keys: set<Id>)
    requires Ids(s) <= keys
    ensures forall i :: 0 <= i < |s| ==> s[i] in keys
  {
    forall i | 0 <= i < |s|
      ensures s[i] in keys
    {
      assert s[i] in Ids(s);
    }
  }

  lemma BehindIsTheTail(m: Column, s: seq<Id>, i: nat)
    requires Dense(m, s) && i < |s|
    ensures (set k | k in m && m[k] > i) == Ids(s[i + 1..])
  {
    forall k | k in m
      ensures m[k] > i <==> k in s[i + 1..]
    {
      var j := PlaceOf(m, s, k);
      assert j > i ==> s[i + 1..][j - i - 1] == k;
    }
    forall k | k in s[i + 1..]
      ensures k in m
    {
      var j :| 0 <= j < |s[i + 1..]| && s[i + 1..][j] == k;
      assert s[i + 1 + j] == k;
    }
  }

  lemma GapIsListed(n: Column, t: seq<Id>, i: nat)
    requires i <= |t| && n.Keys == Ids(t)
    requires forall j {:trigger t[j]} :: 0 <= j < |t| ==> t[j] in n && n[t[j]] == if j < i then j else j + 1
    ensures GapAt(n, t, i)
  {
    hide Ids;
  }

  lemma DeletingLeavesAGap(m: Column, s: seq<Id>, i: nat)
    requires Dense(m, s) && i < |s|
    ensures GapAt(m - {s[i]}, Remove(s, i), i)
    ensures Remove(s, i)[i..] == s[i + 1..]
  {
    ListedHaveNoRepeats(m, s);
    RemovedIds(s, i);
    var n, t := m - {s[i]}, Remove(s, i);
    assert m.Keys == Ids(s) && forall j :: 0 <= j < |s| ==> s[j] in m && m[s[j]] == j;
    hide *;
    forall j {:trigger t[j]} | 0 <= j < |t|
      ensures t[j] in n && n[t[j]] == if j < i then j else j + 1
    {
      var k := if j < i then j else j + 1;
      assert t[j] == s[k] && m[s[k]] == k && m[s[i]] == i;
    }
    GapIsListed(n, t, i);
    assert t[i..] == s[i + 1..];
  }

  /** Deleting a chapter leaves a gap, which the compaction closes when it visits the rows behind it in order. */
  lemma CompactionNeedsListOrder(m: Column, s: seq<Id>, i: nat, visit: seq<Id>)
    requires Dense(m, s) && i < |s|
    requires NoRepeats(visit) && Ids(visit) == set k | k in m && m[k] > i
    ensures forall j :: 0 <= j < |visit| ==> visit[j] in m && visit[j] != s[i]
    ensures var updated := UpdateRows(m - {s[i]}, visit, Shift(m - {s[i]}, i + 1, -1));
            && (updated.Some? <==> visit == s[i + 1..])
            && (updated.Some? ==> Dense(updated.value, Remove(s, i)) && updated.value.Keys == m.Keys - {s[i]})
  {
    ListedHaveNoRepeats(m, s);
    RemovedIds(s, i);
    var rest, t := m - {s[i]}, Remove(s, i);
    var target := Shift(rest, i + 1, -1);
    BehindIsTheTail(m, s, i);
    DeletingLeavesAGap(m, s, i);
    assert Ids(visit) <= rest.Keys;
    Held(visit, rest.Keys);
    hide Ids, Remove, UpdateRows;
    ClosingTheGap(rest, t, i, visit, target);
  }

  /**
    Reordering densely numbered chapters: the constraint refuses every request but the current order,
    whatever order the rows are visited in.
    */
  lemma ReorderIsRefused(m: Column, s: seq<Id>, request: seq<Id>, visit: seq<Id>)
    requires Dense(m, s) && NoRepeats(request) && Ids(request) == m.Keys == Ids(visit)
    ensures forall i :: 0 <= i < |visit| ==> visit[i] in m
    ensures UpdateRows(m, visit, Batch(m, PlacesIn(request))) == if request == s then Some(m) else None
  {
    RequestRearranges(m, s, request, visit);
    ListedAreDistinct(m, s);
    var target := Batch(m, PlacesIn(request));
    hide Ids, Batch, PlacesIn, Lists, NoRepeats, Rearranges, UpdateRows, Distinct;
    RearrangingIsRefused(m, visit, target);
    if target == m {
      ListIsUnique(m, s, request);
    } else if request == s {
      SameDenseColumn(m, target, s);
    }
  }

  lemma PlaceIsOccupied(m: Column, s: seq<Id>, target: Column, request: seq<Id>, k: Id)
    requires Dense(m, s) && Dense(target, request) && |s| == |request| && k in target
    ensures Occupied(m, target[k])
  {
    var i := PlaceOf(target, request, k);
    var j := s[i];
    assert target[k] == i && j in m && m[j] == i;
  }

  lemma RequestIsListed(m: Column, request: seq<Id>)
    requires NoRepeats(request) && Ids(request) == m.Keys
    ensures Dense(Batch(m, PlacesIn(request)), request)
    ensures Batch(m, PlacesIn(request)).Keys == m.Keys
  {
    Held(request, m.Keys);
    ReorderPermutes(m, request, PlacesIn(request));
  }

  lemma AllVisitedRearranges(m: Column, visit: seq<Id>, target: Column)
    requires target.Keys == m.Keys == Ids(visit)
    requires forall k :: k in m ==> Occupied(m, target[k])
    ensures Rearranges(m, visit, target)
    ensures forall i :: 0 <= i < |visit| ==> visit[i] in m
  {
    Held(visit, m.Keys);
    hide Ids, Occupied;
    assert forall k :: k in m ==> k in Ids(visit);
  }

  lemma RequestRearranges(m: Column, s: seq<Id>, request: seq<Id>, visit: seq<Id>)
    requires Dense(m, s) && NoRepeats(request) && Ids(request) == m.Keys == Ids(visit)
    ensures Dense(Batch(m, PlacesIn(request)), request)
    ensures Rearranges(m, visit, Batch(m, PlacesIn(request)))
    ensures forall i :: 0 <= i < |visit| ==> visit[i] in m
  {
    var target := Batch(m, PlacesIn(request));
    RequestIsListed(m, request);
    ListedHaveNoRepeats(m, s);
    SameLength(s, request);
    hide *;
    forall k | k in m
      ensures Occupied(m, target[k])
    {
      PlaceIsOccupied(m, s, target, request, k);
    }
    AllVisitedRearranges(m, visit, target);
  }

  /** `SELECT COUNT(*)`. */
  function Count(m: Column): nat {
    |m|
  }

  lemma EmptyTogether(m: Column, s: seq<Id>)
    requires Lists(m, s)
    ensures Count(m) == 0 <==> s == []
  {
    if s == [] {
      assert m == map[];
    } else {
      assert s[0] in m;
    }
  }

  lemma SameDenseColumn(m: Column, n: Column, s: seq<Id>)
    requires Dense(m, s) && Dense(n, s)
    ensures m == n
  {
    forall k | k in m
      ensures k in n && m[k] == n[k]
    {
      var i := PlaceOf(m, s, k);
    }
  }

  lemma AlongAppends(m: Column, content: map<Id, Chapter>, s: seq<Id>, id: Id, position: int, chapter: Chapter)
    requires id !in content && Covers(content, s) && SameRows(m, content)
    ensures SameRows(m[id := position], content[id := chapter])
    ensures Covers(content[id := chapter], s + [id])
    ensures Along(content[id := chapter], s + [id]) == Along(content, s) + [chapter]
  {}

  lemma AlongDeletes(content: map<Id, Chapter>, s: seq<Id>, i: nat)
    requires i < |s| && NoRepeats(s) && Covers(content, s)
    ensures Covers(content - {s[i]}, Remove(s, i))
    ensures Along(content - {s[i]}, Remove(s, i)) == Along(content, s)[..i] + Along(content, s)[i + 1..]
  {}

  ghost predicate SameRows(m: Column, content: map<Id, Chapter>) {
    content.Keys == m.Keys
  }

  /** `visit` is an order of the rows behind `id`. */
  ghost predicate VisitsBehind(m: Column, id: Id, visit: seq<Id>) {
    id in m && NoRepeats(visit) && Ids(visit) == set k | k in m && m[k] > m[id]
  }

  /** An UPDATE in either dialect: `target` is the new position of every row, visited or not. */
  function Update(dialect: Dialect, m: Column, visit: seq<Id>, target: Column): Option<Column>
    requires forall i :: 0 <= i < |visit| ==> visit[i] in target
  {
    match dialect
    case PostgreSQL => UpdateRows(m, visit, target)
    case Idealised => if Distinct(target) then Some(target) else None
  }

  /** Deleting the row of `id`, then moving the rows behind it one position down. */
  function DeleteRow(dialect: Dialect, m: Column, id: Id, visit: seq<Id>): Option<Column>
    requires VisitsBehind(m, id, visit)
  {
    var rest := m - {id};
    Held(visit, rest.Keys);
    Update(dialect, rest, visit, Shift(rest, m[id] + 1, -1))
  }

  /** Both dialects: only the visiting order of PostgreSQL can make the compaction fail. */
  lemma DeletionCompacts(dialect: Dialect, m: Column, s: seq<Id>, i: nat, visit: seq<Id>)
    requires Dense(m, s) && i < |s| && VisitsBehind(m, s[i], visit)
    ensures var updated := DeleteRow(dialect, m, s[i], visit);
            && (updated.Some? <==> dialect.Idealised? || visit == s[i + 1..])
            && (updated.Some? ==> Dense(updated.value, Remove(s, i)) && updated.value.Keys == m.Keys - {s[i]})
  {
    CompactionNeedsListOrder(m, s, i, visit);
    RemoveDeletes(m, s, i);
    ListedAreDistinct(Shift(m - {s[i]}, m[s[i]] + 1, -1), Remove(s, i));
  }

  /** The rows behind `s[i]`, the first two of them swapped. */
  function Swapped(s: seq<Id>, i: nat): seq<Id>
    requires i + 2 < |s|
  {
    [s[i + 2], s[i + 1]] + s[i + 3..]
  }

  lemma SwappedIsAVisit(m: Column, s: seq<Id>, i: nat)
    requires Dense(m, s) && i + 2 < |s|
    ensures VisitsBehind(m, s[i], Swapped(s, i)) && Swapped(s, i) != s[i + 1..]
  {
    var visit := Swapped(s, i);
    ListedHaveNoRepeats(m, s);
    BehindIsTheTail(m, s, i);
    assert s[i + 1..] == [s[i + 1], s[i + 2]] + s[i + 3..];
    assert forall k :: k in visit <==> k in s[i + 1..];
    assert visit[0] != s[i + 1..][0];
  }

  /**
    What a caller can know: the deletion goes through for every visiting order if and only if at most one
    chapter lies behind the deleted one.
    */
  lemma DeletionIsSafeExactly(dialect: Dialect, m: Column, s: seq<Id>, i: nat)
    requires Dense(m, s) && i < |s|
    ensures (forall visit :: VisitsBehind(m, s[i], visit) ==> DeleteRow(dialect, m, s[i], visit).Some?)
       <==> dialect.Idealised? || i + 2 >= |s|
  {
    forall visit | VisitsBehind(m, s[i], visit)
      ensures DeleteRow(dialect, m, s[i], visit).Some? <==> dialect.Idealised? || visit == s[i + 1..]
    {
      DeletionCompacts(dialect, m, s, i, visit);
    }
    if i + 2 < |s| {
      SwappedIsAVisit(m, s, i);
    } else {
      ListedHaveNoRepeats(m, s);
      BehindIsTheTail(m, s, i);
      hide DeleteRow;
      forall visit | VisitsBehind(m, s[i], visit)
        ensures visit == s[i + 1..]
      {
        OnlyOneVisit(visit, s[i + 1..]);
      }
    }
  }

  lemma OnlyOneVisit(s: seq<Id>, t: seq<Id>)
    requires NoRepeats(s) && NoRepeats(t) && Ids(s) == Ids(t) && |t| <= 1
    ensures s == t
  {
    SameLength(s, t);
    if |t| == 1 {
      assert s[0] in Ids(s) && t[0] in Ids(t);
    }
  }

  lemma DeletionOutcome(dialect: Dialect, m: Column, content: map<Id, Chapter>, s: seq<Id>, id: Id, visit: seq<Id>)
    returns (place: nat)
    requires Dense(m, s) && SameRows(m, content) && VisitsBehind(m, id, visit)
    ensures place < |s| && s[place] == id
    ensures var updated := DeleteRow(dialect, m, id, visit);
            && (updated.Some? <==> dialect.Idealised? || visit == s[place + 1..])
            && (updated.Some? ==>
                  && Dense(updated.value, Remove(s, place))
                  && SameRows(updated.value, content - {id})
                  && (Count(updated.value) == 0 <==> Remove(s, place) == []))
    ensures Covers(content, s) && Covers(content - {id}, Remove(s, place))
    ensures Along(content - {id}, Remove(s, place)) == Along(content, s)[..place] + Along(content, s)[place + 1..]
  {
    place := PlaceOf(m, s, id);
    DeletionCompacts(dialect, m, s, place, visit);
    ListedHaveNoRepeats(m, s);
    AlongDeletes(content, s, place);
    hide Along, Remove, Update, Shift, Ids, NoRepeats;
    var updated := DeleteRow(dialect, m, id, visit);
    if updated.Some? {
      EmptyTogether(updated.value, Remove(s, place));
    }
  }

  function ContentOf(ids: seq<Id>, chapters: seq<Chapter>): map<Id, Chapter>
    requires NoRepeats(ids) && |ids| == |chapters|
  {
    map i | 0 <= i < |ids| :: ids[i] := chapters[i]
  }

  lemma InsertedRowsAreDense(ids: seq<Id>, chapters: seq<Chapter>)
    requires NoRepeats(ids) && |ids| == |chapters|
    ensures Dense(PlacesIn(ids), ids)
    ensures ContentOf(ids, chapters).Keys == PlacesIn(ids).Keys
    ensures Covers(ContentOf(ids, chapters), ids)
    ensures Along(ContentOf(ids, chapters), ids) == chapters
  {
    assert PlacesIn(ids).Keys == Ids(ids);
  }

  lemma Appended(m: Column, content: map<Id, Chapter>, s: seq<Id>, id: Id, max: int, chapter: Chapter)
    requires Dense(m, s) && SameRows(m, content) && id !in m && IsMax(m, max)
    ensures Covers(content, s)
    ensures Dense(m[id := max + 1], s + [id])
    ensures SameRows(m[id := max + 1], content[id := chapter])
    ensures Covers(content[id := chapter], s + [id])
    ensures Along(content[id := chapter], s + [id]) == Along(content, s) + [chapter]
  {
    AddAppends(m, s, id, max);
    AlongAppends(m, content, s, id, max + 1, chapter);
  }

  /** Reordering in either dialect; without the constraint's row-by-row check it does what is asked. */
  lemma ReorderOutcome(dialect: Dialect, m: Column, content: map<Id, Chapter>, s: seq<Id>, request: seq<Id>,
        visit: seq<Id>)
    requires Dense(m, s) && SameRows(m, content) && NoRepeats(request) && Ids(request) == m.Keys == Ids(visit)
    ensures forall i :: 0 <= i < |visit| ==> visit[i] in m
    ensures var updated := Update(dialect, m, visit, Batch(m, PlacesIn(request)));
            && (updated.Some? <==> dialect.Idealised? || request == s)
            && (updated.Some? ==> Dense(updated.value, request) && SameRows(updated.value, content))
    ensures Ids(s) == Ids(request) && (request == [] <==> s == [])
  {
    ReorderIsRefused(m, s, request, visit);
    RequestIsListed(m, request);
    ListedAreDistinct(Batch(m, PlacesIn(request)), request);
    assert request != [] ==> request[0] in Ids(request);
    assert s != [] ==> s[0] in Ids(s);
  }

  // ---------- What a request does ----------

  /** One video as its requests see it: the chapter ids in position order, and the chapters themselves. */
  datatype Video = Video(live: bool, duration: Option<real>, order: seq<Id>, chapters: seq<Chapter>, hasChapters: bool)

  /**
    `counted` is the number of chapters read before the transaction, `id` and `ids` come from the database's
    sequence, and `visit` is the order in which the database rewrites the rows.
    */
  datatype Request =
    | Creation(chapter: Chapter, counted: nat, id: Id)
    | Deletion(id: Id, visit: seq<Id>)
    | Reordering(request: seq<Id>, visit: seq<Id>)
    | Detection(detected: seq<Chapter>, minLength: int, replace: bool, counted: nat, ids: seq<Id>)

  function IndexOf(s: seq<Id>, id: Id): (i: nat)
    requires id in s
    ensures i < |s| && s[i] == id
    decreases s
  {
    if s[0] == id then 0 else 1 + IndexOf(s[1..], id)
  }

  /** The ids behind `id`. */
  function Behind(s: seq<Id>, id: Id): seq<Id>
    requires id in s
  {
    s[IndexOf(s, id) + 1..]
  }

  function Outcome(v: Video, r: Request, dialect: Dialect): Option<Refusal> {
    match r
    case Creation(chapter, counted, _) =>
      if !v.live then Some(NotFound)
      else if OrZero(v.duration) != 0.0 && chapter.start >= OrZero(v.duration) then Some(BadRequest)
      else if counted >= MAX_CHAPTERS_PER_VIDEO then Some(BadRequest)
      else if dialect.PostgreSQL? then Some(FeatureNotSupported)
      else None
    case Deletion(id, visit) =>
      if id !in v.order then Some(NotFound)
      else if dialect.PostgreSQL? && visit != Behind(v.order, id) then Some(UniqueViolation)
      else None
    case Reordering(request, _) =>
      if !NoRepeats(request) then Some(BadRequest)
      else if !v.live then Some(NotFound)
      else if Ids(request) != Ids(v.order) then Some(BadRequest)
      else if dialect.PostgreSQL? && request != v.order then Some(UniqueViolation)
      else None
    case Detection(detected, _, replace, counted, _) =>
      if !v.live then Some(NotFound)
      else if (counted > 0 && !replace) || detected == [] then Some(BadRequest)
      else if v.order != [] && !replace then Some(Conflict)
      else None
  }

  function After(v: Video, r: Request, dialect: Dialect): Video
    requires |v.chapters| == |v.order|
  {
    if Outcome(v, r, dialect).Some? then v
    else
      match r
      case Creation(chapter, _, id) =>
        v.(order := v.order + [id], chapters := v.chapters + [chapter], hasChapters := true)
      case Deletion(id, _) =>
        var i := IndexOf(v.order, id);
        var order := Remove(v.order, i);
        v.(order := order, chapters := v.chapters[..i] + v.chapters[i + 1..], hasChapters := order != [])
      case Reordering(request, _) =>
        v.(order := request, chapters := Rearranged(v.order, v.chapters, request))
      case Detection(detected, minLength, _, _, ids) =>
        v.(order := ids, chapters := Stored(detected, minLength, OrZero(v.duration)), hasChapters := true)
  }

  /** The chapters of the ids of `s`, in the order of the request. */
  function Rearranged(s: seq<Id>, chapters: seq<Chapter>, request: seq<Id>): (r: seq<Chapter>)
    requires |chapters| == |s| && Ids(request) == Ids(s)
    ensures |r| == |request|
  {
    Held(request, Ids(s));
    seq(|request|, i requires 0 <= i < |request| => chapters[IndexOf(s, request[i])])
  }

  lemma FirstIndex(s: seq<Id>, i: nat)
    requires NoRepeats(s) && i < |s|
    ensures IndexOf(s, s[i]) == i
  {
    assert s[IndexOf(s, s[i])] == s[i];
  }

  lemma DeletionIs(v: Video, id: Id, visit: seq<Id>, dialect: Dialect, i: nat)
    requires |v.chapters| == |v.order| && NoRepeats(v.order) && i < |v.order| && v.order[i] == id
    ensures var outcome := Outcome(v, Deletion(id, visit), dialect);
            && outcome == (if dialect.PostgreSQL? && visit != v.order[i + 1..] then Some(UniqueViolation) else None)
            && After(v, Deletion(id, visit), dialect)
            == if outcome.Some? then v
               else v.(order := Remove(v.order, i), chapters := v.chapters[..i] + v.chapters[i + 1..],
                       hasChapters := Remove(v.order, i) != [])
  {
    FirstIndex(v.order, i);
  }

  lemma ReorderingIs(v: Video, request: seq<Id>, visit: seq<Id>, dialect: Dialect)
    requires |v.chapters| == |v.order| && NoRepeats(request) && Ids(request) == Ids(v.order) && v.live
    ensures var outcome := Outcome(v, Reordering(request, visit), dialect);
            && outcome == (if dialect.PostgreSQL? && request != v.order then Some(UniqueViolation) else None)
            && After(v, Reordering(request, visit), dialect)
            == if outcome.Some? then v
               else v.(order := request, chapters := Rearranged(v.order, v.chapters, request))
  {}

  lemma AlongRearranges(content: map<Id, Chapter>, s: seq<Id>, request: seq<Id>)
    requires Covers(content, s) && Ids(request) == Ids(s)
    ensures Covers(content, request) && Along(content, request) == Rearranged(s, Along(content, s), request)
  {
    Held(request, Ids(s));
  }

  class VideoChapters {
    const dialect: Dialect
    var live: bool
    var duration: Option<real>
    var hasChapters: bool
    var positions: Column
    var content: map<Id, Chapter>
    ghost var order: seq<Id>

    ghost predicate Valid()
      reads this
    {
      && Dense(positions, order)
      && SameRows(positions, content)
      && (hasChapters <==> order != [])
    }

    /** The chapters in position order. */
    ghost function InOrder(): (r: seq<Chapter>)
      requires Valid()
      reads this
      ensures |r| == |order|
    {
      Along(content, order)
    }

    ghost function View(): (v: Video)
      requires Valid()
      reads this
      ensures |v.chapters| == |v.order|
    {
      Video(live, duration, order, InOrder(), hasChapters)
    }

    constructor (duration: Option<real>, dialect: Dialect)
      ensures Valid() && this.dialect == dialect && View() == Video(true, duration, [], [], false)
    {
      this.dialect := dialect;
      live, hasChapters := true, false;
      this.duration := duration;
      positions, content := map[], map[];
      order := [];
    }

    method Create(chapter: Chapter, counted: nat, id: Id) returns (refused: Option<Refusal>)
      requires Valid() && id !in positions
      modifies this`positions, this`content, this`hasChapters, this`order
      ensures Valid()
      ensures refused == Outcome(old(View()), Creation(chapter, counted, id), dialect)
      ensures refused == Some(NotFound) <==> !live
      ensures refused == Some(BadRequest) <==>
              live && (counted >= 50 || (duration.Some? && duration.value != 0.0 && chapter.start >= duration.value))
      ensures refused.Some? ==> View() == old(View())
      ensures View() == After(old(View()), Creation(chapter, counted, id), dialect)
    {
      hide Covers, Along, Lists, Dense, SameRows, IsMax;
      if !live {
        return Some(NotFound);
      }
      if duration.Some? && duration.value != 0.0 && chapter.start >= duration.value {
        return Some(BadRequest);
      }
      if counted >= MAX_CHAPTERS_PER_VIDEO {
        return Some(BadRequest);
      }
      var max := Playlists.LockedMax(positions, dialect);
      if max.None? {
        return Some(FeatureNotSupported);
      }
      Appended(positions, content, order, id, max.value, chapter);
      positions := positions[id := max.value + 1];
      content := content[id := chapter];
      hasChapters := true;
      order := order + [id];
      return None;
    }

    /** The writes of a deletion whose compaction went through. */
    method Drop(id: Id, updated: Column, ghost place: nat)
      requires Valid() && place < |order| && Dense(updated, Remove(order, place)) && SameRows(updated, content - {id})
      requires Count(updated) == 0 <==> Remove(order, place) == []
      requires Covers(content, order) && Covers(content - {id}, Remove(order, place))
      requires Along(content - {id}, Remove(order, place)) == Along(content, order)[..place] + Along(content, order)[place + 1..]
      modifies this`positions, this`content, this`hasChapters, this`order
      ensures Valid()
      ensures View() == old(View()).(order := Remove(old(order), place), hasChapters := Remove(old(order), place) != [],
                                     chapters := old(InOrder())[..place] + old(InOrder())[place + 1..])
    {
      hide Along, Remove, DeleteRow, VisitsBehind, Lists, Dense, SameRows, Count, Covers;
      positions := updated;
      content := content - {id};
      order := Remove(order, place);
      if Count(positions) == 0 {
        hasChapters := false;
      }
    }

    method Delete(id: Id, visit: seq<Id>) returns (refused: Option<Refusal>)
      requires Valid()
      requires id in positions ==> VisitsBehind(positions, id, visit)
      modifies this`positions, this`content, this`hasChapters, this`order
      ensures Valid()
      ensures refused == Outcome(old(View()), Deletion(id, visit), dialect)
      ensures refused == Some(NotFound) <==> id !in old(View()).order
      ensures refused.Some? ==> View() == old(View())
      ensures View() == After(old(View()), Deletion(id, visit), dialect)
    {
      if id !in positions {
        return Some(NotFound);
      }
      ghost var place := DeletionOutcome(dialect, positions, content, order, id, visit);
      ListedHaveNoRepeats(positions, order);
      ghost var before := View();
      DeletionIs(before, id, visit, dialect, place);
      assert before.order == order && before.chapters == InOrder() == Along(content, order);
      hide *;
      var updated := DeleteRow(dialect, positions, id, visit);
      if updated.None? {
        return Some(UniqueViolation);
      }
      Drop(id, updated.value, place);
      return None;
    }

    /** The writes of a reordering whose update went through. */
    method Arrange(request: seq<Id>, updated: Column)
      requires Valid() && Dense(updated, request) && SameRows(updated, content) && (request == [] <==> order == [])
      requires Ids(request) == Ids(order) && Covers(content, order) && Covers(content, request)
      requires Along(content, request) == Rearranged(order, Along(content, order), request)
      modifies this`positions, this`order
      ensures Valid()
      ensures View() == old(View()).(order := request, chapters := Rearranged(old(order), old(InOrder()), request))
    {
      hide Along, Dense, SameRows, Covers, Rearranged, Ids;
      positions := updated;
      order := request;
    }

    method Reorder(request: seq<Id>, visit: seq<Id>) returns (refused: Option<Refusal>)
      requires Valid() && NoRepeats(visit) && Ids(visit) == positions.Keys
      modifies this`positions, this`order
      ensures Valid()
      ensures refused == Outcome(old(View()), Reordering(request, visit), dialect)
      ensures refused == Some(NotFound) <==> NoRepeats(request) && !live
      ensures refused == Some(BadRequest) <==> !NoRepeats(request) || (live && Ids(request) != Ids(old(View()).order))
      ensures refused.Some? ==> View() == old(View())
      ensures refused.None? ==> View().order == request
      ensures View() == After(old(View()), Reordering(request, visit), dialect)
    {
      var requested := set k | k in request;
      RepeatsShrink(request);
      if |requested| != |request| {
        return Some(BadRequest);
      }
      if !live {
        return Some(NotFound);
      }
      if requested != positions.Keys {
        return Some(BadRequest);
      }
      var places := PlacesIn(request);
      ReorderOutcome(dialect, positions, content, order, request, visit);
      AlongRearranges(content, order, request);
      ghost var before := View();
      ReorderingIs(before, request, visit, dialect);
      assert before.order == order && before.chapters == InOrder() == Along(content, order);
      hide *;
      var updated := Update(dialect, positions, visit, Batch(positions, places));
      if updated.None? {
        return Some(UniqueViolation);
      }
      Arrange(request, updated.value);
      return None;
    }

    method AutoDetect(detected: seq<Chapter>, minLength: int, replace: bool, counted: nat, ids: seq<Id>)
      returns (refused: Option<Refusal>)
      requires Valid() && NoRepeats(ids) && |ids| == |Stored(detected, minLength, OrZero(duration))|
      modifies this`positions, this`content, this`hasChapters, this`order
      ensures Valid()
      ensures refused == Outcome(old(View()), Detection(detected, minLength, replace, counted, ids), dialect)
      ensures refused == Some(NotFound) <==> !live
      ensures refused == Some(BadRequest) <==> live && ((counted > 0 && !replace) || detected == [])
      ensures refused == Some(Conflict) <==>
              live && !replace && counted == 0 && detected != [] && old(View()).order != []
      ensures refused.Some? ==> View() == old(View())
      ensures refused.None? ==> View().chapters == Stored(detected, minLength, OrZero(duration))
      ensures View() == After(old(View()), Detection(detected, minLength, replace, counted, ids), dialect)
    {
      StoredIsEmptyOnlyIfNoneDetected(detected, minLength, OrZero(duration));
      hide Filtered, Lists, Along;
      if !live {
        return Some(NotFound);
      }
      if counted > 0 && !replace {
        return Some(BadRequest);
      }
      var kept := [];
      if detected != [] {
        kept := FilterChaptersByLength(detected, minLength, OrZero(duration));
      }
      if kept == [] {
        return Some(BadRequest);
      }
      if |kept| > MAX_CHAPTERS_PER_VIDEO {
        kept := kept[..MAX_CHAPTERS_PER_VIDEO];
      }
      EmptyTogether(positions, order);
      var current := Count(positions);
      if current > 0 && !replace {
        return Some(Conflict);
      }
      if replace && current > 0 {
        positions, content := map[], map[];
      }
      InsertedRowsAreDense(ids, kept);
      hide *;
      positions, content := PlacesIn(ids), ContentOf(ids, kept);
      hasChapters := true;
      order := ids;
      return None;
    }
  }
}
