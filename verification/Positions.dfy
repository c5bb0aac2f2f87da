/**
  The `position` columns of playlists and chapters (api/admin.py): integer columns updated by SQL statements,
  and the list of ids they stand for.
  */
module Positions {
  import opened Options

  type Id = int

  /** A playlist's or a video's rows: the position of each id. */
  type Column = map<Id, int>

  function Ids(s: seq<Id>): (r: set<Id>)
    ensures s != [] ==> s[0] in r
    ensures s == [] ==> r == {}
  {
    set k | k in s
  }

  /**
    What the database makes of two statements. PostgreSQL refuses to lock the rows of an aggregate and checks a
    unique constraint at each row it rewrites; an idealised one locks them and checks at the statement's end.
    */
  datatype Dialect = PostgreSQL | Idealised

  // ---------- The statements ----------

  /** `UPDATE ... SET position = position + delta WHERE position >= from`. */
  function Shift(m: Column, from: int, delta: int): (r: Column)
    ensures r.Keys == m.Keys
    ensures forall k :: k in m ==> r[k] == if m[k] >= from then m[k] + delta else m[k]
  {
    map k | k in m :: if m[k] >= from then m[k] + delta else m[k]
  }

  /** `COALESCE(MAX(position), -1)`. */
  ghost predicate IsMax(m: Column, max: int) {
    if m == map[] then max == -1
    else (exists k :: k in m && m[k] == max) && forall k :: k in m ==> m[k] <= max
  }

  /**
    The batch update: each id gets its place in the request. When an id is requested twice the database
    takes one of its places; `pick` says which.
    */
  function Batch(m: Column, pick: map<Id, nat>): Column {
    map k | k in m :: if k in pick then pick[k] else m[k]
  }

  /** The request names exactly the ids of the column. */
  ghost predicate SameIds(m: Column, request: seq<Id>) {
    (forall i :: 0 <= i < |request| ==> request[i] in m) && m.Keys == Ids(request)
  }

  ghost predicate Picks(request: seq<Id>, pick: map<Id, nat>) {
    && (forall i :: 0 <= i < |request| ==>
          request[i] in pick && pick[request[i]] < |request| && request[pick[request[i]]] == request[i])
  }

  // ---------- The list behind the column ----------

  /** `s` lists the ids of `m` by strictly increasing position. */
  ghost predicate Lists(m: Column, s: seq<Id>) {
    && (forall i :: 0 <= i < |s| ==> s[i] in m)
    && m.Keys == Ids(s)
    && (forall i, j :: 0 <= i < j < |s| ==> m[s[i]] < m[s[j]])
  }

  /** The positions are exactly 0 .. n - 1. */
  ghost predicate Dense(m: Column, s: seq<Id>) {
    Lists(m, s) && forall i :: 0 <= i < |s| ==> m[s[i]] == i
  }

  predicate NoRepeats(s: seq<Id>) {
    forall i, j :: 0 <= i < j < |s| ==> s[i] != s[j]
  }

  /** How many listed ids sit before `position`. */
  function CountBelow(m: Column, s: seq<Id>, position: int): (n: nat)
    requires forall i :: 0 <= i < |s| ==> s[i] in m
    ensures n <= |s|
    decreases s
  {
    if s == [] then 0
    else (if m[s[0]] < position then 1 else 0) + CountBelow(m, s[1..], position)
  }

  function Insert(s: seq<Id>, i: nat, id: Id): seq<Id>
    requires i <= |s|
  {
    s[..i] + [id] + s[i..]
  }

  function Remove(s: seq<Id>, i: nat): seq<Id>
    requires i < |s|
  {
    s[..i] + s[i + 1..]
  }

  /** The list is determined by the column. */
  lemma {:induction false} ListIsUnique(m: Column, s: seq<Id>, t: seq<Id>)
    requires Lists(m, s) && Lists(m, t)
    ensures s == t
    decreases |s|
  {
    if s == [] || t == [] {
      assert m.Keys == {};
    } else {
      assert s[0] in m.Keys && t[0] in m.Keys;
      HeadIsFirst(m, s, t[0]);
      HeadIsFirst(m, t, s[0]);
      var n := map k | k in m && k != s[0] :: m[k];
      TailLists(m, s, n);
      TailLists(m, t, n);
      ListIsUnique(n, s[1..], t[1..]);
    }
  }

  lemma HeadIsFirst(m: Column, s: seq<Id>, k: Id)
    requires Lists(m, s) && s != [] && k in m.Keys
    ensures m[s[0]] < m[k] || k == s[0]
  {
    var i :| 0 <= i < |s| && s[i] == k;
  }

  lemma TailLists(m: Column, s: seq<Id>, n: Column)
    requires Lists(m, s) && s != []
    requires n == map k | k in m && k != s[0] :: m[k]
    ensures Lists(n, s[1..])
  {
    forall i | 0 <= i < |s[1..]|
      ensures s[1..][i] in n
    {
      assert s[1..][i] == s[i + 1] && m[s[0]] < m[s[i + 1]];
    }
    forall k | k in n
      ensures k in s[1..]
    {
      assert k in s;
    }
  }

  lemma {:induction false} CountBelowSplits(m: Column, s: seq<Id>, position: int)
    requires Lists(m, s)
    ensures var n := CountBelow(m, s, position);
            forall i :: 0 <= i < |s| ==> (m[s[i]] < position <==> i < n)
    decreases |s|
  {
    if s != [] {
      var rest := map k | k in m && k != s[0] :: m[k];
      TailLists(m, s, rest);
      CountBelowSplits(rest, s[1..], position);
      SameCount(m, rest, s[1..], position);
      hide Ids;
      var n := CountBelow(m, s, position);
      forall i | 0 <= i < |s|
        ensures m[s[i]] < position <==> i < n
      {
        if i > 0 {
          assert s[i] == s[1..][i - 1] && m[s[0]] < m[s[i]];
        } else if |s| > 1 && m[s[0]] >= position {
          assert s[1] == s[1..][0] && m[s[0]] < m[s[1]];
        }
      }
    }
  }

  lemma {:induction false} SameCount(m: Column, n: Column, s: seq<Id>, position: int)
    requires forall i :: 0 <= i < |s| ==> s[i] in m && s[i] in n && m[s[i]] == n[s[i]]
    ensures CountBelow(m, s, position) == CountBelow(n, s, position)
    decreases s
  {
    if s != [] {
      SameCount(m, n, s[1..], position);
    }
  }

  // ---------- The statements as list operations ----------

  /** Without a position, adding appends, at one past the highest position. */
  lemma AddAppends(m: Column, s: seq<Id>, id: Id, max: int)
    requires Lists(m, s) && id !in m && IsMax(m, max)
    ensures Lists(m[id := max + 1], s + [id])
    ensures Dense(m, s) ==> Dense(m[id := max + 1], s + [id])
  {
    var n := m[id := max + 1];
    if Dense(m, s) {
      DenseMax(m, s, max);
    }
    assert n.Keys == Ids(s + [id]);
    forall i | 0 <= i < |s|
      ensures s[i] in m && s[i] in n && n[s[i]] == m[s[i]] <= max
    {
      var k := s[i];
      assert k in m && m != map[];
    }
    hide Ids, IsMax;
  }

  lemma DenseMax(m: Column, s: seq<Id>, max: int)
    requires Dense(m, s) && IsMax(m, max)
    ensures max == |s| - 1
  {
    if s == [] {
      assert m == map[];
    } else {
      var last := s[|s| - 1];
      assert last in m && m != map[];
      assert |s| - 1 == m[last] <= max;
      var k :| k in m && m[k] == max;
      var i := PlaceOf(m, s, k);
    }
  }

  lemma InsertedIds(s: seq<Id>, i: nat, id: Id)
    requires i <= |s|
    ensures Ids(Insert(s, i, id)) == Ids(s) + {id}
    ensures |Insert(s, i, id)| == |s| + 1
    ensures forall k :: 0 <= k <= |s| ==> Insert(s, i, id)[k] == if k < i then s[k] else if k == i then id else s[k - 1]
  {
    assert s == s[..i] + s[i..];
  }

  lemma RemovedIds(s: seq<Id>, i: nat)
    requires i < |s| && NoRepeats(s)
    ensures Ids(Remove(s, i)) == Ids(s) - {s[i]}
    ensures |Remove(s, i)| == |s| - 1
    ensures forall k :: 0 <= k < |s| - 1 ==> Remove(s, i)[k] == if k < i then s[k] else s[k + 1]
  {
    assert s == s[..i] + [s[i]] + s[i + 1..];
  }

  lemma {:induction false} RepeatsShrink(s: seq<Id>)
    ensures |Ids(s)| <= |s|
    ensures |Ids(s)| == |s| <==> NoRepeats(s)
    decreases |s|
  {
    if s != [] {
      var t := s[1..];
      RepeatsShrink(t);
      assert s == [s[0]] + t;
      assert Ids(s) == Ids(t) + {s[0]};
      assert s[0] in Ids(t) <==> s[0] in t;
      assert NoRepeats(s) <==> NoRepeats(t) && s[0] !in t;
    }
  }

  lemma SameLength(s: seq<Id>, t: seq<Id>)
    requires NoRepeats(s) && NoRepeats(t) && Ids(s) == Ids(t)
    ensures |s| == |t|
  {
    RepeatsShrink(s);
    RepeatsShrink(t);
  }

  lemma ListedHaveNoRepeats(m: Column, s: seq<Id>)
    requires Lists(m, s)
    ensures NoRepeats(s)
  {
    forall i, j | 0 <= i < j < |s|
      ensures s[i] != s[j]
    {
      assert m[s[i]] < m[s[j]];
    }
  }

  /** A column that shifts the tail and puts `id` in the gap lists the insertion. */
  lemma InsertionIsListed(m: Column, n: Column, s: seq<Id>, t: seq<Id>, id: Id, position: int, c: nat)
    requires Lists(m, s) && c <= |s| && |t| == |s| + 1 && n.Keys == Ids(t)
    requires forall i :: 0 <= i < |s| ==> (m[s[i]] < position <==> i < c)
    requires forall i {:trigger t[i]} :: 0 <= i < |t| ==>
            t[i] in n && n[t[i]] == if i < c then m[s[i]] else if i == c then position else m[s[i - 1]] + 1
    ensures Lists(n, t)
    ensures Dense(m, s) && 0 <= position <= |s| ==> c == position
    ensures Dense(m, s) && position >= 0 ==> (Dense(n, t) <==> position <= |s|)
  {
    hide Ids;
    forall i, j | 0 <= i < j < |t|
      ensures n[t[i]] < n[t[j]]
    {
      assert i < c ==> m[s[i]] < position;
      assert j > c ==> m[s[j - 1]] >= position;
      assert j < c ==> m[s[i]] < m[s[j]];
      assert i > c ==> m[s[i - 1]] < m[s[j - 1]];
      assert i < c < j ==> m[s[i]] < m[s[j - 1]];
    }
    if Dense(m, s) && position >= 0 {
      assert c < |s| ==> m[s[c]] == c;
      assert c > 0 ==> m[s[c - 1]] == c - 1;
      assert n[t[c]] == position;
      assert position <= |s| ==> forall i :: 0 <= i < |t| ==> n[t[i]] == i;
    }
  }

  lemma ListedKeys(m: Column, s: seq<Id>)
    requires Lists(m, s)
    ensures m.Keys == Ids(s) && forall i :: 0 <= i < |s| ==> s[i] in m
  {}

  lemma InsertedColumn(m: Column, id: Id, position: int)
    ensures Shift(m, position, 1)[id := position].Keys == m.Keys + {id}
  {}

  lemma InsertedRow(m: Column, id: Id, position: int, k: Id)
    requires k in m && id !in m
    ensures var n := Shift(m, position, 1)[id := position];
            k in n && n[k] == if m[k] < position then m[k] else m[k] + 1
  {}

  /**
    With a position, adding inserts before the first id at or after it; that is at index `position` in a dense
    column.
    */
  lemma AddInserts(m: Column, s: seq<Id>, id: Id, position: int)
    requires Lists(m, s) && id !in m
    ensures Lists(Shift(m, position, 1)[id := position], Insert(s, CountBelow(m, s, position), id))
    ensures Dense(m, s) && 0 <= position <= |s| ==> CountBelow(m, s, position) == position
    ensures Dense(m, s) && position >= 0 ==>
              (Dense(Shift(m, position, 1)[id := position], Insert(s, CountBelow(m, s, position), id)) <==> position <= |s|)
  {
    hide Lists, Dense, Ids, Shift, CountBelow;
    ListedKeys(m, s);
    var c := CountBelow(m, s, position);
    CountBelowSplits(m, s, position);
    InsertedIds(s, c, id);
    var n, t := Shift(m, position, 1)[id := position], Insert(s, c, id);
    InsertedColumn(m, id, position);
    forall i {:trigger t[i]} | 0 <= i < |t|
      ensures t[i] in n && n[t[i]] == if i < c then m[s[i]] else if i == c then position else m[s[i - 1]] + 1
    {
      if i != c {
        var j := if i < c then i else i - 1;
        assert t[i] == s[j];
        InsertedRow(m, id, position, s[j]);
      }
    }
    InsertionIsListed(m, n, s, t, id, position, c);
  }

  lemma PlaceOf(m: Column, s: seq<Id>, id: Id) returns (i: nat)
    requires Lists(m, s) && id in m
    ensures i < |s| && s[i] == id
  {
    assert id in Ids(s);
    i :| 0 <= i < |s| && s[i] == id;
  }

  /** Removing deletes the id from the list and closes the gap. */
  lemma RemoveDeletes(m: Column, s: seq<Id>, i: nat)
    requires Lists(m, s) && i < |s|
    ensures Lists(Shift(m - {s[i]}, m[s[i]] + 1, -1), Remove(s, i))
    ensures Dense(m, s) ==> Dense(Shift(m - {s[i]}, m[s[i]] + 1, -1), Remove(s, i))
  {
    ListedHaveNoRepeats(m, s);
    RemovedIds(s, i);
    var n, t := Shift(m - {s[i]}, m[s[i]] + 1, -1), Remove(s, i);
    assert n.Keys == Ids(t);
    forall j | 0 <= j < |s| && j != i
      ensures s[j] in n && n[s[j]] == if j < i then m[s[j]] else m[s[j]] - 1
    {
      assert if j < i then m[s[j]] < m[s[i]] else m[s[i]] < m[s[j]];
    }
    RemovalIsListed(m, n, s, t, i);
  }

  lemma RemovalIsListed(m: Column, n: Column, s: seq<Id>, t: seq<Id>, i: nat)
    requires Lists(m, s) && i < |s| && |t| == |s| - 1 && n.Keys == Ids(t)
    requires forall j {:trigger t[j]} :: 0 <= j < |t| ==> t[j] == if j < i then s[j] else s[j + 1]
    requires forall j {:trigger s[j]} :: 0 <= j < |s| && j != i ==>
            s[j] in n && n[s[j]] == if j < i then m[s[j]] else m[s[j]] - 1
    ensures Lists(n, t)
    ensures Dense(m, s) ==> Dense(n, t)
  {
    hide Ids;
    forall j | 0 <= j < |t|
      ensures t[j] in n && n[t[j]] == if j < i then m[s[j]] else m[s[j + 1]] - 1
    {
      assert t[j] == if j < i then s[j] else s[j + 1];
    }
    forall j, k | 0 <= j < k < |t|
      ensures n[t[j]] < n[t[k]]
    {
      assert n[t[j]] == if j < i then m[s[j]] else m[s[j + 1]] - 1;
      assert n[t[k]] == if k < i then m[s[k]] else m[s[k + 1]] - 1;
      assert k < i ==> m[s[j]] < m[s[k]];
      assert j < i <= k ==> m[s[j]] < m[s[i]] < m[s[k + 1]];
      assert i <= j ==> m[s[j + 1]] < m[s[k + 1]];
    }
  }

  /** A reorder that names every id once makes exactly the requested list, densely numbered. */
  lemma ReorderPermutes(m: Column, request: seq<Id>, pick: map<Id, nat>)
    requires SameIds(m, request) && Picks(request, pick)
    ensures Dense(Batch(m, pick), request) <==> NoRepeats(request)
    ensures forall j, k :: j in m && k in m && j != k ==> Batch(m, pick)[j] != Batch(m, pick)[k]
  {
    var n := Batch(m, pick);
    forall i | 0 <= i < |request|
      ensures request[i] in n && n[request[i]] == pick[request[i]] && request[pick[request[i]]] == request[i]
    {
      assert request[i] in request;
    }
    if NoRepeats(request) {
      forall i | 0 <= i < |request|
        ensures n[request[i]] == i
      {
        var j := pick[request[i]];
        assert request[j] == request[i];
      }
    }
    if Dense(n, request) {
      forall i, j | 0 <= i < j < |request|
        ensures request[i] != request[j]
      {
        assert n[request[i]] < n[request[j]];
      }
    }
  }

  // ---------- Distinct positions always have a list ----------

  predicate Distinct(m: Column) {
    forall j, k :: j in m && k in m && j != k ==> m[j] != m[k]
  }

  lemma Member<T>(s: set<T>) returns (x: T)
    requires s != {}
    ensures x in s
  {
    x :| x in s;
  }

  lemma {:induction false} MaxExists(m: Column) returns (max: int)
    ensures IsMax(m, max)
    decreases |m|
  {
    if m.Keys != {} {
      var k := Member(m.Keys);
      var rest := m - {k};
      var top := MaxExists(rest);
      if rest == map[] || m[k] > top {
        max := m[k];
      } else {
        var j :| j in rest && rest[j] == top;
        max := m[j];
      }
      assert forall j :: j in m ==> j == k || j in rest;
    } else {
      max := -1;
    }
  }

  lemma {:induction false} ListExists(m: Column) returns (s: seq<Id>)
    requires Distinct(m)
    ensures Lists(m, s)
    decreases |m|
  {
    if |m| != 0 {
      var max := MaxExists(m);
      var last :| last in m && m[last] == max;
      var t := ListExists(m - {last});
      s := t + [last];
      LastIsListed(m, t, last);
    } else {
      s := [];
    }
  }

  lemma LastIsListed(m: Column, s: seq<Id>, last: Id)
    requires Distinct(m) && last in m && IsMax(m, m[last]) && Lists(m - {last}, s)
    ensures Lists(m, s + [last])
  {
    var rest := m - {last};
    forall i | 0 <= i < |s|
      ensures s[i] in m && m[s[i]] == rest[s[i]] < m[last]
    {
      assert s[i] in rest && s[i] != last;
    }
    assert m.Keys == Ids(s) + {last} == Ids(s + [last]);
  }

  lemma ListedAreDistinct(m: Column, s: seq<Id>)
    requires Lists(m, s)
    ensures Distinct(m)
  {
    forall j, k | j in m && k in m && j != k
      ensures m[j] != m[k]
    {
      assert j in Ids(s) && k in Ids(s);
      var a :| 0 <= a < |s| && s[a] == j;
      var b :| 0 <= b < |s| && s[b] == k;
      assert if a < b then m[s[a]] < m[s[b]] else m[s[b]] < m[s[a]];
    }
  }
}
