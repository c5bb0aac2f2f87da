/** Stable sorting and filtering of sequences: Python's `sorted` and SQL's ORDER BY with WHERE. */
module Sorting {

  ghost predicate TotalPreorder<T(!new)>(le: (T, T) -> bool) {
    && (forall x, y :: le(x, y) || le(y, x))
    && (forall x, y, z :: le(x, y) && le(y, z) ==> le(x, z))
  }

  ghost predicate Sorted<T>(s: seq<T>, le: (T, T) -> bool) {
    forall i, j :: 0 <= i < j < |s| ==> le(s[i], s[j])
  }

  function Insert<T>(x: T, s: seq<T>, le: (T, T) -> bool): seq<T>
    decreases s
  {
    if s == [] || le(x, s[0]) then [x] + s else [s[0]] + Insert(x, s[1..], le)
  }

  function Sort<T>(s: seq<T>, le: (T, T) -> bool): (r: seq<T>)
    ensures |r| == |s|
    ensures multiset(r) == multiset(s)
    decreases s
  {
    if s == [] then []
    else
      InsertKeeps(s[0], Sort(s[1..], le), le);
      assert s == [s[0]] + s[1..];
      Insert(s[0], Sort(s[1..], le), le)
  }

  lemma {:induction false} InsertKeeps<T>(x: T, s: seq<T>, le: (T, T) -> bool)
    ensures |Insert(x, s, le)| == |s| + 1
    ensures multiset(Insert(x, s, le)) == multiset{x} + multiset(s)
    decreases s
  {
    if s != [] && !le(x, s[0]) {
      InsertKeeps(x, s[1..], le);
      assert s == [s[0]] + s[1..];
    }
  }

  lemma SameElements<T>(s: seq<T>, t: seq<T>)
    requires multiset(s) == multiset(t)
    ensures forall x :: x in s <==> x in t
  {
    forall x
      ensures x in s <==> x in t
    {
      assert x in s <==> x in multiset(s);
      assert x in t <==> x in multiset(t);
    }
  }

  lemma {:induction false} InsertSorts<T(!new)>(x: T, s: seq<T>, le: (T, T) -> bool)
    requires TotalPreorder(le) && Sorted(s, le)
    ensures Sorted(Insert(x, s, le), le)
    decreases s
  {
    if s != [] {
      if le(x, s[0]) {
        forall y | y in s
          ensures le(x, y)
        {
          assert y == s[0] || le(s[0], y);
        }
      } else {
        InsertSorts(x, s[1..], le);
        InsertKeeps(x, s[1..], le);
        var r := Insert(x, s[1..], le);
        SameElements(r, [x] + s[1..]);
        forall k | 0 <= k < |r|
          ensures le(s[0], r[k])
        {
          assert r[k] in [x] + s[1..];
          assert r[k] == x || r[k] in s[1..];
        }
      }
    }
  }

  lemma {:induction false} SortSorts<T(!new)>(s: seq<T>, le: (T, T) -> bool)
    requires TotalPreorder(le)
    ensures Sorted(Sort(s, le), le)
    decreases s
  {
    if s != [] {
      SortSorts(s[1..], le);
      InsertSorts(s[0], Sort(s[1..], le), le);
    }
  }

  function Filter<T(!new)>(s: seq<T>, p: T -> bool): (r: seq<T>)
    ensures |r| <= |s|
    ensures forall x :: x in r <==> x in s && p(x)
    decreases s
  {
    if s == [] then []
    else
      assert forall x :: x in s <==> x == s[0] || x in s[1..];
      if p(s[0]) then [s[0]] + Filter(s[1..], p) else Filter(s[1..], p)
  }

  lemma {:induction false} FilterConcat<T(!new)>(s: seq<T>, t: seq<T>, p: T -> bool)
    ensures Filter(s + t, p) == Filter(s, p) + Filter(t, p)
    decreases s
  {
    if s == [] {
      assert s + t == t;
    } else {
      assert (s + t)[1..] == s[1..] + t;
      FilterConcat(s[1..], t, p);
    }
  }

  lemma {:induction false} FilterInsert<T(!new)>(x: T, s: seq<T>, le: (T, T) -> bool, p: T -> bool)
    requires TotalPreorder(le) && Sorted(s, le)
    ensures Filter(Insert(x, s, le), p) == if p(x) then Insert(x, Filter(s, p), le) else Filter(s, p)
    decreases s
  {
    if s == [] {
    } else if le(x, s[0]) {
      assert ([x] + s)[1..] == s;
      if p(x) && Filter(s, p) != [] {
        assert Filter(s, p)[0] in s;
        assert le(x, Filter(s, p)[0]);
      }
    } else {
      FilterInsert(x, s[1..], le, p);
      var r := Insert(x, s[1..], le);
      assert ([s[0]] + r)[1..] == r;
      if p(s[0]) {
        assert ([s[0]] + Filter(s[1..], p))[1..] == Filter(s[1..], p);
      }
    }
  }

  /** Filtering and stable sorting commute, so ORDER BY after WHERE is WHERE after ORDER BY. */
  lemma {:induction false} FilterSort<T(!new)>(s: seq<T>, le: (T, T) -> bool, p: T -> bool)
    requires TotalPreorder(le)
    ensures Filter(Sort(s, le), p) == Sort(Filter(s, p), le)
    decreases s
  {
    if s != [] {
      FilterSort(s[1..], le, p);
      SortSorts(s[1..], le);
      FilterInsert(s[0], Sort(s[1..], le), le, p);
      if p(s[0]) {
        assert ([s[0]] + Filter(s[1..], p))[1..] == Filter(s[1..], p);
      }
    }
  }

  lemma {:induction false} SortedIsItsOwnSort<T>(s: seq<T>, le: (T, T) -> bool)
    requires Sorted(s, le)
    ensures Sort(s, le) == s
    decreases s
  {
    if s != [] {
      SortedIsItsOwnSort(s[1..], le);
      assert |s| > 1 ==> le(s[0], s[1]);
    }
  }

  /** Elements that the order does not tell apart keep their order: the sort is stable. */
  lemma SortIsStable<T(!new)>(s: seq<T>, le: (T, T) -> bool, p: T -> bool)
    requires TotalPreorder(le)
    requires forall x, y :: p(x) && p(y) ==> le(x, y)
    ensures Filter(Sort(s, le), p) == Filter(s, p)
  {
    FilterSort(s, le, p);
    forall i, j | 0 <= i < j < |Filter(s, p)|
      ensures le(Filter(s, p)[i], Filter(s, p)[j])
    {
      assert Filter(s, p)[i] in Filter(s, p) && Filter(s, p)[j] in Filter(s, p);
    }
    SortedIsItsOwnSort(Filter(s, p), le);
  }

  lemma {:induction false} FilterAll<T(!new)>(s: seq<T>, p: T -> bool)
    requires forall x :: x in s ==> p(x)
    ensures Filter(s, p) == s
    decreases s
  {
    if s != [] {
      FilterAll(s[1..], p);
    }
  }

  lemma {:induction false} FilterNone<T(!new)>(s: seq<T>, p: T -> bool)
    requires forall x :: x in s ==> !p(x)
    ensures Filter(s, p) == []
    decreases s
  {
    if s != [] {
      FilterNone(s[1..], p);
    }
  }

  /** Predicates that agree on the elements filter alike. */
  lemma {:induction false} FilterAgrees<T(!new)>(s: seq<T>, p: T -> bool, q: T -> bool)
    requires forall x :: x in s ==> (p(x) <==> q(x))
    ensures Filter(s, p) == Filter(s, q)
    decreases s
  {
    if s != [] {
      assert s[0] in s;
      forall x | x in s[1..]
        ensures p(x) <==> q(x)
      {
        assert x in s;
      }
      FilterAgrees(s[1..], p, q);
    }
  }

  /** Two filters in a row are one. */
  lemma {:induction false} FilterTwice<T(!new)>(s: seq<T>, p: T -> bool, q: T -> bool, both: T -> bool)
    requires forall x :: x in s ==> (both(x) <==> p(x) && q(x))
    ensures Filter(Filter(s, p), q) == Filter(s, both)
    decreases s
  {
    if s != [] {
      FilterTwice(s[1..], p, q, both);
      assert s[0] in s;
      if p(s[0]) {
        assert ([s[0]] + Filter(s[1..], p))[1..] == Filter(s[1..], p);
      }
    }
  }

  lemma {:induction false} FilterIsMonotone<T(!new)>(s: seq<T>, p: T -> bool, q: T -> bool)
    requires forall x :: x in s && p(x) ==> q(x)
    ensures |Filter(s, p)| <= |Filter(s, q)|
    decreases s
  {
    if s != [] {
      assert s[0] in s;
      FilterIsMonotone(s[1..], p, q);
    }
  }

  lemma FilterPrefix<T(!new)>(s: seq<T>, p: T -> bool, k: nat)
    requires k <= |s| && forall i :: 0 <= i < |s| ==> (p(s[i]) <==> i < k)
    ensures Filter(s, p) == s[..k]
  {
    assert s == s[..k] + s[k..];
    FilterConcat(s[..k], s[k..], p);
    FilterAll(s[..k], p);
    FilterNone(s[k..], p);
  }

  lemma FilterSuffix<T(!new)>(s: seq<T>, p: T -> bool, k: nat)
    requires k <= |s| && forall i :: 0 <= i < |s| ==> (p(s[i]) <==> i >= k)
    ensures Filter(s, p) == s[k..]
  {
    assert s == s[..k] + s[k..];
    FilterConcat(s[..k], s[k..], p);
    FilterNone(s[..k], p);
    FilterAll(s[k..], p);
  }

  lemma {:induction false} FilterPlace<T(!new)>(s: seq<T>, p: T -> bool, i: nat) returns (a: nat)
    requires i < |s| && p(s[i])
    ensures a == |Filter(s[..i], p)| < |Filter(s, p)| && Filter(s, p)[a] == s[i]
  {
    a := |Filter(s[..i], p)|;
    assert s == s[..i] + s[i..];
    FilterConcat(s[..i], s[i..], p);
    assert s[i..][0] == s[i];
  }

  /** Two elements that pass keep their order. */
  lemma FilterKeepsOrder<T(!new)>(s: seq<T>, p: T -> bool, i: nat, j: nat) returns (a: nat, b: nat)
    requires i < j < |s| && p(s[i]) && p(s[j])
    ensures a < b < |Filter(s, p)| && Filter(s, p)[a] == s[i] && Filter(s, p)[b] == s[j]
  {
    a := FilterPlace(s, p, i);
    b := FilterPlace(s, p, j);
    var c := FilterPlace(s[..j], p, i);
    assert s[..j][..i] == s[..i];
  }

  lemma {:induction false} FilterSorted<T(!new)>(s: seq<T>, le: (T, T) -> bool, p: T -> bool)
    requires Sorted(s, le)
    ensures Sorted(Filter(s, p), le)
    decreases s
  {
    if s != [] {
      FilterSorted(s[1..], le, p);
      var r := Filter(s[1..], p);
      forall k | 0 <= k < |r|
        ensures le(s[0], r[k])
      {
        assert r[k] in r;
        var j :| 0 <= j < |s[1..]| && s[1..][j] == r[k];
        assert s[j + 1] == r[k];
      }
    }
  }

  lemma FilterKeepsTail<T(!new)>(s: seq<T>, p: T -> bool, k: nat)
    requires forall i :: k <= i < |s| ==> p(s[i])
    ensures |Filter(s, p)| >= |s| - k
  {
    if k <= |s| {
      assert s == s[..k] + s[k..];
      FilterConcat(s[..k], s[k..], p);
      FilterAll(s[k..], p);
    }
  }

  /** No two places of the sequence hold elements with the same key. */
  ghost predicate Distinct<T, L>(s: seq<T>, key: T -> L) {
    forall i, j :: 0 <= i < j < |s| ==> key(s[i]) != key(s[j])
  }

  lemma {:induction false} FilterDistinct<T(!new), L>(s: seq<T>, p: T -> bool, key: T -> L)
    requires Distinct(s, key)
    ensures Distinct(Filter(s, p), key)
    decreases s
  {
    if s != [] {
      FilterDistinct(s[1..], p, key);
      var r := Filter(s[1..], p);
      forall k | 0 <= k < |r|
        ensures key(s[0]) != key(r[k])
      {
        assert r[k] in r && r[k] in s[1..];
      }
    }
  }

  lemma {:induction false} InsertDistinct<T(!new), L>(x: T, s: seq<T>, le: (T, T) -> bool, key: T -> L)
    requires Distinct(s, key) && forall y :: y in s ==> key(x) != key(y)
    ensures Distinct(Insert(x, s, le), key)
    decreases s
  {
    if s != [] && !le(x, s[0]) {
      InsertDistinct(x, s[1..], le, key);
      InsertKeeps(x, s[1..], le);
      var r := Insert(x, s[1..], le);
      SameElements(r, [x] + s[1..]);
      forall k | 0 <= k < |r|
        ensures key(s[0]) != key(r[k])
      {
        assert r[k] in [x] + s[1..];
        assert r[k] == x || r[k] in s[1..];
      }
    }
  }

  lemma {:induction false} SortDistinct<T(!new), L>(s: seq<T>, le: (T, T) -> bool, key: T -> L)
    requires Distinct(s, key)
    ensures Distinct(Sort(s, le), key)
    decreases s
  {
    if s != [] {
      SortDistinct(s[1..], le, key);
      var r := Sort(s[1..], le);
      SameElements(r, s[1..]);
      forall k | 0 <= k < |r|
        ensures key(s[0]) != key(r[k])
      {
        assert r[k] in r && r[k] in s[1..];
      }
      InsertDistinct(s[0], r, le, key);
    }
  }
}
