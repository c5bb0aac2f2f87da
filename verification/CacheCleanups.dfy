/** Cleanups of the analytics cache over whole runs: what they change for the gets that come later. */
module CacheCleanups {
  import opened Options
  import opened Sorting
  import opened AnalyticsCaches

  /** The clock never goes back, and every set gets a later timestamp than the sets before it. */
  ghost predicate Ticks<V(!new)>(ops: seq<Op<V>>, last: int, stamp: int)
    decreases ops
  {
    ops == [] ||
    (&& InOrder(ops[0], last)
     && (ops[0].Set? ==> ops[0].t.stamp > stamp)
     && Ticks(ops[1..], After(ops[0], last), LastStamp(ops[0], stamp)))
  }

  /** The same run without any cleanup, neither asked for nor by chance. */
  function Plain<V(!new)>(ops: seq<Op<V>>): seq<Op<V>>
    decreases ops
  {
    if ops == [] then []
    else if ops[0].Cleanup? then Plain(ops[1..])
    else [if ops[0].Set? then ops[0].(roll := false) else ops[0]] + Plain(ops[1..])
  }

  ghost predicate IsFresh<V(!new)>(x: Item<V>, items: seq<Item<V>>, now: int, cfg: Config) {
    x in items && now - x.timestamp <= cfg.ttl
  }

  /** Both caches hold the same fresh entries; their places may differ. */
  ghost predicate Agree<V(!new)>(items: seq<Item<V>>, others: seq<Item<V>>, now: int, cfg: Config) {
    forall x :: IsFresh(x, items, now, cfg) <==> IsFresh(x, others, now, cfg)
  }

  /** What every reachable cache satisfies. */
  ghost predicate Sane<V(!new)>(items: seq<Item<V>>, m: Reference<V>, stamp: int, cfg: Config) {
    Refines(items, m) && |items| <= Capacity(cfg) && StampsDistinct(items, stamp)
  }

  lemma StepIsSane<V(!new)>(items: seq<Item<V>>, m: Reference<V>, op: Op<V>, stamp: int, cfg: Config)
    requires Sane(items, m, stamp, cfg) && (op.Set? ==> op.t.stamp > stamp)
    ensures Sane(Step(items, op, cfg), ReferenceStep(m, op, cfg), LastStamp(op, stamp), cfg)
  {
    StepRefines(items, m, op, cfg);
    StepKeepsStampsDistinct(items, m, op, cfg, stamp);
  }

  // ---------- Which entries an eviction drops ----------

  /** The same entries in any order. */
  ghost predicate SameEntries<V(!new)>(items: seq<Item<V>>, others: seq<Item<V>>) {
    Distinct(others, KeyOf) && forall x :: x in items <==> x in others
  }

  ghost predicate KeepSame<V(!new)>(items: seq<Item<V>>, others: seq<Item<V>>) {
    forall x :: x in Kept(items) <==> x in Kept(others)
  }

  /** The newest entry an eviction drops is as old as the oldest it keeps. */
  predicate Tied<V(!new)>(items: seq<Item<V>>) {
    var sorted, n := ByAge(items), Evicted(|items|);
    0 < n < |sorted| && sorted[n - 1].timestamp == sorted[n].timestamp
  }

  function KeySet<V>(s: seq<Item<V>>): set<string> {
    set i | 0 <= i < |s| :: s[i].key
  }

  lemma {:induction false} KeySetSize<V(!new)>(s: seq<Item<V>>)
    ensures |KeySet(s)| <= |s|
    decreases s
  {
    if s != [] {
      KeySetSize(s[1..]);
      assert KeySet(s) == {s[0].key} + KeySet(s[1..]) by {
        assert forall i :: 0 < i < |s| ==> s[i] == s[1..][i - 1];
      }
    }
  }

  /** Entries that all lie in `t`, and one more that does, make `t` longer. */
  lemma OneMoreFits<V(!new)>(s: seq<Item<V>>, t: seq<Item<V>>, x: Item<V>)
    requires Distinct(s, KeyOf) && forall i :: 0 <= i < |s| ==> s[i] in t && s[i].key != x.key
    requires x in t
    ensures |s| < |t|
  {
    var r := s + [x];
    KeySetSize(t);
    forall i | i in r
      ensures i.key in KeySet(t)
    {
      var k :| 0 <= k < |t| && t[k] == i;
    }
    assert forall i, j :: 0 <= i < j < |r| ==> KeyOf(r[i]) != KeyOf(r[j]);
    AtMostOnePerKey(r, KeySet(t));
  }

  lemma SameEntriesSameSize<V(!new)>(items: seq<Item<V>>, others: seq<Item<V>>)
    requires Distinct(items, KeyOf) && forall x :: x in items ==> x in others
    ensures |items| <= |others|
  {
    KeySetSize(others);
    forall i | i in items
      ensures i.key in KeySet(others)
    {
      var k :| 0 <= k < |others| && others[k] == i;
    }
    AtMostOnePerKey(items, KeySet(others));
  }

  /** Ordered by age, with distinct keys. */
  ghost predicate Aged<V(!new)>(s: seq<Item<V>>) {
    Distinct(s, KeyOf) && forall i, j :: 0 <= i < j < |s| ==> s[i].timestamp <= s[j].timestamp
  }

  lemma ByAgeIsAged<V(!new)>(items: seq<Item<V>>)
    requires Distinct(items, KeyOf)
    ensures Aged(ByAge(items))
    ensures forall x :: x in ByAge(items) <==> x in items
  {
    var sorted := ByAge(items);
    forall x
      ensures x in sorted <==> x in items
    {
      assert x in sorted <==> x in multiset(sorted);
      assert x in items <==> x in multiset(items);
    }
    OlderIsTotal<V>();
    SortSorts(items, Older);
    SortDistinct(items, Older, KeyOf);
    hide Sort, ByAge;
    forall i, j | 0 <= i < j < |sorted|
      ensures sorted[i].timestamp <= sorted[j].timestamp
    {
      assert Older(sorted[i], sorted[j]);
    }
  }

  /** If the n oldest of `s` are strictly older than the rest, each of them is among the n oldest of `t`. */
  lemma OldestStayOldest<V(!new)>(s: seq<Item<V>>, t: seq<Item<V>>, n: nat, i: nat)
    requires Aged(s) && Aged(t) && |s| == |t| && i < n <= |s| && forall x :: x in s <==> x in t
    requires n < |s| ==> s[n - 1].timestamp < s[n].timestamp
    ensures s[i] in t[..n]
  {
    var x := s[i];
    assert x in t;
    var j :| 0 <= j < |t| && t[j] == x;
    if j >= n {
      forall k | 0 <= k < n
        ensures t[k] in s[..n] && t[k].key != x.key
      {
        assert t[k] in s && KeyOf(t[k]) != KeyOf(t[j]);
        var l :| 0 <= l < |s| && s[l] == t[k];
        assert t[k].timestamp <= x.timestamp <= s[n - 1].timestamp;
        assert l < n;
        assert s[..n][l] == s[l];
      }
      assert s[..n][i] == x;
      OneMoreFits(t[..n], s[..n], x);
      assert false;
    }
    assert t[..n][j] == x;
  }

  lemma NotInBoth<V(!new)>(t: seq<Item<V>>, n: nat, x: Item<V>)
    requires Distinct(t, KeyOf) && n <= |t| && x in t[n..]
    ensures x !in t[..n]
  {
    var j :| 0 <= j < |t[n..]| && t[n..][j] == x;
    forall k | 0 <= k < n
      ensures t[..n][k] != x
    {
      assert KeyOf(t[k]) != KeyOf(t[n + j]);
    }
  }

  lemma TailsAgree<V(!new)>(s: seq<Item<V>>, t: seq<Item<V>>, n: nat, x: Item<V>)
    requires Aged(s) && Aged(t) && |s| == |t| && n <= |s| && forall x :: x in s <==> x in t
    requires 0 < n < |s| ==> s[n - 1].timestamp < s[n].timestamp
    requires x in t[n..]
    ensures x in s[n..]
  {
    var j :| 0 <= j < |t[n..]| && t[n..][j] == x;
    assert t[n + j] == x && x in s;
    var i :| 0 <= i < |s| && s[i] == x;
    if i < n {
      OldestStayOldest(s, t, n, i);
      NotInBoth(t, n, x);
      assert false;
    }
    assert s[n..][i - n] == x;
  }

  /** Both tails have the same length, so one in the other is enough. */
  lemma TailsAgreeBack<V(!new)>(s: seq<Item<V>>, t: seq<Item<V>>, n: nat, x: Item<V>)
    requires Aged(s) && Aged(t) && |s| == |t| && n <= |s| && forall x :: x in s <==> x in t
    requires forall x :: x in t[n..] ==> x in s[n..]
    requires x in s[n..]
    ensures x in t[n..]
  {
    if x !in t[n..] {
      forall k | 0 <= k < |t[n..]|
        ensures t[n..][k] in s[n..] && t[n..][k].key != x.key
      {
        assert t[n..][k] in t[n..];
        SameKeyInTail(s, n, x, t[n..][k]);
      }
      OneMoreFits(t[n..], s[n..], x);
      assert false;
    }
  }

  lemma SameKeyInTail<V(!new)>(s: seq<Item<V>>, n: nat, x: Item<V>, y: Item<V>)
    requires Distinct(s, KeyOf) && n <= |s| && x in s[n..] && y in s[n..]
    ensures x.key == y.key ==> x == y
  {
    var i :| 0 <= i < |s[n..]| && s[n..][i] == x;
    var j :| 0 <= j < |s[n..]| && s[n..][j] == y;
    assert i != j ==> KeyOf(s[n + i]) != KeyOf(s[n + j]);
  }

  lemma KeptIsTheTail<V(!new)>(items: seq<Item<V>>)
    requires Distinct(items, KeyOf)
    ensures Evicted(|items|) <= |ByAge(items)|
    ensures forall x :: x in Kept(items) <==> x in ByAge(items)[Evicted(|items|)..]
  {
    EvictionKeepsTheNewest(items);
    SameElements(ByAge(Kept(items)), Kept(items));
  }

  lemma UntiedKeepsSame<V(!new)>(items: seq<Item<V>>, others: seq<Item<V>>)
    requires Distinct(items, KeyOf) && SameEntries(items, others) && !Tied(items)
    ensures KeepSame(items, others)
  {
    var s, t, n := ByAge(items), ByAge(others), Evicted(|items|);
    SameEntriesSameSize(items, others);
    SameEntriesSameSize(others, items);
    ByAgeIsAged(items);
    ByAgeIsAged(others);
    KeptIsTheTail(items);
    KeptIsTheTail(others);
    assert 0 < n < |s| ==> s[n - 1].timestamp < s[n].timestamp;
    hide *;
    forall x | x in t[n..]
      ensures x in s[n..]
    {
      TailsAgree(s, t, n, x);
    }
    forall x | x in s[n..]
      ensures x in t[n..]
    {
      TailsAgreeBack(s, t, n, x);
    }
    SameKept(items, others, s, t, n);
  }

  lemma SameKept<V(!new)>(items: seq<Item<V>>, others: seq<Item<V>>, s: seq<Item<V>>, t: seq<Item<V>>, n: nat)
    requires n <= |s| == |t| && forall x :: x in s[n..] <==> x in t[n..]
    requires forall x :: x in Kept(items) <==> x in s[n..]
    requires forall x :: x in Kept(others) <==> x in t[n..]
    ensures KeepSame(items, others)
  {
    hide Kept;
  }

  /** The entries by age, with the two at the edge of the eviction swapped. */
  function SwappedAtEdge<V(!new)>(items: seq<Item<V>>): seq<Item<V>>
    requires Tied(items)
  {
    var s, n := ByAge(items), Evicted(|items|);
    s[n - 1 := s[n]][n := s[n - 1]]
  }

  lemma AgedIsItsOwnOrder<V(!new)>(items: seq<Item<V>>)
    requires Sorted(items, Older)
    ensures ByAge(items) == items
  {
    SortedIsItsOwnSort(items, Older);
  }

  lemma DifferentTails<V(!new)>(items: seq<Item<V>>, others: seq<Item<V>>, s: seq<Item<V>>, t: seq<Item<V>>, n: nat)
    requires Distinct(s, KeyOf) && 0 < n < |s| == |t| && t[n] == s[n - 1]
    requires forall x :: x in Kept(items) <==> x in s[n..]
    requires forall x :: x in Kept(others) <==> x in t[n..]
    ensures !KeepSame(items, others)
  {
    hide Kept;
    assert t[n..][0] == s[n - 1];
    assert s[..n][n - 1] == s[n - 1];
    if s[n - 1] in s[n..] {
      NotInBoth(s, n, s[n - 1]);
      assert false;
    }
  }

  lemma TieKeepsOthers<V(!new)>(items: seq<Item<V>>)
    requires Distinct(items, KeyOf) && Tied(items)
    ensures SameEntries(items, SwappedAtEdge(items)) && !KeepSame(items, SwappedAtEdge(items))
  {
    var s, n, t := ByAge(items), Evicted(|items|), SwappedAtEdge(items);
    ByAgeIsAged(items);
    KeptIsTheTail(items);
    SwapIsAged(s, t, n);
    hide *;
    AgedIsItsOwnOrder(t);
    KeptIsTheTail(t);
    SwapKeepsEntries(items, s, t);
    DifferentTails(items, t, s, t, n);
  }

  lemma SwapKeepsEntries<V(!new)>(items: seq<Item<V>>, s: seq<Item<V>>, t: seq<Item<V>>)
    requires Distinct(t, KeyOf)
    requires forall x :: x in s <==> x in items
    requires forall x :: x in s <==> x in t
    ensures SameEntries(items, t)
  {
    hide Distinct;
  }

  lemma SwapIsAged<V(!new)>(s: seq<Item<V>>, t: seq<Item<V>>, n: nat)
    requires Aged(s) && 0 < n < |s| && s[n - 1].timestamp == s[n].timestamp && t == s[n - 1 := s[n]][n := s[n - 1]]
    ensures Distinct(t, KeyOf) && Sorted(t, Older) && |t| == |s| && t[n] == s[n - 1] && Distinct(s, KeyOf)
    ensures forall x :: x in s <==> x in t
  {
    assert forall i {:trigger t[i]} :: 0 <= i < |s| ==> t[i] == s[if i == n - 1 then n else if i == n then n - 1 else i];
    assert t[n] == s[n - 1] && t[n - 1] == s[n];
    forall x
      ensures x in s <==> x in t
    {
      if i :| 0 <= i < |s| && s[i] == x {
        assert t[if i == n - 1 then n else if i == n then n - 1 else i] == x;
      }
    }
  }

  /**
    Which entries an eviction drops depends on their places in the dictionary if and only if the newest it drops
    and the oldest it keeps share a timestamp.
    */
  lemma EvictionIgnoresPlacesExactly<V(!new)>(items: seq<Item<V>>)
    requires Distinct(items, KeyOf)
    ensures (forall others :: SameEntries(items, others) ==> KeepSame(items, others)) <==> !Tied(items)
  {
    if Tied(items) {
      TieKeepsOthers(items);
    } else {
      forall others | SameEntries(items, others)
        ensures KeepSame(items, others)
      {
        UntiedKeepsSame(items, others);
      }
    }
  }

  /** Under distinct timestamps caches with the same entries evict the same entries, whatever their places. */
  lemma SameEntriesEvictAlike<V(!new)>(items: seq<Item<V>>, others: seq<Item<V>>, stamp: int)
    requires Distinct(items, KeyOf) && StampsDistinct(items, stamp) && SameEntries(items, others)
    ensures |items| == |others| && KeepSame(items, others)
  {
    SameEntriesSameSize(items, others);
    SameEntriesSameSize(others, items);
    if Tied(items) {
      TiedStamps(items, stamp);
      assert false;
    }
    UntiedKeepsSame(items, others);
  }

  lemma TiedStamps<V(!new)>(items: seq<Item<V>>, stamp: int)
    requires Distinct(items, KeyOf) && Tied(items)
    ensures !StampsDistinct(items, stamp)
  {
    var s, n := ByAge(items), Evicted(|items|);
    ByAgeIsAged(items);
    hide Sort;
    assert s[n - 1] in s && s[n] in s && KeyOf(s[n - 1]) != KeyOf(s[n]);
  }

  // ---------- One step in both runs ----------

  lemma TimePasses<V(!new)>(items: seq<Item<V>>, others: seq<Item<V>>, last: int, now: int, cfg: Config)
    requires Agree(items, others, last, cfg) && last <= now
    ensures Agree(items, others, now, cfg)
  {
    forall x
      ensures IsFresh(x, items, now, cfg) <==> IsFresh(x, others, now, cfg)
    {
      assert IsFresh(x, items, last, cfg) <==> IsFresh(x, others, last, cfg);
    }
  }

  lemma CleaningAgrees<V(!new)>(items: seq<Item<V>>, others: seq<Item<V>>, last: int, now: int, cfg: Config)
    requires Agree(items, others, last, cfg) && last <= now
    ensures Agree(Live(items, now, cfg), others, now, cfg)
  {
    TimePasses(items, others, last, now, cfg);
    forall x
      ensures IsFresh(x, Live(items, now, cfg), now, cfg) <==> IsFresh(x, others, now, cfg)
    {
      assert IsFresh(x, items, now, cfg) <==> IsFresh(x, others, now, cfg);
    }
  }

  lemma GetAgrees<V(!new)>(items: seq<Item<V>>, m: Reference<V>, key: string, now: int, cfg: Config)
    requires Refines(items, m)
    ensures Agree(AfterGet(items, key, now, cfg), items, now, cfg)
  {
    var found := Find(items, key);
    forall x
      ensures IsFresh(x, AfterGet(items, key, now, cfg), now, cfg) <==> IsFresh(x, items, now, cfg)
    {
      if x in items && found.Some? && x.key == key {
        SameKeySameItem(items, x, found.value);
      }
    }
  }

  lemma DeleteAgrees<V(!new)>(items: seq<Item<V>>, others: seq<Item<V>>, key: string, now: int, cfg: Config)
    requires Agree(items, others, now, cfg)
    ensures Agree(Delete(items, key), Delete(others, key), now, cfg)
  {
    forall x
      ensures IsFresh(x, Delete(items, key), now, cfg) <==> IsFresh(x, Delete(others, key), now, cfg)
    {
      assert IsFresh(x, items, now, cfg) <==> IsFresh(x, others, now, cfg);
    }
  }

  predicate Evicts<V(!new)>(items: seq<Item<V>>, key: string, now: int, cfg: Config) {
    !HasKey(items, key) && |items| >= cfg.maxSize && |Live(items, now, cfg)| >= cfg.maxSize
  }

  /** The fresh entries after making room: those of the live part, or of what the eviction leaves of it. */
  lemma FreshAfterMakingRoom<V(!new)>(items: seq<Item<V>>, key: string, now: int, cfg: Config, x: Item<V>)
    requires cfg.enabled
    ensures IsFresh(x, MakeRoom(items, key, now, cfg), now, cfg) <==>
            x in if Evicts(items, key, now, cfg) then Kept(Live(items, now, cfg)) else Live(items, now, cfg)
  {}

  lemma ItsKeyIsHeld<V(!new)>(items: seq<Item<V>>, x: Item<V>, now: int, cfg: Config)
    requires x in Live(items, now, cfg)
    ensures HasKey(items, x.key)
  {
    var i :| 0 <= i < |items| && items[i] == x;
  }

  /** If only one of the caches evicts, it has nothing left to evict. */
  lemma EvictsAlone<V(!new)>(items: seq<Item<V>>, others: seq<Item<V>>, key: string, now: int, cfg: Config)
    requires cfg.enabled && Distinct(others, KeyOf) && |others| <= Capacity(cfg)
    requires |Live(items, now, cfg)| == |Live(others, now, cfg)|
    requires forall x :: x in Live(items, now, cfg) ==> x in Live(others, now, cfg)
    requires forall x :: x in Live(others, now, cfg) ==> x in Live(items, now, cfg)
    requires Evicts(items, key, now, cfg) && !Evicts(others, key, now, cfg)
    ensures Live(items, now, cfg) == []
  {
    var stale := Filter(others, Stale(now, cfg.ttl));
    FilterSplits(others, Stale(now, cfg.ttl), Fresh(now, cfg.ttl));
    var i :| 0 <= i < |others| && others[i].key == key;
    if others[i] in Live(others, now, cfg) {
      ItsKeyIsHeld(items, others[i], now, cfg);
      assert false;
    }
    assert others[i] in stale;
  }

  lemma MakingRoomAgrees<V(!new)>(items: seq<Item<V>>, others: seq<Item<V>>, m: Reference<V>, key: string, now: int,
        stamp: int, cfg: Config)
    requires cfg.enabled && Sane(items, m, stamp, cfg) && Sane(others, m, stamp, cfg)
    requires Agree(items, others, now, cfg)
    ensures Agree(MakeRoom(items, key, now, cfg), MakeRoom(others, key, now, cfg), now, cfg)
  {
    var a, b := Live(items, now, cfg), Live(others, now, cfg);
    FilterRefines(items, Fresh(now, cfg.ttl), m);
    FilterRefines(others, Fresh(now, cfg.ttl), m);
    forall x
      ensures x in a <==> x in b
    {
      assert IsFresh(x, items, now, cfg) <==> IsFresh(x, others, now, cfg);
    }
    SameEntriesEvictAlike(a, b, stamp);
    if Evicts(items, key, now, cfg) && !Evicts(others, key, now, cfg) {
      EvictsAlone(items, others, key, now, cfg);
    }
    if Evicts(others, key, now, cfg) && !Evicts(items, key, now, cfg) {
      EvictsAlone(others, items, key, now, cfg);
    }
    hide Kept, Live, MakeRoom, Evicts, Refines, StampsDistinct;
    forall x
      ensures IsFresh(x, MakeRoom(items, key, now, cfg), now, cfg)
         <==> IsFresh(x, MakeRoom(others, key, now, cfg), now, cfg)
    {
      FreshAfterMakingRoom(items, key, now, cfg, x);
      FreshAfterMakingRoom(others, key, now, cfg, x);
    }
  }

  lemma PutAgrees<V(!new)>(items: seq<Item<V>>, others: seq<Item<V>>, item: Item<V>, last: int, cfg: Config)
    requires Distinct(items, KeyOf) && Distinct(others, KeyOf)
    requires Agree(items, others, last, cfg) && last <= item.timestamp
    ensures Agree(Put(items, item), Put(others, item), item.timestamp, cfg)
  {
    TimePasses(items, others, last, item.timestamp, cfg);
    PutRefines(items, item);
    PutRefines(others, item);
    hide Put;
    forall x
      ensures IsFresh(x, Put(items, item), item.timestamp, cfg) <==> IsFresh(x, Put(others, item), item.timestamp, cfg)
    {
      assert IsFresh(x, items, item.timestamp, cfg) <==> IsFresh(x, others, item.timestamp, cfg);
    }
  }

  lemma LiveIsSane<V(!new)>(items: seq<Item<V>>, m: Reference<V>, now: int, stamp: int, cfg: Config)
    requires Sane(items, m, stamp, cfg)
    ensures Sane(Live(items, now, cfg), m, stamp, cfg)
  {
    FilterRefines(items, Fresh(now, cfg.ttl), m);
  }

  lemma SetAgrees<V(!new)>(items: seq<Item<V>>, others: seq<Item<V>>, m: Reference<V>, key: string, value: V, roll: bool,
        t: Clock, last: int, stamp: int, cfg: Config)
    requires cfg.enabled && Sane(items, m, stamp, cfg) && Sane(others, m, stamp, cfg)
    requires Agree(items, others, last, cfg) && last <= t.cleanup <= t.room <= t.stamp
    ensures Agree(AfterSet(items, key, value, roll, t, cfg), AfterSet(others, key, value, false, t, cfg), t.stamp, cfg)
  {
    var cleaned := if roll then Live(items, t.cleanup, cfg) else items;
    LiveIsSane(items, m, t.cleanup, stamp, cfg);
    CleaningAgrees(items, others, last, t.cleanup, cfg);
    TimePasses(items, others, last, t.cleanup, cfg);
    TimePasses(cleaned, others, t.cleanup, t.room, cfg);
    MakingRoomAgrees(cleaned, others, m, key, t.room, stamp, cfg);
    MakeRoomRefines(cleaned, key, t.room, cfg, m);
    MakeRoomRefines(others, key, t.room, cfg, m);
    hide MakeRoom, Live, Put, Agree;
    PutAgrees(MakeRoom(cleaned, key, t.room, cfg), MakeRoom(others, key, t.room, cfg), Item(key, value, t.stamp),
              t.room, cfg);
  }

  /** One operation, against the same operation without its cleanup. */
  lemma StepAgrees<V(!new)>(items: seq<Item<V>>, others: seq<Item<V>>, m: Reference<V>, op: Op<V>, last: int, stamp: int,
        cfg: Config)
    requires cfg.enabled && Sane(items, m, stamp, cfg) && Sane(others, m, stamp, cfg)
    requires Agree(items, others, last, cfg) && InOrder(op, last)
    ensures Agree(Step(items, op, cfg), Run(others, Plain([op]), cfg), After(op, last), cfg)
  {
    hide Agree, AfterSet, AfterGet, Delete, Live;
    match op
    case Get(key, now) =>
      TimePasses(items, others, last, now, cfg);
      GetAgrees(items, m, key, now, cfg);
      GetAgrees(others, m, key, now, cfg);
      AgreeChain(AfterGet(items, key, now, cfg), items, others, AfterGet(others, key, now, cfg), now, cfg);
    case Set(key, value, roll, t) => SetAgrees(items, others, m, key, value, roll, t, last, stamp, cfg);
    case Clear => NothingAgrees<V>(last, cfg);
    case Invalidate(key) => DeleteAgrees(items, others, key, last, cfg);
    case Cleanup(now) => CleaningAgrees(items, others, last, now, cfg);
  }

  lemma NothingAgrees<V(!new)>(now: int, cfg: Config)
    ensures Agree<V>([], [], now, cfg)
  {}

  lemma AgreeChain<V(!new)>(a: seq<Item<V>>, b: seq<Item<V>>, c: seq<Item<V>>, d: seq<Item<V>>, now: int, cfg: Config)
    requires Agree(a, b, now, cfg) && Agree(b, c, now, cfg) && Agree(d, c, now, cfg)
    ensures Agree(a, d, now, cfg)
  {
    forall x
      ensures IsFresh(x, a, now, cfg) <==> IsFresh(x, d, now, cfg)
    {
      assert IsFresh(x, b, now, cfg) <==> IsFresh(x, c, now, cfg);
      assert IsFresh(x, d, now, cfg) <==> IsFresh(x, c, now, cfg);
    }
  }

  // ---------- Runs ----------

  lemma {:induction false} RunsAgree<V(!new)>(items: seq<Item<V>>, others: seq<Item<V>>, m: Reference<V>,
        ops: seq<Op<V>>, last: int, stamp: int, cfg: Config)
    requires cfg.enabled && Sane(items, m, stamp, cfg) && Sane(others, m, stamp, cfg)
    requires Agree(items, others, last, cfg) && Ticks(ops, last, stamp)
    ensures Agree(Run(items, ops, cfg), Run(others, Plain(ops), cfg), EndOf(ops, last), cfg)
    ensures Distinct(Run(items, ops, cfg), KeyOf) && Distinct(Run(others, Plain(ops), cfg), KeyOf)
    decreases ops
  {
    if ops != [] {
      var op := ops[0];
      var next, m', stamp' := Run(others, Plain([op]), cfg), ReferenceStep(m, op, cfg), LastStamp(op, stamp);
      StepAgrees(items, others, m, op, last, stamp, cfg);
      StepIsSane(items, m, op, stamp, cfg);
      if op.Cleanup? {
        assert next == others;
      } else {
        StepIsSane(others, m, Plain([op])[0], stamp, cfg);
      }
      PlainStep(others, ops, cfg);
      hide Agree, Step, Sane, InOrder, ReferenceStep, Plain;
      RunsAgree(Step(items, op, cfg), next, m', ops[1..], After(op, last), stamp', cfg);
    }
  }

  lemma PlainStep<V(!new)>(others: seq<Item<V>>, ops: seq<Op<V>>, cfg: Config)
    requires ops != []
    ensures Run(others, Plain(ops), cfg) == Run(Run(others, Plain([ops[0]]), cfg), Plain(ops[1..]), cfg)
  {
    assert Plain<V>([]) == [];
    assert [ops[0]][1..] == [];
    if !ops[0].Cleanup? {
      assert Plain(ops) == Plain([ops[0]]) + Plain(ops[1..]);
      assert Plain(ops)[1..] == Plain(ops[1..]);
    }
  }

  /** A disabled cache does nothing on a cleanup. */
  lemma {:induction false} DisabledRunsAreEqual<V(!new)>(items: seq<Item<V>>, ops: seq<Op<V>>, cfg: Config)
    requires !cfg.enabled
    ensures Run(items, ops, cfg) == Run(items, Plain(ops), cfg)
    decreases ops
  {
    if ops != [] {
      PlainStep(items, ops, cfg);
      assert [ops[0]][1..] == [];
      DisabledRunsAreEqual(Step(items, ops[0], cfg), ops[1..], cfg);
    }
  }

  lemma AgreeingAnswers<V(!new)>(items: seq<Item<V>>, others: seq<Item<V>>, last: int, key: string, later: int,
        cfg: Config)
    requires Agree(items, others, last, cfg) && last <= later
    requires Distinct(items, KeyOf) && Distinct(others, KeyOf)
    ensures Answer(items, key, later, cfg) == Answer(others, key, later, cfg)
  {
    if Answer(items, key, later, cfg).Some? {
      var x := Find(items, key).value;
      assert IsFresh(x, items, last, cfg);
      FindIsExact(others, x);
    }
    if Answer(others, key, later, cfg).Some? {
      var x := Find(others, key).value;
      assert IsFresh(x, others, last, cfg);
      FindIsExact(items, x);
    }
  }

  /**
    No cleanup changes the answer of any later get: a run answers as the run without its cleanups, those asked
    for and those by chance, provided the clock never goes back and the timestamps of sets increase.
    */
  lemma CleanupsChangeNoAnswer<V(!new)>(ops: seq<Op<V>>, start: int, cfg: Config, key: string, later: int)
    requires Ticks(ops, start, start) && EndOf(ops, start) <= later
    ensures Answer(Run([], ops, cfg), key, later, cfg) == Answer(Run([], Plain(ops), cfg), key, later, cfg)
  {
    if cfg.enabled {
      NothingAgrees<V>(start, cfg);
      RunsAgree<V>([], [], map[], ops, start, start, cfg);
      AgreeingAnswers(Run([], ops, cfg), Run([], Plain(ops), cfg), EndOf(ops, start), key, later, cfg);
    } else {
      DisabledRunsAreEqual([], ops, cfg);
    }
  }

  lemma {:induction false} PlainIgnores<V(!new)>(before: seq<Op<V>>, now: int, after: seq<Op<V>>)
    ensures Plain(before + [Cleanup(now)] + after) == Plain(before + after)
    decreases before
  {
    var long, short := before + [Cleanup(now)] + after, before + after;
    if before == [] {
      assert long[1..] == after == short;
    } else {
      assert long[1..] == before[1..] + [Cleanup(now)] + after;
      assert short[1..] == before[1..] + after;
      PlainIgnores(before[1..], now, after);
    }
  }

  /** An earlier clock reading allows the same operations and ends no later. */
  lemma {:induction false} TicksFromEarlier<V(!new)>(ops: seq<Op<V>>, earlier: int, last: int, stamp: int)
    requires earlier <= last && Ticks(ops, last, stamp)
    ensures Ticks(ops, earlier, stamp) && EndOf(ops, earlier) <= EndOf(ops, last)
    decreases ops
  {
    if ops != [] {
      TicksFromEarlier(ops[1..], After(ops[0], earlier), After(ops[0], last), LastStamp(ops[0], stamp));
    }
  }

  lemma {:induction false} TicksWithout<V(!new)>(before: seq<Op<V>>, now: int, after: seq<Op<V>>, last: int, stamp: int)
    requires Ticks(before + [Cleanup(now)] + after, last, stamp)
    ensures Ticks(before + after, last, stamp)
    ensures EndOf(before + after, last) <= EndOf(before + [Cleanup(now)] + after, last)
    decreases before
  {
    var long, short := before + [Cleanup(now)] + after, before + after;
    if before == [] {
      assert long[1..] == after == short;
      TicksFromEarlier(after, last, now, stamp);
    } else {
      assert long[1..] == before[1..] + [Cleanup(now)] + after;
      assert short[1..] == before[1..] + after;
      TicksWithout(before[1..], now, after, After(before[0], last), LastStamp(before[0], stamp));
    }
  }

  /** Inserting one cleanup anywhere in a run changes no answer after it. */
  lemma CleanupIsInvisible<V(!new)>(before: seq<Op<V>>, now: int, after: seq<Op<V>>, start: int, cfg: Config,
        key: string, later: int)
    requires Ticks(before + [Cleanup(now)] + after, start, start)
    requires EndOf(before + [Cleanup(now)] + after, start) <= later
    ensures Answer(Run([], before + [Cleanup(now)] + after, cfg), key, later, cfg)
         == Answer(Run([], before + after, cfg), key, later, cfg)
  {
    TicksWithout(before, now, after, start, start);
    CleanupsChangeNoAnswer(before + [Cleanup(now)] + after, start, cfg, key, later);
    CleanupsChangeNoAnswer(before + after, start, cfg, key, later);
    PlainIgnores(before, now, after);
  }

  // ---------- Equal timestamps ----------

  const TIED_CONFIG := Config(5, true, 2)

  /** What the sets "a" at 0 and "b" at 10 leave. */
  const TIED_ITEMS: seq<Item<int>> := [Item("a", 1, 0), Item("b", 2, 10)]

  /** Two more sets at 10. */
  function TiedOps(): seq<Op<int>> {
    [Set("a", 3, false, Clock(10, 10, 10)), Set("c", 4, false, Clock(10, 10, 10))]
  }

  lemma TiedItemsAreReachable()
    ensures Run([], [Set("a", 1, false, Clock(0, 0, 0)), Set("b", 2, false, Clock(10, 10, 10))], TIED_CONFIG) == TIED_ITEMS
  {
  }

  /** A full cache of two fresh entries of the same age gives up the one in front. */
  lemma FrontIsEvicted(front: Item<int>, back: Item<int>, key: string, now: int)
    requires front.timestamp == back.timestamp == now && front.key != back.key && key != front.key && key != back.key
    ensures MakeRoom([front, back], key, now, TIED_CONFIG) == [back]
  {
    var items := [front, back];
    FilterAll(items, Fresh(now, 5));
    assert items[1..] == [back] && [back][1..] == [];
    assert Sort([back], Older) == [back];
    assert ByAge(items) == items;
    assert items[..1] == [front];
    assert Oldest(items) == [front.key];
    FilterSuffix(items, NotIn(Oldest(items)), 1);
  }

  lemma PutBehind(first: Item<int>, item: Item<int>)
    requires first.key != item.key
    ensures Put([first], item) == [first, item]
  {
    assert [first][1..] == [];
    assert Put([], item) == [item];
  }

  /** Setting a third key evicts the one in front. */
  lemma ThirdKeyReplacesFront(front: Item<int>, back: Item<int>, item: Item<int>, t: Clock)
    requires t == Clock(item.timestamp, item.timestamp, item.timestamp)
    requires front.timestamp == back.timestamp == item.timestamp
    requires front.key != back.key && item.key != front.key && item.key != back.key
    ensures Step([front, back], Set(item.key, item.data, false, t), TIED_CONFIG) == [back, item]
  {
    FrontIsEvicted(front, back, item.key, t.room);
    hide MakeRoom;
    PutBehind(back, item);
  }

  lemma RewritingInPlace(item: Item<int>, t: Clock)
    requires item.key == "a" && t == Clock(item.timestamp, item.timestamp, item.timestamp)
    ensures Step(TIED_ITEMS, Set("a", item.data, false, t), TIED_CONFIG) == [item, TIED_ITEMS[1]]
  {
    assert TIED_ITEMS[0].key == "a";
    assert HasKey(TIED_ITEMS, "a");
    assert TIED_ITEMS[1..] == [TIED_ITEMS[1]];
  }

  lemma RewritingAfterCleanup(item: Item<int>, t: Clock)
    requires item.key == "a" && t == Clock(item.timestamp, item.timestamp, item.timestamp)
    ensures Step([TIED_ITEMS[1]], Set("a", item.data, false, t), TIED_CONFIG) == [TIED_ITEMS[1], item]
  {
    var b := TIED_ITEMS[1];
    assert b.key[0] == 'b' && item.key[0] == 'a';
    PutBehind(b, item);
    assert |[b]| < TIED_CONFIG.maxSize;
  }

  lemma TiedCleanup()
    ensures Step(TIED_ITEMS, Cleanup(10), TIED_CONFIG) == [TIED_ITEMS[1]]
  {
    assert TIED_ITEMS[1..] == [TIED_ITEMS[1]] && [TIED_ITEMS[1]][1..] == [];
  }

  lemma RunOfTwo<V(!new)>(items: seq<Item<V>>, first: Op<V>, second: Op<V>, cfg: Config)
    ensures Run(items, [first, second], cfg) == Step(Step(items, first, cfg), second, cfg)
  {
    hide Step;
    var middle := Step(items, first, cfg);
    assert [first, second][1..] == [second] && [second][1..] == [];
    assert Run(middle, [second], cfg) == Run(Step(middle, second, cfg), [], cfg);
  }

  /**
    Under equal timestamps a cleanup can show: the stable sort breaks the tie by place, and a cleanup lets a
    rewritten key move to the end. "a", just set, is evicted without the cleanup and answered with it.
    */
  lemma TieShowsCleanup()
    ensures Answer(Run(TIED_ITEMS, TiedOps(), TIED_CONFIG), "a", 10, TIED_CONFIG) == None
    ensures Answer(Run(TIED_ITEMS, [Cleanup(10)] + TiedOps(), TIED_CONFIG), "a", 10, TIED_CONFIG) == Some(3)
  {
    var t := Clock(10, 10, 10);
    var a, b, c := Item("a", 3, 10), TIED_ITEMS[1], Item("c", 4, 10);
    assert b == Item("b", 2, 10);
    TiedCleanup();
    RewritingInPlace(a, t);
    RewritingAfterCleanup(a, t);
    ThirdKeyReplacesFront(a, b, c, t);
    ThirdKeyReplacesFront(b, a, c, t);
    RunOfTwo(TIED_ITEMS, TiedOps()[0], TiedOps()[1], TIED_CONFIG);
    RunOfTwo([b], TiedOps()[0], TiedOps()[1], TIED_CONFIG);
    assert ([Cleanup(10)] + TiedOps())[1..] == TiedOps() == [TiedOps()[0], TiedOps()[1]];
    hide Step;
    assert Run(TIED_ITEMS, TiedOps(), TIED_CONFIG) == [b, c];
    assert Run(TIED_ITEMS, [Cleanup(10)] + TiedOps(), TIED_CONFIG) == [a, c];
    hide Run;
    assert [b, c][1..] == [c] && [c][1..] == [];
  }
}
