/** The in-memory TTL cache of api/analytics_cache.py, and the unbounded TTL map it stands for. */
module AnalyticsCaches {
  import opened Options
  import opened Sorting

  datatype Item<V> = Item(key: string, data: V, timestamp: int)

  function KeyOf<V>(i: Item<V>): string {
    i.key
  }

  predicate Older<V>(a: Item<V>, b: Item<V>) {
    a.timestamp <= b.timestamp
  }

  // ---------- The dictionary, in insertion order ----------

  predicate HasKey<V>(items: seq<Item<V>>, key: string) {
    exists i :: 0 <= i < |items| && items[i].key == key
  }

  function Find<V>(items: seq<Item<V>>, key: string): (r: Option<Item<V>>)
    ensures r.Some? <==> HasKey(items, key)
    ensures r.Some? ==> r.value in items && r.value.key == key
    decreases items
  {
    if items == [] then None
    else if items[0].key == key then Some(items[0])
    else
      assert forall i :: 0 <= i < |items[1..]| ==> items[1..][i] == items[i + 1];
      Find(items[1..], key)
  }

  function Not<V>(key: string): Item<V> -> bool {
    (i: Item<V>) => i.key != key
  }

  function NotIn<V>(keys: seq<string>): Item<V> -> bool {
    (i: Item<V>) => i.key !in keys
  }

  function Fresh<V>(now: int, ttl: int): Item<V> -> bool {
    (i: Item<V>) => now - i.timestamp <= ttl
  }

  function Stale<V>(now: int, ttl: int): Item<V> -> bool {
    (i: Item<V>) => now - i.timestamp > ttl
  }

  function Delete<V(!new)>(items: seq<Item<V>>, key: string): seq<Item<V>> {
    Filter(items, Not(key))
  }

  /** `d[key] = value`: a present key keeps its place, a new one goes to the end. */
  function Put<V>(items: seq<Item<V>>, item: Item<V>): seq<Item<V>>
    decreases items
  {
    if items == [] then [item]
    else if items[0].key == item.key then [item] + items[1..]
    else [items[0]] + Put(items[1..], item)
  }

  // ---------- What the operations do to it ----------

  datatype Config = Config(ttl: int, enabled: bool, maxSize: int)

  function EvictCount(n: nat): nat {
    if n / 10 > 1 then n / 10 else 1
  }

  function Keys<V>(items: seq<Item<V>>): seq<string> {
    seq(|items|, i requires 0 <= i < |items| => items[i].key)
  }

  function ByAge<V(!new)>(items: seq<Item<V>>): (r: seq<Item<V>>)
    ensures |r| == |items|
  {
    Sort(items, Older)
  }

  /** The keys of the oldest tenth. */
  function Oldest<V(!new)>(items: seq<Item<V>>): seq<string> {
    var sorted := ByAge(items);
    var n := EvictCount(|items|);
    Keys(if n <= |sorted| then sorted[..n] else sorted)
  }

  /** What an eviction leaves. */
  function Kept<V(!new)>(items: seq<Item<V>>): seq<Item<V>> {
    Filter(items, NotIn(Oldest(items)))
  }

  function Live<V(!new)>(items: seq<Item<V>>, now: int, cfg: Config): seq<Item<V>> {
    if cfg.enabled then Filter(items, Fresh(now, cfg.ttl)) else items
  }

  /** Room for a new key: expired entries go first, then the oldest tenth. */
  function MakeRoom<V(!new)>(items: seq<Item<V>>, key: string, now: int, cfg: Config): seq<Item<V>> {
    if HasKey(items, key) || |items| < cfg.maxSize then items
    else
      var live := Live(items, now, cfg);
      if |live| < cfg.maxSize then live else Kept(live)
  }

  /** The clock is read for a chance cleanup, for making room, and for the timestamp. */
  datatype Clock = Clock(cleanup: int, room: int, stamp: int)

  function AfterSet<V(!new)>(items: seq<Item<V>>, key: string, value: V, roll: bool, t: Clock,
        cfg: Config): seq<Item<V>> {
    if !cfg.enabled then items
    else
      var cleaned := if roll then Live(items, t.cleanup, cfg) else items;
      Put(MakeRoom(cleaned, key, t.room, cfg), Item(key, value, t.stamp))
  }

  function Answer<V>(items: seq<Item<V>>, key: string, now: int, cfg: Config): Option<V> {
    var found := Find(items, key);
    if !cfg.enabled || found.None? || now - found.value.timestamp > cfg.ttl then None else Some(found.value.data)
  }

  function AfterGet<V(!new)>(items: seq<Item<V>>, key: string, now: int, cfg: Config): seq<Item<V>> {
    var found := Find(items, key);
    if cfg.enabled && found.Some? && now - found.value.timestamp > cfg.ttl then Delete(items, key) else items
  }

  // ---------- The class ----------

  class AnalyticsCache<V(!new)> {
    const cfg: Config
    var items: seq<Item<V>>

    constructor (cfg: Config)
      ensures this.cfg == cfg && items == []
    {
      this.cfg := cfg;
      items := [];
    }

    method Get(key: string, now: int) returns (value: Option<V>)
      modifies this
      ensures value == Answer(old(items), key, now, cfg)
      ensures items == AfterGet(old(items), key, now, cfg)
    {
      if !cfg.enabled {
        return None;
      }
      var cached := Find(items, key);
      if cached.None? {
        return None;
      }
      if now - cached.value.timestamp > cfg.ttl {
        items := Delete(items, key);
        return None;
      }
      return Some(cached.value.data);
    }

    method DeleteAll(keys: seq<string>)
      modifies this
      ensures items == Filter(old(items), NotIn(keys))
    {
      var n := 0;
      FilterAll(items, NotIn([]));
      while n < |keys|
        invariant 0 <= n <= |keys|
        invariant items == Filter(old(items), NotIn(keys[..n]))
      {
        assert keys[..n + 1] == keys[..n] + [keys[n]];
        FilterTwice(old(items), NotIn(keys[..n]), Not(keys[n]), NotIn(keys[..n + 1]));
        items := Delete(items, keys[n]);
        n := n + 1;
      }
      assert keys[..|keys|] == keys;
    }

    method CleanupExpired(now: int) returns (removed: nat)
      requires Distinct(items, KeyOf)
      modifies this
      ensures items == Live(old(items), now, cfg)
      ensures removed == |old(items)| - |items|
    {
      if !cfg.enabled {
        return 0;
      }
      var expired := Keys(Filter(items, Stale(now, cfg.ttl)));
      ExpiredKeysAreStale(items, now, cfg);
      DeleteAll(expired);
      return |expired|;
    }

    method Set(key: string, value: V, roll: bool, t: Clock)
      requires Distinct(items, KeyOf)
      modifies this
      ensures items == AfterSet(old(items), key, value, roll, t, cfg)
    {
      if !cfg.enabled {
        return;
      }
      if roll {
        var _ := CleanupExpired(t.cleanup);
        FilterDistinct(old(items), Fresh(t.cleanup, cfg.ttl), KeyOf);
      }
      if !HasKey(items, key) && |items| >= cfg.maxSize {
        var _ := CleanupExpired(t.room);
        if |items| >= cfg.maxSize {
          DeleteAll(Oldest(items));
        }
      }
      items := Put(items, Item(key, value, t.stamp));
    }

    method Clear()
      modifies this
      ensures items == []
    {
      items := [];
    }

    method Invalidate(key: string)
      modifies this
      ensures items == Delete(old(items), key)
    {
      if HasKey(items, key) {
        items := Delete(items, key);
      } else {
        FilterAll(items, Not(key));
      }
    }
  }

  /** Deleting the stale keys leaves the fresh entries. */
  lemma ExpiredKeysAreStale<V(!new)>(items: seq<Item<V>>, now: int, cfg: Config)
    requires Distinct(items, KeyOf)
    ensures var stale := Filter(items, Stale(now, cfg.ttl));
            && Filter(items, NotIn(Keys(stale))) == Filter(items, Fresh(now, cfg.ttl))
            && |stale| + |Filter(items, Fresh(now, cfg.ttl))| == |items|
  {
    var stale := Filter(items, Stale(now, cfg.ttl));
    var keys := Keys(stale);
    assert forall k :: 0 <= k < |stale| ==> keys[k] == stale[k].key;
    forall x | x in items
      ensures NotIn(keys)(x) <==> Fresh(now, cfg.ttl)(x)
    {
      if x.key in keys {
        var k :| 0 <= k < |keys| && keys[k] == x.key;
        assert stale[k] in stale;
        SameKeySameItem(items, x, stale[k]);
      }
    }
    FilterTwice(items, NotIn(keys), NotIn(keys), Fresh(now, cfg.ttl));
    FilterAll(Filter(items, NotIn(keys)), NotIn(keys));
    FilterSplits(items, Stale(now, cfg.ttl), Fresh(now, cfg.ttl));
  }

  lemma SameKeySameItem<V(!new)>(items: seq<Item<V>>, x: Item<V>, y: Item<V>)
    requires Distinct(items, KeyOf) && x in items && y in items && x.key == y.key
    ensures x == y
  {
    var i :| 0 <= i < |items| && items[i] == x;
    var j :| 0 <= j < |items| && items[j] == y;
    assert i != j ==> KeyOf(items[i]) != KeyOf(items[j]);
  }

  lemma {:induction false} FilterSplits<T(!new)>(s: seq<T>, p: T -> bool, q: T -> bool)
    requires forall x :: x in s ==> (q(x) <==> !p(x))
    ensures |Filter(s, p)| + |Filter(s, q)| == |s|
    decreases s
  {
    if s != [] {
      assert s[0] in s;
      FilterSplits(s[1..], p, q);
    }
  }

  // ---------- Runs, beside the unbounded TTL map ----------

  datatype Op<V> =
    | Get(key: string, now: int)
    | Set(key: string, value: V, roll: bool, t: Clock)
    | Clear
    | Invalidate(key: string)
    | Cleanup(now: int)

  function Step<V(!new)>(items: seq<Item<V>>, op: Op<V>, cfg: Config): seq<Item<V>> {
    match op
    case Get(key, now) => AfterGet(items, key, now, cfg)
    case Set(key, value, roll, t) => AfterSet(items, key, value, roll, t, cfg)
    case Clear => []
    case Invalidate(key) => Delete(items, key)
    case Cleanup(now) => Live(items, now, cfg)
  }

  /** The simple form: the value last set for each key, and when; never evicted, never expired. */
  type Reference<V> = map<string, (V, int)>

  function ReferenceStep<V>(m: Reference<V>, op: Op<V>, cfg: Config): Reference<V> {
    match op
    case Set(key, value, _, t) => if cfg.enabled then m[key := (value, t.stamp)] else m
    case Clear => map[]
    case Invalidate(key) => m - {key}
    case _ => m
  }

  function Run<V(!new)>(items: seq<Item<V>>, ops: seq<Op<V>>, cfg: Config): seq<Item<V>>
    decreases ops
  {
    if ops == [] then items else Run(Step(items, ops[0], cfg), ops[1..], cfg)
  }

  function ReferenceRun<V>(m: Reference<V>, ops: seq<Op<V>>, cfg: Config): Reference<V>
    decreases ops
  {
    if ops == [] then m else ReferenceRun(ReferenceStep(m, ops[0], cfg), ops[1..], cfg)
  }

  ghost predicate Refines<V(!new)>(items: seq<Item<V>>, m: Reference<V>) {
    && Distinct(items, KeyOf)
    && forall i :: i in items ==> i.key in m && m[i.key] == (i.data, i.timestamp)
  }

  function Capacity(cfg: Config): nat {
    if cfg.maxSize > 1 then cfg.maxSize else 1
  }

  lemma {:induction false} PutRefines<V(!new)>(items: seq<Item<V>>, item: Item<V>)
    requires Distinct(items, KeyOf)
    ensures Distinct(Put(items, item), KeyOf)
    ensures forall i :: i in Put(items, item) <==> i == item || (i in items && i.key != item.key)
    ensures |Put(items, item)| == |items| + if HasKey(items, item.key) then 0 else 1
    decreases items
  {
    if items != [] {
      PutRefines(items[1..], item);
      forall i | i in items[1..]
        ensures i.key != items[0].key
      {
        var j :| 0 <= j < |items[1..]| && items[1..][j] == i;
        assert KeyOf(items[0]) != KeyOf(items[j + 1]);
      }
      if items[0].key == item.key {
        assert forall k :: 0 <= k < |items[1..]| ==> items[1..][k] in items[1..];
      } else {
        var r := Put(items[1..], item);
        forall k | 0 <= k < |r|
          ensures KeyOf(items[0]) != KeyOf(r[k])
        {
          assert r[k] in r;
        }
        assert HasKey(items, item.key) <==> HasKey(items[1..], item.key) by {
          assert forall k :: 0 <= k < |items[1..]| ==> items[1..][k] == items[k + 1];
        }
      }
    }
  }

  lemma FilterRefines<V(!new)>(items: seq<Item<V>>, p: Item<V> -> bool, m: Reference<V>)
    requires Refines(items, m)
    ensures Refines(Filter(items, p), m)
  {
    FilterDistinct(items, p, KeyOf);
  }

  lemma OlderIsTotal<V(!new)>()
    ensures TotalPreorder<Item<V>>(Older)
  {
  }

  /** `EvictCount`, cut at the number of entries. */
  function Evicted(size: nat): (n: nat)
    ensures n <= size
  {
    if EvictCount(size) <= size then EvictCount(size) else size
  }

  lemma OldestSitFirst<V(!new)>(items: seq<Item<V>>, sorted: seq<Item<V>>, p: Item<V> -> bool, n: nat)
    requires Distinct(items, KeyOf)
    requires sorted == ByAge(items) && p == NotIn(Oldest(items)) && n == Evicted(|items|)
    ensures n <= |sorted| && forall i :: 0 <= i < |sorted| ==> (p(sorted[i]) <==> i >= n)
  {
    SortDistinct(items, Older, KeyOf);
    assert Oldest(items) == Keys(sorted[..n]);
    hide Sort, Oldest, Evicted, EvictCount;
    forall i | 0 <= i < |sorted|
      ensures NotIn<V>(Keys(sorted[..n]))(sorted[i]) <==> i >= n
    {
      if i < n {
        assert Keys(sorted[..n])[i] == sorted[i].key;
      } else {
        forall j | 0 <= j < n
          ensures Keys(sorted[..n])[j] != sorted[i].key
        {
          assert KeyOf(sorted[j]) != KeyOf(sorted[i]);
        }
      }
    }
  }

  /** Sorted by age, what an eviction leaves is everything but the oldest `EvictCount`. */
  lemma EvictionKeepsTheNewest<V(!new)>(items: seq<Item<V>>)
    requires Distinct(items, KeyOf)
    ensures Evicted(|items|) <= |ByAge(items)| && ByAge(Kept(items)) == ByAge(items)[Evicted(|items|)..]
  {
    var sorted, p, n := ByAge(items), NotIn<V>(Oldest(items)), Evicted(|items|);
    OldestSitFirst(items, sorted, p, n);
    OlderIsTotal<V>();
    FilterSort(items, Older, p);
    hide Sort, Filter, Oldest, NotIn, Evicted, Distinct, TotalPreorder;
    FilterSuffix(sorted, p, n);
  }

  /**
    An eviction drops one entry of fewer than 20, otherwise a tenth, rounded down; and nothing it drops is newer than
    anything it keeps.
    */
  lemma EvictionDropsTheOldestTenth<V(!new)>(items: seq<Item<V>>, x: Item<V>, y: Item<V>)
    requires Distinct(items, KeyOf)
    ensures var gone := |items| - |Kept(items)|;
            && (items == [] ==> gone == 0)
            && (0 < |items| < 20 ==> gone == 1)
            && (|items| >= 20 ==> 10 * gone <= |items| < 10 * gone + 10)
    ensures x in Kept(items) && y in items && y !in Kept(items) ==> y.timestamp <= x.timestamp
  {
    EvictionKeepsTheNewest(items);
    var s, n := ByAge(items), Evicted(|items|);
    OlderIsTotal<V>();
    SortSorts(items, Older);
    SameElements(s, items);
    SameElements(ByAge(Kept(items)), Kept(items));
    assert |ByAge(Kept(items))| == |items| - n;
    hide Sort, ByAge, Kept, Older;
    if x in Kept(items) && y in items && y !in Kept(items) {
      TailIsNewer(s, n, x, y);
    }
  }

  lemma TailIsNewer<V(!new)>(s: seq<Item<V>>, n: nat, x: Item<V>, y: Item<V>)
    requires n <= |s| && Sorted(s, Older) && x in s[n..] && y in s && y !in s[n..]
    ensures y.timestamp <= x.timestamp
  {
    var i :| 0 <= i < |s[n..]| && s[n..][i] == x;
    var j :| 0 <= j < |s| && s[j] == y;
    forall k | n <= k < |s|
      ensures s[k] in s[n..]
    {
      assert s[n..][k - n] == s[k];
    }
    assert j < n;
    assert Older(s[j], s[n + i]);
  }

  lemma MakeRoomRefines<V(!new)>(items: seq<Item<V>>, key: string, now: int, cfg: Config, m: Reference<V>)
    requires Refines(items, m) && |items| <= Capacity(cfg)
    ensures Refines(MakeRoom(items, key, now, cfg), m)
    ensures |MakeRoom(items, key, now, cfg)| <= |items|
    ensures HasKey(MakeRoom(items, key, now, cfg), key) || |MakeRoom(items, key, now, cfg)| < Capacity(cfg)
  {
    var live := Live(items, now, cfg);
    FilterRefines(items, Fresh(now, cfg.ttl), m);
    FilterRefines(live, NotIn(Oldest(live)), m);
    EvictionKeepsTheNewest(live);
    assert EvictCount(|live|) >= 1;
    hide ByAge, Filter, Oldest, NotIn, Refines, EvictCount;
    assert |ByAge(Kept(live))| == |live| - Evicted(|live|);
  }

  lemma StepRefines<V(!new)>(items: seq<Item<V>>, m: Reference<V>, op: Op<V>, cfg: Config)
    requires Refines(items, m) && |items| <= Capacity(cfg)
    ensures Refines(Step(items, op, cfg), ReferenceStep(m, op, cfg))
    ensures |Step(items, op, cfg)| <= Capacity(cfg)
  {
    hide Refines, Filter, AfterSet, Capacity;
    match op
    case Get(key, _) => FilterRefines(items, Not(key), m);
    case Set(key, value, roll, t) => SetRefines(items, m, key, value, roll, t, cfg);
    case Clear => NothingRefines<V>(cfg);
    case Invalidate(key) => DeleteRefines(items, m, key);
    case Cleanup(now) => FilterRefines(items, Fresh(now, cfg.ttl), m);
  }

  lemma NothingRefines<V(!new)>(cfg: Config)
    ensures Refines<V>([], map[]) && Capacity(cfg) >= 1
  {}

  lemma DeleteRefines<V(!new)>(items: seq<Item<V>>, m: Reference<V>, key: string)
    requires Refines(items, m)
    ensures Refines(Delete(items, key), m - {key})
  {
    FilterRefines(items, Not(key), m);
  }

  lemma SetRefines<V(!new)>(items: seq<Item<V>>, m: Reference<V>, key: string, value: V, roll: bool, t: Clock, cfg: Config)
    requires Refines(items, m) && |items| <= Capacity(cfg)
    ensures Refines(AfterSet(items, key, value, roll, t, cfg), if cfg.enabled then m[key := (value, t.stamp)] else m)
    ensures |AfterSet(items, key, value, roll, t, cfg)| <= Capacity(cfg)
  {
    hide Put, MakeRoom, Distinct;
    var cleaned := if roll then Live(items, t.cleanup, cfg) else items;
    FilterRefines(items, Fresh(t.cleanup, cfg.ttl), m);
    MakeRoomRefines(cleaned, key, t.room, cfg, m);
    PutRefines(MakeRoom(cleaned, key, t.room, cfg), Item(key, value, t.stamp));
  }

  lemma {:induction false} RunRefines<V(!new)>(items: seq<Item<V>>, m: Reference<V>, ops: seq<Op<V>>, cfg: Config)
    requires Refines(items, m) && |items| <= Capacity(cfg)
    ensures Refines(Run(items, ops, cfg), ReferenceRun(m, ops, cfg))
    ensures |Run(items, ops, cfg)| <= Capacity(cfg)
    decreases ops
  {
    if ops != [] {
      StepRefines(items, m, ops[0], cfg);
      RunRefines(Step(items, ops[0], cfg), ReferenceStep(m, ops[0], cfg), ops[1..], cfg);
    }
  }

  /**
    In every run, a get answers nothing or the value last set for the key, no older than the TTL; the size stays
    in bounds.
    */
  lemma AnswersAreLastSet<V(!new)>(ops: seq<Op<V>>, cfg: Config, key: string, now: int)
    ensures var items := Run([], ops, cfg);
            var m := ReferenceRun(map[], ops, cfg);
            && |items| <= Capacity(cfg)
            && (Answer(items, key, now, cfg).Some? ==>
                  && key in m && now - m[key].1 <= cfg.ttl
                  && Answer(items, key, now, cfg).value == m[key].0)
  {
    RunRefines([], map[], ops, cfg);
  }

  lemma FindIsExact<V(!new)>(items: seq<Item<V>>, x: Item<V>)
    requires Distinct(items, KeyOf) && x in items
    ensures Find(items, x.key) == Some(x)
  {
    SameKeySameItem(items, x, Find(items, x.key).value);
  }

  /** A value just set is answered until it is older than the TTL. */
  lemma SetIsSeen<V(!new)>(items: seq<Item<V>>, m: Reference<V>, key: string, value: V, roll: bool, t: Clock,
        cfg: Config, now: int)
    requires Refines(items, m) && |items| <= Capacity(cfg) && cfg.enabled
    ensures Answer(AfterSet(items, key, value, roll, t, cfg), key, now, cfg)
         == if now - t.stamp <= cfg.ttl then Some(value) else None
  {
    var cleaned := if roll then Live(items, t.cleanup, cfg) else items;
    FilterRefines(items, Fresh(t.cleanup, cfg.ttl), m);
    MakeRoomRefines(cleaned, key, t.room, cfg, m);
    PutRefines(MakeRoom(cleaned, key, t.room, cfg), Item(key, value, t.stamp));
    hide MakeRoom, Live, Put, Find;
    FindIsExact(AfterSet(items, key, value, roll, t, cfg), Item(key, value, t.stamp));
  }

  // ---------- A cache that never fills up is exact ----------

  function ReferenceAnswer<V>(m: Reference<V>, key: string, now: int, cfg: Config): Option<V> {
    if cfg.enabled && key in m && now - m[key].1 <= cfg.ttl then Some(m[key].0) else None
  }

  /** The clock after an operation. */
  function After<V>(op: Op<V>, last: int): int {
    match op
    case Get(_, now) => now
    case Set(_, _, _, t) => t.stamp
    case Cleanup(now) => now
    case _ => last
  }

  predicate InOrder<V>(op: Op<V>, last: int) {
    match op
    case Get(_, now) => last <= now
    case Set(_, _, _, t) => last <= t.cleanup <= t.room <= t.stamp
    case Cleanup(now) => last <= now
    case _ => true
  }

  /** The clock never goes back, and only the given keys are set. */
  ghost predicate Uses<V(!new)>(ops: seq<Op<V>>, keys: set<string>, last: int)
    decreases ops
  {
    ops == [] ||
    (InOrder(ops[0], last) && (ops[0].Set? ==> ops[0].key in keys) && Uses(ops[1..], keys, After(ops[0], last)))
  }

  /** Whatever the unbounded map holds is in the cache as well, or already too old. */
  ghost predicate Complete<V(!new)>(items: seq<Item<V>>, m: Reference<V>, keys: set<string>, last: int, cfg: Config) {
    && (forall i :: i in items ==> i.key in keys)
    && (forall key :: key in m ==> (exists i :: i in items && i.key == key) || last - m[key].1 > cfg.ttl)
  }

  lemma {:induction false} AtMostOnePerKey<V(!new)>(items: seq<Item<V>>, keys: set<string>)
    requires Distinct(items, KeyOf) && forall i :: i in items ==> i.key in keys
    ensures |items| <= |keys|
    decreases items
  {
    if items != [] {
      var rest := items[1..];
      forall i | i in rest
        ensures i.key in keys - {items[0].key}
      {
        var k :| 0 <= k < |rest| && rest[k] == i;
        assert KeyOf(items[0]) != KeyOf(items[k + 1]);
      }
      assert items[0] in items;
      AtMostOnePerKey(rest, keys - {items[0].key});
    }
  }

  lemma LiveIsComplete<V(!new)>(items: seq<Item<V>>, m: Reference<V>, keys: set<string>, last: int, now: int,
        cfg: Config)
    requires Refines(items, m) && Complete(items, m, keys, last, cfg) && last <= now
    ensures Refines(Live(items, now, cfg), m) && Complete(Live(items, now, cfg), m, keys, now, cfg)
  {
    FilterRefines(items, Fresh(now, cfg.ttl), m);
    forall key | key in m
      ensures (exists i :: i in Live(items, now, cfg) && i.key == key) || now - m[key].1 > cfg.ttl
    {
      if i :| i in items && i.key == key {
        assert m[key] == (i.data, i.timestamp);
        assert now - i.timestamp <= cfg.ttl ==> i in Live(items, now, cfg);
      }
    }
  }

  lemma DeleteIsComplete<V(!new)>(items: seq<Item<V>>, m: Reference<V>, n: Reference<V>, key: string, keys: set<string>,
                                  last: int, now: int, cfg: Config)
    requires Refines(items, m) && Complete(items, m, keys, last, cfg) && last <= now
    requires n == m - {key} || (n == m && key in m && now - m[key].1 > cfg.ttl)
    ensures Complete(Delete(items, key), n, keys, now, cfg)
  {
    forall k | k in n
      ensures (exists i :: i in Delete(items, key) && i.key == k) || now - n[k].1 > cfg.ttl
    {
      if i :| i in items && i.key == k {
        assert k != key ==> i in Delete(items, key);
      }
    }
  }

  lemma GetIsComplete<V(!new)>(items: seq<Item<V>>, m: Reference<V>, key: string, now: int, keys: set<string>,
        last: int, cfg: Config)
    requires Refines(items, m) && Complete(items, m, keys, last, cfg) && last <= now
    ensures Complete(AfterGet(items, key, now, cfg), m, keys, now, cfg)
  {
    var found := Find(items, key);
    if cfg.enabled && found.Some? && now - found.value.timestamp > cfg.ttl {
      DeleteIsComplete(items, m, m, key, keys, last, now, cfg);
    }
  }

  /** With room for all keys, making room removes nothing. */
  lemma NoEviction<V(!new)>(items: seq<Item<V>>, key: string, now: int, keys: set<string>, cfg: Config)
    requires Distinct(items, KeyOf) && key in keys && |keys| <= cfg.maxSize
    requires forall i :: i in items ==> i.key in keys
    ensures MakeRoom(items, key, now, cfg) == items
  {
    if !HasKey(items, key) {
      forall i | i in items
        ensures i.key in keys - {key}
      {
        var k :| 0 <= k < |items| && items[k] == i;
      }
      AtMostOnePerKey(items, keys - {key});
    }
  }

  lemma PutIsComplete<V(!new)>(items: seq<Item<V>>, m: Reference<V>, item: Item<V>, keys: set<string>, last: int,
        cfg: Config)
    requires Refines(items, m) && Complete(items, m, keys, last, cfg) && last <= item.timestamp && item.key in keys
    ensures Complete(Put(items, item), m[item.key := (item.data, item.timestamp)], keys, item.timestamp, cfg)
  {
    PutRefines(items, item);
    hide Put;
    var n := m[item.key := (item.data, item.timestamp)];
    forall k | k in n
      ensures (exists i :: i in Put(items, item) && i.key == k) || item.timestamp - n[k].1 > cfg.ttl
    {
      if k == item.key {
        assert item in Put(items, item);
      } else if i :| i in items && i.key == k {
        assert i in Put(items, item);
      }
    }
  }

  lemma StepIsComplete<V(!new)>(items: seq<Item<V>>, m: Reference<V>, op: Op<V>, keys: set<string>, last: int,
        cfg: Config)
    requires cfg.enabled && |keys| <= cfg.maxSize
    requires Refines(items, m) && Complete(items, m, keys, last, cfg)
    requires InOrder(op, last) && (op.Set? ==> op.key in keys)
    ensures Complete(Step(items, op, cfg), ReferenceStep(m, op, cfg), keys, After(op, last), cfg)
  {
    hide Refines, Complete, AfterGet, MakeRoom, Live, Delete, Put;
    match op
    case Get(key, now) => GetIsComplete(items, m, key, now, keys, last, cfg);
    case Set(key, value, roll, t) =>
      var cleaned := if roll then Live(items, t.cleanup, cfg) else items;
      if roll {
        LiveIsComplete(items, m, keys, last, t.cleanup, cfg);
      }
      SetIsComplete(cleaned, m, key, value, t, keys, if roll then t.cleanup else last, cfg);
    case Clear => NothingIsComplete<V>(keys, last, cfg);
    case Invalidate(key) => DeleteIsComplete(items, m, m - {key}, key, keys, last, last, cfg);
    case Cleanup(now) => LiveIsComplete(items, m, keys, last, now, cfg);
  }

  lemma SetIsComplete<V(!new)>(items: seq<Item<V>>, m: Reference<V>, key: string, value: V, t: Clock,
        keys: set<string>, last: int, cfg: Config)
    requires |keys| <= cfg.maxSize && key in keys && last <= t.stamp
    requires Refines(items, m) && Complete(items, m, keys, last, cfg)
    ensures Complete(Put(MakeRoom(items, key, t.room, cfg), Item(key, value, t.stamp)),
                     m[key := (value, t.stamp)], keys, t.stamp, cfg)
  {
    NoEviction(items, key, t.room, keys, cfg);
    PutIsComplete(items, m, Item(key, value, t.stamp), keys, last, cfg);
  }

  lemma NothingIsComplete<V(!new)>(keys: set<string>, last: int, cfg: Config)
    ensures Complete<V>([], map[], keys, last, cfg)
  {
  }

  /** The clock after the last operation. */
  function EndOf<V>(ops: seq<Op<V>>, last: int): int
    decreases ops
  {
    if ops == [] then last else EndOf(ops[1..], After(ops[0], last))
  }

  lemma {:induction false} RunIsComplete<V(!new)>(items: seq<Item<V>>, m: Reference<V>, ops: seq<Op<V>>,
        keys: set<string>, last: int, cfg: Config)
    requires cfg.enabled && |keys| <= cfg.maxSize && |items| <= Capacity(cfg)
    requires Refines(items, m) && Complete(items, m, keys, last, cfg) && Uses(ops, keys, last)
    ensures Complete(Run(items, ops, cfg), ReferenceRun(m, ops, cfg), keys, EndOf(ops, last), cfg)
    decreases ops
  {
    if ops != [] {
      StepRefines(items, m, ops[0], cfg);
      StepIsComplete(items, m, ops[0], keys, last, cfg);
      hide Refines, Complete, Step, ReferenceStep;
      RunIsComplete(Step(items, ops[0], cfg), ReferenceStep(m, ops[0], cfg), ops[1..], keys, After(ops[0], last), cfg);
    }
  }

  /**
    With a clock that never goes back and room for every key that is set, the cache answers exactly as the
    unbounded TTL map.
    */
  lemma RoomyCacheIsExact<V(!new)>(ops: seq<Op<V>>, keys: set<string>, cfg: Config, start: int, key: string, now: int)
    requires cfg.enabled && |keys| <= cfg.maxSize && Uses(ops, keys, start) && EndOf(ops, start) <= now
    ensures Answer(Run([], ops, cfg), key, now, cfg) == ReferenceAnswer(ReferenceRun(map[], ops, cfg), key, now, cfg)
  {
    NothingIsComplete<V>(keys, start, cfg);
    RunIsComplete<V>([], map[], ops, keys, start, cfg);
    RunRefines([], map[], ops, cfg);
    var items, m := Run([], ops, cfg), ReferenceRun(map[], ops, cfg);
    CompleteIsExact(items, m, keys, EndOf(ops, start), cfg, key, now);
  }

  lemma CompleteIsExact<V(!new)>(items: seq<Item<V>>, m: Reference<V>, keys: set<string>, last: int, cfg: Config,
        key: string, now: int)
    requires Refines(items, m) && Complete(items, m, keys, last, cfg) && last <= now
    ensures Answer(items, key, now, cfg) == ReferenceAnswer(m, key, now, cfg)
  {
    if i :| i in items && i.key == key {
      FindIsExact(items, i);
    }
  }

  // ---------- Eviction spares the recent ----------

  /** Timestamps of successive sets increase strictly: no entry is as new as the one being written. */
  ghost predicate StampsIncrease<V(!new)>(ops: seq<Op<V>>, last: int)
    decreases ops
  {
    ops == [] ||
    (if ops[0].Set? then ops[0].t.stamp > last && StampsIncrease(ops[1..], ops[0].t.stamp)
     else StampsIncrease(ops[1..], last))
  }

  ghost predicate StampsDistinct<V(!new)>(items: seq<Item<V>>, last: int) {
    && (forall a, b :: a in items && b in items && a.key != b.key ==> a.timestamp != b.timestamp)
    && (forall a :: a in items ==> a.timestamp <= last)
  }

  function LastStamp<V>(op: Op<V>, last: int): int {
    if op.Set? then op.t.stamp else last
  }

  lemma StepKeepsStampsDistinct<V(!new)>(items: seq<Item<V>>, m: Reference<V>, op: Op<V>, cfg: Config, last: int)
    requires Refines(items, m) && |items| <= Capacity(cfg)
    requires StampsDistinct(items, last) && LastStamp(op, last) >= last && (op.Set? ==> op.t.stamp > last)
    ensures StampsDistinct(Step(items, op, cfg), LastStamp(op, last))
  {
    match op
    case Set(key, value, roll, t) =>
      var cleaned := if roll then Live(items, t.cleanup, cfg) else items;
      FilterRefines(items, Fresh(t.cleanup, cfg.ttl), m);
      MakeRoomRefines(cleaned, key, t.room, cfg, m);
      PutRefines(MakeRoom(cleaned, key, t.room, cfg), Item(key, value, t.stamp));
    case _ =>
  }

  lemma {:induction false} RunKeepsStampsDistinct<V(!new)>(items: seq<Item<V>>, m: Reference<V>, ops: seq<Op<V>>,
        cfg: Config, last: int)
      returns (end: int)
    requires Refines(items, m) && |items| <= Capacity(cfg)
    requires StampsDistinct(items, last) && StampsIncrease(ops, last)
    ensures StampsDistinct(Run(items, ops, cfg), end)
    decreases ops
  {
    end := last;
    if ops != [] {
      StepRefines(items, m, ops[0], cfg);
      StepKeepsStampsDistinct(items, m, ops[0], cfg, last);
      hide Refines, StampsDistinct, Step, ReferenceStep;
      end := RunKeepsStampsDistinct(Step(items, ops[0], cfg), ReferenceStep(m, ops[0], cfg), ops[1..], cfg,
                                    LastStamp(ops[0], last));
    }
  }

  /** The entries written after `x`, each under a key of its own. */
  function Newer<V(!new)>(items: seq<Item<V>>, x: Item<V>): seq<Item<V>> {
    Filter(items, (i: Item<V>) => i.timestamp > x.timestamp)
  }

  /** An evicted entry sits among the first `EvictCount` by age. */
  lemma EvictedSitsFirst<V(!new)>(live: seq<Item<V>>, x: Item<V>) returns (k: nat)
    requires Distinct(live, KeyOf) && x in live && x !in Kept(live)
    ensures k < EvictCount(|live|) && k < |live| && ByAge(live)[k] == x
  {
    var sorted := ByAge(live);
    var n := Evicted(|live|);
    assert n <= EvictCount(|live|);
    hide Evicted, EvictCount, Kept;
    SameElements(sorted, live);
    k :| 0 <= k < |sorted| && sorted[k] == x;
    EvictionKeepsTheNewest(live);
    var left := Kept(live);
    SameElements(ByAge(left), left);
    forall j | n <= j < |sorted|
      ensures sorted[j] in left
    {
      assert sorted[n..][j - n] == sorted[j];
    }
  }

  /** Of a full cache, an eviction drops an entry only if all but the oldest tenth are newer. */
  lemma EvictedIsOld<V(!new)>(live: seq<Item<V>>, x: Item<V>, last: int)
    requires Distinct(live, KeyOf) && StampsDistinct(live, last)
    requires x in live && x !in Kept(live)
    ensures |Newer(live, x)| >= |live| - EvictCount(|live|)
  {
    var k := EvictedSitsFirst(live, x);
    NewerComeAfter(live, x, last, k);
    hide Kept, StampsDistinct, Distinct, ByAge;
    NewerAreCounted(live, x, ByAge(live), (i: Item<V>) => i.timestamp > x.timestamp, EvictCount(|live|));
  }

  lemma NewerAreCounted<V(!new)>(live: seq<Item<V>>, x: Item<V>, sorted: seq<Item<V>>, p: Item<V> -> bool, n: nat)
    requires sorted == ByAge(live)
    requires forall i :: n <= i < |sorted| ==> p(sorted[i])
    ensures |Filter(live, p)| >= |live| - n
  {
    OlderIsTotal<V>();
    FilterSort(live, Older, p);
    hide Filter, Sort, TotalPreorder;
    FilterKeepsTail(sorted, p, n);
  }

  lemma NewerComeAfter<V(!new)>(live: seq<Item<V>>, x: Item<V>, last: int, k: nat)
    requires Distinct(live, KeyOf) && StampsDistinct(live, last)
    requires k < |live| && ByAge(live)[k] == x
    ensures forall j :: k < j < |live| ==> ByAge(live)[j].timestamp > x.timestamp
  {
    var sorted := ByAge(live);
    OlderIsTotal<V>();
    SortSorts(live, Older);
    SameElements(sorted, live);
    SortDistinct(live, Older, KeyOf);
    hide Sort, ByAge;
    forall j | k < j < |live|
      ensures sorted[j].timestamp > x.timestamp
    {
      var y := sorted[j];
      assert Older(x, y) && KeyOf(x) != KeyOf(y);
      assert x in live && y in live;
    }
  }

  /**
    In a run with strictly increasing timestamps, a set that drops an entry which is neither expired nor
    being overwritten finds at least max_size minus the evicted tenth of other keys written after it.
    */
  lemma EvictionSparesRecentKeys<V(!new)>(ops: seq<Op<V>>, cfg: Config, x: Item<V>, key: string, value: V,
        roll: bool, t: Clock, last: int)
    requires cfg.enabled && cfg.maxSize >= 1
    requires StampsIncrease(ops, last)
    requires var items := Run([], ops, cfg);
             x in items && x.key != key && x !in AfterSet(items, key, value, roll, t, cfg)
    requires t.cleanup - x.timestamp <= cfg.ttl && t.room - x.timestamp <= cfg.ttl
    ensures |Newer(Run([], ops, cfg), x)| >= cfg.maxSize - EvictCount(cfg.maxSize)
  {
    var items := Run([], ops, cfg);
    var m := ReferenceRun(map[], ops, cfg);
    RunRefines([], map[], ops, cfg);
    var end := RunKeepsStampsDistinct<V>([], map[], ops, cfg, last);
    var cleaned := if roll then Live(items, t.cleanup, cfg) else items;
    FilterRefines(items, Fresh(t.cleanup, cfg.ttl), m);
    MakeRoomRefines(cleaned, key, t.room, cfg, m);
    PutRefines(MakeRoom(cleaned, key, t.room, cfg), Item(key, value, t.stamp));
    assert x in cleaned;
    DroppedFromFullCache(cleaned, cfg, x, key, t.room, m, end);
    if roll {
      FewerAfterFilter(items, Fresh(t.cleanup, cfg.ttl), (i: Item<V>) => i.timestamp > x.timestamp);
    }
  }

  /** The same for the part of a set that makes room. */
  lemma DroppedFromFullCache<V(!new)>(items: seq<Item<V>>, cfg: Config, x: Item<V>, key: string, now: int,
        m: Reference<V>, last: int)
    requires cfg.enabled && cfg.maxSize >= 1 && Refines(items, m) && StampsDistinct(items, last)
    requires x in items && x !in MakeRoom(items, key, now, cfg) && now - x.timestamp <= cfg.ttl
    ensures |Newer(items, x)| >= cfg.maxSize - EvictCount(cfg.maxSize)
  {
    var live := Live(items, now, cfg);
    FilterRefines(items, Fresh(now, cfg.ttl), m);
    assert x in live && |live| >= cfg.maxSize;
    EvictedIsOld(live, x, last);
    FewerAfterFilter(items, Fresh(now, cfg.ttl), (i: Item<V>) => i.timestamp > x.timestamp);
  }

  lemma FewerAfterFilter<T(!new)>(s: seq<T>, p: T -> bool, q: T -> bool)
    ensures |Filter(Filter(s, p), q)| <= |Filter(s, q)|
  {
    var both := x => p(x) && q(x);
    FilterTwice(s, p, q, both);
    FilterIsMonotone(s, both, q);
  }
}
