/**
  The related-videos search of api/public.py: four queries with early termination, and the single sort they amount
  to.
  */
module RelatedVideos {
  import opened Options
  import opened Sorting

  datatype Status = Pending | Processing | Ready | Failed

  datatype Video = Video(id: int, category: Option<int>, tags: set<int>, status: Status, deleted: bool,
        published: Option<int>)

  /** What every query of the listing is restricted to. */
  predicate Listed(v: Video) {
    v.status == Ready && !v.deleted && v.published.Some?
  }

  function PublishedAt(v: Video): int {
    if v.published.Some? then v.published.value else 0
  }

  /** `ORDER BY published_at DESC`; rows published at the same instant stay in the order of the table. */
  predicate NewestFirst(a: Video, b: Video) {
    PublishedAt(a) >= PublishedAt(b)
  }

  // ---------- One query ----------

  predicate Shares(v: Video, tags: seq<int>) {
    exists i :: 0 <= i < |tags| && tags[i] in v.tags
  }

  /** A category or a tag list that is missing does not restrict. */
  function Matching(category: Option<int>, tags: seq<int>, exclude: set<int>): Video -> bool {
    v =>
      && Listed(v) && v.id !in exclude
      && (category.Some? ==> v.category == category)
      && (tags != [] ==> Shares(v, tags))
  }

  function Take<T>(s: seq<T>, n: nat): (r: seq<T>)
    ensures |r| <= n
  {
    if |s| <= n then s else s[..n]
  }

  /** One query: `WHERE`, `ORDER BY`, `LIMIT`. */
  function FetchTier(table: seq<Video>, category: Option<int>, tags: seq<int>, exclude: set<int>,
        limit: int): (r: seq<Video>)
    ensures |r| <= if limit <= 0 then 0 else limit
  {
    if limit <= 0 then []
    else Take(Sort(Filter(table, Matching(category, tags, exclude)), NewestFirst), limit)
  }

  // ---------- The single sort ----------

  /** 1: the category and a tag in common; 2: the category; 3: a tag; 4: neither. */
  function Tier(v: Video, category: Option<int>, tags: seq<int>): (t: nat)
    ensures 1 <= t <= 4
  {
    var same := category.Some? && v.category == category;
    var shares := Shares(v, tags);
    if same && shares then 1 else if same then 2 else if shares then 3 else 4
  }

  function ByTier(category: Option<int>, tags: seq<int>): (Video, Video) -> bool {
    (a, b) => Tier(a, category, tags) <= Tier(b, category, tags)
  }

  function InTier(t: nat, category: Option<int>, tags: seq<int>): Video -> bool {
    v => Tier(v, category, tags) == t
  }

  function Other(source: int): Video -> bool {
    v => Listed(v) && v.id != source
  }

  /** The other listed videos, newest first. */
  function Recent(table: seq<Video>, source: int): seq<Video> {
    Sort(Filter(table, Other(source)), NewestFirst)
  }

  function OfTier(table: seq<Video>, source: Video, tags: seq<int>, t: nat): seq<Video> {
    Filter(Recent(table, source.id), InTier(t, source.category, tags))
  }

  function UpTo(table: seq<Video>, source: Video, tags: seq<int>, t: nat): seq<Video> {
    if t == 0 then [] else UpTo(table, source, tags, t - 1) + OfTier(table, source, tags, t)
  }

  function IdOf(v: Video): int {
    v.id
  }

  function IdsOf(s: seq<Video>): set<int> {
    set i | 0 <= i < |s| :: s[i].id
  }

  lemma OrdersAreTotal(category: Option<int>, tags: seq<int>)
    ensures TotalPreorder(NewestFirst) && TotalPreorder(ByTier(category, tags))
  {
  }

  // ---------- A sequence sorted by tier is its tiers in a row ----------

  ghost predicate AtLeast(s: seq<Video>, t: nat, category: Option<int>, tags: seq<int>) {
    forall i :: 0 <= i < |s| ==> Tier(s[i], category, tags) >= t
  }

  /** Where the tiers up to `t` end. */
  lemma SplitPoint(s: seq<Video>, t: nat, category: Option<int>, tags: seq<int>) returns (k: nat)
    requires Sorted(s, ByTier(category, tags))
    ensures k <= |s| && forall i :: 0 <= i < |s| ==> (Tier(s[i], category, tags) <= t <==> i < k)
  {
    hide Tier;
    k := 0;
    while k < |s| && Tier(s[k], category, tags) <= t
      invariant k <= |s| && forall i :: 0 <= i < k ==> Tier(s[i], category, tags) <= t
    {
      k := k + 1;
    }
    forall i | k <= i < |s|
      ensures Tier(s[i], category, tags) > t
    {
      assert k < i ==> ByTier(category, tags)(s[k], s[i]);
    }
  }

  /** What follows the videos of tier `t` in a list that starts with them. */
  function After(s: seq<Video>, t: nat, category: Option<int>, tags: seq<int>): seq<Video> {
    s[|Filter(s, InTier(t, category, tags))|..]
  }

  lemma LeadingTier(s: seq<Video>, t: nat, u: nat, category: Option<int>, tags: seq<int>)
    requires Sorted(s, ByTier(category, tags)) && AtLeast(s, t, category, tags) && t < u
    ensures var rest := After(s, t, category, tags);
            && s == Filter(s, InTier(t, category, tags)) + rest
            && Sorted(rest, ByTier(category, tags)) && AtLeast(rest, t + 1, category, tags)
            && Filter(s, InTier(u, category, tags)) == Filter(rest, InTier(u, category, tags))
  {
    hide Tier, Filter;
    var k := SplitPoint(s, t, category, tags);
    FilterPrefix(s, InTier(t, category, tags), k);
    assert s == s[..k] + s[k..];
    FilterConcat(s[..k], s[k..], InTier(u, category, tags));
    FilterNone(s[..k], InTier(u, category, tags));
  }

  /** The videos of tiers `t` to 4, tier by tier. */
  function Tiers(s: seq<Video>, t: nat, category: Option<int>, tags: seq<int>): seq<Video>
    decreases 5 - t
  {
    if t > 4 then [] else Filter(s, InTier(t, category, tags)) + Tiers(s, t + 1, category, tags)
  }

  lemma {:induction false} RestHasTheSameTiers(s: seq<Video>, t: nat, u: nat, category: Option<int>, tags: seq<int>)
    requires Sorted(s, ByTier(category, tags)) && AtLeast(s, t, category, tags) && t < u
    ensures Tiers(s, u, category, tags) == Tiers(After(s, t, category, tags), u, category, tags)
    decreases 5 - u
  {
    if u <= 4 {
      LeadingTier(s, t, u, category, tags);
      hide Filter, Sorted, AtLeast, After;
      RestHasTheSameTiers(s, t, u + 1, category, tags);
    }
  }

  lemma {:induction false} SortedIsItsTiers(s: seq<Video>, t: nat, category: Option<int>, tags: seq<int>)
    requires Sorted(s, ByTier(category, tags)) && AtLeast(s, t, category, tags) && t <= 5
    ensures s == Tiers(s, t, category, tags)
    decreases 5 - t
  {
    if t == 5 {
      NoFifthTier(s, category, tags);
    } else {
      LeadingTier(s, t, t + 1, category, tags);
      hide Filter, Sorted, AtLeast, After;
      RestHasTheSameTiers(s, t, t + 1, category, tags);
      SortedIsItsTiers(After(s, t, category, tags), t + 1, category, tags);
    }
  }

  lemma NoFifthTier(s: seq<Video>, category: Option<int>, tags: seq<int>)
    requires AtLeast(s, 5, category, tags)
    ensures s == []
  {
    assert |s| > 0 ==> Tier(s[0], category, tags) >= 5;
  }

  lemma TierOfTheSort(table: seq<Video>, source: Video, tags: seq<int>, t: nat)
    ensures Filter(Sort(Recent(table, source.id), ByTier(source.category, tags)), InTier(t, source.category, tags))
         == OfTier(table, source, tags, t)
  {
    OrdersAreTotal(source.category, tags);
    SortIsStable(Recent(table, source.id), ByTier(source.category, tags), InTier(t, source.category, tags));
  }

  lemma NextInARow(table: seq<Video>, source: Video, tags: seq<int>, s: seq<Video>, t: nat)
    requires 1 <= t <= 4 && s == Sort(Recent(table, source.id), ByTier(source.category, tags))
    ensures UpTo(table, source, tags, t - 1) + Tiers(s, t, source.category, tags)
         == UpTo(table, source, tags, t) + Tiers(s, t + 1, source.category, tags)
  {
    TierOfTheSort(table, source, tags, t);
    hide Sort, Recent, OfTier, Filter, ByTier, InTier;
    var next, before := OfTier(table, source, tags, t), UpTo(table, source, tags, t - 1);
    var rest := Tiers(s, t + 1, source.category, tags);
    assert before + (next + rest) == before + next + rest;
  }

  lemma {:induction false} TiersInARow(table: seq<Video>, source: Video, tags: seq<int>, s: seq<Video>, t: nat)
    requires 1 <= t <= 5 && s == Sort(Recent(table, source.id), ByTier(source.category, tags))
    ensures UpTo(table, source, tags, t - 1) + Tiers(s, t, source.category, tags) == UpTo(table, source, tags, 4)
    decreases 5 - t
  {
    if t == 5 {
      hide UpTo;
      assert Tiers(s, t, source.category, tags) == [];
    } else {
      hide *;
      NextInARow(table, source, tags, s, t);
      TiersInARow(table, source, tags, s, t + 1);
    }
  }

  /** The stable sort by tier is tier 1, then 2, then 3, then 4, each newest first. */
  lemma SortIsTheTiers(table: seq<Video>, source: Video, tags: seq<int>)
    ensures Sort(Recent(table, source.id), ByTier(source.category, tags)) == UpTo(table, source, tags, 4)
  {
    var s := Sort(Recent(table, source.id), ByTier(source.category, tags));
    OrdersAreTotal(source.category, tags);
    SortSorts(Recent(table, source.id), ByTier(source.category, tags));
    assert AtLeast(s, 1, source.category, tags);
    SortedIsItsTiers(s, 1, source.category, tags);
    TiersInARow(table, source, tags, s, 1);
    assert UpTo(table, source, tags, 0) == [];
  }

  // ---------- Each query finds one tier ----------

  lemma {:induction false} CollectedSoFar(table: seq<Video>, source: Video, tags: seq<int>, t: nat, x: Video)
    requires x in table
    ensures x in UpTo(table, source, tags, t) <==> Other(source.id)(x) && Tier(x, source.category, tags) <= t
    decreases t
  {
    if t > 0 {
      CollectedSoFar(table, source, tags, t - 1, x);
      SameElements(Recent(table, source.id), Filter(table, Other(source.id)));
      hide Tier, Shares;
      assert x in OfTier(table, source, tags, t) <==> Other(source.id)(x) && Tier(x, source.category, tags) == t;
    }
  }

  lemma {:induction false} CollectedAreRows(table: seq<Video>, source: Video, tags: seq<int>, t: nat, x: Video)
    requires x in UpTo(table, source, tags, t)
    ensures x in table
    decreases t
  {
    if x in UpTo(table, source, tags, t - 1) {
      CollectedAreRows(table, source, tags, t - 1, x);
    } else {
      assert x in OfTier(table, source, tags, t);
      hide UpTo;
      SameElements(Recent(table, source.id), Filter(table, Other(source.id)));
    }
  }

  lemma SameIdSameRow(table: seq<Video>, x: Video, y: Video)
    requires Distinct(table, IdOf) && x in table && y in table && x.id == y.id
    ensures x == y
  {
    var i :| 0 <= i < |table| && table[i] == x;
    var j :| 0 <= j < |table| && table[j] == y;
    assert IdOf(table[i]) == IdOf(table[j]);
  }

  lemma Excluded(table: seq<Video>, source: Video, tags: seq<int>, t: nat, x: Video)
    requires Distinct(table, IdOf) && x in table
    ensures x.id in IdsOf(UpTo(table, source, tags, t)) <==> x in UpTo(table, source, tags, t)
  {
    var u := UpTo(table, source, tags, t);
    if i :| 0 <= i < |u| && u[i].id == x.id {
      assert u[i] in u;
      CollectedAreRows(table, source, tags, t, u[i]);
      SameIdSameRow(table, x, u[i]);
    }
  }

  /** The restriction of the query for tier `t`. */
  function TierQuery(t: nat, source: Video, tags: seq<int>): (Option<int>, seq<int>) {
    (if t <= 2 then source.category else None, if t == 1 || t == 3 then tags else [])
  }

  /** The handler asks for tier `t` only when the category and the tags it needs are there. */
  predicate Asked(t: nat, source: Video, tags: seq<int>) {
    && (t <= 2 ==> source.category.Some?)
    && (t == 1 || t == 3 ==> tags != [])
  }

  lemma ExcludedIds(table: seq<Video>, source: Video, tags: seq<int>, t: nat, x: Video)
    requires Distinct(table, IdOf) && x in table
    ensures x.id in {source.id} + IdsOf(UpTo(table, source, tags, t)) <==>
            x.id == source.id || (Listed(x) && Tier(x, source.category, tags) <= t)
  {
    CollectedSoFar(table, source, tags, t, x);
    Excluded(table, source, tags, t, x);
  }

  lemma MatchesTier(source: Video, tags: seq<int>, t: nat, exclude: set<int>, x: Video)
    requires 1 <= t <= 4 && Asked(t, source, tags)
    requires x.id in exclude <==> x.id == source.id || (Listed(x) && Tier(x, source.category, tags) <= t - 1)
    ensures var (category, restricted) := TierQuery(t, source, tags);
            Matching(category, restricted, exclude)(x) <==> Other(source.id)(x) && Tier(x, source.category, tags) == t
  {
    assert tags == [] ==> !Shares(x, tags);
    hide Shares;
  }

  lemma QueryMatches(table: seq<Video>, source: Video, tags: seq<int>, t: nat, exclude: set<int>, x: Video)
    requires Distinct(table, IdOf) && 1 <= t <= 4 && x in table
    requires Asked(t, source, tags) && exclude == {source.id} + IdsOf(UpTo(table, source, tags, t - 1))
    ensures var (category, restricted) := TierQuery(t, source, tags);
            Matching(category, restricted, exclude)(x) <==> Other(source.id)(x) && Tier(x, source.category, tags) == t
  {
    ExcludedIds(table, source, tags, t - 1, x);
    hide *;
    MatchesTier(source, tags, t, exclude, x);
  }

  lemma QueryFindsTier(table: seq<Video>, source: Video, tags: seq<int>, t: nat, exclude: set<int>)
    requires Distinct(table, IdOf) && 1 <= t <= 4
    requires Asked(t, source, tags) && exclude == {source.id} + IdsOf(UpTo(table, source, tags, t - 1))
    ensures var (category, restricted) := TierQuery(t, source, tags);
            Sort(Filter(table, Matching(category, restricted, exclude)), NewestFirst) == OfTier(table, source, tags, t)
  {
    var (category, restricted) := TierQuery(t, source, tags);
    var p, q := Matching(category, restricted, exclude), InTier(t, source.category, tags);
    OrdersAreTotal(source.category, tags);
    FilterSort(Filter(table, Other(source.id)), NewestFirst, q);
    forall x | x in table
      ensures p(x) <==> Other(source.id)(x) && q(x)
    {
      QueryMatches(table, source, tags, t, exclude, x);
    }
    hide Tier, Shares, UpTo, IdsOf, Sort, Filter;
    FilterBoth(table, Other(source.id), q, p);
  }

  lemma FilterBoth(s: seq<Video>, p: Video -> bool, q: Video -> bool, both: Video -> bool)
    requires forall x :: x in s ==> (both(x) <==> p(x) && q(x))
    ensures Filter(Filter(s, p), q) == Filter(s, both)
  {
    var r := (x: Video) => p(x) && q(x);
    FilterTwice(s, p, q, r);
    FilterAgrees(s, both, r);
  }

  lemma SkippedTierIsEmpty(table: seq<Video>, source: Video, tags: seq<int>, t: nat)
    requires 1 <= t <= 4 && !Asked(t, source, tags)
    ensures OfTier(table, source, tags, t) == []
  {
    FilterNone(Recent(table, source.id), InTier(t, source.category, tags));
  }

  // ---------- The handler ----------

  /** After tier `t`: the first videos of tiers 1 to `t`, and the ids not to find again. */
  ghost predicate Collected(table: seq<Video>, source: Video, tags: seq<int>, limit: nat, t: nat,
        related: seq<Video>, seen: set<int>) {
    related == Take(UpTo(table, source, tags, t), limit) && seen == {source.id} + IdsOf(related)
  }

  method AddAll(related: seq<Video>, seen: set<int>, found: seq<Video>, limit: nat, ghost excluded: set<int>)
      returns (more: seq<Video>, all: set<int>)
    requires |related| <= limit && seen == excluded + IdsOf(related)
    ensures more == Take(related + found, limit) && all == excluded + IdsOf(more)
  {
    more, all := related, seen;
    var i := 0;
    while i < |found|
      invariant 0 <= i <= |found|
      invariant more == Take(related + found[..i], limit) && all == excluded + IdsOf(more)
    {
      assert found[..i + 1] == found[..i] + [found[i]];
      if |more| < limit {
        Adding(more, found[i]);
        more := more + [found[i]];
        all := all + {found[i].id};
      }
      i := i + 1;
    }
    assert found[..i] == found;
  }

  lemma Adding(s: seq<Video>, v: Video)
    ensures IdsOf(s + [v]) == IdsOf(s) + {v.id}
  {
    assert (s + [v])[|s|] == v;
    forall id | id in IdsOf(s)
      ensures id in IdsOf(s + [v])
    {
      var i :| 0 <= i < |s| && s[i].id == id;
      assert (s + [v])[i].id == id;
    }
  }

  /** The query for the next tier finds what the single sort puts next. */
  lemma NextTier(table: seq<Video>, source: Video, tags: seq<int>, limit: nat, t: nat, related: seq<Video>,
        seen: set<int>)
    requires Distinct(table, IdOf) && 1 <= t <= 4 && Asked(t, source, tags)
    requires Collected(table, source, tags, limit, t - 1, related, seen) && |related| < limit
    ensures var (category, restricted) := TierQuery(t, source, tags);
            Take(related + FetchTier(table, category, restricted, seen, limit - |related|), limit)
              == Take(UpTo(table, source, tags, t), limit)
  {
    var before := UpTo(table, source, tags, t - 1);
    assert related == before;
    QueryFindsTier(table, source, tags, t, seen);
    hide OfTier, Filter, Sort, Matching, IdsOf;
    TakeTwice(before, OfTier(table, source, tags, t), limit);
  }

  lemma TakeTwice(a: seq<Video>, b: seq<Video>, n: nat)
    requires |a| <= n
    ensures Take(a + Take(b, n - |a|), n) == Take(a + b, n)
  {
  }

  lemma NothingToAdd(table: seq<Video>, source: Video, tags: seq<int>, limit: nat, t: nat, related: seq<Video>,
        seen: set<int>)
    requires 1 <= t <= 4 && (|related| >= limit || !Asked(t, source, tags))
    requires Collected(table, source, tags, limit, t - 1, related, seen)
    ensures Collected(table, source, tags, limit, t, related, seen)
  {
    if !Asked(t, source, tags) {
      SkippedTierIsEmpty(table, source, tags, t);
    }
    hide OfTier, IdsOf;
  }

  /** The block repeated for each tier: query, then add what it found. */
  method CollectTier(table: seq<Video>, category: Option<int>, restricted: seq<int>, related: seq<Video>,
        seen: set<int>, limit: nat,
                     ghost source: Video, ghost tags: seq<int>, ghost t: nat)
      returns (more: seq<Video>, all: set<int>)
    requires Distinct(table, IdOf) && 1 <= t <= 4
    requires Asked(t, source, tags) && (category, restricted) == TierQuery(t, source, tags)
    requires Collected(table, source, tags, limit, t - 1, related, seen) && |related| < limit
    ensures Collected(table, source, tags, limit, t, more, all)
  {
    NextTier(table, source, tags, limit, t, related, seen);
    hide FetchTier, TierQuery, UpTo, IdsOf, Asked;
    var found := FetchTier(table, category, restricted, seen, limit - |related|);
    more, all := AddAll(related, seen, found, limit, {source.id});
  }

  /** `found` is the row with the requested slug, `sourceTags` its tags in the order the database returns them. */
  method GetRelated(table: seq<Video>, found: Option<Video>, sourceTags: seq<int>, limit: nat)
        returns (answer: Option<seq<Video>>)
    requires Distinct(table, IdOf)
    ensures answer.None? <==> found.None? || !Listed(found.value)
    ensures answer.Some? ==>
              var byTier := ByTier(found.value.category, Take(sourceTags, 10));
              answer.value == Take(Sort(Recent(table, found.value.id), byTier), limit)
  {
    if found.None? || !Listed(found.value) {
      return None;
    }
    var tags := Take(sourceTags, 10);
    var related := CollectRelated(table, found.value, tags, limit);
    return Some(related);
  }

  /** The four tiers, each asked only when more is needed. */
  method CollectRelated(table: seq<Video>, source: Video, tags: seq<int>, limit: nat) returns (related: seq<Video>)
    requires Distinct(table, IdOf)
    ensures related == Take(Sort(Recent(table, source.id), ByTier(source.category, tags)), limit)
  {
    hide Collected, UpTo, Sort, Recent, ByTier, Distinct, Take, Filter, OfTier;
    SortIsTheTiers(table, source, tags);
    var seen := {source.id};
    related := [];
    NothingCollected(table, source, tags, limit);
    var category := source.category;
    if |related| < limit && category.Some? && tags != [] {
      related, seen := CollectTier(table, category, tags, related, seen, limit, source, tags, 1);
    } else {
      NothingToAdd(table, source, tags, limit, 1, related, seen);
    }
    if |related| < limit && category.Some? {
      related, seen := CollectTier(table, category, [], related, seen, limit, source, tags, 2);
    } else {
      NothingToAdd(table, source, tags, limit, 2, related, seen);
    }
    if |related| < limit && tags != [] {
      related, seen := CollectTier(table, None, tags, related, seen, limit, source, tags, 3);
    } else {
      NothingToAdd(table, source, tags, limit, 3, related, seen);
    }
    if |related| < limit {
      related, seen := CollectTier(table, None, [], related, seen, limit, source, tags, 4);
    } else {
      NothingToAdd(table, source, tags, limit, 4, related, seen);
    }
    CollectedIsTaken(table, source, tags, limit, 4, related, seen);
  }

  lemma NothingCollected(table: seq<Video>, source: Video, tags: seq<int>, limit: nat)
    ensures Collected(table, source, tags, limit, 0, [], {source.id})
  {}

  lemma CollectedIsTaken(table: seq<Video>, source: Video, tags: seq<int>, limit: nat, t: nat, related: seq<Video>,
        seen: set<int>)
    requires Collected(table, source, tags, limit, t, related, seen)
    ensures related == Take(UpTo(table, source, tags, t), limit)
  {
  }

  // ---------- What the answer is ----------

  /** A lower tier, or the same tier and published no earlier. */
  predicate Before(a: Video, b: Video, category: Option<int>, tags: seq<int>) {
    var s, t := Tier(a, category, tags), Tier(b, category, tags);
    s < t || (s == t && PublishedAt(a) >= PublishedAt(b))
  }

  lemma SortedByTierThenNewest(table: seq<Video>, source: Video, tags: seq<int>, i: nat, j: nat)
    requires i < j < |Sort(Recent(table, source.id), ByTier(source.category, tags))|
    ensures var s := Sort(Recent(table, source.id), ByTier(source.category, tags));
            Before(s[i], s[j], source.category, tags)
  {
    var s := Sort(Recent(table, source.id), ByTier(source.category, tags));
    OrdersAreTotal(source.category, tags);
    SortSorts(Recent(table, source.id), ByTier(source.category, tags));
    SortSorts(Filter(table, Other(source.id)), NewestFirst);
    var t := Tier(s[i], source.category, tags);
    TierOfTheSort(table, source, tags, t);
    FilterSorted(Recent(table, source.id), NewestFirst, InTier(t, source.category, tags));
    hide Recent, Sort, Filter, Tier;
    assert ByTier(source.category, tags)(s[i], s[j]);
    if Tier(s[j], source.category, tags) == t {
      var a, b := FilterKeepsOrder(s, InTier(t, source.category, tags), i, j);
      assert NewestFirst(s[i], s[j]);
    }
  }

  /** The videos that may be shown are the other listed rows. */
  lemma SortHoldsTheOthers(table: seq<Video>, source: Video, tags: seq<int>)
    requires Distinct(table, IdOf)
    ensures var s := Sort(Recent(table, source.id), ByTier(source.category, tags));
            && |s| == |Filter(table, Other(source.id))|
            && Distinct(s, IdOf)
            && forall x :: x in s <==> x in table && Listed(x) && x.id != source.id
  {
    var others := Filter(table, Other(source.id));
    var recent := Recent(table, source.id);
    FilterDistinct(table, Other(source.id), IdOf);
    SortDistinct(others, NewestFirst, IdOf);
    SortDistinct(recent, ByTier(source.category, tags), IdOf);
    SameElements(recent, others);
    SameElements(Sort(recent, ByTier(source.category, tags)), recent);
  }

  /**
    The answer lists other listed videos, no id twice, as many as there are up to the limit, ordered by tier and
    then newest first; and whatever is left out comes no earlier than anything shown.
    */
  lemma AnswerIsTheBest(table: seq<Video>, source: Video, tags: seq<int>, limit: nat, x: Video)
    requires Distinct(table, IdOf)
    ensures var r := Take(Sort(Recent(table, source.id), ByTier(source.category, tags)), limit);
            var others := |Filter(table, Other(source.id))|;
            && |r| == (if others <= limit then others else limit)
            && Distinct(r, IdOf)
            && (forall i :: 0 <= i < |r| ==> r[i] in table && Listed(r[i]) && r[i].id != source.id)
            && (forall i, j :: 0 <= i < j < |r| ==> Before(r[i], r[j], source.category, tags))
            && (x in table && Listed(x) && x.id != source.id && x !in r ==>
                  |r| == limit && forall i :: 0 <= i < |r| ==> Before(r[i], x, source.category, tags))
  {
    var s := Sort(Recent(table, source.id), ByTier(source.category, tags));
    SortHoldsTheOthers(table, source, tags);
    hide Sort, Recent, Filter, ByTier, Before, Listed;
    var r := Take(s, limit);
    forall i, j | 0 <= i < j < |s|
      ensures Before(s[i], s[j], source.category, tags)
    {
      SortedByTierThenNewest(table, source, tags, i, j);
    }
    forall i | 0 <= i < |r|
      ensures r[i] in table && Listed(r[i]) && r[i].id != source.id
    {
      assert r[i] == s[i] && s[i] in s;
    }
    if x in table && Listed(x) && x.id != source.id && x !in r {
      var k :| 0 <= k < |s| && s[k] == x;
      assert forall i :: 0 <= i < |r| ==> s[i] == r[i] && r[i] != x;
    }
  }
}
