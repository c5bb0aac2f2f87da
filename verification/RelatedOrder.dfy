/** What the related-videos answer shows and in which order, said on the columns of a video. */
module RelatedOrder {
  import opened Options
  import opened Sorting
  import opened RelatedVideos

  predicate CommonTag(v: Video, tags: seq<int>) {
    exists t :: t in tags && t in v.tags
  }

  predicate SameCategory(v: Video, source: Video) {
    v.category.Some? && v.category == source.category
  }

  /** Another ready, published and undeleted video. */
  predicate MayShow(v: Video, source: Video) {
    v.status == Ready && !v.deleted && v.published.Some? && v.id != source.id
  }

  /** Category and tag in common, then category, then tag, then neither; among equals the later one first. */
  predicate NoLater(a: Video, b: Video, source: Video, tags: seq<int>)
    requires a.published.Some? && b.published.Some?
  {
    var (p, q) := (SameCategory(a, source), SameCategory(b, source));
    var (s, t) := (CommonTag(a, tags), CommonTag(b, tags));
    (p && !q) || (p == q && ((s && !t) || (s == t && a.published.value >= b.published.value)))
  }

  lemma SharesMeans(v: Video, tags: seq<int>)
    ensures Shares(v, tags) <==> CommonTag(v, tags)
  {
    if CommonTag(v, tags) {
      var t :| t in tags && t in v.tags;
      var i :| 0 <= i < |tags| && tags[i] == t;
      assert tags[i] in v.tags;
    }
    if Shares(v, tags) {
      var i :| 0 <= i < |tags| && tags[i] in v.tags;
      var t := tags[i];
      assert t in tags && t in v.tags;
    }
  }

  lemma TierMeans(v: Video, source: Video, tags: seq<int>)
    ensures Tier(v, source.category, tags)
         == (if SameCategory(v, source) then 1 else 3) + (if CommonTag(v, tags) then 0 else 1)
  {
    SharesMeans(v, tags);
    hide Shares, CommonTag;
  }

  lemma BeforeMeans(a: Video, b: Video, source: Video, tags: seq<int>)
    requires MayShow(a, source) && MayShow(b, source)
    ensures Before(a, b, source.category, tags) <==> NoLater(a, b, source, tags)
  {
    TierMeans(a, source, tags);
    TierMeans(b, source, tags);
    hide Tier, SameCategory, CommonTag;
  }

  lemma OtherMeans(v: Video, source: Video)
    ensures Other(source.id)(v) <==> MayShow(v, source)
  {}

  /**
    The answer of the four queries: other ready, published, undeleted videos, no id twice, as many as there are up to
    the limit, each no later than the next ones, and nothing left out belongs before anything shown.
    */
  lemma AnswerShows(table: seq<Video>, source: Video, tags: seq<int>, limit: nat, x: Video)
    requires Distinct(table, IdOf)
    ensures var r := Take(Sort(Recent(table, source.id), ByTier(source.category, tags)), limit);
            && |r| <= limit
            && (forall i :: 0 <= i < |r| ==> r[i] in table && MayShow(r[i], source))
            && (forall i, j :: 0 <= i < j < |r| ==> r[i].id != r[j].id && NoLater(r[i], r[j], source, tags))
            && (x in table && MayShow(x, source) && x !in r ==>
                  |r| == limit && forall i :: 0 <= i < |r| ==> NoLater(r[i], x, source, tags))
  {
    AnswerIsTheBest(table, source, tags, limit, x);
    var r := Take(Sort(Recent(table, source.id), ByTier(source.category, tags)), limit);
    assert forall i :: 0 <= i < |r| ==> MayShow(r[i], source);
    hide Sort, Recent, Filter, ByTier, Before, Take, NoLater;
    forall i, j | 0 <= i < j < |r|
      ensures r[i].id != r[j].id && NoLater(r[i], r[j], source, tags)
    {
      assert IdOf(r[i]) != IdOf(r[j]);
      BeforeMeans(r[i], r[j], source, tags);
    }
    if x in table && MayShow(x, source) && x !in r {
      forall i | 0 <= i < |r|
        ensures NoLater(r[i], x, source, tags)
      {
        BeforeMeans(r[i], x, source, tags);
      }
    }
  }
}
