/** The playlist handlers of api/admin.py: adding, removing and reordering the videos of one playlist. */
module Playlists {
  import opened Options
  import opened Positions

  datatype Refusal = NotFound | BadRequest | FeatureNotSupported

  /** `SELECT COALESCE(MAX(position), -1)`. */
  method SelectMax(m: Column) returns (max: int)
    ensures IsMax(m, max)
  {
    max := -1;
    var seen: set<Id> := {};
    while seen != m.Keys
      invariant seen <= m.Keys
      invariant if seen == {} then max == -1 else exists k :: k in seen && m[k] == max
      invariant forall k :: k in seen ==> m[k] <= max
      decreases m.Keys - seen
    {
      ghost var next := Member(m.Keys - seen);
      var k :| k in m.Keys - seen;
      if seen == {} || m[k] > max {
        max := m[k];
      }
      seen := seen + {k};
    }
  }

  /** The same with `FOR UPDATE`. */
  method LockedMax(m: Column, dialect: Dialect) returns (max: Option<int>)
    ensures max.None? <==> dialect.PostgreSQL?
    ensures max.Some? ==> IsMax(m, max.value)
  {
    if dialect.PostgreSQL? {
      return None;
    }
    var found := SelectMax(m);
    return Some(found);
  }

  lemma ListedIds(m: Column, s: seq<Id>, id: Id)
    requires Lists(m, s)
    ensures id in m <==> id in s
    ensures forall i :: 0 <= i < |s| ==> s[i] in m
  {
    if id in m {
      var i := PlaceOf(m, s, id);
    }
  }

  lemma MaxIsAbove(m: Column, max: int)
    requires IsMax(m, max)
    ensures forall k :: k in m ==> m[k] <= max
  {}

  class Playlist {
    const dialect: Dialect
    var live: bool
    var positions: Column
    ghost var order: seq<Id>

    /** The positions are distinct; `order` is the list they stand for. */
    ghost predicate Valid()
      reads this
    {
      Lists(positions, order)
    }

    constructor (dialect: Dialect)
      ensures Valid() && live && order == [] && this.dialect == dialect
    {
      this.dialect := dialect;
      live := true;
      positions := map[];
      order := [];
    }

    /** `videos` holds the ids of the videos that exist and are not deleted. */
    method Add(videos: set<Id>, id: Id, at: Option<nat>) returns (added: Result<int, Refusal>)
      requires Valid()
      modifies this`positions, this`order
      ensures Valid()
      ensures added == Err(NotFound) <==> !live || id !in videos
      ensures added == Err(BadRequest) <==> live && id in videos && id in old(order)
      ensures added == Err(FeatureNotSupported) <==>
              live && id in videos && id !in old(order) && at.None? && dialect.PostgreSQL?
      ensures added.Err? ==> unchanged(this)
      ensures added.Ok? ==> id in positions && positions[id] == added.value
      ensures added.Ok? && at.None? ==>
              && order == old(order) + [id]
              && forall k :: k in old(positions) ==> positions[k] == old(positions)[k] < added.value
      ensures added.Ok? && at.Some? ==>
              added.value == at.value && order == Insert(old(order), CountBelow(old(positions), old(order), at.value), id)
      ensures added.Ok? && at.Some? && old(Dense(positions, order)) && at.value <= |old(order)| ==>
              order == Insert(old(order), at.value, id)
      ensures added.Ok? && old(Dense(positions, order)) ==>
              (Dense(positions, order) <==> at.None? || at.value <= |old(order)|)
    {
      hide Lists, Dense, IsMax, Insert, CountBelow, Ids;
      ListedIds(positions, order, id);
      if !live || id !in videos {
        return Err(NotFound);
      }
      if id in positions {
        return Err(BadRequest);
      }
      match at {
        case None =>
          var max := LockedMax(positions, dialect);
          if max.None? {
            return Err(FeatureNotSupported);
          }
          AddAppends(positions, order, id, max.value);
          MaxIsAbove(positions, max.value);
          added := Ok(max.value + 1);
          positions, order := positions[id := max.value + 1], order + [id];
        case Some(position) =>
          AddInserts(positions, order, id, position);
          order := Insert(order, CountBelow(positions, order, position), id);
          positions := Shift(positions, position, 1);
          positions := positions[id := position];
          added := Ok(position);
      }
    }

    method RemoveVideo(id: Id) returns (refused: Option<Refusal>)
      requires Valid()
      modifies this`positions, this`order
      ensures Valid()
      ensures refused == None || refused == Some(NotFound)
      ensures refused == None <==> live && id in old(order)
      ensures refused.Some? ==> unchanged(this)
      ensures refused == None ==>
              exists i :: 0 <= i < |old(order)| && old(order)[i] == id && order == Remove(old(order), i)
      ensures refused == None && old(Dense(positions, order)) ==> Dense(positions, order)
    {
      hide Shift, Remove, Lists, Dense, Ids;
      ListedIds(positions, order, id);
      if !live || id !in positions {
        return Some(NotFound);
      }
      ghost var i := PlaceOf(positions, order, id);
      RemoveDeletes(positions, order, i);
      var removed := positions[id];
      positions := positions - {id};
      positions := Shift(positions, removed + 1, -1);
      order := Remove(order, i);
      return None;
    }

    /** Only the sets of ids are compared, so a repeated id passes; `pick` is the place the database keeps for it. */
    method Reorder(request: seq<Id>, pick: map<Id, nat>) returns (refused: Option<Refusal>)
      requires Valid() && Picks(request, pick)
      modifies this`positions, this`order
      ensures Valid()
      ensures refused == Some(NotFound) <==> !live
      ensures refused == Some(BadRequest) <==> live && Ids(request) != Ids(old(order))
      ensures refused.Some? ==> unchanged(this)
      ensures refused == None ==> Ids(order) == Ids(old(order))
      ensures refused == None ==> (Dense(positions, request) <==> NoRepeats(request))
      ensures refused == None && NoRepeats(request) ==> order == request
    {
      if !live {
        return Some(NotFound);
      }
      var requested := set k | k in request;
      if requested != positions.Keys {
        return Some(BadRequest);
      }
      ReorderPermutes(positions, request, pick);
      positions := Batch(positions, pick);
      order := ListExists(positions);
      if NoRepeats(request) {
        ListIsUnique(positions, order, request);
      }
      return None;
    }
  }
}
