/** What one claim of api/job_queue.py does to the streams: the recovery walk, the reads, and which message they find. */
module JobClaims {
  import opened Options
  import opened DateTimes
  import opened JobDispatches
  import opened RedisStreams
  import QueueRuns

  /** A dispatch together with the message it came from. */
  datatype Delivery = Delivery(job: Dispatch, m: Message)

  function Parsed(s: Server, m: Message): Option<Delivery>
    requires m.id < |s.At(m.level).log|
  {
    var d := FromStreamDict(s.At(m.level).log[m.id]);
    if d.Some? then Some(Delivery(d.value, m)) else None
  }

  /** Read one stream. An entry that does not parse raises after it was delivered, and the read yields nothing. */
  function ReadOne(s: Server, c: Consumer, l: Level): (Option<Delivery>, Server) {
    var (id, t) := XReadGroup(s.At(l), c, s.now);
    if id.None? then (None, s) else (Parsed(s, Message(l, id.value)), s.With(l, t))
  }

  /** Read the streams in order until one yields a job; `down` are the streams whose call raises. */
  function ReadFirst(s: Server, c: Consumer, levels: seq<Level>, down: set<Level>): (Option<Delivery>, Server)
    decreases levels
  {
    if levels == [] then (None, s)
    else
      var (job, t) := if levels[0] in down then (None, s) else ReadOne(s, c, levels[0]);
      if job.Some? then (job, t) else ReadFirst(t, c, levels[1..], down)
  }

  /** Walk a listing: the first entry over the timeout that can be claimed ends it. */
  function RecoverFrom(s: Server, c: Consumer, l: Level, listing: seq<Candidate>,
        timeout: nat): (Option<Delivery>, Server)
  {
    if listing == [] then (None, s)
    else
      var (ok, t) := XClaim(s.At(l), c, timeout, listing[0].id, s.now);
      if listing[0].idle > timeout && ok
      then (Parsed(s, Message(l, listing[0].id)), s.With(l, t))
      else RecoverFrom(s, c, l, listing[1..], timeout)
  }

  function RecoverFirst(s: Server, c: Consumer, levels: seq<Level>, down: set<Level>,
        timeout: nat): (Option<Delivery>, Server)
    decreases levels
  {
    if levels == [] then (None, s)
    else
      var listing := XPendingRange(s.At(levels[0]), 0, QueueRuns.LISTING, s.now);
      var (job, t) := if levels[0] in down then (None, s) else RecoverFrom(s, c, levels[0], listing, timeout);
      if job.Some? then (job, t) else RecoverFirst(t, c, levels[1..], down, timeout)
  }

  /** One claim: a recovery when the check is due, then the streams in order. */
  function Claimed(s: Server, c: Consumer, due: bool, down: set<Level>, timeout: nat): (Option<Delivery>, Server) {
    var (recovered, t) := if due then RecoverFirst(s, c, PRIORITIES, down, timeout) else (None, s);
    if recovered.Some? then (recovered, t) else ReadFirst(t, c, PRIORITIES, down)
  }

  // ---------- Which message a recovery finds ----------

  /** Pending for longer than the timeout, and still in the stream. */
  predicate Stuck(s: Stream, id: nat, now: int, timeout: nat) {
    id in s.pending && now - s.pending[id].deliveredAt > timeout && s.trimmed <= id < |s.log|
  }

  function PendingBetween(s: Stream, from: nat, id: nat): set<nat> {
    set k | k in s.pending && from <= k < id
  }

  /** Stuck, well-formed, among the ten lowest pending ids, and with no malformed stuck entry in front. */
  ghost predicate Recoverable(s: Stream, id: nat, now: int, timeout: nat) {
    && Stuck(s, id, now, timeout) && FromStreamDict(s.log[id]).Some?
    && |PendingBetween(s, 0, id)| < 10
    && forall k: nat :: k < id && Stuck(s, k, now, timeout) ==> FromStreamDict(s.log[k]).Some?
  }

  ghost predicate NoneRecoverable(s: Stream, now: int, timeout: nat) {
    forall id :: !Recoverable(s, id, now, timeout)
  }

  ghost predicate LowestRecoverable(s: Stream, id: nat, now: int, timeout: nat) {
    Recoverable(s, id, now, timeout) && forall k: nat :: k < id ==> !Recoverable(s, k, now, timeout)
  }

  /** Only delivered ids are pending. */
  ghost predicate PendingIsDelivered(s: Server) {
    forall l, id :: id in s.At(l).pending ==> id < s.At(l).delivered
  }

  ghost predicate Lists(r: seq<Candidate>, id: nat) {
    exists k :: 0 <= k < |r| && r[k].id == id
  }

  lemma ListsCons(first: Candidate, rest: seq<Candidate>, id: nat)
    ensures Lists([first] + rest, id) <==> first.id == id || Lists(rest, id)
  {
    var r := [first] + rest;
    assert r[0] == first;
    if k :| 0 <= k < |rest| && rest[k].id == id {
      assert r[k + 1].id == id;
    }
    if k :| 0 <= k < |r| && r[k].id == id {
      assert k > 0 ==> rest[k - 1].id == id;
    }
  }

  lemma BetweenSplits(s: Stream, from: nat, id: nat)
    ensures from in s.pending && from < id ==> |PendingBetween(s, from, id)| == |PendingBetween(s, from + 1, id)| + 1
    ensures from !in s.pending ==> PendingBetween(s, from, id) == PendingBetween(s, from + 1, id)
    ensures from >= id ==> |PendingBetween(s, from, id)| == 0
  {
    if from in s.pending && from < id {
      assert PendingBetween(s, from, id) == {from} + PendingBetween(s, from + 1, id);
    } else if from >= id {
      assert PendingBetween(s, from, id) == {};
    }
  }

  /** The listing holds the pending ids with fewer than `count` pending ones below. */
  lemma {:induction false} ListedExactly(s: Stream, from: nat, count: nat, now: int, id: nat)
    ensures Lists(XPendingRange(s, from, count, now), id) <==>
            id in s.pending && from <= id < s.delivered && |PendingBetween(s, from, id)| < count
    decreases s.delivered - from
  {
    BetweenSplits(s, from, id);
    hide Lists, PendingBetween;
    if from >= s.delivered || count == 0 {
      NothingListed(id);
    } else if from in s.pending {
      ListedExactly(s, from + 1, count - 1, now, id);
      ListsCons(Candidate(from, now - s.pending[from].deliveredAt), XPendingRange(s, from + 1, count - 1, now), id);
    } else {
      ListedExactly(s, from + 1, count, now, id);
    }
  }

  lemma NothingListed(id: nat)
    ensures !Lists([], id)
  {}

  lemma {:induction false} ListedInOrder(s: Stream, from: nat, count: nat, now: int, j: nat, k: nat)
    requires j < k < |XPendingRange(s, from, count, now)|
    ensures XPendingRange(s, from, count, now)[j].id < XPendingRange(s, from, count, now)[k].id
    decreases s.delivered - from
  {
    if from in s.pending {
      var rest := XPendingRange(s, from + 1, count - 1, now);
      assert XPendingRange(s, from, count, now) == [Candidate(from, now - s.pending[from].deliveredAt)] + rest;
      assert rest[k - 1].id > from;
      if j > 0 {
        ListedInOrder(s, from + 1, count - 1, now, j - 1, k - 1);
      }
    } else {
      ListedInOrder(s, from + 1, count, now, j, k);
    }
  }

  /** The walk takes the first stuck entry of its listing, if there is one, and changes nothing otherwise. */
  lemma {:induction false} WalkTakesFirstStuck(s: Server, c: Consumer, l: Level, listing: seq<Candidate>, timeout: nat)
      returns (k: nat)
    requires forall i :: 0 <= i < |listing| ==>
               listing[i].id in s.At(l).pending
               && listing[i].idle == s.now - s.At(l).pending[listing[i].id].deliveredAt
    ensures k <= |listing| && forall i :: 0 <= i < k ==> !Stuck(s.At(l), listing[i].id, s.now, timeout)
    ensures k == |listing| ==> RecoverFrom(s, c, l, listing, timeout) == (None, s)
    ensures k < |listing| ==>
              var id := listing[k].id;
              && Stuck(s.At(l), id, s.now, timeout)
              && RecoverFrom(s, c, l, listing, timeout)
              == (Parsed(s, Message(l, id)),
                  s.With(l, s.At(l).(pending := s.At(l).pending[id := Pending(c, s.now)])))
    decreases listing
  {
    hide FromStreamDict;
    if listing == [] {
      k := 0;
    } else if Stuck(s.At(l), listing[0].id, s.now, timeout) {
      k := 0;
    } else {
      assert forall i :: 0 <= i < |listing[1..]| ==> listing[1..][i] == listing[i + 1];
      var rest := WalkTakesFirstStuck(s, c, l, listing[1..], timeout);
      k := rest + 1;
      assert forall i :: 0 < i < k ==> listing[i] == listing[1..][i - 1];
    }
  }

  lemma FewerBelow(s: Stream, j: nat, id: nat)
    requires j <= id
    ensures |PendingBetween(s, 0, j)| <= |PendingBetween(s, 0, id)|
  {
    SubsetIsSmaller(PendingBetween(s, 0, j), PendingBetween(s, 0, id));
  }

  lemma {:induction false} SubsetIsSmaller(a: set<nat>, b: set<nat>)
    requires a <= b
    ensures |a| <= |b|
  {
    assert b == a + (b - a);
  }

  /** What the walk over one level finds: the lowest recoverable id, if any. */
  lemma LevelRecovery(s: Server, c: Consumer, l: Level, timeout: nat)
    requires forall id :: id in s.At(l).pending ==> id < s.At(l).delivered
    ensures var (job, t) := RecoverFrom(s, c, l, XPendingRange(s.At(l), 0, QueueRuns.LISTING, s.now), timeout);
            && (job.Some? ==>
                  && job.value.m.level == l && LowestRecoverable(s.At(l), job.value.m.id, s.now, timeout)
                  && FromStreamDict(s.At(l).log[job.value.m.id]) == Some(job.value.job)
                  && t == s.With(l, s.At(l).(pending := s.At(l).pending[job.value.m.id := Pending(c, s.now)])))
            && (job.None? ==> NoneRecoverable(s.At(l), s.now, timeout))
            && (forall k :: k != l ==> t.At(k) == s.At(k)) && t.now == s.now
            && t.At(l).log == s.At(l).log && t.At(l).trimmed == s.At(l).trimmed && t.At(l).delivered == s.At(l).delivered
  {
    var st := s.At(l);
    var listing := XPendingRange(st, 0, QueueRuns.LISTING, s.now);
    var k := WalkTakesFirstStuck(s, c, l, listing, timeout);
    hide FromStreamDict, RecoverFrom, XPendingRange, Stuck, Recoverable, LowestRecoverable, NoneRecoverable;
    if k < |listing| {
      WalkIsLowest(st, s.now, timeout, k);
    } else {
      NothingListedIsStuck(st, s.now, timeout);
    }
  }

  /** A stuck entry below the listing's end is on it. */
  lemma StuckIsListed(s: Stream, now: int, timeout: nat, id: nat) returns (i: nat)
    requires forall id :: id in s.pending ==> id < s.delivered
    requires Stuck(s, id, now, timeout) && |PendingBetween(s, 0, id)| < 10
    ensures var listing := XPendingRange(s, 0, QueueRuns.LISTING, now);
            i < |listing| && listing[i].id == id
  {
    var listing := XPendingRange(s, 0, QueueRuns.LISTING, now);
    ListedExactly(s, 0, QueueRuns.LISTING, now, id);
    i :| 0 <= i < |listing| && listing[i].id == id;
  }

  lemma NothingListedIsStuck(s: Stream, now: int, timeout: nat)
    requires forall id :: id in s.pending ==> id < s.delivered
    requires var listing := XPendingRange(s, 0, QueueRuns.LISTING, now);
             forall i :: 0 <= i < |listing| ==> !Stuck(s, listing[i].id, now, timeout)
    ensures NoneRecoverable(s, now, timeout)
  {
    hide FromStreamDict, XPendingRange, Stuck, PendingBetween;
    forall id
      ensures !Recoverable(s, id, now, timeout)
    {
      if Recoverable(s, id, now, timeout) {
        var i := StuckIsListed(s, now, timeout, id);
        assert false;
      }
    }
  }

  lemma WalkIsLowest(s: Stream, now: int, timeout: nat, k: nat)
    requires forall id :: id in s.pending ==> id < s.delivered
    requires var listing := XPendingRange(s, 0, QueueRuns.LISTING, now);
             && k < |listing| && Stuck(s, listing[k].id, now, timeout)
             && forall i :: 0 <= i < k ==> !Stuck(s, listing[i].id, now, timeout)
    ensures var id := XPendingRange(s, 0, QueueRuns.LISTING, now)[k].id;
            && (FromStreamDict(s.log[id]).Some? ==> LowestRecoverable(s, id, now, timeout))
            && (FromStreamDict(s.log[id]).None? ==> NoneRecoverable(s, now, timeout))
  {
    var listing := XPendingRange(s, 0, QueueRuns.LISTING, now);
    var first := listing[k].id;
    forall i | k < i < |listing|
      ensures first < listing[i].id
    {
      ListedInOrder(s, 0, QueueRuns.LISTING, now, k, i);
    }
    ListedExactly(s, 0, QueueRuns.LISTING, now, first);
    hide FromStreamDict, XPendingRange, PendingBetween, Stuck;
    assert listing[k].id == first;
    forall j: nat | j < first
      ensures !Stuck(s, j, now, timeout)
    {
      if Stuck(s, j, now, timeout) {
        FewerBelow(s, j, first);
        var i := StuckIsListed(s, now, timeout, j);
        assert false;
      }
    }
    forall id | Recoverable(s, id, now, timeout)
      ensures first <= id
    {
    }
    FirstStuckDecides(s, listing, k, now, timeout);
  }

  /** The first stuck entry is recoverable if it parses, and stands in front of everything else if it does not. */
  lemma FirstStuckDecides(s: Stream, listing: seq<Candidate>, k: nat, now: int, timeout: nat)
    requires k < |listing| && Stuck(s, listing[k].id, now, timeout) && |PendingBetween(s, 0, listing[k].id)| < 10
    requires forall id :: Recoverable(s, id, now, timeout) ==> listing[k].id <= id
    requires forall j: nat :: j < listing[k].id ==> !Stuck(s, j, now, timeout)
    ensures FromStreamDict(s.log[listing[k].id]).Some? ==> LowestRecoverable(s, listing[k].id, now, timeout)
    ensures FromStreamDict(s.log[listing[k].id]).None? ==> NoneRecoverable(s, now, timeout)
  {
    hide FromStreamDict, PendingBetween;
  }

  /** Streams apart from who holds what. */
  ghost predicate SameEntries(s: Server, t: Server) {
    t.now == s.now
    && forall l :: t.At(l).log == s.At(l).log && t.At(l).trimmed == s.At(l).trimmed && t.At(l).delivered == s.At(l).delivered
  }

  lemma {:induction false} LevelsRecovery(origin: Server, s: Server, c: Consumer, levels: seq<Level>, down: set<Level>,
        timeout: nat) returns (i: nat)
    requires forall l, id :: id in origin.At(l).pending ==> id < origin.At(l).delivered
    requires s.now == origin.now && forall k :: 0 <= k < |levels| ==> s.At(levels[k]) == origin.At(levels[k])
    requires forall j, k :: 0 <= j < k < |levels| ==> levels[j] != levels[k]
    ensures var (job, t) := RecoverFirst(s, c, levels, down, timeout);
            && i <= |levels| && (i < |levels| <==> job.Some?) && SameEntries(s, t)
            && (forall k :: 0 <= k < i && levels[k] !in down ==>
                  NoneRecoverable(origin.At(levels[k]), origin.now, timeout))
            && (job.Some? ==>
                  var m := job.value.m;
                  && m.level == levels[i] && m.level !in down
                  && LowestRecoverable(origin.At(m.level), m.id, origin.now, timeout)
                  && FromStreamDict(origin.At(m.level).log[m.id]) == Some(job.value.job)
                  && m.id in t.At(m.level).pending && t.At(m.level).pending[m.id] == Pending(c, origin.now))
    decreases levels
  {
    hide FromStreamDict, RecoverFrom, XPendingRange, LowestRecoverable, NoneRecoverable;
    if levels == [] {
      i := 0;
    } else {
      var next := s;
      if levels[0] !in down {
        LevelRecovery(s, c, levels[0], timeout);
        var listing := XPendingRange(s.At(levels[0]), 0, QueueRuns.LISTING, s.now);
        next := RecoverFrom(s, c, levels[0], listing, timeout).1;
        if RecoverFrom(s, c, levels[0], listing, timeout).0.Some? {
          i := 0;
          assert forall l :: l != levels[0] ==> next.At(l) == s.At(l);
          return;
        }
      }
      var rest := LevelsRecovery(origin, next, c, levels[1..], down, timeout);
      i := rest + 1;
      assert forall k :: 0 < k < |levels| ==> levels[1..][k - 1] == levels[k];
    }
  }

  /** `k` is checked before `l`. */
  predicate Above(k: Level, l: Level) {
    (k == High && l != High) || (k == Normal && l == Low)
  }

  /** The delivery is the lowest recoverable message of the highest level that has one. */
  ghost predicate IsRecovery(s: Server, d: Delivery, down: set<Level>, timeout: nat) {
    && d.m.level !in down && LowestRecoverable(s.At(d.m.level), d.m.id, s.now, timeout)
    && FromStreamDict(s.At(d.m.level).log[d.m.id]) == Some(d.job)
    && forall l :: Above(l, d.m.level) && l !in down ==> NoneRecoverable(s.At(l), s.now, timeout)
  }

  ghost predicate NothingRecoverable(s: Server, down: set<Level>, timeout: nat) {
    forall l :: l !in down ==> NoneRecoverable(s.At(l), s.now, timeout)
  }

  ghost predicate OwnedNow(s: Server, m: Message, c: Consumer) {
    m.id in s.At(m.level).pending && s.At(m.level).pending[m.id] == Pending(c, s.now)
  }

  /** A recovery finds what is to be recovered, whatever else is malformed or down. */
  lemma RecoveryFinds(s: Server, c: Consumer, down: set<Level>, timeout: nat)
    requires PendingIsDelivered(s)
    ensures var (job, t) := RecoverFirst(s, c, PRIORITIES, down, timeout);
            && SameEntries(s, t)
            && (job.None? <==> NothingRecoverable(s, down, timeout))
            && (job.Some? ==> IsRecovery(s, job.value, down, timeout) && OwnedNow(t, job.value.m, c))
  {
    var i := LevelsRecovery(s, s, c, PRIORITIES, down, timeout);
    hide FromStreamDict, RecoverFirst;
    var (job, t) := RecoverFirst(s, c, PRIORITIES, down, timeout);
    if job.Some? {
      assert Recoverable(s.At(job.value.m.level), job.value.m.id, s.now, timeout);
    } else {
      forall l | l !in down
        ensures NoneRecoverable(s.At(l), s.now, timeout)
      {
        var k := if l == High then 0 else if l == Normal then 1 else 2;
        assert PRIORITIES[k] == l;
      }
    }
  }

  // ---------- Which message a read finds ----------

  /** The oldest entry never delivered is there and parses. */
  predicate Readable(s: Stream) {
    var id := if s.delivered < s.trimmed then s.trimmed else s.delivered;
    id < |s.log| && FromStreamDict(s.log[id]).Some?
  }

  /** The delivery is the oldest undelivered message of the highest readable level. */
  ghost predicate IsRead(s: Server, d: Delivery, down: set<Level>) {
    && d.m.level !in down && Readable(s.At(d.m.level))
    && d.m.id == (if s.At(d.m.level).delivered < s.At(d.m.level).trimmed then s.At(d.m.level).trimmed
                  else s.At(d.m.level).delivered)
    && FromStreamDict(s.At(d.m.level).log[d.m.id]) == Some(d.job)
    && forall l :: Above(l, d.m.level) && l !in down ==> !Readable(s.At(l))
  }

  ghost predicate NothingReadable(s: Server, down: set<Level>) {
    forall l :: l !in down ==> !Readable(s.At(l))
  }

  lemma {:induction false} LevelsRead(origin: Server, s: Server, c: Consumer, levels: seq<Level>, down: set<Level>)
      returns (i: nat)
    requires s.now == origin.now
    requires forall k :: 0 <= k < |levels| ==>
               var (a, b) := (s.At(levels[k]), origin.At(levels[k]));
               a.log == b.log && a.trimmed == b.trimmed && a.delivered == b.delivered
    requires forall j, k :: 0 <= j < k < |levels| ==> levels[j] != levels[k]
    ensures var (job, t) := ReadFirst(s, c, levels, down);
            && i <= |levels| && (i < |levels| <==> job.Some?) && t.now == s.now
            && (forall k :: 0 <= k < i && levels[k] !in down ==> !Readable(origin.At(levels[k])))
            && (job.Some? ==>
                  var m := job.value.m;
                  && m.level == levels[i] && m.level !in down && Readable(origin.At(m.level))
                  && m.id == NextNew(origin.At(m.level))
                  && FromStreamDict(origin.At(m.level).log[m.id]) == Some(job.value.job)
                  && OwnedNow(t, m, c))
    decreases levels
  {
    hide FromStreamDict;
    if levels == [] {
      i := 0;
    } else {
      var next := s;
      if levels[0] !in down {
        var (job, t) := ReadOne(s, c, levels[0]);
        next := t;
        assert job.Some? <==> Readable(origin.At(levels[0]));
        if job.Some? {
          i := 0;
          return;
        }
      }
      var rest := LevelsRead(origin, next, c, levels[1..], down);
      i := rest + 1;
      assert forall k :: 0 < k < |levels| ==> levels[1..][k - 1] == levels[k];
    }
  }

  /** Reading in order finds the first readable level. */
  lemma ReadsFind(origin: Server, s: Server, c: Consumer, down: set<Level>)
    requires SameEntries(origin, s)
    ensures var (job, t) := ReadFirst(s, c, PRIORITIES, down);
            && (job.None? <==> NothingReadable(origin, down))
            && (job.Some? ==> IsRead(origin, job.value, down) && OwnedNow(t, job.value.m, c))
  {
    var i := LevelsRead(origin, s, c, PRIORITIES, down);
    hide FromStreamDict, ReadFirst, Readable;
    var (job, t) := ReadFirst(s, c, PRIORITIES, down);
    if job.None? {
      forall l | l !in down
        ensures !Readable(origin.At(l))
      {
        var k := if l == High then 0 else if l == Normal then 1 else 2;
        assert PRIORITIES[k] == l;
      }
    }
  }

  /**
    A claim whose recovery is due returns the message to be recovered, if there is one; otherwise, or when it is not
    due, the oldest message never delivered of the highest level that has one to give.
    */
  lemma ClaimFinds(s: Server, c: Consumer, due: bool, down: set<Level>, timeout: nat)
    requires PendingIsDelivered(s)
    ensures var (job, t) := Claimed(s, c, due, down, timeout);
            && (job.Some? ==> OwnedNow(t, job.value.m, c))
            && if due && !NothingRecoverable(s, down, timeout)
               then job.Some? && IsRecovery(s, job.value, down, timeout)
               else if NothingReadable(s, down) then job.None?
               else job.Some? && IsRead(s, job.value, down)
  {
    hide FromStreamDict, RecoverFirst, ReadFirst, IsRecovery, IsRead, NothingRecoverable, NothingReadable, SameEntries;
    if due {
      RecoveryFinds(s, c, down, timeout);
      var (recovered, t) := RecoverFirst(s, c, PRIORITIES, down, timeout);
      ReadsFind(s, t, c, down);
      assert Claimed(s, c, due, down, timeout) == if recovered.Some? then (recovered, t) else ReadFirst(t, c, PRIORITIES, down);
    } else {
      NothingMoved(s);
      ReadsFind(s, s, c, down);
      assert Claimed(s, c, due, down, timeout) == ReadFirst(s, c, PRIORITIES, down);
    }
  }

  lemma NothingMoved(s: Server)
    ensures SameEntries(s, s)
  {}
}
