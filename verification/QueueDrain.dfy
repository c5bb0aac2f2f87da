/** The operations of JobQueues as runs of QueueRuns, and the order in which claims drain the streams. */
module QueueDrain {
  import opened Options
  import opened DateTimes
  import opened JobDispatches
  import opened RedisStreams
  import opened QueueRuns
  import opened QueueSafety
  import opened JobClaims
  import opened JobQueues

  // ---------- Every operation is a run of its consumer ----------

  predicate By(step: Step, c: Consumer) {
    match step
    case Tick(_) => false
    case Publish(_, _, _) => false
    case _ => step.who == c
  }

  predicate OnlyBy(steps: seq<Step>, c: Consumer) {
    forall k :: 0 <= k < |steps| ==> By(steps[k], c)
  }

  /** `steps` takes `w` to a world with this server, and the job, if any, ends up in the consumer's hands. */
  ghost predicate Performs(w: World, steps: seq<Step>, cfg: Config, c: Consumer, result: (Option<Delivery>, Server))
    requires WellFormed(w)
  {
    var v := Run(w, steps, cfg);
    && OnlyBy(steps, c)
    && v.server == result.1
    && (result.0.Some? ==> result.0.value.m in v.Of(c).held)
  }

  lemma OneStep(w: World, step: Step, cfg: Config)
    requires WellFormed(w)
    ensures Run(w, [step], cfg) == Next(w, step, cfg)
  {
    hide FromStreamDict, ToStreamDict, Next;
    NextIsWellFormed(w, step, cfg);
    assert [step][1..] == [];
    assert Run(Next(w, step, cfg), [], cfg) == Next(w, step, cfg);
  }

  lemma {:induction false} ReadsAreARun(w: World, c: Consumer, levels: seq<Level>, down: set<Level>, cfg: Config)
      returns (steps: seq<Step>)
    requires WellFormed(w)
    ensures Performs(w, steps, cfg, c, ReadFirst(w.server, c, levels, down))
    decreases levels
  {
    hide FromStreamDict, ToStreamDict;
    steps := [];
    if levels != [] {
      var v := w;
      if levels[0] !in down {
        steps := [Read(c, levels[0])];
        OneStep(w, steps[0], cfg);
        v := Run(w, steps, cfg);
        assert StreamOk(w.At(levels[0]));
        assert v.server == ReadOne(w.server, c, levels[0]).1;
        if ReadOne(w.server, c, levels[0]).0.Some? {
          return;
        }
      }
      var more := ReadsAreARun(v, c, levels[1..], down, cfg);
      RunAppend(w, steps, more, cfg);
      steps := steps + more;
    }
  }

  lemma {:induction false} ListingIsARun(w: World, c: Consumer, cfg: Config) returns (steps: seq<Step>)
    requires WellFormed(w)
    ensures Performs(w, steps, cfg, c,
                     RecoverFrom(w.server, c, w.Of(c).level, w.Of(c).candidates, cfg.pendingTimeout))
    decreases |w.Of(c).candidates|
  {
    hide FromStreamDict, ToStreamDict;
    var l := w.Of(c);
    steps := [];
    if l.candidates != [] {
      steps := [Recover(c)];
      OneStep(w, steps[0], cfg);
      var v := Run(w, steps, cfg);
      var claimed := XClaim(w.At(l.level), c, cfg.pendingTimeout, l.candidates[0].id, w.server.now).0;
      if l.candidates[0].idle <= cfg.pendingTimeout || !claimed {
        assert v.server == w.server && v.Of(c) == l.(candidates := l.candidates[1..]);
        var more := ListingIsARun(v, c, cfg);
        RunAppend(w, steps, more, cfg);
        steps := steps + more;
      }
    }
  }

  lemma {:induction false} RecoveryIsARun(w: World, c: Consumer, levels: seq<Level>, down: set<Level>, cfg: Config)
      returns (steps: seq<Step>)
    requires WellFormed(w)
    ensures Performs(w, steps, cfg, c, RecoverFirst(w.server, c, levels, down, cfg.pendingTimeout))
    decreases levels
  {
    hide FromStreamDict, ToStreamDict, RecoverFrom;
    steps := [];
    if levels != [] {
      var v := w;
      if levels[0] !in down {
        var first := [List(c, levels[0])];
        OneStep(w, first[0], cfg);
        var u := Run(w, first, cfg);
        assert u.server == w.server && u.Of(c).level == levels[0];
        var rest := ListingIsARun(u, c, cfg);
        RunAppend(w, first, rest, cfg);
        steps := first + rest;
        v := Run(w, steps, cfg);
        var listing := XPendingRange(w.At(levels[0]), 0, LISTING, w.server.now);
        if RecoverFrom(w.server, c, levels[0], listing, cfg.pendingTimeout).0.Some? {
          return;
        }
      }
      var more := RecoveryIsARun(v, c, levels[1..], down, cfg);
      RunAppend(w, steps, more, cfg);
      steps := steps + more;
    }
  }

  /** What `ClaimJob` promises is a run of the interleaved machine, so all its safety properties hold of it. */
  lemma ClaimIsARun(w: World, c: Consumer, due: bool, down: set<Level>, cfg: Config) returns (steps: seq<Step>)
    requires WellFormed(w)
    ensures Performs(w, steps, cfg, c, Claimed(w.server, c, due, down, cfg.pendingTimeout))
  {
    hide FromStreamDict, ToStreamDict, RecoverFirst, ReadFirst;
    steps := [];
    var v := w;
    if due {
      steps := RecoveryIsARun(w, c, PRIORITIES, down, cfg);
      v := Run(w, steps, cfg);
      if RecoverFirst(w.server, c, PRIORITIES, down, cfg.pendingTimeout).0.Some? {
        return;
      }
    }
    var more := ReadsAreARun(v, c, PRIORITIES, down, cfg);
    RunAppend(w, steps, more, cfg);
    steps := steps + more;
  }

  /** In every reachable state only delivered ids are pending, which is what the claim's own promise rests on. */
  lemma ReachableIsReady(steps: seq<Step>, cfg: Config)
    ensures PendingIsDelivered(Run(START, steps, cfg).server)
  {
    var w := Run(START, steps, cfg);
    hide FromStreamDict, ToStreamDict, Run;
    forall l, id | id in w.server.At(l).pending
      ensures id < w.server.At(l).delivered
    {
      assert StreamOk(w.At(l));
    }
  }

  /** The same for an acknowledgment and a rejection of a delivery the consumer holds. */
  lemma SettlingIsARun(w: World, c: Consumer, d: Delivery, error: string, at: Timestamp, drop: nat, cfg: Config)
    requires WellFormed(w) && d.m in w.Of(c).held
    requires d.m.id < |w.At(d.m.level).log| && Parsed(w.server, d.m) == Some(d)
    ensures Run(w, [Acknowledge(c, d.m)], cfg).server == Acked(w.server, d.m)
    ensures Run(w, [RejectCopy(c, d.m, error, at, drop)], cfg).server == Copied(w.server, LetterFor(d, at, error), drop)
    ensures Run(w, [RejectCopy(c, d.m, error, at, drop), RejectAck(c, d.m)], cfg).server
         == Settled(Copied(w.server, LetterFor(d, at, error), drop), d.m)
  {
    hide FromStreamDict, ToStreamDict;
    OneStep(w, Acknowledge(c, d.m), cfg);
    OneStep(w, RejectCopy(c, d.m, error, at, drop), cfg);
    var copy, ack := RejectCopy(c, d.m, error, at, drop), RejectAck(c, d.m);
    assert [copy, ack] == [copy] + [ack];
    RunAppend(w, [copy], [ack], cfg);
    OneStep(Run(w, [copy], cfg), ack, cfg);
  }

  // ---------- Draining is a stable priority sort ----------

  /** The undelivered messages of one stream, in publish order. */
  function Waiting(l: Level, from: nat, to: nat): seq<Message>
    decreases to - from
  {
    if from >= to then [] else [Message(l, from)] + Waiting(l, from + 1, to)
  }

  function WaitingIn(s: Server, l: Level): seq<Message> {
    Waiting(l, NextNew(s.At(l)), |s.At(l).log|)
  }

  /** All of them: high before normal before low. */
  function Backlog(s: Server): seq<Message> {
    WaitingIn(s, High) + WaitingIn(s, Normal) + WaitingIn(s, Low)
  }

  /** The log of each level was written from these dispatches. */
  ghost predicate PublishedAs(s: Server, jobs: Level -> seq<(Dispatch, Timestamp)>) {
    forall l :: |jobs(l)| == |s.At(l).log|
      && forall id :: 0 <= id < |jobs(l)| ==> s.At(l).log[id] == ToStreamDict(jobs(l)[id].0, jobs(l)[id].1)
  }

  /** The delivery a published message must give: its dispatch, normalised. */
  ghost function Original(jobs: Level -> seq<(Dispatch, Timestamp)>, m: Message): Option<Delivery> {
    if m.id < |jobs(m.level)|
    then Some(Delivery(Normalized(jobs(m.level)[m.id].0, jobs(m.level)[m.id].1), m))
    else None
  }

  /** A claim by some consumer, `elapsed` after the previous one, with or without the recovery check. */
  datatype Call = Call(who: Consumer, elapsed: nat, due: bool)

  function EndOf(now: int, calls: seq<Call>): int
    decreases calls
  {
    if calls == [] then now else EndOf(now + calls[0].elapsed, calls[1..])
  }

  function Drain(s: Server, calls: seq<Call>, timeout: nat): (r: seq<Option<Delivery>>)
    ensures |r| == |calls|
    decreases calls
  {
    if calls == [] then []
    else
      var (job, t) := Claimed(s.(now := s.now + calls[0].elapsed), calls[0].who, calls[0].due, {}, timeout);
      [job] + Drain(t, calls[1..], timeout)
  }

  /** Nothing pending gets over-idle before `end`. */
  ghost predicate FreshUntil(s: Server, end: int, timeout: nat) {
    forall l :: forall id :: id in s.At(l).pending ==> end - s.At(l).pending[id].deliveredAt <= timeout
  }

  lemma FreshNow(s: Server, end: int, timeout: nat)
    requires s.now <= end && FreshUntil(s, end, timeout)
    ensures FreshUntil(s, s.now, timeout)
  {}

  lemma {:induction false} NothingToRecover(s: Server, c: Consumer, l: Level, listing: seq<Candidate>, timeout: nat)
    requires forall k :: 0 <= k < |listing| ==> listing[k].idle <= timeout
    ensures RecoverFrom(s, c, l, listing, timeout) == (None, s)
    decreases listing
  {
    if listing != [] {
      NothingToRecover(s, c, l, listing[1..], timeout);
    }
  }

  lemma {:induction false} NothingIsRecovered(s: Server, c: Consumer, levels: seq<Level>, timeout: nat)
    requires FreshUntil(s, s.now, timeout)
    ensures RecoverFirst(s, c, levels, {}, timeout) == (None, s)
    decreases levels
  {
    hide FromStreamDict;
    if levels != [] {
      var listing := XPendingRange(s.At(levels[0]), 0, LISTING, s.now);
      forall k | 0 <= k < |listing|
        ensures listing[k].idle <= timeout
      {
        assert listing[k].id in s.At(levels[0]).pending;
      }
      NothingToRecover(s, c, levels[0], listing, timeout);
      NothingIsRecovered(s, c, levels[1..], timeout);
    }
  }

  /** Reading one stream takes the head of its waiting list, or finds the list empty. */
  lemma ReadTakesHead(s: Server, c: Consumer, l: Level, jobs: Level -> seq<(Dispatch, Timestamp)>)
    requires PublishedAs(s, jobs)
    ensures var (job, t) := ReadOne(s, c, l);
            if WaitingIn(s, l) == [] then job == None && t == s
            else
              var m := WaitingIn(s, l)[0];
              && m.level == l && job == Original(jobs, m) && job.Some?
              && WaitingIn(t, l) == WaitingIn(s, l)[1..]
              && (forall k :: k != l ==> t.At(k) == s.At(k))
              && t.now == s.now && t.At(l).log == s.At(l).log
              && t.At(l).pending == s.At(l).pending[m.id := Pending(c, s.now)]
  {
    hide FromStreamDict, ToStreamDict, Normalized;
    var id := NextNew(s.At(l));
    if id < |s.At(l).log| {
      DispatchRoundTrip(jobs(l)[id].0, jobs(l)[id].1);
      assert s.At(l).log[id] == ToStreamDict(jobs(l)[id].0, jobs(l)[id].1);
      assert Waiting(l, id, |s.At(l).log|)[1..] == Waiting(l, id + 1, |s.At(l).log|);
    }
  }

  /** Reading the first level with something waiting takes the head of the backlog. */
  lemma TakesTheHead(s: Server, c: Consumer, l: Level, jobs: Level -> seq<(Dispatch, Timestamp)>, timeout: nat,
        end: int)
    requires PublishedAs(s, jobs) && end - s.now <= timeout && FreshUntil(s, end, timeout)
    requires WaitingIn(s, l) != []
    requires l != High ==> WaitingIn(s, High) == []
    requires l == Low ==> WaitingIn(s, Normal) == []
    ensures Backlog(s) != []
    ensures var (job, t) := ReadOne(s, c, l);
            && PublishedAs(t, jobs) && FreshUntil(t, end, timeout) && t.now == s.now
            && job == Original(jobs, Backlog(s)[0]) && job.Some?
            && Backlog(t) == Backlog(s)[1..]
  {
    ReadTakesHead(s, c, l, jobs);
    ReadKeepsPublished(s, c, l, jobs);
    ReadKeepsFresh(s, c, l, jobs, timeout, end);
    var t := ReadOne(s, c, l).1;
    hide *;
    OthersWait(s, t, l);
    HeadOfBacklog(s, l);
    BacklogShrinks(s, t, l);
  }

  lemma ReadKeepsPublished(s: Server, c: Consumer, l: Level, jobs: Level -> seq<(Dispatch, Timestamp)>)
    requires PublishedAs(s, jobs) && WaitingIn(s, l) != []
    ensures PublishedAs(ReadOne(s, c, l).1, jobs)
  {
    ReadTakesHead(s, c, l, jobs);
    hide FromStreamDict, ToStreamDict, Original, ReadOne, WaitingIn;
  }

  lemma ReadKeepsFresh(s: Server, c: Consumer, l: Level, jobs: Level -> seq<(Dispatch, Timestamp)>, timeout: nat,
        end: int)
    requires PublishedAs(s, jobs) && end - s.now <= timeout && FreshUntil(s, end, timeout)
    requires WaitingIn(s, l) != []
    ensures FreshUntil(ReadOne(s, c, l).1, end, timeout)
  {
    ReadTakesHead(s, c, l, jobs);
    hide FromStreamDict, ToStreamDict, Original, ReadOne, WaitingIn, PublishedAs;
  }

  lemma OthersWait(s: Server, t: Server, l: Level)
    requires forall k :: k != l ==> t.At(k) == s.At(k)
    ensures forall k :: k != l ==> WaitingIn(t, k) == WaitingIn(s, k)
  {
    WaitingDepends(s, t);
  }

  lemma HeadOfBacklog(s: Server, l: Level)
    requires WaitingIn(s, l) != []
    requires l != High ==> WaitingIn(s, High) == []
    requires l == Low ==> WaitingIn(s, Normal) == []
    ensures Backlog(s) != [] && Backlog(s)[0] == WaitingIn(s, l)[0]
  {
    hide WaitingIn;
  }

  lemma BacklogShrinks(s: Server, t: Server, l: Level)
    requires WaitingIn(s, l) != [] && WaitingIn(t, l) == WaitingIn(s, l)[1..]
    requires forall k :: k != l ==> WaitingIn(t, k) == WaitingIn(s, k)
    requires l != High ==> WaitingIn(s, High) == []
    requires l == Low ==> WaitingIn(s, Normal) == []
    ensures Backlog(t) == Backlog(s)[1..]
  {
    hide WaitingIn;
  }

  /** One claim takes the head of the backlog and leaves its tail. */
  lemma ClaimTakesHead(s: Server, c: Consumer, due: bool, jobs: Level -> seq<(Dispatch, Timestamp)>, timeout: nat,
        end: int)
    requires PublishedAs(s, jobs)
    requires s.now <= end && end - s.now <= timeout && FreshUntil(s, end, timeout)
    ensures var (job, t) := Claimed(s, c, due, {}, timeout);
            && PublishedAs(t, jobs) && FreshUntil(t, end, timeout) && t.now == s.now
            && (if Backlog(s) == [] then job == None && t == s
                else
                  var m := Backlog(s)[0];
                  && job == Original(jobs, m) && job.Some?
                  && Backlog(t) == Backlog(s)[1..])
  {
    hide FromStreamDict, ToStreamDict, Original, ReadOne, WaitingIn, RecoverFirst, PublishedAs, FreshUntil;
    FreshNow(s, end, timeout);
    NothingIsRecovered(s, c, PRIORITIES, timeout);
    ReadTakesHead(s, c, High, jobs);
    ReadTakesHead(s, c, Normal, jobs);
    ReadTakesHead(s, c, Low, jobs);
    assert PRIORITIES[1..] == [Normal, Low] && PRIORITIES[1..][1..] == [Low] && PRIORITIES[1..][1..][1..] == [];
    var w := ReadFirst(s, c, PRIORITIES, {});
    if WaitingIn(s, High) != [] {
      assert w == ReadOne(s, c, High);
      TakesTheHead(s, c, High, jobs, timeout, end);
    } else if WaitingIn(s, Normal) != [] {
      assert w == ReadOne(s, c, Normal);
      TakesTheHead(s, c, Normal, jobs, timeout, end);
    } else if WaitingIn(s, Low) != [] {
      assert w == ReadOne(s, c, Low);
      TakesTheHead(s, c, Low, jobs, timeout, end);
    } else {
      assert w == (None, s);
    }
  }

  /** What is waiting on a level depends on that level's stream only. */
  lemma WaitingDepends(s: Server, t: Server)
    ensures forall l :: s.At(l) == t.At(l) ==> WaitingIn(s, l) == WaitingIn(t, l)
  {
  }

  /**
    With no new publishing and nothing over-idle, claims by any mix of consumers return every waiting job
    exactly once, high then normal then low and in publish order within a level, and then nothing. Each
    returned dispatch is the published one, normalised.
    */
  lemma {:induction false} DrainIsAStablePrioritySort(
      s: Server, calls: seq<Call>, jobs: Level -> seq<(Dispatch, Timestamp)>, timeout: nat, k: nat)
    requires PublishedAs(s, jobs) && k < |calls|
    requires EndOf(s.now, calls) - s.now <= timeout && FreshUntil(s, EndOf(s.now, calls), timeout)
    ensures var r := Drain(s, calls, timeout)[k];
            if k >= |Backlog(s)| then r == None
            else
              var m := Backlog(s)[k];
              r == Original(jobs, m) && r.Some?
    decreases k
  {
    hide FromStreamDict, ToStreamDict, Original, Claimed, WaitingIn;
    var u := s.(now := s.now + calls[0].elapsed);
    EndIsLater(u.now, calls[1..]);
    WaitingDepends(s, u);
    assert PublishedAs(u, jobs) && FreshUntil(u, EndOf(s.now, calls), timeout) by {
      assert forall l :: u.At(l) == s.At(l);
    }
    ClaimTakesHead(u, calls[0].who, calls[0].due, jobs, timeout, EndOf(s.now, calls));
    if k > 0 {
      var t := Claimed(u, calls[0].who, calls[0].due, {}, timeout).1;
      DrainIsAStablePrioritySort(t, calls[1..], jobs, timeout, k - 1);
    }
  }

  lemma {:induction false} EndIsLater(now: int, calls: seq<Call>)
    ensures EndOf(now, calls) >= now
    decreases calls
  {
    if calls != [] {
      EndIsLater(now + calls[0].elapsed, calls[1..]);
    }
  }

  /** The waiting list of a level holds each undelivered message exactly once, in publish order, and nothing else. */
  lemma {:induction false} WaitingIsExact(l: Level, from: nat, to: nat, k: nat)
    requires from <= to
    ensures |Waiting(l, from, to)| == to - from
    ensures k < to - from ==> Waiting(l, from, to)[k] == Message(l, from + k)
    decreases |Waiting(l, from, to)|
  {
    if from < to {
      assert Waiting(l, from, to) == [Message(l, from)] + Waiting(l, from + 1, to);
      WaitingIsExact(l, from + 1, to, if k > 0 then k - 1 else 0);
    }
  }
}
