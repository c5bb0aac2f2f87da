/**
  Every interleaving of the coroutines that share one connected Redis client. A call and a health check are cut
  at their await of Redis: what begins one leaves it in flight, and its end records the outcome.
  */
module RedisClientRuns {
  import opened Options
  import opened Backoffs
  import opened RedisClients

  /** A call or a health check that waits for Redis; `begunAt` is the number of the step that began it. */
  datatype Flight = Flight(check: bool, begunAt: nat)

  datatype Client = Client(b: Breaker, flights: seq<Flight>, count: nat)

  /** An end names its flight; an abandoned one is cancelled, or raises what is not a RedisError. */
  datatype Op =
    | Look(now: real)
    | BeginCall(now: real)
    | BeginCheck(now: real)
    | End(flight: nat, answers: bool, later: real, roll: real)
    | Abandon(flight: nat)

  function Without(flights: seq<Flight>, i: nat): seq<Flight>
    requires i < |flights|
  {
    flights[..i] + flights[i + 1..]
  }

  function Effect(s: Client, op: Op, interval: real): Client {
    match op
    case Look(now) => s.(b := Looked(s.b, now))
    case BeginCall(now) =>
      var b := Looked(s.b, now);
      s.(b := b, flights := s.flights + if !b.open && b.healthy then [Flight(false, s.count)] else [])
    case BeginCheck(now) =>
      s.(flights := s.flights + if TooSoon(s.b, now, interval) then [] else [Flight(true, s.count)])
    case End(i, answers, later, roll) =>
      if i >= |s.flights| then s
      else
        s.(flights := Without(s.flights, i),
           b := if !answers then Failed(s.b, later, roll)
                else if s.flights[i].check then Checked(s.b, later) else Succeeded(s.b))
    case Abandon(i) => if i < |s.flights| then s.(flights := Without(s.flights, i)) else s
  }

  function Next(s: Client, op: Op, interval: real): Client {
    Effect(s, op, interval).(count := s.count + 1)
  }

  /** The state before step `k`, from initialisation on; `answers` is how the first ping went. */
  function At(answers: bool, now: real, ops: seq<Op>, interval: real, k: nat): Client
    requires k <= |ops|
  {
    if k == 0 then Client(Initial(answers, now), [], 0) else Next(At(answers, now, ops, interval, k - 1), ops[k - 1], interval)
  }

  ghost predicate Rolls(ops: seq<Op>) {
    forall i :: 0 <= i < |ops| && ops[i].End? ==> Roll(ops[i].roll)
  }

  // ---------- What every interleaving keeps ----------

  lemma StepKeepsSound(s: Client, op: Op, interval: real)
    requires Sound(s.b) && (op.End? ==> Roll(op.roll))
    ensures Sound(Next(s, op, interval).b)
  {
    if s.b.failures >= 2 && op.End? {
      BackoffBounds(if s.b.failures + 1 <= MAX_CONSECUTIVE_FAILURES then s.b.failures + 1 else MAX_CONSECUTIVE_FAILURES,
                    op.roll);
    }
    hide Backoff;
  }

  /** Healthy means no failures and a closed circuit, and an open circuit 3 to 10 failures and 30 to 360 s of backoff. */
  lemma {:induction false} ReachableIsSound(answers: bool, now: real, ops: seq<Op>, interval: real, k: nat)
    requires Rolls(ops) && k <= |ops|
    ensures Sound(At(answers, now, ops, interval, k).b)
    decreases k
  {
    if k > 0 {
      ReachableIsSound(answers, now, ops, interval, k - 1);
      StepKeepsSound(At(answers, now, ops, interval, k - 1), ops[k - 1], interval);
    }
  }

  /** Every flight was begun by an earlier step: a check, or a call at a moment when the client was healthy. */
  lemma {:induction false} FlightIsBegun(answers: bool, now: real, ops: seq<Op>, interval: real, k: nat, i: nat)
    requires k <= |ops| && i < |At(answers, now, ops, interval, k).flights|
    ensures At(answers, now, ops, interval, k).count == k
    ensures var f := At(answers, now, ops, interval, k).flights[i];
            && f.begunAt < k
            && (f.check ==> ops[f.begunAt].BeginCheck?)
            && (!f.check ==> ops[f.begunAt].BeginCall? && At(answers, now, ops, interval, f.begunAt).b.healthy)
    decreases k
  {
    CountIsTheStep(answers, now, ops, interval, k);
    if k > 0 {
      CountIsTheStep(answers, now, ops, interval, k - 1);
      var s := At(answers, now, ops, interval, k - 1);
      var f := At(answers, now, ops, interval, k).flights[i];
      NewOrOld(s, ops[k - 1], interval, i);
      if j :| 0 <= j < |s.flights| && s.flights[j] == f {
        FlightIsBegun(answers, now, ops, interval, k - 1, j);
      }
    }
  }

  lemma {:induction false} CountIsTheStep(answers: bool, now: real, ops: seq<Op>, interval: real, k: nat)
    requires k <= |ops|
    ensures At(answers, now, ops, interval, k).count == k
    decreases k
  {
    if k > 0 {
      CountIsTheStep(answers, now, ops, interval, k - 1);
    }
  }

  lemma NewOrOld(s: Client, op: Op, interval: real, i: nat)
    requires i < |Next(s, op, interval).flights|
    ensures var f := Next(s, op, interval).flights[i];
            || (exists j :: 0 <= j < |s.flights| && s.flights[j] == f)
            || (f.begunAt == s.count && (if f.check then op.BeginCheck? else op.BeginCall? && s.b.healthy))
  {
    var f := Next(s, op, interval).flights[i];
    if (op.End? || op.Abandon?) && op.flight < |s.flights| {
      assert f == s.flights[if i < op.flight then i else i + 1];
    } else if i < |s.flights| {
      assert f == s.flights[i];
    }
  }

  /**
    A call goes in flight iff the client is healthy, a check iff the last answered one is at least the interval ago
    or there is none. Every answer heals, and an answered check, but no call, counts as the last check.
    */
  lemma FlightsExactly(s: Client, op: Op, interval: real)
    requires Sound(s.b)
    ensures var t := Next(s, op, interval);
            match op
            case Look(_) => t.flights == s.flights && t.b.healthy == s.b.healthy
            case BeginCall(_) => t.flights == s.flights + if s.b.healthy then [Flight(false, s.count)] else []
            case BeginCheck(now) =>
              t.flights == s.flights + if s.b.lastCheck == None || now - s.b.lastCheck.value >= interval
                                       then [Flight(true, s.count)] else []
            case End(i, answers, later, _) =>
              i < |s.flights| ==>
                && t.flights == s.flights[..i] + s.flights[i + 1..] && t.b.healthy == answers
                && t.b.lastCheck == (if answers && s.flights[i].check then Some(later) else s.b.lastCheck)
                && t.b.failures == (if answers then 0 else if s.b.failures < 10 then s.b.failures + 1 else 10)
            case Abandon(i) => i < |s.flights| ==> t.flights == s.flights[..i] + s.flights[i + 1..] && t.b == s.b
  {
    hide Backoff;
  }

  // ---------- How an unhealthy client recovers ----------

  /** Step `k` ends a flight with an answer. */
  predicate Answered(answers: bool, now: real, ops: seq<Op>, interval: real, k: int) {
    0 <= k < |ops| && ops[k].End? && ops[k].answers && ops[k].flight < |At(answers, now, ops, interval, k).flights|
  }

  /** Step `k` ends a flight with a failure. */
  predicate Fails(answers: bool, now: real, ops: seq<Op>, interval: real, k: int) {
    0 <= k < |ops| && ops[k].End? && !ops[k].answers && ops[k].flight < |At(answers, now, ops, interval, k).flights|
  }

  /**
    An unhealthy client becomes healthy exactly when something in flight is answered: a health check, or a call
    that was begun while the client was healthy. Time, and asking for availability, never do it.
    */
  lemma HealsExactly(answers: bool, now: real, ops: seq<Op>, interval: real, k: nat)
    requires k < |ops| && !At(answers, now, ops, interval, k).b.healthy
    ensures At(answers, now, ops, interval, k + 1).b.healthy <==> Answered(answers, now, ops, interval, k)
    ensures Answered(answers, now, ops, interval, k) ==>
              var f := At(answers, now, ops, interval, k).flights[ops[k].flight];
              && f.begunAt < k
              && (if f.check then ops[f.begunAt].BeginCheck?
                  else ops[f.begunAt].BeginCall? && At(answers, now, ops, interval, f.begunAt).b.healthy)
  {
    if Answered(answers, now, ops, interval, k) {
      FlightIsBegun(answers, now, ops, interval, k, ops[k].flight);
    }
  }

  // ---------- How the circuit opens ----------

  predicate NoAnswer(answers: bool, now: real, ops: seq<Op>, interval: real, from: int, until: int) {
    forall k :: from < k < until ==> !Answered(answers, now, ops, interval, k)
  }

  /** Failures before step `k` since the last answer. */
  function FailuresSince(answers: bool, now: real, ops: seq<Op>, interval: real, k: nat): nat
    requires k <= |ops|
  {
    if k == 0 || Answered(answers, now, ops, interval, k - 1) then 0
    else FailuresSince(answers, now, ops, interval, k - 1) + if Fails(answers, now, ops, interval, k - 1) then 1 else 0
  }

  lemma {:induction false} FailuresAreCounted(answers: bool, now: real, ops: seq<Op>, interval: real, k: nat)
    requires k <= |ops|
    ensures var n := FailuresSince(answers, now, ops, interval, k);
            At(answers, now, ops, interval, k).b.failures == if n <= 10 then n else 10
    decreases k
  {
    hide Backoff;
    if k > 0 {
      FailuresAreCounted(answers, now, ops, interval, k - 1);
    }
  }

  /** One more failure than `n`: the last one of them, and `n` before it, with no answer in between. */
  lemma {:induction false} OneMoreFailure(answers: bool, now: real, ops: seq<Op>, interval: real, k: nat, n: nat)
    requires k <= |ops|
    ensures FailuresSince(answers, now, ops, interval, k) > n <==>
            exists i :: 0 <= i < k && Fails(answers, now, ops, interval, i) && NoAnswer(answers, now, ops, interval, i, k)
                        && FailuresSince(answers, now, ops, interval, i) >= n
    decreases k
  {
    hide At;
    if k > 0 {
      OneMoreFailure(answers, now, ops, interval, k - 1, n);
      if Fails(answers, now, ops, interval, k - 1) {
        assert NoAnswer(answers, now, ops, interval, k - 1, k);
      }
    }
  }

  /** The circuit is opened by the third failure since the last answer, and by each further one. */
  lemma OpensExactly(answers: bool, now: real, ops: seq<Op>, interval: real, k: nat)
    requires k < |ops|
    ensures var before, after := At(answers, now, ops, interval, k), At(answers, now, ops, interval, k + 1);
            after.b.open && !before.b.open <==>
            !before.b.open && Fails(answers, now, ops, interval, k) && FailuresSince(answers, now, ops, interval, k) >= 2
    ensures Fails(answers, now, ops, interval, k) && FailuresSince(answers, now, ops, interval, k) >= 2 ==>
              At(answers, now, ops, interval, k + 1).b.open
  {
    FailuresAreCounted(answers, now, ops, interval, k);
    hide Backoff;
  }

  lemma {:induction false} OpenedBefore(answers: bool, now: real, ops: seq<Op>, interval: real, k: nat)
    requires k <= |ops| && At(answers, now, ops, interval, k).b.open
    ensures exists i :: 0 <= i < k && Fails(answers, now, ops, interval, i) && FailuresSince(answers, now, ops, interval, i) >= 2
    decreases k
  {
    if k > 0 {
      OpensExactly(answers, now, ops, interval, k - 1);
      if At(answers, now, ops, interval, k - 1).b.open {
        OpenedBefore(answers, now, ops, interval, k - 1);
      }
    }
  }

  /** Three ends that fail, with no answer from the first to the last. */
  predicate ThreeFailures(answers: bool, now: real, ops: seq<Op>, interval: real, a: int, b: int, c: int) {
    && a < b < c
    && Fails(answers, now, ops, interval, a) && Fails(answers, now, ops, interval, b) && Fails(answers, now, ops, interval, c)
    && NoAnswer(answers, now, ops, interval, a, c)
  }

  lemma ThirdFailure(answers: bool, now: real, ops: seq<Op>, interval: real, c: nat)
    requires c < |ops| && Fails(answers, now, ops, interval, c)
    ensures FailuresSince(answers, now, ops, interval, c) >= 2 <==>
            exists a, b :: ThreeFailures(answers, now, ops, interval, a, b, c)
  {
    hide At;
    if FailuresSince(answers, now, ops, interval, c) >= 2 {
      OneMoreFailure(answers, now, ops, interval, c, 1);
      var b :| 0 <= b < c && Fails(answers, now, ops, interval, b) && NoAnswer(answers, now, ops, interval, b, c)
               && FailuresSince(answers, now, ops, interval, b) >= 1;
      OneMoreFailure(answers, now, ops, interval, b, 0);
      var a :| 0 <= a < b && Fails(answers, now, ops, interval, a) && NoAnswer(answers, now, ops, interval, a, b);
      assert ThreeFailures(answers, now, ops, interval, a, b, c);
    }
    if a, b :| ThreeFailures(answers, now, ops, interval, a, b, c) {
      OneMoreFailure(answers, now, ops, interval, b, 0);
      assert NoAnswer(answers, now, ops, interval, a, b) && NoAnswer(answers, now, ops, interval, b, c);
      OneMoreFailure(answers, now, ops, interval, c, 1);
    }
  }

  /** Over any run, checks included: the circuit is open at some point iff three ends fail with no answer in between. */
  lemma CircuitOpensExactly(answers: bool, now: real, ops: seq<Op>, interval: real)
    ensures (exists k :: 0 <= k <= |ops| && At(answers, now, ops, interval, k).b.open) <==>
            exists a, b, c :: ThreeFailures(answers, now, ops, interval, a, b, c)
  {
    if k :| 0 <= k <= |ops| && At(answers, now, ops, interval, k).b.open {
      OpenedBefore(answers, now, ops, interval, k);
      var c :| 0 <= c < k && Fails(answers, now, ops, interval, c) && FailuresSince(answers, now, ops, interval, c) >= 2;
      ThirdFailure(answers, now, ops, interval, c);
    }
    if a, b, c :| ThreeFailures(answers, now, ops, interval, a, b, c) {
      ThirdFailure(answers, now, ops, interval, c);
      OpensExactly(answers, now, ops, interval, c);
    }
  }

  /** Without checks, nothing is begun between a failure and the next answer. */
  lemma {:induction false} NothingBeginsWhileUnhealthy(answers: bool, now: real, ops: seq<Op>, interval: real, a: nat, k: nat)
    requires forall i :: 0 <= i < |ops| ==> !ops[i].BeginCheck?
    requires Fails(answers, now, ops, interval, a) && a < k <= |ops| && NoAnswer(answers, now, ops, interval, a, k)
    ensures !At(answers, now, ops, interval, k).b.healthy
    ensures forall i :: 0 <= i < |At(answers, now, ops, interval, k).flights| ==>
              At(answers, now, ops, interval, k).flights[i].begunAt < a
    decreases k
  {
    hide Backoff;
    var s := At(answers, now, ops, interval, k - 1);
    if k == a + 1 {
      forall i | 0 <= i < |s.flights|
        ensures s.flights[i].begunAt < a
      {
        FlightIsBegun(answers, now, ops, interval, a, i);
      }
    } else {
      NothingBeginsWhileUnhealthy(answers, now, ops, interval, a, k - 1);
    }
    assert k > a + 1 ==> !Answered(answers, now, ops, interval, k - 1);
    OnlyOldFlights(s, ops[k - 1], interval, a);
  }

  lemma OnlyOldFlights(s: Client, op: Op, interval: real, a: nat)
    requires forall i :: 0 <= i < |s.flights| ==> s.flights[i].begunAt < a
    requires !op.BeginCheck? && (op.BeginCall? ==> !s.b.healthy)
    ensures forall i :: 0 <= i < |Next(s, op, interval).flights| ==> Next(s, op, interval).flights[i].begunAt < a
  {
    forall i | 0 <= i < |Next(s, op, interval).flights|
      ensures Next(s, op, interval).flights[i].begunAt < a
    {
      NewOrOld(s, op, interval, i);
    }
  }

  /** The flight that step `k` ends. */
  function Ended(answers: bool, now: real, ops: seq<Op>, interval: real, k: int): Flight
    requires Fails(answers, now, ops, interval, k)
  {
    At(answers, now, ops, interval, k).flights[ops[k].flight]
  }

  /**
    Without health checks the circuit opens if and only if three calls fail that had all been begun before the
    first of the failures, with no answer in between.
    */
  lemma CallsOpenExactly(answers: bool, now: real, ops: seq<Op>, interval: real)
    requires forall i :: 0 <= i < |ops| ==> !ops[i].BeginCheck?
    ensures (exists k :: 0 <= k <= |ops| && At(answers, now, ops, interval, k).b.open) <==>
            exists a, b, c :: ThreeFailures(answers, now, ops, interval, a, b, c)
                              && Ended(answers, now, ops, interval, a).begunAt < a
                              && Ended(answers, now, ops, interval, b).begunAt < a
                              && Ended(answers, now, ops, interval, c).begunAt < a
  {
    CircuitOpensExactly(answers, now, ops, interval);
    if a, b, c :| ThreeFailures(answers, now, ops, interval, a, b, c) {
      FlightIsBegun(answers, now, ops, interval, a, ops[a].flight);
      NothingBeginsWhileUnhealthy(answers, now, ops, interval, a, b);
      NothingBeginsWhileUnhealthy(answers, now, ops, interval, a, c);
      assert Ended(answers, now, ops, interval, b).begunAt < a && Ended(answers, now, ops, interval, c).begunAt < a;
    }
  }
}
