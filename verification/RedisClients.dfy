/** The Redis client of api/redis_client.py: health flag, failure count and circuit breaker. Times are seconds. */
module RedisClients {
  import opened Options
  import opened Backoffs

  const MAX_CONSECUTIVE_FAILURES := 10

  /** 30 s doubled for every failure after the third, at most 300 s. */
  function Nominal(failures: nat): int
    requires failures >= 3
  {
    var doubled := 30 * Pow2(failures - 3);
    if 300 <= doubled then 300 else doubled
  }

  /** `roll` is what `random.random()` gave: the nominal backoff moves by up to a fifth, but not below 30 s. */
  function Backoff(failures: nat, roll: real): real
    requires failures >= 3
  {
    var nominal := Nominal(failures) as real;
    var moved := nominal + nominal * 0.2 * (2.0 * roll - 1.0);
    if moved >= 30.0 then moved else 30.0
  }

  /** The breaker's fields, and (for the proofs) the time of the failure that last opened the circuit. */
  datatype Breaker = Breaker(healthy: bool, failures: nat, open: bool, openUntil: Option<real>,
        lastCheck: Option<real>, openedAt: real)

  // ---------- What the methods do to it ----------

  function Failed(b: Breaker, now: real, roll: real): Breaker {
    var failures := if b.failures + 1 <= MAX_CONSECUTIVE_FAILURES then b.failures + 1 else MAX_CONSECUTIVE_FAILURES;
    var c := b.(failures := failures, healthy := false);
    if failures >= 3 then c.(open := true, openUntil := Some(now + Backoff(failures, roll)), openedAt := now) else c
  }

  function Succeeded(b: Breaker): Breaker {
    b.(failures := 0, healthy := true, open := false, openUntil := None)
  }

  /** Reading `is_available` closes a circuit whose time is up. */
  function Looked(b: Breaker, now: real): Breaker {
    if b.open && !(b.openUntil.Some? && now < b.openUntil.value) then b.(open := false) else b
  }

  predicate TooSoon(b: Breaker, now: real, interval: real) {
    b.lastCheck.Some? && now - b.lastCheck.value < interval
  }

  /** What `_record_success` and a health check's own bookkeeping leave after an answered ping. */
  function Checked(b: Breaker, later: real): Breaker {
    Succeeded(b).(lastCheck := Some(later))
  }

  /** The state after `_initialize` on a configured server, with the answer to its ping. */
  function Initial(answers: bool, now: real): Breaker {
    Breaker(answers, 0, false, None, if answers then Some(now) else None, 0.0)
  }

  // ---------- The class ----------

  class RedisClient {
    const configured: bool
    const interval: real
    var connected: bool
    var healthy: bool
    var failures: nat
    var open: bool
    var openUntil: Option<real>
    var lastCheck: Option<real>
    ghost var openedAt: real

    ghost function State(): Breaker
      reads this
    {
      Breaker(healthy, failures, open, openUntil, lastCheck, openedAt)
    }

    constructor (configured: bool, interval: real, answers: bool, now: real)
      ensures this.configured == configured && this.interval == interval && connected == configured
      ensures State() == Initial(configured && answers, now)
    {
      this.configured, this.interval := configured, interval;
      connected := configured;
      healthy := configured && answers;
      failures := 0;
      open := false;
      openUntil := None;
      lastCheck := if configured && answers then Some(now) else None;
      openedAt := 0.0;
    }

    method IsAvailable(now: real) returns (available: bool)
      modifies this`open
      ensures State() == if configured && connected then Looked(old(State()), now) else old(State())
      ensures available <==> configured && connected && !open && healthy
      ensures Sound(old(State())) ==> (available <==> configured && connected && old(healthy))
    {
      if !configured || !connected {
        return false;
      }
      if open {
        if openUntil.Some? && now < openUntil.value {
          return false;
        }
        open := false;
      }
      return healthy;
    }

    method RecordFailure(now: real, roll: real)
      modifies this
      ensures connected == old(connected) && State() == Failed(old(State()), now, roll)
    {
      failures := if failures + 1 <= MAX_CONSECUTIVE_FAILURES then failures + 1 else MAX_CONSECUTIVE_FAILURES;
      healthy := false;
      if failures >= 3 {
        open := true;
        openUntil := Some(now + Backoff(failures, roll));
        openedAt := now;
      }
    }

    method RecordSuccess()
      modifies this
      ensures connected == old(connected) && State() == Succeeded(old(State()))
    {
      failures := 0;
      healthy := true;
      open := false;
      openUntil := None;
    }

    /** `execute_with_fallback` up to its await of Redis: whether Redis is asked at all, or the fallback is called. */
    method BeginExecute(now: real) returns (asks: bool)
      modifies this`open
      ensures State() == if configured && connected then Looked(old(State()), now) else old(State())
      ensures asks <==> configured && connected && !open && healthy
      ensures Sound(old(State())) ==> (asks <==> configured && connected && old(healthy))
    {
      asks := IsAvailable(now);
    }

    /** The rest, after the await: `answer` is what Redis gave, `None` for a RedisError. */
    method EndExecute<T>(answer: Option<T>, fallback: T, later: real, roll: real) returns (result: T)
      modifies this
      ensures connected == old(connected)
      ensures result == if answer.Some? then answer.value else fallback
      ensures State() == if answer.Some? then Succeeded(old(State())) else Failed(old(State()), later, roll)
    {
      if answer.Some? {
        RecordSuccess();
        return answer.value;
      } else {
        RecordFailure(later, roll);
        return fallback;
      }
    }

    /** `health_check` up to its await of the ping: the answer, if it is given without a ping. */
    method BeginHealthCheck(now: real) returns (known: Option<bool>)
      ensures known == if !connected then Some(false)
                       else if TooSoon(State(), now, interval) then Some(healthy) else None
      ensures known == None <==> connected && (lastCheck.None? || now - lastCheck.value >= interval)
    {
      if !connected {
        return Some(false);
      }
      if lastCheck.Some? && now - lastCheck.value < interval {
        return Some(healthy);
      }
      return None;
    }

    /** The rest, after the ping. */
    method EndHealthCheck(answers: bool, later: real, roll: real) returns (ok: bool)
      modifies this
      ensures connected == old(connected) && ok == answers
      ensures State() == if answers then Checked(old(State()), later) else Failed(old(State()), later, roll)
    {
      if answers {
        RecordSuccess();
        lastCheck := Some(later);
        return true;
      } else {
        RecordFailure(later, roll);
        return false;
      }
    }

    method Close()
      modifies this
      ensures !connected && State() == old(State()).(healthy := false)
    {
      connected := false;
      healthy := false;
    }
  }

  // ---------- Backoff ----------

  /**
    Healthy means no failures and a closed circuit; an open circuit means 3 to 10 failures and 30 to 360 s of
    backoff.
    */
  ghost predicate Sound(b: Breaker) {
    && b.failures <= 10
    && (b.healthy ==> b.failures == 0 && !b.open)
    && (b.open ==> b.failures >= 3 && b.openUntil.Some? && 30.0 <= b.openUntil.value - b.openedAt < 360.0)
  }

  lemma PowersOfTwo(k: nat)
    ensures Pow2(0) == 1 && Pow2(1) == 2 && Pow2(2) == 4 && Pow2(3) == 8
    ensures k >= 4 ==> Pow2(k) >= 16
    decreases k
  {
    assert Pow2(3) == 2 * Pow2(2);
    if k > 4 {
      PowersOfTwo(k - 1);
    } else if k == 4 {
      assert Pow2(4) == 2 * Pow2(3);
    }
  }

  /** The nominal backoffs: 30, 60, 120, 240, then 300 seconds. */
  lemma NominalValues(failures: nat)
    requires failures >= 3
    ensures Nominal(failures) == (if failures == 3 then 30 else if failures == 4 then 60 else if failures == 5 then 120
                                  else if failures == 6 then 240 else 300)
  {
    PowersOfTwo(failures - 3);
  }

  lemma BackoffBounds(failures: nat, roll: real)
    requires failures >= 3 && Roll(roll)
    ensures 30.0 <= Backoff(failures, roll) < 360.0
    ensures failures > 3 ==>
            0.8 * Nominal(failures) as real <= Backoff(failures, roll) < 1.2 * Nominal(failures) as real
    ensures failures == 3 ==> Backoff(failures, roll) < 36.0
  {
    NominalValues(failures);
  }

  /** One more failure surely lengthens the backoff, whatever the jitter, exactly up to the sixth failure. */
  lemma LaterFailuresWaitLonger(failures: nat)
    requires failures >= 3
    ensures (forall r, s :: Roll(r) && Roll(s) ==> Backoff(failures, r) < Backoff(failures + 1, s)) <==> failures <= 5
  {
    NominalValues(failures);
    NominalValues(failures + 1);
    if failures <= 5 {
      forall r, s | Roll(r) && Roll(s)
        ensures Backoff(failures, r) < Backoff(failures + 1, s)
      {
        BackoffBounds(failures, r);
        BackoffBounds(failures + 1, s);
      }
    } else {
      assert Roll(0.99) && Roll(0.0);
      assert Backoff(failures, 0.99) >= Backoff(failures + 1, 0.0);
    }
  }

  /** Failures recorded one after the other, each with its time and its roll. */
  function FailedTimes(b: Breaker, times: seq<(real, real)>): Breaker
    decreases |times|
  {
    if times == [] then b
    else
      var last := times[|times| - 1];
      Failed(FailedTimes(b, times[..|times| - 1]), last.0, last.1)
  }

  /** From a healthy client on, the circuit opens exactly at the third failure, and each further one moves its end. */
  lemma {:induction false} OpensAtTheThirdFailure(b: Breaker, times: seq<(real, real)>)
    requires Sound(b) && b.healthy
    ensures var c := FailedTimes(b, times);
            && c.failures == (if |times| <= 10 then |times| else 10)
            && (c.healthy <==> times == [])
            && (c.open <==> |times| >= 3)
            && (c.open ==> c.openUntil == Some(times[|times| - 1].0 + Backoff(c.failures, times[|times| - 1].1)))
    decreases |times|
  {
    hide Backoff;
    if times != [] {
      OpensAtTheThirdFailure(b, times[..|times| - 1]);
    }
  }
}
