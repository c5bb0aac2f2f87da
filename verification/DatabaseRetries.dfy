/** Retrying database calls (api/db_retry.py). Delays are real seconds. */
module DatabaseRetries {
  import opened Options
  import opened Backoffs

  // ---------- Which errors are worth a retry ----------

  /** An exception: its message, its SQLSTATE if it has one, and its `__cause__`. */
  datatype Exception = Exception(message: string, sqlstate: Option<string>, cause: Option<Exception>)

  /** `str.lower` on ASCII letters. */
  function Lower(s: string): string {
    seq(|s|, i requires 0 <= i < |s| => if 'A' <= s[i] <= 'Z' then ((s[i] as int) + 32) as char else s[i])
  }

  predicate StandsAt(s: string, part: string, i: nat) {
    i + |part| <= |s| && s[i..i + |part|] == part
  }

  predicate Contains(s: string, part: string) {
    exists i :: 0 <= i <= |s| && StandsAt(s, part, i)
  }

  const RETRYABLE_PATTERNS: seq<string> := [
    "database is locked", "database table is locked", "sqlite_busy", "sqlite_locked",
    "deadlock detected", "could not serialize access", "could not obtain lock", "connection refused",
    "connection reset", "server closed the connection unexpectedly",
    "canceling statement due to lock timeout", "lock timeout"
  ]

  predicate Retryable(e: Exception)
    decreases e
  {
    || (exists i :: 0 <= i < |RETRYABLE_PATTERNS| && Contains(Lower(e.message), RETRYABLE_PATTERNS[i]))
    || e.sqlstate == Some("40P01") || e.sqlstate == Some("40001")
    || (e.cause.Some? && Retryable(e.cause.value))
  }

  predicate Deadlock(e: Exception)
    decreases e
  {
    || Contains(Lower(e.message), "deadlock detected")
    || e.sqlstate == Some("40P01")
    || (e.cause.Some? && Deadlock(e.cause.value))
  }

  lemma ContainsMeans(s: string, part: string)
    ensures Contains(s, part) <==> exists a, b :: s == a + (part + b)
  {
    if Contains(s, part) {
      var i :| 0 <= i <= |s| && StandsAt(s, part, i);
      assert s == s[..i] + (part + s[i + |part|..]);
    }
    if a, b :| s == a + (part + b) {
      assert s[|a|..|a| + |part|] == part;
      assert StandsAt(s, part, |a|);
    }
  }

  /** A pattern occurs in the message in upper or lower case. */
  ghost predicate Says(e: Exception, pattern: string) {
    exists a, b :: Lower(e.message) == a + (pattern + b)
  }

  /** What is worth a retry: one of twelve texts, or one of two SQLSTATEs, on the exception or along its causes. */
  lemma RetryableExactly(e: Exception)
    ensures Retryable(e) <==>
            || Says(e, "database is locked") || Says(e, "database table is locked")
            || Says(e, "sqlite_busy") || Says(e, "sqlite_locked")
            || Says(e, "deadlock detected") || Says(e, "could not serialize access")
            || Says(e, "could not obtain lock") || Says(e, "connection refused") || Says(e, "connection reset")
            || Says(e, "server closed the connection unexpectedly")
            || Says(e, "canceling statement due to lock timeout") || Says(e, "lock timeout")
            || e.sqlstate == Some("40P01") || e.sqlstate == Some("40001")
            || (e.cause.Some? && Retryable(e.cause.value))
    ensures Deadlock(e) <==>
            || Says(e, "deadlock detected") || e.sqlstate == Some("40P01")
            || (e.cause.Some? && Deadlock(e.cause.value))
  {
    var s := Lower(e.message);
    forall i | 0 <= i < |RETRYABLE_PATTERNS|
      ensures Contains(s, RETRYABLE_PATTERNS[i]) <==> Says(e, RETRYABLE_PATTERNS[i])
    {
      ContainsMeans(s, RETRYABLE_PATTERNS[i]);
    }
    ContainsMeans(s, "deadlock detected");
    hide Contains, Says, Lower;
    assert |RETRYABLE_PATTERNS| == 12;
    assert RETRYABLE_PATTERNS[0] == "database is locked" && RETRYABLE_PATTERNS[1] == "database table is locked";
    assert RETRYABLE_PATTERNS[2] == "sqlite_busy" && RETRYABLE_PATTERNS[3] == "sqlite_locked";
    assert RETRYABLE_PATTERNS[4] == "deadlock detected" && RETRYABLE_PATTERNS[5] == "could not serialize access";
    assert RETRYABLE_PATTERNS[6] == "could not obtain lock" && RETRYABLE_PATTERNS[7] == "connection refused";
    assert RETRYABLE_PATTERNS[8] == "connection reset";
    assert RETRYABLE_PATTERNS[9] == "server closed the connection unexpectedly";
    assert RETRYABLE_PATTERNS[10] == "canceling statement due to lock timeout" && RETRYABLE_PATTERNS[11] == "lock timeout";
  }

  /** Every deadlock is retryable. */
  lemma {:induction false} DeadlocksAreRetryable(e: Exception)
    ensures Deadlock(e) ==> Retryable(e)
    decreases e
  {
    if Contains(Lower(e.message), "deadlock detected") {
      assert RETRYABLE_PATTERNS[4] == "deadlock detected";
    } else if e.cause.Some? {
      DeadlocksAreRetryable(e.cause.value);
    }
  }

  // ---------- Delays ----------

  const MAX_DEADLOCK_RETRIES := 3

  function Min(a: real, b: real): real {
    if b < a then b else a
  }

  /** Exponential, capped. */
  function Capped(attempt: nat, base: real, maxDelay: real): real {
    Min(base * Pow2(attempt) as real, maxDelay)
  }

  /** Moved by up to a quarter either way, and at least 10 ms. */
  function Jittered(delay: real, roll: real): real {
    var moved := delay + delay * 0.25 * (2.0 * roll - 1.0);
    if moved >= 0.01 then moved else 0.01
  }

  function Delay(attempt: nat, base: real, maxDelay: real, roll: real): real {
    Jittered(Capped(attempt, base, maxDelay), roll)
  }

  function Sum(s: seq<real>): real {
    if s == [] then 0.0 else Sum(s[..|s| - 1]) + s[|s| - 1]
  }

  // ---------- The loop ----------

  datatype Attempt<T> = Returns(value: T) | Raises(error: Exception)

  datatype Outcome<T> = Returned(value: T) | Reraised(error: Exception) | DeadlockError | DatabaseRetryableError

  /** Retryable failures among the first `n` calls that are deadlocks. */
  function Deadlocks<T>(calls: nat -> Attempt<T>, n: nat): nat {
    if n == 0 then 0
    else Deadlocks(calls, n - 1) + (if calls(n - 1).Raises? && Deadlock(calls(n - 1).error) then 1 else 0)
  }

  /** Call `n` ends the loop at once. */
  predicate Ends<T>(calls: nat -> Attempt<T>, n: nat) {
    match calls(n)
    case Returns(_) => true
    case Raises(e) => !Retryable(e) || (Deadlock(e) && Deadlocks(calls, n + 1) >= MAX_DEADLOCK_RETRIES)
  }

  function Ending<T>(calls: nat -> Attempt<T>, n: nat): Outcome<T>
    requires Ends(calls, n)
  {
    match calls(n)
    case Returns(value) => Returned(value)
    case Raises(e) => if Retryable(e) then DeadlockError else Reraised(e)
  }

  method WithJitter(delay: real, roll: real) returns (moved: real)
    ensures moved == Jittered(delay, roll)
  {
    var jitter := delay * 0.25 * (2.0 * roll - 1.0);
    moved := if delay + jitter >= 0.01 then delay + jitter else 0.01;
  }

  /** `calls(n)` is what call `n` would do; `rolls(n)` what `random.random()` gives after it. */
  method ExecuteWithRetry<T>(calls: nat -> Attempt<T>, rolls: nat -> real, maxRetries: int, base: real, maxDelay: real)
      returns (outcome: Outcome<T>, made: nat, slept: seq<real>)
    requires forall n :: Roll(rolls(n))
    ensures forall n :: 0 <= n < made - 1 ==> !Ends(calls, n)
    ensures made > 0 && Ends(calls, made - 1) ==> outcome == Ending(calls, made - 1)
    ensures made == 0 || !Ends(calls, made - 1) ==>
            outcome == DatabaseRetryableError && made == (if maxRetries < 0 then 0 else maxRetries + 1)
    ensures made <= if maxRetries < 0 then 0 else maxRetries + 1
    ensures |slept| == if made == 0 then 0 else made - 1
    ensures forall k :: 0 <= k < |slept| ==> slept[k] == Delay(k, base, maxDelay, rolls(k))
  {
    hide Retryable, Deadlock, Capped, Jittered;
    made, slept := 0, [];
    var deadlocks := 0;
    while made < maxRetries + 1
      invariant 0 <= made <= if maxRetries < 0 then 0 else maxRetries + 1
      invariant forall n :: 0 <= n < made ==> !Ends(calls, n)
      invariant deadlocks == Deadlocks(calls, made)
      invariant |slept| == if made <= maxRetries then made else if made == 0 then 0 else made - 1
      invariant forall k :: 0 <= k < |slept| ==> slept[k] == Delay(k, base, maxDelay, rolls(k))
    {
      var attempt := made;
      made := made + 1;
      match calls(attempt) {
        case Returns(value) =>
          return Returned(value), made, slept;
        case Raises(e) =>
          if !Retryable(e) {
            return Reraised(e), made, slept;
          }
          if Deadlock(e) {
            deadlocks := deadlocks + 1;
            if deadlocks >= MAX_DEADLOCK_RETRIES {
              return DeadlockError, made, slept;
            }
          }
          if attempt < maxRetries {
            var delay := WithJitter(Capped(attempt, base, maxDelay), rolls(attempt));
            slept := slept + [delay];
          }
      }
    }
    outcome := DatabaseRetryableError;
  }

  lemma {:induction false} AtMostTwoDeadlocksBefore<T>(calls: nat -> Attempt<T>, n: nat)
    requires forall k :: 0 <= k < n ==> !Ends(calls, k)
    ensures Deadlocks(calls, n) < MAX_DEADLOCK_RETRIES
    decreases n
  {
    if n > 0 {
      AtMostTwoDeadlocksBefore(calls, n - 1);
      assert !Ends(calls, n - 1);
      if calls(n - 1).Raises? {
        DeadlocksAreRetryable(calls(n - 1).error);
      }
      hide Retryable, Deadlock;
    }
  }

  /** DeadlockError comes exactly at the third deadlock, counted over the whole loop and not in a row. */
  lemma AbortsAtTheThirdDeadlock<T>(calls: nat -> Attempt<T>, n: nat)
    requires forall k :: 0 <= k < n ==> !Ends(calls, k)
    ensures Ends(calls, n) && Ending(calls, n) == DeadlockError <==>
            calls(n).Raises? && Deadlock(calls(n).error) && Deadlocks(calls, n + 1) == 3
  {
    AtMostTwoDeadlocksBefore(calls, n);
    if calls(n).Raises? {
      DeadlocksAreRetryable(calls(n).error);
    }
    hide Retryable, Deadlock;
  }

  // ---------- How long it can sleep ----------

  lemma TimesKeepsOrder(a: real, b: real, c: real)
    requires a <= b && c >= 0.0
    ensures c * a <= c * b
  {
  }

  lemma JitterBounds(d: real, roll: real)
    requires d >= 0.01 && Roll(roll)
    ensures 0.01 <= Jittered(d, roll) <= 1.25 * d
  {
    var f := 0.25 * (2.0 * roll - 1.0);
    assert d * 0.25 * (2.0 * roll - 1.0) == d * f;
    TimesKeepsOrder(f, 0.25, d);
  }

  lemma CapBounds(attempt: nat, base: real, maxDelay: real)
    requires base >= 0.01 && maxDelay >= 0.01
    ensures 0.01 <= Capped(attempt, base, maxDelay) <= maxDelay
    ensures Capped(attempt, base, maxDelay) <= base * Pow2(attempt) as real
  {
    TimesKeepsOrder(1.0, Pow2(attempt) as real, base);
  }

  /** Without jitter the delay doubles from one retry to the next until it reaches the cap. */
  lemma DelaysDouble(attempt: nat, base: real, maxDelay: real)
    requires 0.01 <= base <= maxDelay
    ensures Delay(0, base, maxDelay, 0.5) == base
    ensures var d := Delay(attempt, base, maxDelay, 0.5);
            Delay(attempt + 1, base, maxDelay, 0.5) == if 2.0 * d <= maxDelay then 2.0 * d else maxDelay
  {
    CapBounds(attempt, base, maxDelay);
    CapBounds(attempt + 1, base, maxDelay);
    Unjittered(Capped(attempt, base, maxDelay));
    Unjittered(Capped(attempt + 1, base, maxDelay));
    Unjittered(Capped(0, base, maxDelay));
    var p := Pow2(attempt) as real;
    assert Pow2(attempt + 1) == 2 * Pow2(attempt) && Pow2(0) == 1;
    assert base * (2.0 * p) == 2.0 * (base * p);
  }

  lemma Unjittered(d: real)
    requires d >= 0.01
    ensures Jittered(d, 0.5) == d
  {}

  /** The jitter moves a delay by up to a quarter either way, in proportion to the roll. */
  lemma JitterIsProportional(attempt: nat, base: real, maxDelay: real, roll: real)
    requires Roll(roll) && base >= 0.02 && maxDelay >= 0.02
    ensures var d := Delay(attempt, base, maxDelay, 0.5);
            Delay(attempt, base, maxDelay, roll) - d == (roll - 0.5) * (0.5 * d)
    ensures var d := Delay(attempt, base, maxDelay, 0.5);
            0.75 * d <= Delay(attempt, base, maxDelay, roll) < 1.25 * d
  {
    var d := Capped(attempt, base, maxDelay);
    assert d >= 0.02 by {
      TimesKeepsOrder(1.0, Pow2(attempt) as real, base);
    }
    Unjittered(d);
    hide Capped;
    var f := 0.5 * (roll - 0.5);
    assert d * 0.25 * (2.0 * roll - 1.0) == d * f == (roll - 0.5) * (0.5 * d);
    TimesKeepsOrder(-0.25, f, d);
    assert d * f < d * 0.25;
  }

  /** One delay: at most a quarter over the smaller of the exponential and the cap. */
  lemma DelayBounds(attempt: nat, base: real, maxDelay: real, roll: real)
    requires Roll(roll) && base >= 0.01 && maxDelay >= 0.01
    ensures 0.01 <= Delay(attempt, base, maxDelay, roll)
    ensures Delay(attempt, base, maxDelay, roll) <= 1.25 * (base * Pow2(attempt) as real)
    ensures Delay(attempt, base, maxDelay, roll) <= 1.25 * maxDelay
  {
    CapBounds(attempt, base, maxDelay);
    JitterBounds(Capped(attempt, base, maxDelay), roll);
    hide Capped, Jittered;
  }

  /** base * (2^n - 1): all exponential delays up to the `n`-th. */
  function Exponentials(n: nat, base: real): real {
    base * (Pow2(n) - 1) as real
  }

  function Caps(n: nat, maxDelay: real): real {
    n as real * maxDelay
  }

  lemma OneMoreDelay(n: nat, base: real, maxDelay: real)
    ensures Exponentials(n + 1, base) == Exponentials(n, base) + base * Pow2(n) as real
    ensures Caps(n + 1, maxDelay) == Caps(n, maxDelay) + maxDelay
    ensures Exponentials(0, base) == 0.0 && Caps(0, maxDelay) == 0.0
  {
    assert (Pow2(n + 1) - 1) as real == (Pow2(n) - 1) as real + Pow2(n) as real;
  }

  /** The delays before the first `n` retries add up to at most 1.25 * min(base * (2^n - 1), n * max_delay). */
  lemma {:induction false} SleepIsBounded(slept: seq<real>, rolls: nat -> real, base: real, maxDelay: real)
    requires base >= 0.01 && maxDelay >= 0.01
    requires forall n :: Roll(rolls(n))
    requires forall k :: 0 <= k < |slept| ==> slept[k] == Delay(k, base, maxDelay, rolls(k))
    ensures Sum(slept) <= 1.25 * Exponentials(|slept|, base)
    ensures Sum(slept) <= 1.25 * Caps(|slept|, maxDelay)
    decreases |slept|
  {
    if slept == [] {
      OneMoreDelay(0, base, maxDelay);
    } else {
      var k := |slept| - 1;
      OneMoreDelay(k, base, maxDelay);
      DelayBounds(k, base, maxDelay, rolls(k));
      hide Delay, Exponentials, Caps, Pow2, Roll;
      SleepIsBounded(slept[..k], rolls, base, maxDelay);
      assert Sum(slept) == Sum(slept[..k]) + slept[k];
    }
  }

  lemma MoreRetriesMoreRoom(m: nat, n: nat, base: real, maxDelay: real)
    requires m <= n && base >= 0.0 && maxDelay >= 0.0
    ensures Exponentials(m, base) <= Exponentials(n, base) && Caps(m, maxDelay) <= Caps(n, maxDelay)
  {
    Pow2Grows(m, n);
    TimesKeepsOrder((Pow2(m) - 1) as real, (Pow2(n) - 1) as real, base);
    TimesKeepsOrder(m as real, n as real, maxDelay);
  }

  /** The same in terms of `max_retries`, whatever the number of retries that were needed. */
  lemma TotalSleep(slept: seq<real>, rolls: nat -> real, maxRetries: nat, base: real, maxDelay: real)
    requires base >= 0.01 && maxDelay >= 0.01 && |slept| <= maxRetries
    requires forall n :: Roll(rolls(n))
    requires forall k :: 0 <= k < |slept| ==> slept[k] == Delay(k, base, maxDelay, rolls(k))
    ensures Sum(slept) <= 1.25 * Min(Exponentials(maxRetries, base), Caps(maxRetries, maxDelay))
  {
    SleepIsBounded(slept, rolls, base, maxDelay);
    MoreRetriesMoreRoom(|slept|, maxRetries, base, maxDelay);
    hide Exponentials, Caps, Sum, Delay;
  }
}
