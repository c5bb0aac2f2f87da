/** What a worker's report does to the row, from its check to its write: completion, failure and retry. */
module JobReports {
  import opened Options
  import opened JobState
  import opened JobRuns

  /** The row after a failure was written, on counters `attempt` and `max` read by its check at `checkedAt`. */
  predicate FailureWritten(was: Sys, s: Sys, message: string, retry: bool, attempt: int, max: int, checkedAt: Instant) {
    && s.row.claimedAt == None && s.row.claimExpiresAt == None
    && s.row.lastError == Some(message) && s.row.maxAttempts == was.row.maxAttempts
    && if retry && attempt < max
       then s.row.attemptNumber == Some(attempt + 1) && s.row.completedAt == was.row.completedAt && s.worker == None
       else s.row.attemptNumber == was.row.attemptNumber && s.row.completedAt == Some(checkedAt) && s.worker == was.worker
  }

  lemma RunOfTwo(s: Sys, first: Step, second: Step, lease: int)
    ensures Run(s, [first, second], lease) == Next(Next(s, first, lease), second, lease)
  {
    hide Next;
    var middle := Next(s, first, lease);
    assert [first, second][1..] == [second] && [second][1..] == [];
    assert Run(middle, [second], lease) == Run(Next(middle, second, lease), [], lease);
  }

  // ---------- Which checks pass ----------

  /**
    A check leaves a ticket, and only then: a report if its worker is recorded, the claim not overdue, the counters
    present, and, for a completion, the job uncompleted; a release by its own condition. Nothing else changes.
    */
  predicate Passes(s: Sys, step: Step) {
    match step
    case Report(w, action, now) =>
      && (action.Progress? || action.Completion? || action.Failure?)
      && s.worker == Some(w) && s.row.attemptNumber.Some? && s.row.maxAttempts.Some?
      && (s.row.claimExpiresAt.None? || now <= s.row.claimExpiresAt.value)
      && (action.Completion? ==> s.row.completedAt == None)
    case AdminRelease(_) => s.row.completedAt == None
    case StaleRelease(w, now) =>
      && s.worker == Some(w) && s.row.completedAt == None
      && (s.row.claimExpiresAt.None? || now > s.row.claimExpiresAt.value)
    case ShutdownRelease(_) => s.row.claimedAt != None && s.row.completedAt == None
    case _ => false
  }

  predicate IsCheck(step: Step) {
    step.Report? || step.AdminRelease? || step.StaleRelease? || step.ShutdownRelease?
  }

  lemma ChecksExactly(s: Sys, step: Step, lease: int)
    requires IsCheck(step)
    ensures var t := Next(s, step, lease);
            && t.row == s.row && t.worker == s.worker && t.claimant == s.claimant
            && if Passes(s, step)
               then |t.tickets| == |s.tickets| + 1 && t.tickets[..|s.tickets|] == s.tickets
                    && (t.tickets[|s.tickets|].action.Release? <==> !step.Report?)
               else t.tickets == s.tickets
  {
  }

  /** A release, once written, ends the claim and forgets the worker; a deleted worker is forgotten, no one else. */
  lemma ReleasesExactly(s: Sys, i: nat, w: WorkerId, lease: int)
    ensures i < |s.tickets| && s.tickets[i].action.Release? ==>
              var t := Next(s, Commit(i), lease);
              t.row == s.row.(claimedAt := None, claimExpiresAt := None) && t.worker == None
    ensures i >= |s.tickets| ==> Next(s, Commit(i), lease).row == s.row && Next(s, Commit(i), lease).worker == s.worker
    ensures var t := Next(s, Forget(w), lease);
            t.row == s.row && t.worker == (if s.worker == Some(w) then None else s.worker)
  {
  }

  /** A claim takes an unclaimed, uncompleted job, or one whose claim is overdue, and no other. */
  lemma ClaimsExactly(s: Sys, w: WorkerId, now: Instant, lease: int)
    ensures var t := Next(s, Claim(w, now), lease);
            var overdue := s.row.completedAt == None && s.row.claimExpiresAt.Some? && s.row.claimExpiresAt.value < now;
            if s.row.completedAt == None && (s.row.claimedAt == None || overdue)
            then t.row == s.row.(claimedAt := Some(now), claimExpiresAt := Some(now + lease))
                 && t.worker == Some(w) && t.claimant == Some(w)
            else t.row == s.row && t.worker == s.worker && t.claimant == s.claimant
    ensures var t := Next(s, Sweep(now), lease);
            var overdue := s.row.completedAt == None && s.row.claimExpiresAt.Some? && s.row.claimExpiresAt.value < now;
            if overdue then t.row == s.row.(claimedAt := None, claimExpiresAt := None) && t.worker == None
            else t.row == s.row && t.worker == s.worker
  {
  }

  // ---------- What a report writes ----------

  /**
    A failure report on an uncompleted job, written at once: if a retry is asked for and the attempt is below the
    maximum, the job is unclaimed and uncompleted with the next attempt; otherwise it is completed at the time of
    the check, with its attempt as it was.
    */
  lemma FailureReport(s: Sys, w: WorkerId, message: string, retry: bool, now: Instant, lease: int)
    requires Accepts(s, w, Failure(message, retry), now) && s.row.completedAt == None
    ensures s.row.attemptNumber.Some? && s.row.maxAttempts.Some?
    ensures var t := Run(s, [Report(w, Failure(message, retry), now), Commit(|s.tickets|)], lease);
            && FailureWritten(s, t, message, retry, s.row.attemptNumber.value, s.row.maxAttempts.value, now)
            && (t.row.completedAt == None <==> retry && s.row.attemptNumber.value < s.row.maxAttempts.value)
            && t.tickets == s.tickets
  {
    RunOfTwo(s, Report(w, Failure(message, retry), now), Commit(|s.tickets|), lease);
    var checked := Next(s, Report(w, Failure(message, retry), now), lease);
    assert checked.tickets[..|s.tickets|] == s.tickets;
  }

  /** A completion report, written at once, completes the job and ends the claim, and nothing else. */
  lemma CompletionReport(s: Sys, w: WorkerId, now: Instant, lease: int)
    requires Accepts(s, w, Completion, now)
    ensures var t := Run(s, [Report(w, Completion, now), Commit(|s.tickets|)], lease);
            && t.row == s.row.(completedAt := Some(now), claimedAt := None, claimExpiresAt := None)
            && t.worker == s.worker && t.tickets == s.tickets
  {
    RunOfTwo(s, Report(w, Completion, now), Commit(|s.tickets|), lease);
    var checked := Next(s, Report(w, Completion, now), lease);
    assert checked.tickets[..|s.tickets|] == s.tickets;
  }

  /** A progress report, written at once, sets the expiry to the lease from its check, and nothing else. */
  lemma ProgressReport(s: Sys, w: WorkerId, now: Instant, lease: int)
    requires Accepts(s, w, Progress, now)
    ensures var t := Run(s, [Report(w, Progress, now), Commit(|s.tickets|)], lease);
            && t.row == s.row.(claimExpiresAt := Some(now + lease))
            && t.worker == s.worker && t.tickets == s.tickets
  {
    RunOfTwo(s, Report(w, Progress, now), Commit(|s.tickets|), lease);
    var checked := Next(s, Report(w, Progress, now), lease);
    assert checked.tickets[..|s.tickets|] == s.tickets;
  }

  /** However many steps lie between, a failure is written as its check decided, on the counters its check read. */
  lemma FailureIsWrittenAsDecided(steps: seq<Step>, lease: int, j: nat, t: Ticket)
    requires WritesReport(steps, lease, j, t) && t.action.Failure?
    ensures t.madeAt < j && steps[t.madeAt].Report? && steps[t.madeAt].action.Failure?
    ensures var c, report := At(INSERTED, steps, lease, t.madeAt).row, steps[t.madeAt];
            && c.attemptNumber.Some? && c.maxAttempts.Some?
            && FailureWritten(At(INSERTED, steps, lease, j), At(INSERTED, steps, lease, j + 1), report.action.message,
                              report.action.retry, c.attemptNumber.value, c.maxAttempts.value, report.now)
  {
    TicketIsMade(steps, lease, j, steps[j].ticket);
    AtStep(INSERTED, steps, lease, j);
    hide At;
  }

  // ---------- Attempts ----------

  function Resets(steps: seq<Step>, k: nat): nat
    requires k <= |steps|
  {
    if k == 0 then 0 else Resets(steps, k - 1) + if steps[k - 1].Reset? then 1 else 0
  }

  /** The row's attempt is at most 3 plus `resets`, and every retry still to be written was decided below 3. */
  ghost predicate AttemptsBounded(s: Sys, resets: nat) {
    && s.row.attemptNumber.Some? && s.row.attemptNumber.value <= 3 + resets
    && s.row.maxAttempts == Some(3)
    && forall i :: 0 <= i < |s.tickets| && s.tickets[i].action.Failure? && s.tickets[i].action.retry ==>
         s.tickets[i].attempt < 3
  }

  lemma NextKeepsAttemptsBounded(s: Sys, step: Step, lease: int, resets: nat)
    requires AttemptsBounded(s, resets)
    ensures AttemptsBounded(Next(s, step, lease), resets + if step.Reset? then 1 else 0)
  {
    var t := Next(s, step, lease);
    forall i | 0 <= i < |t.tickets| && t.tickets[i].action.Failure? && t.tickets[i].action.retry
      ensures t.tickets[i].attempt < 3
    {
      NewOrOld(s, step, lease, i);
    }
  }

  /**
    In every interleaving the attempt number stays within the maximum of 3, but for one more with each reset:
    without a reset no job is tried a fourth time.
    */
  lemma {:induction false} AttemptsStayBounded(steps: seq<Step>, lease: int, k: nat)
    requires k <= |steps|
    ensures AttemptsBounded(At(INSERTED, steps, lease, k), Resets(steps, k))
    ensures Resets(steps, k) == 0 ==> At(INSERTED, steps, lease, k).row.attemptNumber.value <= 3
    decreases k
  {
    if k == 0 {
      AtTheStart(steps, lease);
    } else {
      AttemptsStayBounded(steps, lease, k - 1);
      AtStep(INSERTED, steps, lease, k - 1);
      hide At, Next;
      NextKeepsAttemptsBounded(At(INSERTED, steps, lease, k - 1), steps[k - 1], lease, Resets(steps, k - 1));
    }
  }
}
