/**
  Every run of one `transcoding_jobs` row: the writers in api/worker_api.py and api/admin.py, interleaved.
  A handler that reads the row, checks it and only later writes is two steps here, a check that leaves
  a ticket and a commit that writes from the ticket, so other handlers may act in between. A handler
  that dies after its check is a ticket never committed. The claim transaction and the reset lock
  the row or are one statement, so each is one step.
  */
module JobRuns {
  import opened Options
  import opened JobState

  type WorkerId = nat

  /** `message` is the reported error, already cut to 500 characters. */
  datatype Action =
    | Progress
    | Completion
    | Failure(message: string, retry: bool)
    | Release

  /**
    What a handler remembers from its check until its write; `worker` is who reported, and (for the proofs)
    `madeAt` the number of the step that checked.
    */
  datatype Ticket = Ticket(worker: Option<WorkerId>, action: Action, checkedAt: Instant, attempt: int, madeAt: nat)

  datatype Step =
    | Sweep(now: Instant)                                  // a claim call that picks another job, or none
    | Claim(worker: WorkerId, now: Instant)                // a claim call that picks this job if it is free
    | Report(worker: WorkerId, action: Action, now: Instant)  // progress, complete or fail: the check
    | AdminRelease(now: Instant)                           // disable or delete a worker: the check
    | StaleRelease(worker: WorkerId, now: Instant)         // the stale-job loop: the check
    | ShutdownRelease(now: Instant)                        // API shutdown: the check
    | Commit(ticket: nat)                                  // the write after a check
    | Reset                                                // create_or_reset_transcoding_job on conflict
    | Forget(worker: WorkerId)                             // delete_worker clears worker_id everywhere

  /** The row, its worker, the outstanding tickets, and as history the last claimant and the number of steps taken. */
  datatype Sys = Sys(row: DbRow, worker: Option<WorkerId>, tickets: seq<Ticket>,
                     claimant: Option<WorkerId>, count: nat)

  const MAX_ATTEMPTS := 3

  /** The freshly inserted job. */
  const INSERTED := Sys(DbRow(None, None, None, None, Some(1), Some(MAX_ATTEMPTS)), None, [], None, 0)

  predicate Overdue(row: DbRow, now: Instant) {
    row.claimExpiresAt.Some? && row.claimExpiresAt.value < now && row.completedAt.None?
  }

  function Released(s: Sys): Sys {
    s.(row := s.row.(claimedAt := None, claimExpiresAt := None), worker := None)
  }

  function Swept(s: Sys, now: Instant): Sys {
    if Overdue(s.row, now) then Released(s) else s
  }

  predicate Free(row: DbRow) {
    row.claimedAt.None? && row.completedAt.None?
  }

  function Claimed(s: Sys, w: WorkerId, now: Instant, lease: int): Sys {
    var t := Swept(s, now);
    if !Free(t.row) then t
    else t.(row := t.row.(claimedAt := Some(now), claimExpiresAt := Some(now + lease)),
            worker := Some(w), claimant := Some(w))
  }

  /** The worker owns the job and its claim is not overdue; a completion is ignored on a completed job. */
  predicate Accepts(s: Sys, w: WorkerId, action: Action, now: Instant) {
    && !action.Release?
    && s.worker == Some(w)
    && (s.row.claimExpiresAt.Some? ==> s.row.claimExpiresAt.value >= now)
    && (action.Completion? ==> s.row.completedAt.None?)
    && s.row.attemptNumber.Some? && s.row.maxAttempts.Some?
  }

  function Counter(c: Option<int>, default: int): int {
    if c.Some? then c.value else default
  }

  function WithTicket(s: Sys, worker: Option<WorkerId>, action: Action, now: Instant): Sys {
    s.(tickets := s.tickets + [Ticket(worker, action, now, Counter(s.row.attemptNumber, 1), s.count)])
  }

  /** `fail_job` decides between a retry and a final failure from the attempt it read. */
  predicate WillRetry(s: Sys, action: Action) {
    action.Failure? && action.retry
    && s.row.attemptNumber.Some? && s.row.maxAttempts.Some?
    && s.row.attemptNumber.value < s.row.maxAttempts.value
  }

  function Decided(s: Sys, action: Action): Action {
    if action.Failure? then action.(retry := WillRetry(s, action)) else action
  }

  function Written(s: Sys, t: Ticket, lease: int): Sys {
    match t.action
    case Progress => s.(row := s.row.(claimExpiresAt := Some(t.checkedAt + lease)))
    case Completion =>
      s.(row := s.row.(completedAt := Some(t.checkedAt), claimedAt := None, claimExpiresAt := None))
    case Failure(message, retry) =>
      if retry then
        s.(row := s.row.(lastError := Some(message), claimedAt := None, claimExpiresAt := None,
                         attemptNumber := Some(t.attempt + 1)),
           worker := None)
      else
        s.(row := s.row.(lastError := Some(message), claimedAt := None, claimExpiresAt := None,
                         completedAt := Some(t.checkedAt)))
    case Release => Released(s)
  }

  /** NULL + 1 is NULL: a missing attempt counter stays missing. */
  function ResetRow(row: DbRow): DbRow {
    row.(attemptNumber := if row.attemptNumber.Some? then Some(row.attemptNumber.value + 1) else None,
         claimedAt := None, claimExpiresAt := None, completedAt := None, lastError := None)
  }

  function Next(s: Sys, step: Step, lease: int): Sys {
    Effect(s, step, lease).(count := s.count + 1)
  }

  function Effect(s: Sys, step: Step, lease: int): Sys {
    match step
    case Sweep(now) => Swept(s, now)
    case Claim(w, now) => Claimed(s, w, now, lease)
    case Report(w, action, now) =>
      if Accepts(s, w, action, now) then WithTicket(s, Some(w), Decided(s, action), now) else s
    case AdminRelease(now) => if s.row.completedAt.None? then WithTicket(s, None, Release, now) else s
    case StaleRelease(w, now) =>
      if s.worker == Some(w) && s.row.completedAt.None?
         && (s.row.claimExpiresAt.None? || s.row.claimExpiresAt.value < now)
      then WithTicket(s, None, Release, now) else s
    case ShutdownRelease(now) =>
      if s.row.claimedAt.Some? && s.row.completedAt.None? then WithTicket(s, None, Release, now) else s
    case Commit(i) =>
      if i < |s.tickets|
      then Written(s.(tickets := s.tickets[..i] + s.tickets[i + 1..]), s.tickets[i], lease)
      else s
    case Reset => s.(row := ResetRow(s.row), worker := None)
    case Forget(w) => if s.worker == Some(w) then s.(worker := None) else s
  }

  function Run(s: Sys, steps: seq<Step>, lease: int): Sys
    decreases steps
  {
    if steps == [] then s else Run(Next(s, steps[0], lease), steps[1..], lease)
  }

  // ---------- What every run keeps ----------

  ghost predicate Inv(s: Sys) {
    && (s.row.claimedAt.Some? ==> s.row.claimExpiresAt.Some? && s.row.completedAt.None?)
    && (s.worker.Some? ==> s.claimant == s.worker)
    && (s.worker.Some? && s.row.completedAt.None? ==> s.row.claimedAt.Some?)
    && s.row.attemptNumber.Some? && s.row.attemptNumber.value >= 1
    && s.row.maxAttempts == Some(MAX_ATTEMPTS)
    && forall t :: t in s.tickets ==> t.attempt >= 1
  }

  lemma ClaimKeepsInv(s: Sys, w: WorkerId, now: Instant, lease: int)
    requires Inv(s)
    ensures Inv(Swept(s, now)) && Inv(Claimed(s, w, now, lease))
  {}

  lemma TicketKeepsInv(s: Sys, worker: Option<WorkerId>, action: Action, now: Instant)
    requires Inv(s)
    ensures Inv(WithTicket(s, worker, action, now))
  {}

  lemma WriteKeepsInv(s: Sys, i: nat, lease: int)
    requires Inv(s) && i < |s.tickets|
    ensures Inv(Written(s.(tickets := s.tickets[..i] + s.tickets[i + 1..]), s.tickets[i], lease))
  {
    var left := s.tickets[..i] + s.tickets[i + 1..];
    assert s.tickets[i] in s.tickets;
    assert forall t :: t in left ==> t in s.tickets;
  }

  lemma CountKeepsInv(s: Sys, count: nat)
    requires Inv(s)
    ensures Inv(s.(count := count))
  {}

  lemma NextKeepsInv(s: Sys, step: Step, lease: int)
    requires Inv(s)
    ensures Inv(Next(s, step, lease))
  {
    EffectKeepsInv(s, step, lease);
    hide Effect, Inv;
    CountKeepsInv(Effect(s, step, lease), s.count + 1);
  }

  lemma EffectKeepsInv(s: Sys, step: Step, lease: int)
    requires Inv(s)
    ensures Inv(Effect(s, step, lease))
  {
    match step
    case Sweep(now) => ClaimKeepsInv(s, 0, now, lease);
    case Claim(w, now) => ClaimKeepsInv(s, w, now, lease);
    case Commit(i) =>
      hide Written, Inv;
      if i < |s.tickets| {
        WriteKeepsInv(s, i, lease);
      }
    case Reset =>
    case Forget(_) =>
    case _ =>
      hide WithTicket, Accepts, Inv;
      forall worker, action, now
        ensures Inv(WithTicket(s, worker, action, now))
      {
        TicketKeepsInv(s, worker, action, now);
      }
  }

  lemma {:induction false} RunKeepsInv(s: Sys, steps: seq<Step>, lease: int)
    requires Inv(s)
    ensures Inv(Run(s, steps, lease))
    decreases steps
  {
    if steps != [] {
      NextKeepsInv(s, steps[0], lease);
      RunKeepsInv(Next(s, steps[0], lease), steps[1..], lease);
    }
  }

  /**
    In every reachable state the classifier is total, the SQL conditions select exactly what the Python
    predicates say, and a worker that is recorded on an uncompleted job is the last one that claimed it.
    */
  lemma ReachableRowsAreSound(steps: seq<Step>, lease: int, now: Instant)
    ensures var s := Run(INSERTED, steps, lease);
            && GetState(FromMapping(s.row), now).Some?
            && SqlAgrees(s.row, now)
            && (s.worker.Some? && s.row.completedAt.None? ==> s.row.claimedAt.Some? && s.claimant == s.worker)
  {
    RunKeepsInv(INSERTED, steps, lease);
    var s := Run(INSERTED, steps, lease);
    GetStateRaisesExactly(FromMapping(s.row), now);
    SqlAgreesOnPositiveCounters(s.row, now);
  }

  // ---------- Claims are exclusive ----------

  predicate ClaimSucceeds(s: Sys, step: Step) {
    step.Claim? && Free(Swept(s, step.now).row)
  }

  /** The events that may end a claim: a completion, a failure, a release, a reset, or an overdue claim swept away. */
  predicate EndsClaim(s: Sys, step: Step) {
    match step
    case Sweep(now) => Overdue(s.row, now)
    case Claim(_, now) => Overdue(s.row, now)
    case Commit(i) => i < |s.tickets| && !s.tickets[i].action.Progress?
    case Reset => true
    case _ => false
  }

  /** The state before step `i` of a run. */
  function At(s: Sys, steps: seq<Step>, lease: int, i: nat): Sys
    requires i <= |steps|
  {
    Run(s, steps[..i], lease)
  }

  lemma {:induction false} RunAppend(s: Sys, steps: seq<Step>, more: seq<Step>, lease: int)
    ensures Run(s, steps + more, lease) == Run(Run(s, steps, lease), more, lease)
    decreases steps
  {
    if steps == [] {
      assert steps + more == more;
    } else {
      assert (steps + more)[1..] == steps[1..] + more;
      RunAppend(Next(s, steps[0], lease), steps[1..], more, lease);
    }
  }

  lemma AtStep(s: Sys, steps: seq<Step>, lease: int, i: nat)
    requires i < |steps|
    ensures At(s, steps, lease, i + 1) == Next(At(s, steps, lease, i), steps[i], lease)
  {
    assert steps[..i + 1] == steps[..i] + [steps[i]];
    RunAppend(s, steps[..i], [steps[i]], lease);
    var t := At(s, steps, lease, i);
    assert Run(t, [steps[i]], lease) == Run(Next(t, steps[i], lease), [], lease);
  }

  /** A claimed row stays claimed through any step that is not one of the ending events. */
  lemma {:induction false} StaysClaimed(s: Sys, steps: seq<Step>, lease: int, i: nat, j: nat)
    requires i <= j <= |steps|
    requires At(s, steps, lease, i).row.claimedAt.Some?
    requires forall k :: i <= k < j ==> !EndsClaim(At(s, steps, lease, k), steps[k])
    ensures At(s, steps, lease, j).row.claimedAt.Some?
  {
    if i < j {
      StaysClaimed(s, steps, lease, i, j - 1);
      AtStep(s, steps, lease, j - 1);
      assert !EndsClaim(At(s, steps, lease, j - 1), steps[j - 1]);
    }
  }

  /** Between two successful claims of one job there is always an ending event, in every interleaving. */
  lemma ClaimsAreSeparated(s: Sys, steps: seq<Step>, lease: int, i: nat, j: nat)
    requires i < j < |steps|
    requires ClaimSucceeds(At(s, steps, lease, i), steps[i])
    requires ClaimSucceeds(At(s, steps, lease, j), steps[j])
    ensures exists k :: i < k <= j && EndsClaim(At(s, steps, lease, k), steps[k])
  {
    AtStep(s, steps, lease, i);
    if !exists k :: i < k < j && EndsClaim(At(s, steps, lease, k), steps[k]) {
      StaysClaimed(s, steps, lease, i + 1, j);
      assert EndsClaim(At(s, steps, lease, j), steps[j]);
    }
  }

  /** The claim is in place and runs to at least `until`. */
  predicate HeldUntil(s: Sys, until: Instant) {
    && s.row.claimedAt.Some? && s.row.completedAt.None?
    && s.row.claimExpiresAt.Some? && s.row.claimExpiresAt.value >= until
  }

  /** No handler ends the claim on purpose, and no progress is written that was checked before `since`. */
  predicate LeavesLease(s: Sys, step: Step, since: Instant) {
    match step
    case Commit(i) => i < |s.tickets| ==> s.tickets[i].action.Progress? && s.tickets[i].checkedAt >= since
    case Reset => false
    case _ => true
  }

  predicate ExpiredBy(s: Sys, step: Step, until: Instant) {
    (step.Sweep? || step.Claim?) && step.now > until && Overdue(s.row, step.now)
  }

  lemma {:induction false} LeaseStaysHeld(s: Sys, steps: seq<Step>, lease: int, i: nat, j: nat, since: Instant)
    requires i <= j <= |steps|
    requires HeldUntil(At(s, steps, lease, i), since + lease)
    requires forall k :: i <= k < j ==> LeavesLease(At(s, steps, lease, k), steps[k], since)
    requires forall k :: i <= k < j ==> !ExpiredBy(At(s, steps, lease, k), steps[k], since + lease)
    ensures HeldUntil(At(s, steps, lease, j), since + lease)
  {
    if i < j {
      LeaseStaysHeld(s, steps, lease, i, j - 1, since);
      AtStep(s, steps, lease, j - 1);
      assert LeavesLease(At(s, steps, lease, j - 1), steps[j - 1], since);
      assert !ExpiredBy(At(s, steps, lease, j - 1), steps[j - 1], since + lease);
    }
  }

  /**
    The lease a claim or a progress report gives (`since` is its time) is respected: if no handler ends
    the claim on purpose, the next successful claim comes only with or after a sweep later than `since + lease`.
    */
  lemma LeaseIsRespected(s: Sys, steps: seq<Step>, lease: int, i: nat, j: nat, since: Instant)
    requires i <= j < |steps|
    requires HeldUntil(At(s, steps, lease, i), since + lease)
    requires forall k :: i <= k < j ==> LeavesLease(At(s, steps, lease, k), steps[k], since)
    requires ClaimSucceeds(At(s, steps, lease, j), steps[j])
    ensures exists k :: i <= k <= j && ExpiredBy(At(s, steps, lease, k), steps[k], since + lease)
  {
    if !exists k :: i <= k < j && ExpiredBy(At(s, steps, lease, k), steps[k], since + lease) {
      LeaseStaysHeld(s, steps, lease, i, j, since);
      assert ExpiredBy(At(s, steps, lease, j), steps[j], since + lease);
    }
  }

  /** What gives a lease: a successful claim, and a progress report written while the claim is in place. */
  lemma LeaseIsGiven(s: Sys, step: Step, lease: int)
    ensures ClaimSucceeds(s, step) ==>
            HeldUntil(Next(s, step, lease), step.now + lease) && Next(s, step, lease).worker == Some(step.worker)
    ensures step.Commit? && step.ticket < |s.tickets| && s.tickets[step.ticket].action.Progress?
            && s.row.claimedAt.Some? && s.row.completedAt.None? ==>
            HeldUntil(Next(s, step, lease), s.tickets[step.ticket].checkedAt + lease)
  {
  }

  /** Only the last claimant of an uncompleted job passes a worker check, and only while its claim is not overdue. */
  lemma OnlyTheClaimantPasses(steps: seq<Step>, lease: int, w: WorkerId, action: Action, now: Instant)
    requires var s := Run(INSERTED, steps, lease); Accepts(s, w, action, now) && s.row.completedAt.None?
    ensures var s := Run(INSERTED, steps, lease);
            s.claimant == Some(w) && HeldUntil(s, now)
  {
    RunKeepsInv(INSERTED, steps, lease);
  }

  // ---------- Reset ----------

  /** A reset leads from any row to UNCLAIMED; it raises the attempt number exactly when there is one. */
  lemma ResetUnclaims(s: Sys, lease: int, now: Instant)
    ensures var t := Next(s, Reset, lease);
            && GetState(FromMapping(t.row), now) == Some(UNCLAIMED)
            && t.worker == None
            && (s.row.attemptNumber.None? ==> t.row.attemptNumber.None?)
            && (s.row.attemptNumber.Some? ==>
                  t.row.attemptNumber.Some? && t.row.attemptNumber.value > s.row.attemptNumber.value)
  {
  }

  // ---------- Completion ----------

  /** A completed job stays completed, and is never claimed again, until a reset. */
  lemma {:induction false} CompletionIsFinal(s: Sys, steps: seq<Step>, lease: int, k: nat)
    requires s.row.completedAt.Some? && k <= |steps|
    requires forall i :: 0 <= i < |steps| ==> !steps[i].Reset?
    ensures At(s, steps, lease, k).row.completedAt.Some?
    ensures k < |steps| ==> !ClaimSucceeds(At(s, steps, lease, k), steps[k])
    decreases k
  {
    if k > 0 {
      CompletionIsFinal(s, steps, lease, k - 1);
      AtStep(s, steps, lease, k - 1);
      assert !steps[k - 1].Reset?;
    }
  }

  // ---------- Writes are not guarded ----------

  /** This step makes the job free to be claimed: a release, a failure to be retried, a reset, or an overdue claim swept away. */
  predicate FreesJob(s: Sys, step: Step) {
    match step
    case Sweep(now) => Overdue(s.row, now)
    case Claim(_, now) => Overdue(s.row, now)
    case Commit(i) =>
      i < |s.tickets| && (s.tickets[i].action.Release? || (s.tickets[i].action.Failure? && s.tickets[i].action.retry))
    case Reset => true
    case _ => false
  }

  lemma {:induction false} StaysTaken(s: Sys, steps: seq<Step>, lease: int, i: nat, j: nat)
    requires i <= j <= |steps|
    requires !Free(At(s, steps, lease, i).row)
    requires forall k :: i <= k < j ==> !FreesJob(At(s, steps, lease, k), steps[k])
    ensures !Free(At(s, steps, lease, j).row)
  {
    if i < j {
      StaysTaken(s, steps, lease, i, j - 1);
      AtStep(s, steps, lease, j - 1);
      assert !FreesJob(At(s, steps, lease, j - 1), steps[j - 1]);
    }
  }

  lemma {:induction false} CountIsTheStep(steps: seq<Step>, lease: int, j: nat)
    requires j <= |steps|
    ensures At(INSERTED, steps, lease, j).count == j
    decreases j
  {
    if j == 0 {
      assert steps[..0] == [];
    } else {
      CountIsTheStep(steps, lease, j - 1);
      AtStep(INSERTED, steps, lease, j - 1);
    }
  }

  lemma AtTheStart(steps: seq<Step>, lease: int)
    ensures At(INSERTED, steps, lease, 0) == INSERTED
  {
    assert steps[..0] == [];
  }

  /** The step that left this ticket. */
  predicate Makes(s: Sys, step: Step, t: Ticket) {
    match step
    case Report(w, action, now) =>
      && Accepts(s, w, action, now) && t.worker == Some(w) && t.checkedAt == now && t.action == Decided(s, action)
      && Some(t.attempt) == s.row.attemptNumber
    case _ => t.worker.None? && t.action.Release?
  }

  /** Every outstanding ticket was left by an earlier check. */
  lemma {:induction false} TicketIsMade(steps: seq<Step>, lease: int, j: nat, k: nat)
    requires j <= |steps| && k < |At(INSERTED, steps, lease, j).tickets|
    ensures var t := At(INSERTED, steps, lease, j).tickets[k];
            t.madeAt < j && Makes(At(INSERTED, steps, lease, t.madeAt), steps[t.madeAt], t)
    decreases j
  {
    if j == 0 {
      AtTheStart(steps, lease);
      assert false;
    } else {
      AtStep(INSERTED, steps, lease, j - 1);
      CountIsTheStep(steps, lease, j - 1);
      var s := At(INSERTED, steps, lease, j - 1);
      var t := At(INSERTED, steps, lease, j).tickets[k];
      NewOrOld(s, steps[j - 1], lease, k);
      if i :| 0 <= i < |s.tickets| && s.tickets[i] == t {
        TicketIsMade(steps, lease, j - 1, i);
      }
    }
  }

  lemma NewOrOld(s: Sys, step: Step, lease: int, k: nat)
    requires k < |Next(s, step, lease).tickets|
    ensures var t := Next(s, step, lease).tickets[k];
            || (exists i :: 0 <= i < |s.tickets| && s.tickets[i] == t)
            || (t.madeAt == s.count && Makes(s, step, t))
  {
    var t := Next(s, step, lease).tickets[k];
    if step.Commit? && step.ticket < |s.tickets| {
      assert t == s.tickets[if k < step.ticket then k else k + 1];
    } else if k < |s.tickets| {
      assert t == s.tickets[k];
    }
  }

  /** The last successful claim among the steps `from` .. `until` - 1. */
  predicate LastClaim(steps: seq<Step>, lease: int, from: nat, i: int, until: nat) {
    && from <= i < until <= |steps| && ClaimSucceeds(At(INSERTED, steps, lease, i), steps[i])
    && forall k :: i < k < until ==> !ClaimSucceeds(At(INSERTED, steps, lease, k), steps[k])
  }

  lemma {:induction false} ClaimantIsTheLast(steps: seq<Step>, lease: int, from: nat, until: nat)
    requires from <= until <= |steps|
    ensures || (exists i :: LastClaim(steps, lease, from, i, until)
                            && At(INSERTED, steps, lease, until).claimant == Some(steps[i].worker))
            || ((forall k :: from <= k < until ==> !ClaimSucceeds(At(INSERTED, steps, lease, k), steps[k]))
                && At(INSERTED, steps, lease, until).claimant == At(INSERTED, steps, lease, from).claimant)
    decreases until
  {
    if from < until {
      ClaimantIsTheLast(steps, lease, from, until - 1);
      AtStep(INSERTED, steps, lease, until - 1);
      var s := At(INSERTED, steps, lease, until - 1);
      ClaimantChanges(s, steps[until - 1], lease);
      hide *;
      ExtendLastClaim(steps, lease, from, until);
    }
  }

  /** The same claim, or the step just done, is the last one. */
  lemma ExtendLastClaim(steps: seq<Step>, lease: int, from: nat, until: nat)
    requires from < until <= |steps|
    requires var s, t := At(INSERTED, steps, lease, until - 1), At(INSERTED, steps, lease, until);
             t.claimant == if ClaimSucceeds(s, steps[until - 1]) then Some(steps[until - 1].worker) else s.claimant
    requires || (exists i :: LastClaim(steps, lease, from, i, until - 1)
                             && At(INSERTED, steps, lease, until - 1).claimant == Some(steps[i].worker))
             || ((forall k :: from <= k < until - 1 ==> !ClaimSucceeds(At(INSERTED, steps, lease, k), steps[k]))
                 && At(INSERTED, steps, lease, until - 1).claimant == At(INSERTED, steps, lease, from).claimant)
    ensures || (exists i :: LastClaim(steps, lease, from, i, until)
                            && At(INSERTED, steps, lease, until).claimant == Some(steps[i].worker))
            || ((forall k :: from <= k < until ==> !ClaimSucceeds(At(INSERTED, steps, lease, k), steps[k]))
                && At(INSERTED, steps, lease, until).claimant == At(INSERTED, steps, lease, from).claimant)
  {
    hide At, Swept, Free;
    var s := At(INSERTED, steps, lease, until - 1);
    if ClaimSucceeds(s, steps[until - 1]) {
      assert LastClaim(steps, lease, from, until - 1, until);
    } else {
      if i :| LastClaim(steps, lease, from, i, until - 1) && s.claimant == Some(steps[i].worker) {
        assert LastClaim(steps, lease, from, i, until);
      }
    }
  }

  lemma ClaimantChanges(s: Sys, step: Step, lease: int)
    ensures Next(s, step, lease).claimant == if ClaimSucceeds(s, step) then Some(step.worker) else s.claimant
  {
  }

  lemma OneLastClaim(steps: seq<Step>, lease: int, from: nat, i: int, j: int, until: nat)
    requires until <= |steps| && LastClaim(steps, lease, from, i, until) && LastClaim(steps, lease, from, j, until)
    ensures i == j
  {
  }

  /** The report that step `j` writes, and the state its check saw. */
  ghost predicate WritesReport(steps: seq<Step>, lease: int, j: nat, t: Ticket) {
    && j < |steps| && steps[j].Commit? && steps[j].ticket < |At(INSERTED, steps, lease, j).tickets|
    && t == At(INSERTED, steps, lease, j).tickets[steps[j].ticket] && t.worker.Some?
  }

  lemma ReportWasAccepted(steps: seq<Step>, lease: int, j: nat, t: Ticket)
    requires WritesReport(steps, lease, j, t)
    ensures t.madeAt < j && steps[t.madeAt].Report? && steps[t.madeAt].worker == t.worker.value
    ensures var s := At(INSERTED, steps, lease, t.madeAt);
            && Accepts(s, t.worker.value, steps[t.madeAt].action, t.checkedAt)
            && s.claimant == t.worker && !Free(s.row)
    ensures var s := At(INSERTED, steps, lease, t.madeAt + 1);
            s.claimant == t.worker && !Free(s.row)
  {
    TicketIsMade(steps, lease, j, steps[j].ticket);
    RunKeepsInv(INSERTED, steps[..t.madeAt], lease);
    AtStep(INSERTED, steps, lease, t.madeAt);
  }

  /**
    The check protects the claim, the write does not. A report is written under another claimant than its own
    worker if and only if the last claim that succeeded between its check and its write was another worker's.
    */
  lemma LateWriteHitsAnotherClaimExactly(steps: seq<Step>, lease: int, j: nat, t: Ticket)
    requires WritesReport(steps, lease, j, t)
    ensures t.madeAt < j
    ensures At(INSERTED, steps, lease, j).claimant != t.worker <==>
            exists i :: LastClaim(steps, lease, t.madeAt + 1, i, j) && Some(steps[i].worker) != t.worker
  {
    ReportWasAccepted(steps, lease, j, t);
    hide At, ClaimSucceeds, WritesReport;
    ClaimantIsTheLast(steps, lease, t.madeAt + 1, j);
    if i :| LastClaim(steps, lease, t.madeAt + 1, i, j) && Some(steps[i].worker) != t.worker {
      var k :| LastClaim(steps, lease, t.madeAt + 1, k, j)
               && At(INSERTED, steps, lease, j).claimant == Some(steps[k].worker);
      OneLastClaim(steps, lease, t.madeAt + 1, i, k, j);
    }
  }

  /** Any claim between a report's check and its write needs the job freed in between. */
  lemma ClaimInBetweenNeedsFreeing(steps: seq<Step>, lease: int, j: nat, t: Ticket, i: nat)
    requires WritesReport(steps, lease, j, t) && t.madeAt < i < j
    requires ClaimSucceeds(At(INSERTED, steps, lease, i), steps[i])
    ensures exists e :: t.madeAt < e <= i && FreesJob(At(INSERTED, steps, lease, e), steps[e])
  {
    ReportWasAccepted(steps, lease, j, t);
    if !exists e :: t.madeAt < e < i && FreesJob(At(INSERTED, steps, lease, e), steps[e]) {
      StaysTaken(INSERTED, steps, lease, t.madeAt + 1, i);
      assert FreesJob(At(INSERTED, steps, lease, i), steps[i]);
    }
  }

  /** One such run: a completion checked in time completes the job under the worker that has claimed it since. */
  lemma LateCompletionHitsAnotherClaim(first: WorkerId, second: WorkerId, lease: int)
    requires lease >= 0
    ensures var steps := [Claim(first, 0), Report(first, Completion, 0), Claim(second, lease + 1), Commit(0)];
            var s := Run(INSERTED, steps, lease);
            && ClaimSucceeds(At(INSERTED, steps, lease, 2), steps[2])
            && s.row.completedAt == Some(0) && s.worker == Some(second)
  {
    var steps := [Claim(first, 0), Report(first, Completion, 0), Claim(second, lease + 1), Commit(0)];
    assert At(INSERTED, steps, lease, 0) == INSERTED;
    AtStep(INSERTED, steps, lease, 0);
    AtStep(INSERTED, steps, lease, 1);
    AtStep(INSERTED, steps, lease, 2);
    AtStep(INSERTED, steps, lease, 3);
    assert steps[..4] == steps;
  }

  /**
    In a sound state a step lowers the attempt number only if it writes a retry that was decided on an older
    attempt.
    */
  lemma AttemptDropsExactly(s: Sys, step: Step, lease: int)
    requires Inv(s)
    ensures Next(s, step, lease).row.attemptNumber.Some?
    ensures Next(s, step, lease).row.attemptNumber.value < s.row.attemptNumber.value <==>
            && step.Commit? && step.ticket < |s.tickets|
            && s.tickets[step.ticket].action.Failure? && s.tickets[step.ticket].action.retry
            && s.tickets[step.ticket].attempt + 1 < s.row.attemptNumber.value
  {
    NextKeepsInv(s, step, lease);
  }

  /** Such a write is reachable: two resets between the check and the write of a failure. */
  lemma AttemptCanDrop(w: WorkerId, lease: int, message: string)
    requires lease >= 0
    ensures var steps := [Claim(w, 0), Report(w, Failure(message, true), 0), Reset, Reset, Commit(0)];
            && At(INSERTED, steps, lease, 4).row.attemptNumber == Some(3)
            && Run(INSERTED, steps, lease).row.attemptNumber == Some(2)
  {
    var steps := [Claim(w, 0), Report(w, Failure(message, true), 0), Reset, Reset, Commit(0)];
    assert At(INSERTED, steps, lease, 0) == INSERTED;
    AtStep(INSERTED, steps, lease, 0);
    AtStep(INSERTED, steps, lease, 1);
    AtStep(INSERTED, steps, lease, 2);
    AtStep(INSERTED, steps, lease, 3);
    AtStep(INSERTED, steps, lease, 4);
    assert steps[..5] == steps;
  }

  // ---------- Where the handlers and the state machine part ----------

  /**
    The claim query does not look at last_error or the counters. In a reachable state it takes what
    `can_claim` allows, and besides that exactly the unclaimed jobs the state machine calls FAILED.
    */
  lemma ClaimTakesFailedJobsToo(steps: seq<Step>, lease: int, w: WorkerId, now: Instant)
    ensures var t := Swept(Run(INSERTED, steps, lease), now);
            var job := FromMapping(t.row);
            ClaimSucceeds(Run(INSERTED, steps, lease), Claim(w, now)) <==>
            CanClaim(job) || (GetState(job, now) == Some(FAILED) && job.claimedAt.None?)
  {
    RunKeepsInv(INSERTED, steps, lease);
  }

  /** A claim whose worker reports a failure to be retried, at one time. */
  function FailedAttempt(w: WorkerId, now: Instant, message: string): seq<Step> {
    [Claim(w, now), Report(w, Failure(message, true), now), Commit(0)]
  }

  lemma AttemptIsUsedUp(s: Sys, w: WorkerId, now: Instant, message: string, lease: int, attempt: int, error: Option<string>)
    requires lease >= 0 && 1 <= attempt < MAX_ATTEMPTS && s.tickets == []
    requires s.row == DbRow(None, None, None, error, Some(attempt), Some(MAX_ATTEMPTS))
    ensures var t := Run(s, FailedAttempt(w, now, message), lease);
            t.tickets == [] && t.row == DbRow(None, None, None, Some(message), Some(attempt + 1), Some(MAX_ATTEMPTS))
  {
    var steps := FailedAttempt(w, now, message);
    var claimed := Next(s, steps[0], lease);
    var reported := Next(claimed, steps[1], lease);
    assert reported.tickets == [Ticket(Some(w), Failure(message, true), now, attempt, claimed.count)];
    var written := Next(reported, steps[2], lease);
    assert written.tickets == [];
    hide Next;
    assert steps[1..][1..] == [steps[2]] && steps[1..][1..][1..] == [];
    assert Run(reported, [steps[2]], lease) == Run(written, [], lease);
    assert Run(s, steps, lease) == Run(claimed, steps[1..], lease) == Run(reported, [steps[2]], lease);
  }

  /** Such a job is reachable: two retried failures use up three attempts, and the job is queued again all the same. */
  lemma RetriedToFailedAndClaimed(w: WorkerId, lease: int, message: string)
    requires lease >= 0
    ensures var s := Run(INSERTED, FailedAttempt(w, 1, message) + FailedAttempt(w, 2, message), lease);
            GetState(FromMapping(s.row), 3) == Some(FAILED) && ClaimSucceeds(s, Claim(w, 3))
  {
    RunAppend(INSERTED, FailedAttempt(w, 1, message), FailedAttempt(w, 2, message), lease);
    AttemptIsUsedUp(INSERTED, w, 1, message, lease, 1, None);
    hide Run, FailedAttempt;
    AttemptIsUsedUp(Run(INSERTED, FailedAttempt(w, 1, message), lease), w, 2, message, lease, 2, Some(message));
  }
  /**
    A completion or failure report of the current claimant is accepted in two cases: `can_complete` holds,
    or this is the very instant of the expiry, which the state machine already calls expired.
    */
  lemma AcceptanceVersusCanComplete(steps: seq<Step>, lease: int, w: WorkerId, action: Action, now: Instant)
    requires !action.Release?
    ensures var s := Run(INSERTED, steps, lease);
            var job := FromMapping(s.row);
            Accepts(s, w, action, now) && s.row.completedAt.None? <==>
            && s.worker == Some(w)
            && (CanComplete(job, now) || (CanReclaim(job, now) && job.claimExpiresAt == Some(now)))
  {
    RunKeepsInv(INSERTED, steps, lease);
  }
}
