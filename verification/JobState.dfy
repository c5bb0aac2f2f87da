/**
  The transcoding job state machine (api/job_state.py): one state derived from nullable columns,
  described three times, as predicates over a normalised row, as an ordered classifier, and as SQL
  conditions over the raw row.
  */
module JobState {
  import opened Options

  /** A point in time, in microseconds UTC. */
  type Instant = int

  /** A `transcoding_jobs` row as the database holds it. Every column here is nullable. */
  datatype DbRow = DbRow(
    claimedAt: Option<Instant>,
    claimExpiresAt: Option<Instant>,
    completedAt: Option<Instant>,
    lastError: Option<string>,
    attemptNumber: Option<int>,
    maxAttempts: Option<int>)

  /** The row after `JobRow.from_mapping`: both counters are present and at least 1. */
  datatype JobRow = JobRow(
    claimedAt: Option<Instant>,
    claimExpiresAt: Option<Instant>,
    completedAt: Option<Instant>,
    lastError: Option<string>,
    attemptNumber: int,
    maxAttempts: int)

  datatype State = UNCLAIMED | CLAIMED | EXPIRED | COMPLETED | FAILED | RETRYING

  function CounterOr(c: Option<int>, default: int): int {
    if c.None? || c.value < 1 then default else c.value
  }

  function FromMapping(row: DbRow): JobRow {
    JobRow(row.claimedAt, row.claimExpiresAt, row.completedAt, row.lastError,
           CounterOr(row.attemptNumber, 1), CounterOr(row.maxAttempts, 3))
  }

  // ---------- Python predicates ----------

  predicate IsUnclaimed(job: JobRow) {
    job.claimedAt.None? && job.completedAt.None? && job.lastError.None?
  }

  predicate IsClaimed(job: JobRow, now: Instant) {
    && job.claimedAt.Some?
    && job.completedAt.None?
    && job.claimExpiresAt.Some?
    && job.claimExpiresAt.value > now
  }

  predicate IsExpired(job: JobRow, now: Instant) {
    && job.claimedAt.Some?
    && job.completedAt.None?
    && job.claimExpiresAt.Some?
    && job.claimExpiresAt.value <= now
  }

  predicate IsCompleted(job: JobRow) {
    job.completedAt.Some?
  }

  predicate IsFailed(job: JobRow) {
    job.completedAt.None? && job.lastError.Some? && job.attemptNumber >= job.maxAttempts
  }

  predicate IsRetrying(job: JobRow) {
    && job.completedAt.None?
    && job.lastError.Some?
    && job.attemptNumber < job.maxAttempts
    && job.claimedAt.None?
  }

  /** The ordered classifier; `None` is the ValueError raised for an indeterminate row. */
  function GetState(job: JobRow, now: Instant): Option<State> {
    if IsCompleted(job) then Some(COMPLETED)
    else if IsFailed(job) then Some(FAILED)
    else if IsClaimed(job, now) then Some(CLAIMED)
    else if IsExpired(job, now) then Some(EXPIRED)
    else if IsRetrying(job) then Some(RETRYING)
    else if IsUnclaimed(job) then Some(UNCLAIMED)
    else None
  }

  predicate CanClaim(job: JobRow) {
    IsUnclaimed(job) || IsRetrying(job)
  }

  predicate CanReclaim(job: JobRow, now: Instant) {
    IsExpired(job, now)
  }

  predicate CanComplete(job: JobRow, now: Instant) {
    IsClaimed(job, now)
  }

  predicate CanFail(job: JobRow, now: Instant) {
    IsClaimed(job, now)
  }

  /** The predicate that names a state, used where the classifier and the predicates are compared. */
  predicate InState(job: JobRow, now: Instant, s: State) {
    match s
    case UNCLAIMED => IsUnclaimed(job)
    case CLAIMED => IsClaimed(job, now)
    case EXPIRED => IsExpired(job, now)
    case COMPLETED => IsCompleted(job)
    case FAILED => IsFailed(job)
    case RETRYING => IsRetrying(job)
  }

  /** `get_state` raises on one set of rows exactly: claimed with no expiry, and neither completed nor exhausted. */
  lemma GetStateRaisesExactly(job: JobRow, now: Instant)
    ensures GetState(job, now).None? <==>
            && job.completedAt.None?
            && job.claimedAt.Some?
            && job.claimExpiresAt.None?
            && !(job.lastError.Some? && job.attemptNumber >= job.maxAttempts)
  {
  }

  /**
    The predicates are a partition of the classified rows, except that FAILED overlaps with a live or
    an expired claim; on that overlap alone the order of the classifier decides.
    */
  lemma PredicatesOverlapOnlyOnExhaustedClaims(job: JobRow, now: Instant, s: State, t: State)
    requires InState(job, now, s) && InState(job, now, t) && s != t
    ensures FAILED in {s, t}
    ensures s in {CLAIMED, EXPIRED} || t in {CLAIMED, EXPIRED}
    ensures GetState(job, now) == Some(FAILED) && job.claimedAt.Some?
  {
  }

  /** What each transition guard says in terms of the classified state, both directions. */
  lemma GuardsMatchStates(job: JobRow, now: Instant)
    ensures CanClaim(job) <==> GetState(job, now) in {Some(UNCLAIMED), Some(RETRYING)}
    ensures CanComplete(job, now) <==>
            || GetState(job, now) == Some(CLAIMED)
            || (GetState(job, now) == Some(FAILED) && job.claimedAt.Some?
                && job.claimExpiresAt.Some? && job.claimExpiresAt.value > now)
    ensures CanReclaim(job, now) <==>
            || GetState(job, now) == Some(EXPIRED)
            || (GetState(job, now) == Some(FAILED) && job.claimedAt.Some?
                && job.claimExpiresAt.Some? && job.claimExpiresAt.value <= now)
    ensures CanFail(job, now) <==> CanComplete(job, now)
  {
  }

  /** At most one of the guards is open at any time. */
  lemma GuardsExclude(job: JobRow, now: Instant)
    ensures !(CanClaim(job) && CanReclaim(job, now))
    ensures !(CanClaim(job) && CanComplete(job, now))
    ensures !(CanReclaim(job, now) && CanComplete(job, now))
  {
  }

  /** On an unchanged row, the passing of time can only turn CLAIMED into EXPIRED, and does so exactly at the expiry. */
  lemma TimeOnlyExpires(job: JobRow, earlier: Instant, later: Instant)
    requires earlier <= later
    ensures GetState(job, earlier) == GetState(job, later)
            || (GetState(job, earlier) == Some(CLAIMED) && GetState(job, later) == Some(EXPIRED))
    ensures GetState(job, earlier) != GetState(job, later) <==>
            GetState(job, earlier) == Some(CLAIMED) && job.claimExpiresAt.value <= later
  {
  }

  // ---------- SQL conditions ----------

  datatype Column = ClaimedAt | ClaimExpiresAt | CompletedAt | LastError | AttemptNumber | MaxAttempts

  datatype Comparison = Less | AtMost | Greater | AtLeast

  /** What a comparison reads: a column, or the bound `:now` parameter. */
  datatype Operand = Col(c: Column) | Now

  datatype Condition =
    | IsNull(c: Column)
    | IsNotNull(c: Column)
    | Compare(left: Operand, op: Comparison, right: Operand)
    | And(p: Condition, q: Condition)
    | Or(p: Condition, q: Condition)

  /** SQL's truth values: a WHERE clause keeps a row only when its condition is TRUE. */
  datatype Truth = TRUE | FALSE | UNKNOWN

  function Known(b: bool): Truth {
    if b then TRUE else FALSE
  }

  predicate Null(row: DbRow, c: Column) {
    match c
    case ClaimedAt => row.claimedAt.None?
    case ClaimExpiresAt => row.claimExpiresAt.None?
    case CompletedAt => row.completedAt.None?
    case LastError => row.lastError.None?
    case AttemptNumber => row.attemptNumber.None?
    case MaxAttempts => row.maxAttempts.None?
  }

  /** The number a comparison reads; NULL for a null column, and for the text column no comparison uses. */
  function Read(row: DbRow, now: Instant, x: Operand): Option<int> {
    match x
    case Now => Some(now)
    case Col(ClaimedAt) => row.claimedAt
    case Col(ClaimExpiresAt) => row.claimExpiresAt
    case Col(CompletedAt) => row.completedAt
    case Col(LastError) => None
    case Col(AttemptNumber) => row.attemptNumber
    case Col(MaxAttempts) => row.maxAttempts
  }

  function Eval(cond: Condition, row: DbRow, now: Instant): Truth {
    match cond
    case IsNull(c) => Known(Null(row, c))
    case IsNotNull(c) => Known(!Null(row, c))
    case Compare(left, op, right) =>
      var l, r := Read(row, now, left), Read(row, now, right);
      if l.None? || r.None? then UNKNOWN
      else
        (match op
         case Less => Known(l.value < r.value)
         case AtMost => Known(l.value <= r.value)
         case Greater => Known(l.value > r.value)
         case AtLeast => Known(l.value >= r.value))
    case And(p, q) =>
      var a, b := Eval(p, row, now), Eval(q, row, now);
      if a == FALSE || b == FALSE then FALSE else if a == TRUE && b == TRUE then TRUE else UNKNOWN
    case Or(p, q) =>
      var a, b := Eval(p, row, now), Eval(q, row, now);
      if a == TRUE || b == TRUE then TRUE else if a == FALSE && b == FALSE then FALSE else UNKNOWN
  }

  predicate Selects(cond: Condition, row: DbRow, now: Instant) {
    Eval(cond, row, now) == TRUE
  }

  const SQL_UNCLAIMED := And(And(IsNull(ClaimedAt), IsNull(CompletedAt)), IsNull(LastError))

  const SQL_CLAIMED :=
    And(And(IsNotNull(ClaimedAt), Compare(Col(ClaimExpiresAt), Greater, Now)), IsNull(CompletedAt))

  const SQL_EXPIRED :=
    And(And(IsNotNull(ClaimedAt), Compare(Col(ClaimExpiresAt), AtMost, Now)), IsNull(CompletedAt))

  const SQL_COMPLETED := IsNotNull(CompletedAt)

  const SQL_FAILED :=
    And(And(IsNull(CompletedAt), IsNotNull(LastError)), Compare(Col(AttemptNumber), AtLeast, Col(MaxAttempts)))

  const SQL_RETRYING :=
    And(And(And(IsNull(CompletedAt), IsNotNull(LastError)), Compare(Col(AttemptNumber), Less, Col(MaxAttempts))),
        IsNull(ClaimedAt))

  const SQL_CLAIMABLE := Or(SQL_UNCLAIMED, SQL_RETRYING)

  function SqlOf(s: State): Condition {
    match s
    case UNCLAIMED => SQL_UNCLAIMED
    case CLAIMED => SQL_CLAIMED
    case EXPIRED => SQL_EXPIRED
    case COMPLETED => SQL_COMPLETED
    case FAILED => SQL_FAILED
    case RETRYING => SQL_RETRYING
  }

  /** The SQL condition of a state, and the claimable condition, keep this row exactly when Python's predicates hold. */
  ghost predicate SqlAgrees(row: DbRow, now: Instant) {
    && (forall s :: Selects(SqlOf(s), row, now) <==> InState(FromMapping(row), now, s))
    && (Selects(SQL_CLAIMABLE, row, now) <==> CanClaim(FromMapping(row)))
  }

  /**
    The rows on which defaulting the counters (NULL or below 1 becomes 1 and 3) does not change how they
    compare. A NULL counter makes both SQL conditions UNKNOWN, so Python must call the row neither failed
    nor retrying: it must see retries left, and a claim in place.
    */
  predicate CountersKeepTheirOrder(row: DbRow) {
    match (row.attemptNumber, row.maxAttempts)
    case (Some(a), Some(m)) =>
      if m >= 1 then a >= 1 || m >= 2
      else a >= 3 || a < m
    case (_, _) =>
      row.claimedAt.Some? && CounterOr(row.attemptNumber, 1) < CounterOr(row.maxAttempts, 3)
  }

  /** Spelled out, each condition's truth in three-valued logic. */
  lemma EvalConditions(row: DbRow, now: Instant)
    ensures Selects(SQL_UNCLAIMED, row, now) <==> row.claimedAt.None? && row.completedAt.None? && row.lastError.None?
    ensures Selects(SQL_CLAIMED, row, now) <==>
            row.claimedAt.Some? && row.completedAt.None? && row.claimExpiresAt.Some? && row.claimExpiresAt.value > now
    ensures Selects(SQL_EXPIRED, row, now) <==>
            row.claimedAt.Some? && row.completedAt.None? && row.claimExpiresAt.Some? && row.claimExpiresAt.value <= now
    ensures Selects(SQL_FAILED, row, now) <==>
            && row.completedAt.None? && row.lastError.Some?
            && row.attemptNumber.Some? && row.maxAttempts.Some? && row.attemptNumber.value >= row.maxAttempts.value
    ensures Selects(SQL_RETRYING, row, now) <==>
            && row.completedAt.None? && row.lastError.Some? && row.claimedAt.None?
            && row.attemptNumber.Some? && row.maxAttempts.Some? && row.attemptNumber.value < row.maxAttempts.value
    ensures Selects(SQL_CLAIMABLE, row, now) <==> Selects(SQL_UNCLAIMED, row, now) || Selects(SQL_RETRYING, row, now)
  {
    var noClaim, noCompletion := IsNull(ClaimedAt), IsNull(CompletedAt);
    var hasError := IsNotNull(LastError);
    SelectsAnd(noClaim, noCompletion, row, now);
    SelectsAnd(And(noClaim, noCompletion), IsNull(LastError), row, now);
    SelectsAnd(IsNotNull(ClaimedAt), Compare(Col(ClaimExpiresAt), Greater, Now), row, now);
    SelectsAnd(SQL_CLAIMED.p, noCompletion, row, now);
    SelectsAnd(IsNotNull(ClaimedAt), Compare(Col(ClaimExpiresAt), AtMost, Now), row, now);
    SelectsAnd(SQL_EXPIRED.p, noCompletion, row, now);
    SelectsAnd(noCompletion, hasError, row, now);
    SelectsAnd(And(noCompletion, hasError), SQL_FAILED.q, row, now);
    SelectsAnd(And(noCompletion, hasError), SQL_RETRYING.p.q, row, now);
    SelectsAnd(SQL_RETRYING.p, noClaim, row, now);
  }

  /** TRUE under AND: both sides are TRUE, whatever UNKNOWNs do elsewhere. */
  lemma SelectsAnd(p: Condition, q: Condition, row: DbRow, now: Instant)
    ensures Selects(And(p, q), row, now) <==> Selects(p, row, now) && Selects(q, row, now)
  {
  }

  /** The SQL conditions and the Python predicates select the same rows, exactly where defaulting is harmless. */
  lemma SqlAgreesExactly(row: DbRow, now: Instant)
    ensures SqlAgrees(row, now) <==>
            row.completedAt.Some? || row.lastError.None? || CountersKeepTheirOrder(row)
  {
    EvalConditions(row, now);
    var job := FromMapping(row);
    assert forall s | s in {UNCLAIMED, CLAIMED, EXPIRED, COMPLETED} ::
        Selects(SqlOf(s), row, now) <==> InState(job, now, s);
    if row.completedAt.None? && row.lastError.Some? {
      assert SqlAgrees(row, now) <==>
             && (Selects(SqlOf(FAILED), row, now) <==> InState(job, now, FAILED))
             && (Selects(SqlOf(RETRYING), row, now) <==> InState(job, now, RETRYING));
    }
  }

  /** The domain the source intends: counters present and at least 1. */
  lemma SqlAgreesOnPositiveCounters(row: DbRow, now: Instant)
    requires row.attemptNumber.Some? && row.attemptNumber.value >= 1
    requires row.maxAttempts.Some? && row.maxAttempts.value >= 1
    ensures SqlAgrees(row, now)
  {
    SqlAgreesExactly(row, now);
  }
}
