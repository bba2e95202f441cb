/**
 What a claim gives the worker that makes it, what a refused delivery leaves behind,
 and what the time stamps of a row say in every reachable state.
 */
module AnalysisLeases {
  import opened Base
  import opened AnalysisJobs
  import opened AnalysisRuns
  import opened AnalysisTheorems
  import D = AnalysisDispatch

  // -------------------------------------------------------------------- claims

  /** The latest of the heartbeat, the start and the queueing that is there, in that order. */
  predicate TouchedBy(row: Job, at: int) {
    match (row.heartbeatAt, row.startedAt)
    case (Some(beat), _) => beat <= at
    case (None, Some(start)) => start <= at
    case (None, None) => row.queuedAt <= at
  }

  /** Row `after` is `row` taken by a worker at `now`: a new attempt whose lease starts then. */
  predicate TakenAt(row: Job, after: Job, now: int) {
    && after.status == RUNNING && after.attemptCount == row.attemptCount + 1
    && after.heartbeatAt == Some(now) && after.startedAt == Some(now) && after.finishedAt.None?
    && after.queuedAt == (if row.status == QUEUED then row.queuedAt else now)
    && after.maxAttempts == row.maxAttempts && after.snapshot == row.snapshot && after.errorCode == row.errorCode
  }

  predicate FailedAt(row: Job, after: Job, now: int) {
    after == row.(status := ERROR, errorCode := Some("LEASE_EXPIRED"), finishedAt := Some(now))
  }

  /** A claim takes a queued row, or one running untouched since the cutoff with attempts left; without any left it fails the row, and it leaves all others alone. */
  lemma ClaimMeans(row: Job, cutoff: int, now: int)
    ensures var after := AfterClaim(row, cutoff, now);
            var stale := row.status == RUNNING && TouchedBy(row, cutoff);
            if row.status == QUEUED || (stale && row.attemptCount < row.maxAttempts) then
              ClaimResult(row, cutoff) == ClaimOutcome.Claimed && TakenAt(row, after, now)
            else if stale then ClaimResult(row, cutoff) == Exhausted && FailedAt(row, after, now)
            else ClaimResult(row, cutoff) in {LeaseActive, NotClaimable} && after == row
  {
  }

  /** A claim starts a lease: the row counts as touched at the moment of the claim. */
  lemma ClaimStartsLease(row: Job, cutoff: int, now: int)
    requires ClaimResult(row, cutoff) == ClaimOutcome.Claimed
    ensures var after := AfterClaim(row, cutoff, now);
            && Holds(after, row.attemptCount + 1) && LastTouch(after) == now
            && forall later :: ClaimResult(after, later) == LeaseActive <==> later < now
  {
    ClaimMeans(row, cutoff, now);
  }

  predicate Takes(act: Action, job: JobId) {
    (act.Claim? || act.Deliver?) && act.job == job
  }

  lemma TakingStep(s: State, step: Step, lease: int, job: JobId)
    requires Inv(s) && Enabled(s, step, lease) && job in s.jobs && Takes(step.act, job)
    requires Next(s, step, lease).jobs[job].attemptCount != s.jobs[job].attemptCount
    ensures var row' := Next(s, step, lease).jobs[job];
            Holds(row', s.jobs[job].attemptCount + 1) && LastTouch(row') == step.now
  {
    StepMovesRow(s, step, lease, job);
    ClaimMeans(s.jobs[job], step.act.readAt - lease, step.now);
  }

  /**
   From the claim on: a worker that took the job, by a claim or a delivery, and whose
   heartbeats then come less than a lease apart, has its attempt until it ends it.
   */
  lemma ClaimedWorkerKeepsItsJob(s: State, claim: Step, taken: State, rest: seq<Step>, lease: int, job: JobId, attempt: nat)
    requires Inv(s) && Enabled(s, claim, lease) && job in s.jobs && Takes(claim.act, job)
    requires taken == Next(s, claim, lease) && job in taken.jobs
    requires attempt == taken.jobs[job].attemptCount != s.jobs[job].attemptCount
    requires Run(taken, rest, lease).Some? && Spaced(rest, job, attempt, claim.now, lease)
    ensures || (exists k :: 0 <= k < |rest| && Ends(rest[k], job, attempt))
            || (var t := Run(taken, rest, lease).value; job in t.jobs && Holds(t.jobs[job], attempt))
  {
    TakingStep(s, claim, lease, job);
    assert Inv(taken) by {
      StepKeepsInv(s, claim, lease);
    }
    SpacedWorkerKeepsItsJob(taken, rest, lease, job, attempt, claim.now);
  }

  // ------------------------------------------------------- what each step does

  predicate RunsUnder(row: Job, attempt: nat) {
    row.status == RUNNING && row.attemptCount == attempt
  }

  /** The row of a job after a step that concerns it, in full. */
  predicate RowDone(row: Job, after: Job, step: Step, held: bool, lease: int) {
    match step.act
    case Claim(_, readAt) => TakenIfFree(row, after, readAt - lease, step.now)
    case Deliver(_, readAt, _) => if held then after == row else TakenIfFree(row, after, readAt - lease, step.now)
    case Heartbeat(_, attempt) =>
      after == if RunsUnder(row, attempt) then row.(heartbeatAt := Some(step.now)) else row
    case FinishDone(_, attempt) =>
      after == if RunsUnder(row, attempt) then row.(status := DONE, finishedAt := Some(step.now)) else row
    case FinishError(_, attempt, code) =>
      after == if RunsUnder(row, attempt)
               then row.(status := ERROR, errorCode := Some(code), finishedAt := Some(step.now)) else row
    case Retry(_) =>
      && after.status == QUEUED && after.attemptCount == row.attemptCount && after.maxAttempts == row.maxAttempts
      && after.queuedAt == step.now && after.startedAt.None? && after.heartbeatAt.None? && after.finishedAt.None?
      && after.errorCode.None?
      && after.snapshot == (if MarkedCancelled(row.snapshot) then WithoutMarker(row.snapshot) else row.snapshot)
    case _ => after == row
  }

  /** Taken or failed just when it may be, and left alone otherwise. */
  predicate TakenIfFree(row: Job, after: Job, cutoff: int, now: int) {
    var stale := row.status == RUNNING && TouchedBy(row, cutoff);
    if row.status == QUEUED || (stale && row.attemptCount < row.maxAttempts) then TakenAt(row, after, now)
    else if stale then FailedAt(row, after, now)
    else after == row
  }

  predicate Concerns(act: Action, job: JobId) {
    match act
    case Claim(j, _) => j == job
    case Deliver(j, _, _) => j == job
    case Heartbeat(j, _) => j == job
    case FinishDone(j, _) => j == job
    case FinishError(j, _, _) => j == job
    case Retry(j) => j == job
    case _ => false
  }

  /** Every step does to a job's row exactly what its kind says, and nothing to the rows of others. */
  lemma StepDoesExactly(s: State, step: Step, lease: int, job: JobId)
    requires Inv(s) && Enabled(s, step, lease) && job in s.jobs
    ensures var s' := Next(s, step, lease);
            job in s'.jobs && if Concerns(step.act, job) then RowDone(s.jobs[job], s'.jobs[job], step, job in s.held, lease)
                              else s'.jobs[job] == s.jobs[job]
  {
    if step.act.Claim? || step.act.Deliver? {
      TakingDoesExactly(s, step, lease, job);
    } else {
      EditDoesExactly(s, step, lease, job);
    }
  }

  lemma TakingDoesExactly(s: State, step: Step, lease: int, job: JobId)
    requires Inv(s) && Enabled(s, step, lease) && job in s.jobs && (step.act.Claim? || step.act.Deliver?)
    ensures var s' := Next(s, step, lease);
            job in s'.jobs && if Concerns(step.act, job) then RowDone(s.jobs[job], s'.jobs[job], step, job in s.held, lease)
                              else s'.jobs[job] == s.jobs[job]
  {
    var j, cutoff := step.act.job, step.act.readAt - lease;
    ClaimingMovesRow(s, j, cutoff, step.now, job);
    ClaimMeans(s.jobs[j], cutoff, step.now);
  }

  lemma EditDoesExactly(s: State, step: Step, lease: int, job: JobId)
    requires Inv(s) && Enabled(s, step, lease) && job in s.jobs && !step.act.Claim? && !step.act.Deliver?
    ensures var s' := Next(s, step, lease);
            job in s'.jobs && if Concerns(step.act, job) then RowDone(s.jobs[job], s'.jobs[job], step, job in s.held, lease)
                              else s'.jobs[job] == s.jobs[job]
  {
    if !Concerns(step.act, job) {
      StepMovesRow(s, step, lease, job);
    }
  }

  // -------------------------------------------------------- refused deliveries

  /**
   A delivery that meets a live lease changes no row and keeps its message, and the job
   is published again within a second of the moment the lease runs out unless touched.
   */
  lemma RefusedDeliveryComesBack(s: State, step: Step, lease: int, job: JobId)
    requires Enabled(s, step, lease) && step.act.Deliver? && step.act.job == job
    requires s.jobs[job].status == RUNNING && !TouchedBy(s.jobs[job], step.act.readAt - lease)
    ensures var s', expiry := Next(s, step, lease), LastTouch(s.jobs[job]) + lease;
            && s'.jobs == s.jobs && s'.history == s.history && s'.inFlight == s.inFlight
            && job in s'.outbox
            && expiry < s'.outbox[job].nextAttemptAt <= Max(step.now, expiry) + SECOND
  {
    RetryDelayIsTight(s.jobs[job], lease, step.now);
  }

  // ----------------------------------------------------------------- time stamps

  /** A waiting row has no stamps but its queueing, a running one is touched after it starts, and just the ended ones carry an end, an error code when they failed. */
  predicate Stamped(row: Job, clock: int) {
    && row.queuedAt <= clock
    && match row.status
       case QUEUED => row.startedAt.None? && row.heartbeatAt.None? && row.finishedAt.None? && row.errorCode.None?
       case RUNNING => Worked(row, clock) && row.finishedAt.None? && row.errorCode.None?
       case DONE => Worked(row, clock) && Over(row, clock) && row.errorCode.None?
       case ERROR => Worked(row, clock) && Over(row, clock) && row.errorCode.Some?
  }

  predicate Worked(row: Job, clock: int) {
    && row.startedAt.Some? && row.heartbeatAt.Some?
    && row.queuedAt <= row.startedAt.value <= row.heartbeatAt.value <= clock
  }

  predicate Over(row: Job, clock: int)
    requires row.heartbeatAt.Some?
  {
    row.finishedAt.Some? && row.heartbeatAt.value <= row.finishedAt.value <= clock
  }

  ghost predicate AllStamped(s: State) {
    forall job :: job in s.jobs ==> Stamped(s.jobs[job], s.clock)
  }

  lemma MoveKeepsStamps(row: Job, h: seq<Event>, row': Job, h': seq<Event>, job: JobId, step: Step, lease: int, clock: int)
    requires Stamped(row, clock) && clock <= step.now && RowMove(row, h, row', h', job, step, lease)
    ensures Stamped(row', step.now)
  {
    if Takes(step.act, job) {
      ClaimMeans(row, step.act.readAt - lease, step.now);
    }
  }

  lemma StepKeepsStamps(s: State, step: Step, lease: int)
    requires Inv(s) && AllStamped(s) && Enabled(s, step, lease)
    ensures AllStamped(Next(s, step, lease))
  {
    var s' := Next(s, step, lease);
    StepKeepsKeys(s, step, lease);
    forall job | job in s'.jobs ensures Stamped(s'.jobs[job], s'.clock) {
      if job in s.jobs {
        StepMovesRow(s, step, lease, job);
        MoveKeepsStamps(s.jobs[job], s.history[job], s'.jobs[job], s'.history[job], job, step, lease, s.clock);
      }
    }
  }

  /** In every reachable state each row's stamps are in order and fit its status. */
  lemma {:induction false} RunKeepsStamps(s: State, steps: seq<Step>, lease: int)
    requires Inv(s) && AllStamped(s) && Run(s, steps, lease).Some?
    ensures AllStamped(Run(s, steps, lease).value)
    decreases |steps|
  {
    if steps != [] {
      StepKeepsInv(s, steps[0], lease);
      StepKeepsStamps(s, steps[0], lease);
      RunKeepsStamps(Next(s, steps[0], lease), steps[1..], lease);
    }
  }
}
