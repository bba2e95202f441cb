/**
 The analysis-job protocol as a state machine: workers, outbox pollers and users
 interleave committed transactions over shared rows. A row lock is a guard on the
 steps that need the row; the clock is an explicit value that never goes back.
 */
module AnalysisRuns {
  import opened Base
  import opened AnalysisJobs
  import D = AnalysisDispatch

  type JobId = D.JobId
  type Poller = int

  /** A poller's transaction over locked outbox rows; None is a row not published yet. */
  type Batch = map<JobId, Option<D.Publication>>

  /** What happened to one job, in commit order. */
  datatype Event = Claimed(attempt: nat) | Finished(attempt: nat, status: Status)

  datatype State = State(
    clock: int,
    jobs: map<JobId, Job>,
    outbox: map<JobId, D.DispatchRow>,
    batches: map<Poller, Batch>,
    held: set<JobId>,             // job rows locked by a transaction that changes nothing
    inFlight: multiset<JobId>,    // broker messages not yet acknowledged
    history: map<JobId, seq<Event>>,
    woken: set<JobId>,            // published since the job last became QUEUED
    dropped: set<JobId>)          // a delivery since then was consumed without effect

  datatype Action =
    | Tick
    | Create(job: JobId, maxAttempts: nat, snapshot: map<string, string>)
    | GetExisting(job: JobId)
    | Claim(job: JobId, readAt: int)
    | Deliver(job: JobId, readAt: int, acked: bool)
    | DeliveryFails(job: JobId)
    | Hold(job: JobId)
    | Release(job: JobId)
    | Heartbeat(job: JobId, attempt: nat)
    | FinishDone(job: JobId, attempt: nat)
    | FinishError(job: JobId, attempt: nat, code: string)
    | Retry(job: JobId)
    | LockBatch(poller: Poller, rows: seq<JobId>)
    | PublishOk(poller: Poller, job: JobId)
    | PublishFails(poller: Poller, job: JobId)
    | LatePublish(job: JobId)
    | CommitBatch(poller: Poller)
    | RollbackBatch(poller: Poller)

  /** One action at one instant. */
  datatype Step = At(now: int, act: Action)

  const Initial: State := State(0, map[], map[], map[], {}, multiset{}, map[], {}, {})

  predicate RowLocked(s: State, job: JobId) {
    exists p :: p in s.batches && job in s.batches[p]
  }

  predicate FreeJob(s: State, job: JobId) {
    job in s.jobs && job !in s.held && job in s.history
  }

  predicate Enabled(s: State, step: Step, lease: int) {
    && step.now >= s.clock
    && match step.act
       case Tick => true
       case Create(job, max, snapshot) =>
         && job !in s.jobs && job !in s.outbox && max > 0
         && LEGACY_CANCELLED_MARKER_KEY !in snapshot // built from fixed keys
       case GetExisting(job) => FreeJob(s, job)
       case Claim(job, readAt) => FreeJob(s, job) && readAt <= step.now
       case Deliver(job, readAt, _) =>
         && job in s.inFlight && job in s.jobs && job in s.history && readAt <= step.now
         && (Reschedules(s, job, readAt - lease) ==> !RowLocked(s, job))
       case DeliveryFails(job) => job in s.inFlight && job in s.jobs
       case Hold(job) => FreeJob(s, job)
       case Release(job) => job in s.held
       case Heartbeat(job, _) => FreeJob(s, job)
       case FinishDone(job, _) => FreeJob(s, job)
       case FinishError(job, _, _) => FreeJob(s, job)
       case Retry(job) => FreeJob(s, job) && Retryable(s.jobs[job]) && !RowLocked(s, job)
       case LockBatch(p, rows) =>
         && p !in s.batches && Distinct(rows) && |rows| <= D.BATCH_SIZE
         && forall job :: job in rows ==>
              job in s.outbox && s.outbox[job].nextAttemptAt <= step.now && !RowLocked(s, job)
       case PublishOk(p, job) => p in s.batches && job in s.batches[p] && s.batches[p][job].None?
       case PublishFails(p, job) => p in s.batches && job in s.batches[p] && s.batches[p][job].None?
       case LatePublish(job) => job in s.jobs
       case CommitBatch(p) => p in s.batches && forall job :: job in s.batches[p] ==> s.batches[p][job].Some?
       case RollbackBatch(p) => p in s.batches
  }

  /** A delivery that finds the job running under somebody else's live lease. */
  predicate Reschedules(s: State, job: JobId, cutoff: int)
    requires job in s.jobs
  {
    && s.jobs[job].status == RUNNING
    && (job in s.held || ClaimResult(s.jobs[job], cutoff) == LeaseActive)
  }

  /** The broker callback's view of a failed or settled publication. */
  function Results(batch: Batch): map<JobId, D.Publication> {
    map job | job in batch && batch[job].Some? :: batch[job].value
  }

  function Logged(s: State, job: JobId, event: Event): map<JobId, seq<Event>>
    requires job in s.history
  {
    s.history[job := s.history[job] + [event]]
  }

  /**
   Claiming a locked row. Re-queuing a stale row is flushed before it is marked
   running, so the trigger enqueues a dispatch for it.
   */
  function Claiming(s: State, job: JobId, cutoff: int, now: int): State
    requires job in s.jobs && job in s.history
  {
    var row := s.jobs[job];
    match ClaimResult(row, cutoff)
    case Claimed =>
      s.(jobs := s.jobs[job := AfterClaim(row, cutoff, now)],
         outbox := if row.status == RUNNING then D.Enqueued(s.outbox, job, None, now) else s.outbox,
         history := Logged(s, job, Event.Claimed(row.attemptCount + 1)))
    case Exhausted =>
      s.(jobs := s.jobs[job := AfterClaim(row, cutoff, now)],
         history := Logged(s, job, Finished(row.attemptCount, ERROR)))
    case _ => s
  }

  function Consumed(s: State, job: JobId): State {
    s.(inFlight := s.inFlight - multiset{job}, dropped := s.dropped + {job})
  }

  function Delivering(s: State, job: JobId, readAt: int, acked: bool, lease: int, now: int): State
    requires job in s.jobs && job in s.history
  {
    if Reschedules(s, job, readAt - lease) then
      var due := now + RetryDelay(s.jobs[job], lease, now) * SECOND;
      s.(outbox := D.Enqueued(s.outbox, job, Some(due), now))
    else if job in s.held then Consumed(s, job)
    else
      var claimed := Claiming(s, job, readAt - lease, now);
      if acked then claimed.(inFlight := s.inFlight - multiset{job}) else claimed
  }

  function Finishing(s: State, job: JobId, attempt: nat, row: Job): State
    requires job in s.jobs && job in s.history
  {
    if Holds(s.jobs[job], attempt)
    then s.(jobs := s.jobs[job := row], history := Logged(s, job, Finished(attempt, row.status)))
    else s
  }

  function Settling(s: State, p: Poller, job: JobId, result: D.Publication): State
    requires p in s.batches
  {
    s.(batches := s.batches[p := s.batches[p][job := Some(result)]])
  }

  function Effect(s: State, step: Step, lease: int): State
    requires Enabled(s, step, lease)
  {
    var now := step.now;
    match step.act
    case Tick => s
    case Create(job, max, snapshot) =>
      s.(jobs := s.jobs[job := NewJob(max, snapshot, now)],
         outbox := D.Enqueued(s.outbox, job, None, now),
         history := s.history[job := []],
         woken := s.woken - {job}, dropped := s.dropped - {job})
    case GetExisting(job) =>
      if s.jobs[job].status == QUEUED then s.(outbox := D.Enqueued(s.outbox, job, None, now)) else s
    case Claim(job, readAt) => Claiming(s, job, readAt - lease, now)
    case Deliver(job, readAt, acked) => Delivering(s, job, readAt, acked, lease, now)
    case DeliveryFails(job) => Consumed(s, job)
    case Hold(job) => s.(held := s.held + {job})
    case Release(job) => s.(held := s.held - {job})
    case Heartbeat(job, attempt) =>
      s.(jobs := s.jobs[job := AfterHeartbeat(s.jobs[job], attempt, now)])
    case FinishDone(job, attempt) => Finishing(s, job, attempt, AfterDone(s.jobs[job], attempt, now))
    case FinishError(job, attempt, code) =>
      Finishing(s, job, attempt, AfterError(s.jobs[job], attempt, code, now))
    case Retry(job) =>
      s.(jobs := s.jobs[job := AfterRetry(s.jobs[job], now)],
         outbox := D.Enqueued(s.outbox, job, Some(now), now),
         woken := s.woken - {job}, dropped := s.dropped - {job})
    case LockBatch(p, rows) =>
      s.(batches := s.batches[p := map job | job in rows :: None])
    case PublishOk(p, job) =>
      Settling(s, p, job, D.Sent).(inFlight := s.inFlight + multiset{job}, woken := s.woken + {job})
    case PublishFails(p, job) => Settling(s, p, job, D.Failed(now))
    case LatePublish(job) => s.(inFlight := s.inFlight + multiset{job}, woken := s.woken + {job})
    case CommitBatch(p) =>
      s.(outbox := D.Settled(s.outbox, Results(s.batches[p])), batches := s.batches - {p})
    case RollbackBatch(p) => s.(batches := s.batches - {p})
  }

  function Next(s: State, step: Step, lease: int): State
    requires Enabled(s, step, lease)
  {
    Effect(s, step, lease).(clock := step.now)
  }

  /** The state after a whole run; None when some step was not enabled. */
  function Run(s: State, steps: seq<Step>, lease: int): Option<State>
    decreases |steps|
  {
    if steps == [] then Some(s)
    else if Enabled(s, steps[0], lease) then Run(Next(s, steps[0], lease), steps[1..], lease)
    else None
  }

  // ------------------------------------------------------------------ history

  function Claims(h: seq<Event>): nat {
    if h == [] then 0
    else Claims(h[..|h| - 1]) + if h[|h| - 1].Claimed? then 1 else 0
  }

  /** Claims are numbered 1, 2, 3...; an attempt finishes only right after it was claimed; nothing follows DONE. */
  predicate Legal(h: seq<Event>) {
    h == [] ||
    var front, last := h[..|h| - 1], h[|h| - 1];
    && Legal(front)
    && (front != [] ==> front[|front| - 1] != Finished(Claims(front), DONE))
    && match last
       case Claimed(a) => a == Claims(front) + 1
       case Finished(a, st) =>
         st in {DONE, ERROR} && front != [] && front[|front| - 1] == Event.Claimed(a) && a == Claims(front)
  }

  predicate JobInv(job: Job, h: seq<Event>) {
    && Legal(h)
    && Claims(h) == job.attemptCount <= job.maxAttempts
    && match job.status
       case QUEUED =>
         && job.attemptCount < job.maxAttempts
         && (h == [] || h[|h| - 1] == Finished(job.attemptCount, ERROR))
       case RUNNING => h != [] && h[|h| - 1] == Event.Claimed(job.attemptCount)
       case st => h != [] && h[|h| - 1] == Finished(job.attemptCount, st)
  }

  lemma AppendLegal(h: seq<Event>, e: Event)
    ensures Claims(h + [e]) == Claims(h) + if e.Claimed? then 1 else 0
    ensures Legal(h + [e]) <==>
      && Legal(h)
      && (h != [] ==> h[|h| - 1] != Finished(Claims(h), DONE))
      && match e
         case Claimed(a) => a == Claims(h) + 1
         case Finished(a, st) =>
           st in {DONE, ERROR} && h != [] && h[|h| - 1] == Event.Claimed(a) && a == Claims(h)
  {
  }

  // ---------------------------------------------------------------- invariant

  predicate WakeInv(s: State, job: JobId)
    requires job in s.jobs
  {
    s.jobs[job].status == QUEUED ==>
      && (job in s.outbox || job in s.woken)
      && (job in s.outbox || job in s.inFlight || job in s.dropped)
  }

  /** A row about to be deleted was published after its job became QUEUED. */
  predicate BatchInv(s: State, p: Poller, job: JobId)
    requires p in s.batches && job in s.batches[p]
  {
    && job in s.outbox && job in s.jobs
    && (forall q :: q in s.batches && job in s.batches[q] ==> q == p)
    && (s.batches[p][job] == Some(D.Sent) && s.jobs[job].status == QUEUED ==>
          job in s.woken && (job in s.inFlight || job in s.dropped))
  }

  predicate Inv(s: State) {
    && s.outbox.Keys <= s.jobs.Keys == s.history.Keys
    && (forall job :: job in s.jobs ==> JobInv(s.jobs[job], s.history[job]))
    && (forall job :: job in s.jobs ==> WakeInv(s, job))
    && (forall p, job :: p in s.batches && job in s.batches[p] ==> BatchInv(s, p, job))
  }

  predicate Live(s: State, job: JobId) {
    job in s.inFlight || job in s.dropped
  }

  /** A change after which no job is newly queued and no wake-up of a queued job is lost. */
  ghost predicate Calm(s: State, s': State) {
    && s'.jobs.Keys == s'.history.Keys == s.jobs.Keys
    && s.outbox.Keys <= s'.outbox.Keys <= s.jobs.Keys
    && s.woken <= s'.woken
    && (forall job :: job in s.jobs ==> CalmJob(s, s', job))
    && (forall p, job :: p in s'.batches && job in s'.batches[p] ==> CalmRow(s, s', p, job))
  }

  predicate CalmJob(s: State, s': State, job: JobId)
    requires job in s.jobs && job in s'.jobs && job in s'.history
  {
    && JobInv(s'.jobs[job], s'.history[job])
    && (s'.jobs[job].status == QUEUED ==> s.jobs[job].status == QUEUED)
    && (s'.jobs[job].status == QUEUED && Live(s, job) ==> Live(s', job))
  }

  predicate CalmRow(s: State, s': State, p: Poller, job: JobId)
    requires p in s'.batches && job in s'.batches[p]
  {
    && p in s.batches && job in s.batches[p]
    && (s'.batches[p][job] == Some(D.Sent) ==> s.batches[p][job] == Some(D.Sent))
  }

  lemma CalmKeepsInv(s: State, s': State)
    requires Inv(s) && Calm(s, s')
    ensures Inv(s')
  {
  }

  lemma ClaimingIsCalm(s: State, job: JobId, cutoff: int, now: int)
    requires Inv(s) && job in s.jobs
    ensures Calm(s, Claiming(s, job, cutoff, now))
  {
    var s' := Claiming(s, job, cutoff, now);
    ClaimedRowInv(s.jobs[job], s.history[job], cutoff, now);
    forall j | j in s.jobs ensures j in s'.jobs && j in s'.history && CalmJob(s, s', j) {
      assert JobInv(s.jobs[j], s.history[j]);
    }
  }

  lemma ClaimedRowInv(row: Job, h: seq<Event>, cutoff: int, now: int)
    requires JobInv(row, h)
    ensures ClaimResult(row, cutoff) == AnalysisJobs.Claimed ==>
              JobInv(AfterClaim(row, cutoff, now), h + [Event.Claimed(row.attemptCount + 1)])
    ensures ClaimResult(row, cutoff) == Exhausted ==>
              JobInv(AfterClaim(row, cutoff, now), h + [Finished(row.attemptCount, ERROR)])
  {
  }

  lemma DeliveringIsCalm(s: State, job: JobId, readAt: int, acked: bool, lease: int, now: int)
    requires Inv(s) && job in s.jobs
    ensures Calm(s, Delivering(s, job, readAt, acked, lease, now))
  {
    if Reschedules(s, job, readAt - lease) {
      ReschedulingIsCalm(s, job, now + RetryDelay(s.jobs[job], lease, now) * SECOND, now);
    } else if job in s.held {
      ConsumingIsCalm(s, job);
    } else {
      ClaimingIsCalm(s, job, readAt - lease, now);
      AcknowledgingIsCalm(s, Claiming(s, job, readAt - lease, now), job);
    }
  }

  lemma ReschedulingIsCalm(s: State, job: JobId, due: int, now: int)
    requires Inv(s) && job in s.jobs
    ensures Calm(s, s.(outbox := D.Enqueued(s.outbox, job, Some(due), now)))
  {
  }

  lemma ConsumingIsCalm(s: State, job: JobId)
    requires Inv(s)
    ensures Calm(s, Consumed(s, job))
  {
  }

  /** The message that led to a claim may go: its job is no longer queued. */
  lemma AcknowledgingIsCalm(s: State, claimed: State, job: JobId)
    requires Calm(s, claimed) && job in s.jobs && claimed.jobs[job].status != QUEUED
    requires claimed.inFlight == s.inFlight && claimed.dropped == s.dropped
    ensures Calm(s, claimed.(inFlight := s.inFlight - multiset{job}))
  {
  }

  lemma FinishingIsCalm(s: State, job: JobId, attempt: nat, row: Job)
    requires Inv(s) && job in s.jobs
    requires Holds(s.jobs[job], attempt) ==>
      row.status in {DONE, ERROR} && row.attemptCount == attempt && row.maxAttempts == s.jobs[job].maxAttempts
    ensures Calm(s, Finishing(s, job, attempt, row))
  {
    assert JobInv(s.jobs[job], s.history[job]);
    AppendLegal(s.history[job], Finished(attempt, row.status));
  }

  lemma FinishStepIsCalm(s: State, step: Step, lease: int)
    requires Inv(s) && Enabled(s, step, lease) && (step.act.FinishDone? || step.act.FinishError?)
    ensures Calm(s, Effect(s, step, lease))
  {
    match step.act
    case FinishDone(job, attempt) =>
      FinishingIsCalm(s, job, attempt, AfterDone(s.jobs[job], attempt, step.now));
    case FinishError(job, attempt, code) =>
      FinishingIsCalm(s, job, attempt, AfterError(s.jobs[job], attempt, code, step.now));
  }

  lemma HeartbeatIsCalm(s: State, step: Step, lease: int)
    requires Inv(s) && Enabled(s, step, lease) && step.act.Heartbeat?
    ensures Calm(s, Effect(s, step, lease))
  {
  }

  lemma CreateKeepsInv(s: State, step: Step, lease: int)
    requires Inv(s) && Enabled(s, step, lease) && step.act.Create?
    ensures Inv(Effect(s, step, lease))
  {
  }

  /** The upsert waits for a poller that holds the row, so a row that survives is one the poller will not delete. */
  lemma RetryKeepsInv(s: State, step: Step, lease: int)
    requires Inv(s) && Enabled(s, step, lease) && step.act.Retry?
    ensures Inv(Effect(s, step, lease))
  {
  }

  lemma LockKeepsInv(s: State, step: Step, lease: int)
    requires Inv(s) && Enabled(s, step, lease) && step.act.LockBatch?
    ensures Inv(Effect(s, step, lease))
  {
  }

  lemma PublishKeepsInv(s: State, step: Step, lease: int)
    requires Inv(s) && Enabled(s, step, lease) && step.act.PublishOk?
    ensures Inv(Effect(s, step, lease))
  {
  }

  lemma CommitKeepsInv(s: State, step: Step, lease: int)
    requires Inv(s) && Enabled(s, step, lease) && step.act.CommitBatch?
    ensures Inv(Effect(s, step, lease))
  {
  }

  lemma QuietStepsAreCalm(s: State, step: Step, lease: int)
    requires Inv(s) && Enabled(s, step, lease)
    requires step.act.Tick? || step.act.GetExisting? || step.act.DeliveryFails? || step.act.Hold?
          || step.act.Release? || step.act.LatePublish? || step.act.PublishFails? || step.act.RollbackBatch?
    ensures Calm(s, Effect(s, step, lease))
  {
  }

  lemma StepKeepsInv(s: State, step: Step, lease: int)
    requires Inv(s) && Enabled(s, step, lease)
    ensures Inv(Next(s, step, lease))
  {
    var s' := Effect(s, step, lease);
    assert Inv(s') by {
      if step.act.Create? {
        CreateKeepsInv(s, step, lease);
      } else if step.act.Retry? {
        RetryKeepsInv(s, step, lease);
      } else if step.act.LockBatch? {
        LockKeepsInv(s, step, lease);
      } else if step.act.PublishOk? {
        PublishKeepsInv(s, step, lease);
      } else if step.act.CommitBatch? {
        CommitKeepsInv(s, step, lease);
      } else {
        RunningStepsAreCalm(s, step, lease);
        CalmKeepsInv(s, s');
      }
    }
    ClockIsFree(s', step.now);
  }

  lemma RunningStepsAreCalm(s: State, step: Step, lease: int)
    requires Inv(s) && Enabled(s, step, lease)
    requires !step.act.Create? && !step.act.Retry? && !step.act.LockBatch? && !step.act.PublishOk?
          && !step.act.CommitBatch?
    ensures Calm(s, Effect(s, step, lease))
  {
    match step.act
    case Claim(job, readAt) => ClaimingIsCalm(s, job, readAt - lease, step.now);
    case Deliver(job, readAt, acked) => DeliveringIsCalm(s, job, readAt, acked, lease, step.now);
    case Heartbeat(_, _) => HeartbeatIsCalm(s, step, lease);
    case FinishDone(_, _) => FinishStepIsCalm(s, step, lease);
    case FinishError(_, _, _) => FinishStepIsCalm(s, step, lease);
    case _ => QuietStepsAreCalm(s, step, lease);
  }

  lemma ClockIsFree(s: State, now: int)
    requires Inv(s)
    ensures Inv(s.(clock := now))
  {
  }

  lemma {:induction false} RunKeepsInv(s: State, steps: seq<Step>, lease: int)
    requires Inv(s) && Run(s, steps, lease).Some?
    ensures Inv(Run(s, steps, lease).value)
    decreases |steps|
  {
    if steps != [] {
      StepKeepsInv(s, steps[0], lease);
      RunKeepsInv(Next(s, steps[0], lease), steps[1..], lease);
    }
  }
}
