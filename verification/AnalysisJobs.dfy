/**
 One row of `analysis_jobs` and the transactions that move it.

 Every transaction of the service is a function on the row; the class below is
 the row as the service updates it, each method proved equal to its function.
 Instants are whole microseconds, the resolution of the database's timestamps.
 */
module AnalysisJobs {
  import opened Base

  datatype Status = QUEUED | RUNNING | DONE | ERROR

  datatype Job = Job(
    status: Status,
    attemptCount: nat,
    maxAttempts: nat,
    queuedAt: int,
    startedAt: Option<int>,
    heartbeatAt: Option<int>,
    finishedAt: Option<int>,
    errorCode: Option<string>,
    snapshot: map<string, string>)

  /** What a claim of a locked row comes to. */
  datatype ClaimOutcome = Claimed | LeaseActive | Exhausted | NotClaimable

  /** `heartbeat_at or started_at or queued_at`. */
  function LastTouch(job: Job): int {
    if job.heartbeatAt.Some? then job.heartbeatAt.value
    else if job.startedAt.Some? then job.startedAt.value
    else job.queuedAt
  }

  /** Left in the snapshot of a job that revision 20260828_0006 turned from CANCELLED into ERROR. */
  const LEGACY_CANCELLED_MARKER_KEY: string := "_alembic_20260828_0006_legacy_cancelled"
  const LEGACY_CANCELLED_SENTINEL: string := "CANCELLED"

  predicate MarkedCancelled(snapshot: map<string, string>) {
    && LEGACY_CANCELLED_MARKER_KEY in snapshot
    && snapshot[LEGACY_CANCELLED_MARKER_KEY] == LEGACY_CANCELLED_SENTINEL
  }

  function WithoutMarker(snapshot: map<string, string>): map<string, string> {
    snapshot - {LEGACY_CANCELLED_MARKER_KEY}
  }

  function NewJob(maxAttempts: nat, snapshot: map<string, string>, now: int): Job {
    Job(QUEUED, 0, maxAttempts, now, None, None, None, None, snapshot)
  }

  function MarkRunning(job: Job, now: int): Job {
    job.(status := RUNNING,
         attemptCount := job.attemptCount + 1,
         startedAt := Some(now),
         heartbeatAt := Some(now),
         finishedAt := None)
  }

  function ClaimResult(job: Job, cutoff: int): ClaimOutcome {
    match job.status
    case QUEUED => Claimed
    case RUNNING =>
      if LastTouch(job) > cutoff then LeaseActive
      else if job.attemptCount < job.maxAttempts then Claimed
      else Exhausted
    case _ => NotClaimable
  }

  /** `cutoff` is the claimer's earlier clock reading less the lease; `now` is when it marks the row. */
  function AfterClaim(job: Job, cutoff: int, now: int): Job {
    match ClaimResult(job, cutoff)
    case Claimed =>
      if job.status == QUEUED then MarkRunning(job, now)
      else MarkRunning(job.(status := QUEUED, queuedAt := now), now)
    case Exhausted =>
      job.(status := ERROR, errorCode := Some("LEASE_EXPIRED"), finishedAt := Some(now))
    case _ => job
  }

  /** The guard shared by heartbeat, completion and failure: the fencing token is the attempt number. */
  predicate Holds(job: Job, attempt: nat) {
    job.status == RUNNING && job.attemptCount == attempt
  }

  function AfterHeartbeat(job: Job, attempt: nat, now: int): Job {
    if Holds(job, attempt) then job.(heartbeatAt := Some(now)) else job
  }

  function AfterDone(job: Job, attempt: nat, now: int): Job {
    if Holds(job, attempt) then job.(status := DONE, finishedAt := Some(now)) else job
  }

  function AfterError(job: Job, attempt: nat, code: string, now: int): Job {
    if Holds(job, attempt)
    then job.(status := ERROR, errorCode := Some(code), finishedAt := Some(now))
    else job
  }

  predicate Retryable(job: Job) {
    job.status == ERROR && job.attemptCount < job.maxAttempts
  }

  function AfterRetry(job: Job, now: int): Job {
    if Retryable(job)
    then Job(QUEUED, job.attemptCount, job.maxAttempts, now, None, None, None, None,
             if MarkedCancelled(job.snapshot) then WithoutMarker(job.snapshot) else job.snapshot)
    else job
  }

  /** Seconds a refused delivery waits before it is tried again: `max(1, int(remaining) + 1)`. */
  function RetryDelay(job: Job, lease: int, now: int): int {
    Max(1, TruncatedSeconds(LastTouch(job) + lease - now) + 1)
  }

  /** Python's `int()` of a duration in seconds: towards zero. */
  function TruncatedSeconds(micros: int): int {
    if micros >= 0 then micros / SECOND else -((-micros) / SECOND)
  }

  /**
   A delivery refused by an active lease comes back strictly after that lease
   runs out if nobody touches the row, and less than a second later than it has
   to (or after the one-second floor).
   */
  lemma RetryDelayIsTight(job: Job, lease: int, now: int)
    ensures var wake := now + RetryDelay(job, lease, now) * SECOND;
            var expiry := LastTouch(job) + lease;
            && wake > expiry
            && wake > now
            && wake <= Max(now, expiry) + SECOND
  {
  }

  /** The woken delivery then finds the row stale: it is re-claimed, or failed once attempts run out. */
  lemma UntouchedLeaseIsTakenAtWake(job: Job, lease: int, now: int, readAt: int)
    requires job.status == RUNNING
    requires readAt >= now + RetryDelay(job, lease, now) * SECOND
    ensures ClaimResult(job, readAt - lease)
         == if job.attemptCount < job.maxAttempts then Claimed else Exhausted
  {
  }

  /** The row as the ORM object the service mutates. */
  class JobRecord {
    var status: Status
    var attemptCount: nat
    var maxAttempts: nat
    var queuedAt: int
    var startedAt: Option<int>
    var heartbeatAt: Option<int>
    var finishedAt: Option<int>
    var errorCode: Option<string>
    var snapshot: map<string, string>

    function Row(): Job
      reads this
    {
      Job(status, attemptCount, maxAttempts, queuedAt, startedAt, heartbeatAt, finishedAt,
          errorCode, snapshot)
    }

    constructor (max: nat, snapshot: map<string, string>, now: int)
      ensures Row() == NewJob(max, snapshot, now)
    {
      status, attemptCount, maxAttempts, queuedAt := QUEUED, 0, max, now;
      startedAt, heartbeatAt, finishedAt, errorCode := None, None, None, None;
      this.snapshot := snapshot;
    }

    method Running(now: int)
      modifies this
      ensures Row() == MarkRunning(old(Row()), now)
    {
      status := RUNNING;
      attemptCount := attemptCount + 1;
      startedAt := Some(now);
      heartbeatAt := Some(now);
      finishedAt := None;
    }

    /** `_handle_locked_job`: the caller holds the row lock. */
    method HandleLocked(cutoff: int, now: int) returns (outcome: ClaimOutcome)
      modifies this
      ensures outcome == ClaimResult(old(Row()), cutoff)
      ensures Row() == AfterClaim(old(Row()), cutoff, now)
    {
      if status == QUEUED {
        Running(now);
        return Claimed;
      }
      if status == RUNNING {
        var lastTouch := if heartbeatAt.Some? then heartbeatAt.value
                         else if startedAt.Some? then startedAt.value else queuedAt;
        if lastTouch > cutoff {
          return LeaseActive;
        }
        if attemptCount < maxAttempts {
          status := QUEUED;
          queuedAt := now;
          Running(now);
          return Claimed;
        }
        status := ERROR;
        errorCode := Some("LEASE_EXPIRED");
        finishedAt := Some(now);
        return Exhausted;
      }
      return NotClaimable;
    }

    method UpdateHeartbeat(attempt: nat, now: int) returns (alive: bool)
      modifies this
      ensures alive == Holds(old(Row()), attempt)
      ensures Row() == AfterHeartbeat(old(Row()), attempt, now)
    {
      alive := status == RUNNING && attemptCount == attempt;
      if alive {
        heartbeatAt := Some(now);
      }
    }

    method MarkDone(attempt: nat, now: int) returns (won: bool)
      modifies this
      ensures won == Holds(old(Row()), attempt)
      ensures Row() == AfterDone(old(Row()), attempt, now)
    {
      if !(status == RUNNING && attemptCount == attempt) {
        return false;
      }
      status, finishedAt := DONE, Some(now);
      return true;
    }

    method MarkError(attempt: nat, code: string, now: int) returns (won: bool)
      modifies this
      ensures won == Holds(old(Row()), attempt)
      ensures Row() == AfterError(old(Row()), attempt, code, now)
    {
      if !(status == RUNNING && attemptCount == attempt) {
        return false;
      }
      status, errorCode, finishedAt := ERROR, Some(code), Some(now);
      return true;
    }

    /** `retry_job`: false is either of its two 409 answers. */
    method Retry(now: int) returns (accepted: bool)
      modifies this
      ensures accepted == Retryable(old(Row()))
      ensures Row() == AfterRetry(old(Row()), now)
    {
      if status != ERROR {
        return false;
      }
      if attemptCount >= maxAttempts {
        return false;
      }
      if LEGACY_CANCELLED_MARKER_KEY in snapshot
         && snapshot[LEGACY_CANCELLED_MARKER_KEY] == LEGACY_CANCELLED_SENTINEL {
        snapshot := snapshot - {LEGACY_CANCELLED_MARKER_KEY};
      }
      status := QUEUED;
      errorCode, finishedAt, startedAt, heartbeatAt := None, None, None, None;
      queuedAt := now;
      return true;
    }
  }
}
