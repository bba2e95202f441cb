/**
 Revision 20260828_0006: the job statuses change names, CANCELLED disappears, and
 a marker in the snapshot remembers which jobs had it so that the change can be
 undone.
 */
module StatusMigration {
  import opened Base
  import opened AnalysisJobs
  import opened AnalysisRuns
  import opened AnalysisTheorems

  datatype LegacyStatus = LQUEUED | LRUNNING | SUCCEEDED | FAILED | CANCELLED

  datatype LegacyRow = LegacyRow(
    status: LegacyStatus,
    documentId: int,
    rubricId: int,
    attemptCount: nat,
    maxAttempts: nat,
    queuedAt: int,
    startedAt: Option<int>,
    finishedAt: Option<int>,
    errorCode: Option<string>,
    snapshot: map<string, string>)

  datatype NewRow = NewRow(documentId: int, rubricId: int, job: Job)

  type LegacyTable = map<JobId, LegacyRow>
  type NewTable = map<JobId, NewRow>

  function UpgradedStatus(status: LegacyStatus): Status {
    match status
    case LQUEUED => QUEUED
    case LRUNNING => RUNNING
    case SUCCEEDED => DONE
    case FAILED => ERROR
    case CANCELLED => ERROR
  }

  function DowngradedStatus(job: Job): LegacyStatus {
    match job.status
    case QUEUED => LQUEUED
    case RUNNING => LRUNNING
    case DONE => SUCCEEDED
    case ERROR => if MarkedCancelled(job.snapshot) then CANCELLED else FAILED
  }

  function UpgradedRow(row: LegacyRow): NewRow {
    var snapshot :=
      if row.status == CANCELLED
      then row.snapshot[LEGACY_CANCELLED_MARKER_KEY := LEGACY_CANCELLED_SENTINEL]
      else row.snapshot;
    NewRow(row.documentId, row.rubricId,
      Job(UpgradedStatus(row.status), row.attemptCount, row.maxAttempts, row.queuedAt,
          row.startedAt, None, row.finishedAt, row.errorCode, snapshot))
  }

  function DowngradedRow(row: NewRow): LegacyRow {
    var job := row.job;
    LegacyRow(DowngradedStatus(job), row.documentId, row.rubricId, job.attemptCount,
      job.maxAttempts, job.queuedAt, job.startedAt, job.finishedAt, job.errorCode,
      WithoutMarker(job.snapshot))
  }

  /** What becomes of a row: its status under the new name, CANCELLED as an error with the marker, and all else as it was. */
  lemma UpgradeMeans(row: LegacyRow)
    requires LEGACY_CANCELLED_MARKER_KEY !in row.snapshot
    ensures var job := UpgradedRow(row).job;
            && (job.status == QUEUED <==> row.status == LQUEUED) && (job.status == RUNNING <==> row.status == LRUNNING)
            && (job.status == DONE <==> row.status == SUCCEEDED)
            && (job.status == ERROR <==> row.status == FAILED || row.status == CANCELLED)
            && (MarkedCancelled(job.snapshot) <==> row.status == CANCELLED)
            && (row.status != CANCELLED ==> job.snapshot == row.snapshot)
            && (row.status == CANCELLED ==>
                  job.snapshot == row.snapshot["_alembic_20260828_0006_legacy_cancelled" := "CANCELLED"])
            && job.attemptCount == row.attemptCount && job.maxAttempts == row.maxAttempts
            && job.queuedAt == row.queuedAt && job.startedAt == row.startedAt && job.heartbeatAt.None?
            && job.finishedAt == row.finishedAt && job.errorCode == row.errorCode
  {
  }

  ghost predicate ReservedKeyFree(table: LegacyTable) {
    forall id :: id in table ==> LEGACY_CANCELLED_MARKER_KEY !in table[id].snapshot
  }

  ghost predicate PairsUnique(table: LegacyTable) {
    forall i, j :: i in table && j in table && i != j ==>
      (table[i].documentId, table[i].rubricId) != (table[j].documentId, table[j].rubricId)
  }

  /** None is the migration failing: on the reserved-key check, or on the new unique constraint. */
  ghost function Upgrade(table: LegacyTable): Option<NewTable> {
    if !ReservedKeyFree(table) || !PairsUnique(table) then None
    else Some(map id | id in table :: UpgradedRow(table[id]))
  }

  function Downgrade(table: NewTable): LegacyTable {
    map id | id in table :: DowngradedRow(table[id])
  }

  /** Upgrading and downgrading restores every row, cancelled ones included, whenever the upgrade succeeds. */
  lemma RoundTrip(table: LegacyTable)
    ensures Upgrade(table).Some? <==> ReservedKeyFree(table) && PairsUnique(table)
    ensures Upgrade(table).Some? ==> Downgrade(Upgrade(table).value) == table
  {
    if Upgrade(table).Some? {
      var back := Downgrade(Upgrade(table).value);
      forall id | id in table ensures back[id] == table[id] {
        assert LEGACY_CANCELLED_MARKER_KEY !in table[id].snapshot;
        assert back[id].snapshot == table[id].snapshot;
      }
      assert back.Keys == table.Keys;
    }
  }

  // -------------------------------------------------------- with a life between

  /** The marker, where present, is the sentinel and sits on an ERROR row. */
  predicate MarkerInv(job: Job) {
    LEGACY_CANCELLED_MARKER_KEY in job.snapshot ==> job.status == ERROR && MarkedCancelled(job.snapshot)
  }

  ghost predicate Retried(steps: seq<Step>, job: JobId) {
    exists k :: 0 <= k < |steps| && steps[k].act == Retry(job)
  }

  lemma StepKeepsMarker(s: State, step: Step, lease: int, job: JobId)
    requires s.jobs.Keys == s.history.Keys && Enabled(s, step, lease) && job in s.jobs
    requires MarkerInv(s.jobs[job])
    ensures var s' := Next(s, step, lease);
            && s'.jobs.Keys == s'.history.Keys && job in s'.jobs && MarkerInv(s'.jobs[job])
            && (MarkedCancelled(s'.jobs[job].snapshot) <==>
                  MarkedCancelled(s.jobs[job].snapshot) && step.act != Retry(job))
  {
    StepKeepsKeys(s, step, lease);
    StepMovesRow(s, step, lease, job);
    if step.act == Retry(job) {
      assert Next(s, step, lease).jobs[job] == AfterRetry(s.jobs[job], step.now);
    }
  }

  lemma {:induction false} RunKeepsMarker(s: State, steps: seq<Step>, lease: int, job: JobId)
    requires s.jobs.Keys == s.history.Keys && Run(s, steps, lease).Some? && job in s.jobs
    requires MarkerInv(s.jobs[job])
    ensures var t := Run(s, steps, lease).value;
            && job in t.jobs && MarkerInv(t.jobs[job])
            && (MarkedCancelled(t.jobs[job].snapshot) <==>
                  MarkedCancelled(s.jobs[job].snapshot) && !Retried(steps, job))
    decreases |steps|
  {
    if steps != [] {
      var rest := steps[1..];
      StepKeepsMarker(s, steps[0], lease, job);
      RunKeepsMarker(Next(s, steps[0], lease), rest, lease, job);
      if Retried(rest, job) {
        var k :| 0 <= k < |rest| && rest[k].act == Retry(job);
        assert steps[k + 1].act == Retry(job);
      }
      if Retried(steps, job) && steps[0].act != Retry(job) {
        var k :| 0 <= k < |steps| && steps[k].act == Retry(job);
        assert rest[k - 1].act == Retry(job);
      }
    }
  }

  /**
   Upgrade, any life of the protocol, downgrade: a job comes back as CANCELLED
   exactly when it was cancelled before the upgrade and nobody retried it.
   */
  lemma CancelledSurvivesUnlessRetried(table: LegacyTable, s: State, steps: seq<Step>, lease: int, job: JobId)
    requires Upgrade(table).Some? && s.jobs.Keys == s.history.Keys == table.Keys
    requires forall id :: id in table ==> s.jobs[id] == UpgradedRow(table[id]).job
    requires Run(s, steps, lease).Some? && job in table
    ensures var t := Run(s, steps, lease).value;
            && job in t.jobs
            && (LEGACY_CANCELLED_MARKER_KEY in t.jobs[job].snapshot ==> t.jobs[job].status == ERROR)
            && (DowngradedStatus(t.jobs[job]) == CANCELLED <==>
                  table[job].status == CANCELLED && !Retried(steps, job))
  {
    assert LEGACY_CANCELLED_MARKER_KEY !in table[job].snapshot;
    RunKeepsMarker(s, steps, lease, job);
  }

  ghost predicate Unmarked(s: State, job: JobId) {
    job in s.jobs ==> LEGACY_CANCELLED_MARKER_KEY !in s.jobs[job].snapshot
  }

  lemma StepKeepsUnmarked(s: State, step: Step, lease: int, job: JobId)
    requires s.jobs.Keys == s.history.Keys && Enabled(s, step, lease) && Unmarked(s, job)
    ensures Next(s, step, lease).jobs.Keys == Next(s, step, lease).history.Keys
    ensures Unmarked(Next(s, step, lease), job)
  {
    StepKeepsKeys(s, step, lease);
    if job in s.jobs {
      StepMovesRow(s, step, lease, job);
      StepKeepsMarker(s, step, lease, job);
      if step.act == Retry(job) {
        assert Next(s, step, lease).jobs[job] == AfterRetry(s.jobs[job], step.now);
      }
    }
  }

  /** A job created after the upgrade is never downgraded to CANCELLED. */
  lemma {:induction false} NewJobsAreNeverCancelled(s: State, steps: seq<Step>, lease: int, job: JobId)
    requires s.jobs.Keys == s.history.Keys && Run(s, steps, lease).Some? && Unmarked(s, job)
    ensures var t := Run(s, steps, lease).value;
            job in t.jobs ==> DowngradedStatus(t.jobs[job]) != CANCELLED
    decreases |steps|
  {
    if steps != [] {
      StepKeepsUnmarked(s, steps[0], lease, job);
      NewJobsAreNeverCancelled(Next(s, steps[0], lease), steps[1..], lease, job);
    }
  }
}
