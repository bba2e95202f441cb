/**
 The transactional outbox `analysis_job_dispatches`: at most one pending row per
 job, published at least once and backed off when the broker refuses.
 */
module AnalysisDispatch {
  import opened Base

  const MAX_BACKOFF_SECONDS: nat := 60
  const BATCH_SIZE: nat := 10

  type JobId = int

  datatype DispatchRow = DispatchRow(attemptCount: nat, nextAttemptAt: int)

  /** How publishing one locked row went; a failure remembers when it was noticed. */
  datatype Publication = Sent | Failed(at: int)

  function Pow2(n: nat): (r: nat)
    ensures r > n
  {
    if n == 0 then 1 else 2 * Pow2(n - 1)
  }

  function BackoffSeconds(attempts: nat): nat {
    Min(Pow2(Min(attempts, 6)), MAX_BACKOFF_SECONDS)
  }

  /** `ON CONFLICT DO NOTHING` without a time, `ON CONFLICT DO UPDATE` of the due time with one. */
  function Enqueued(rows: map<JobId, DispatchRow>, job: JobId, due: Option<int>, now: int)
    : map<JobId, DispatchRow>
  {
    match due
    case None => if job in rows then rows else rows[job := DispatchRow(0, now)]
    case Some(at) =>
      if job in rows then rows[job := rows[job].(nextAttemptAt := at)]
      else rows[job := DispatchRow(0, at)]
  }

  function BackedOff(row: DispatchRow, failedAt: int): DispatchRow {
    DispatchRow(row.attemptCount + 1, failedAt + BackoffSeconds(row.attemptCount + 1) * SECOND)
  }

  /** The rows once a batch has been settled: sent rows are gone, failed rows wait, the rest stay. */
  function Settled(rows: map<JobId, DispatchRow>, outcomes: map<JobId, Publication>)
    : map<JobId, DispatchRow>
  {
    map job | job in rows && !(job in outcomes && outcomes[job].Sent?) ::
      if job in outcomes then BackedOff(rows[job], outcomes[job].at) else rows[job]
  }

  function Outcomes(batch: seq<JobId>, publish: seq<Publication>): (r: map<JobId, Publication>)
    requires |batch| == |publish|
    ensures forall job :: job in r <==> job in batch
  {
    if batch == [] then map[]
    else
      var last := |batch| - 1;
      Outcomes(batch[..last], publish[..last])[batch[last] := publish[last]]
  }

  lemma SettleOneMore(rows: map<JobId, DispatchRow>, outcomes: map<JobId, Publication>,
                      job: JobId, result: Publication)
    requires job in rows && job !in outcomes
    ensures job in Settled(rows, outcomes) && Settled(rows, outcomes)[job] == rows[job]
    ensures Settled(rows, outcomes[job := result])
         == match result
            case Sent => Settled(rows, outcomes) - {job}
            case Failed(at) => Settled(rows, outcomes)[job := BackedOff(rows[job], at)]
  {
  }

  /** A refused row is due again between two and sixty seconds after the failure, and never sooner than last time. */
  lemma BackoffIsBoundedAndMonotone(row: DispatchRow, failedAt: int)
    ensures failedAt + 2 * SECOND <= BackedOff(row, failedAt).nextAttemptAt <= failedAt + 60 * SECOND
    ensures BackoffSeconds(row.attemptCount) <= BackoffSeconds(row.attemptCount + 1)
    ensures row.attemptCount >= 5 ==> BackedOff(row, failedAt).nextAttemptAt == failedAt + 60 * SECOND
  {
  }

  class Outbox {
    var rows: map<JobId, DispatchRow>

    constructor ()
      ensures rows == map[]
    {
      rows := map[];
    }

    method Enqueue(job: JobId, due: Option<int>, now: int)
      modifies this
      ensures rows == Enqueued(old(rows), job, due, now)
      ensures job in rows && rows.Keys == old(rows).Keys + {job}
      ensures forall other :: other in old(rows) && other != job ==> rows[other] == old(rows)[other]
      ensures job !in old(rows) ==> rows[job] == DispatchRow(0, if due.Some? then due.value else now)
      ensures job in old(rows) ==>
                && rows[job].attemptCount == old(rows)[job].attemptCount
                && rows[job].nextAttemptAt == if due.Some? then due.value else old(rows)[job].nextAttemptAt
    {
      if due.None? {
        if job !in rows {
          rows := rows[job := DispatchRow(0, now)];
        }
      } else if job in rows {
        rows := rows[job := rows[job].(nextAttemptAt := due.value)];
      } else {
        rows := rows[job := DispatchRow(0, due.value)];
      }
    }

    /** What one broker call comes to for its row. */
    method SettleRow(job: JobId, result: Publication)
      requires job in rows
      modifies this
      ensures rows == match result
                      case Sent => old(rows) - {job}
                      case Failed(at) => old(rows)[job := BackedOff(old(rows)[job], at)]
      ensures |rows| == |old(rows)| - if result.Sent? then 1 else 0
    {
      match result {
        case Failed(at) =>
          var attempts := rows[job].attemptCount + 1;
          var delay := Min(Pow2(Min(attempts, 6)), MAX_BACKOFF_SECONDS);
          rows := rows[job := DispatchRow(attempts, at + delay * SECOND)];
          assert rows.Keys == old(rows).Keys;
        case Sent =>
          rows := rows - {job};
          assert rows.Keys == old(rows).Keys - {job};
      }
    }

    /**
     `dispatch_due_analysis_jobs` on the rows its query locked. `publish[i]` is what
     the broker call for `batch[i]` comes to.
     */
    method DispatchBatch(batch: seq<JobId>, publish: seq<Publication>) returns (sent: nat)
      requires Distinct(batch) && |publish| == |batch| <= BATCH_SIZE
      requires forall job :: job in batch ==> job in rows
      modifies this
      ensures rows == Settled(old(rows), Outcomes(batch, publish))
      ensures sent == |old(rows)| - |rows|
      ensures forall k :: 0 <= k < |batch| ==> SettledAs(old(rows), rows, batch[k], publish[k])
      ensures forall job :: job in old(rows) && job !in batch ==> job in rows && rows[job] == old(rows)[job]
      ensures rows.Keys <= old(rows).Keys
    {
      sent := 0;
      ghost var before := rows;
      NothingSettled(before);
      assert batch[..0] == [] && publish[..0] == [];
      for i := 0 to |batch|
        invariant rows == Settled(before, Outcomes(batch[..i], publish[..i]))
        invariant sent == |before| - |rows|
      {
        BatchOneMore(before, batch, publish, i);
        SettleRow(batch[i], publish[i]);
        if publish[i].Sent? {
          sent := sent + 1;
        }
      }
      assert batch[..|batch|] == batch && publish[..|publish|] == publish;
      forall k | 0 <= k < |batch| ensures SettledAs(before, rows, batch[k], publish[k]) {
        OutcomeIs(batch, publish, k);
      }
    }
  }

  /** A published job's row is gone; a refused one stays, has one more attempt, and waits `2^attempts` seconds, sixty at most. */
  predicate SettledAs(before: map<JobId, DispatchRow>, after: map<JobId, DispatchRow>, job: JobId, result: Publication) {
    match result
    case Sent => job !in after
    case Failed(at) =>
      && job in before && job in after && after[job].attemptCount == before[job].attemptCount + 1
      && var n := after[job].attemptCount;
         after[job].nextAttemptAt - at
           == 1_000_000 * (if n == 1 then 2 else if n == 2 then 4 else if n == 3 then 8
                           else if n == 4 then 16 else if n == 5 then 32 else 60)
  }

  lemma {:induction false} OutcomeIs(batch: seq<JobId>, publish: seq<Publication>, k: nat)
    requires Distinct(batch) && |publish| == |batch| && k < |batch|
    ensures Outcomes(batch, publish)[batch[k]] == publish[k]
  {
    var last := |batch| - 1;
    if k < last {
      assert batch[..last][k] == batch[k] && publish[..last][k] == publish[k];
      OutcomeIs(batch[..last], publish[..last], k);
    }
  }

  lemma NothingSettled(rows: map<JobId, DispatchRow>)
    ensures Settled(rows, map[]) == rows
  {
  }

  lemma BatchOneMore(rows: map<JobId, DispatchRow>, batch: seq<JobId>, publish: seq<Publication>, i: nat)
    requires Distinct(batch) && |publish| == |batch| && i < |batch| && batch[i] in rows
    ensures var now := Settled(rows, Outcomes(batch[..i], publish[..i]));
            && batch[i] in now
            && Settled(rows, Outcomes(batch[..i + 1], publish[..i + 1]))
            == match publish[i]
               case Sent => now - {batch[i]}
               case Failed(at) => now[batch[i] := BackedOff(now[batch[i]], at)]
  {
    assert batch[..i + 1][..i] == batch[..i] && publish[..i + 1][..i] == publish[..i];
    SettleOneMore(rows, Outcomes(batch[..i], publish[..i]), batch[i], publish[i]);
  }
}
