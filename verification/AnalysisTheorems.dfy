/** What the analysis-job protocol guarantees over whole runs, and the two places where its margin is thin. */
module AnalysisTheorems {
  import opened Base
  import opened AnalysisJobs
  import opened AnalysisRuns
  import D = AnalysisDispatch

  lemma InitialInv()
    ensures Inv(Initial)
  {
  }

  /**
   No lost wake-up. A queued job has a pending outbox row, or was published after
   it last became queued; and the broker still holds a message for it unless a
   delivery since then was thrown away.
   */
  lemma NoLostWakeUp(steps: seq<Step>, lease: int, job: JobId)
    requires Run(Initial, steps, lease).Some?
    requires var s := Run(Initial, steps, lease).value; job in s.jobs && s.jobs[job].status == QUEUED
    ensures var s := Run(Initial, steps, lease).value;
            && (job in s.outbox || job in s.woken)
            && (job in s.outbox || job in s.inFlight || job in s.dropped)
  {
    InitialInv();
    RunKeepsInv(Initial, steps, lease);
    assert WakeInv(Run(Initial, steps, lease).value, job);
  }

  /** Attempt numbers are the number of claims so far, stay within the limit, and leave room to claim while queued. */
  lemma AttemptsCountClaims(steps: seq<Step>, lease: int, job: JobId)
    requires Run(Initial, steps, lease).Some? && job in Run(Initial, steps, lease).value.jobs
    ensures var s := Run(Initial, steps, lease).value;
            && job in s.history && Legal(s.history[job])
            && s.jobs[job].attemptCount == Claims(s.history[job]) <= s.jobs[job].maxAttempts
            && (s.jobs[job].status == QUEUED ==> s.jobs[job].attemptCount < s.jobs[job].maxAttempts)
  {
    InitialInv();
    RunKeepsInv(Initial, steps, lease);
    var s := Run(Initial, steps, lease).value;
    assert JobInv(s.jobs[job], s.history[job]);
  }

  function Attempt(e: Event): nat {
    e.attempt
  }

  /** In a legal history no event carries more than the number of claims. */
  lemma {:induction false} LegalBounds(h: seq<Event>, i: nat)
    requires Legal(h) && i < |h|
    ensures 1 <= Attempt(h[i]) <= Claims(h)
    ensures h[i].Finished? ==> h[i].status in {DONE, ERROR}
  {
    var front := h[..|h| - 1];
    if i < |front| {
      LegalBounds(front, i);
      assert front[i] == h[i];
    } else if h[i].Finished? {
      LegalBounds(front, |front| - 1);
    }
  }

  /**
   Fencing read off a legal history: attempts never go back, two claims or two
   endings never share one, and nothing at all follows DONE. So each attempt ends
   at most once and only before the next claim.
   */
  lemma {:induction false} LegalHistoryIsFenced(h: seq<Event>, i: nat, k: nat)
    requires Legal(h) && i < k < |h|
    ensures Attempt(h[i]) <= Attempt(h[k])
    ensures h[i].Claimed? == h[k].Claimed? ==> Attempt(h[i]) < Attempt(h[k])
    ensures h[i].Finished? ==> h[i].status == ERROR && Attempt(h[i]) < Attempt(h[k])
  {
    var front := h[..|h| - 1];
    if k < |front| {
      LegalHistoryIsFenced(front, i, k);
      assert front[i] == h[i] && front[k] == h[k];
    } else {
      LegalBounds(front, i);
      assert front[i] == h[i];
      if h[k].Finished? {
        if i < |front| - 1 {
          LegalHistoryIsFenced(front, i, |front| - 1);
        }
      } else if h[i].Finished? && h[i].status == DONE {
        DoneIsLast(front, i);
      }
    }
  }

  lemma {:induction false} DoneIsLast(h: seq<Event>, i: nat)
    requires Legal(h) && i < |h| && h[i].Finished? && h[i].status == DONE
    ensures i == |h| - 1 && h[i] == Finished(Claims(h), DONE)
  {
    var front := h[..|h| - 1];
    if i < |front| {
      assert front[i] == h[i];
      DoneIsLast(front, i);
    } else {
      assert Claims(h) == Claims(front);
    }
  }

  // -------------------------------------------------------- monotone over runs

  /** What one step can do to one job's row and history. */
  ghost predicate RowMove(row: Job, h: seq<Event>, row': Job, h': seq<Event>, job: JobId, step: Step, lease: int) {
    || (row' == row && h' == h)
    || (step.act.Claim? && step.act.job == job
        && TakenOver(row, h, row', h', step.act.readAt - lease, step.now) && step.act.readAt <= step.now)
    || (step.act.Deliver? && step.act.job == job
        && TakenOver(row, h, row', h', step.act.readAt - lease, step.now) && step.act.readAt <= step.now)
    || (step.act.Heartbeat? && step.act.job == job && Holds(row, step.act.attempt)
        && row' == AfterHeartbeat(row, step.act.attempt, step.now) && h' == h)
    || (Ends(step, job, row.attemptCount) && row.status == RUNNING && h' == h + [Finished(row.attemptCount, row'.status)]
        && row' == if step.act.FinishDone? then row.(status := DONE, finishedAt := Some(step.now))
                   else row.(status := ERROR, errorCode := Some(step.act.code), finishedAt := Some(step.now)))
    || (step.act == Retry(job) && row.status == ERROR && row' == AfterRetry(row, step.now) && h' == h)
  }

  ghost predicate TakenOver(row: Job, h: seq<Event>, row': Job, h': seq<Event>, cutoff: int, now: int) {
    && row' == AfterClaim(row, cutoff, now)
    && match ClaimResult(row, cutoff)
       case Claimed => h' == h + [Event.Claimed(row.attemptCount + 1)]
       case Exhausted => h' == h + [Finished(row.attemptCount, ERROR)]
       case _ => h' == h
  }

  lemma StepMovesRow(s: State, step: Step, lease: int, job: JobId)
    requires s.jobs.Keys == s.history.Keys && Enabled(s, step, lease) && job in s.jobs
    ensures var s' := Next(s, step, lease);
            && job in s'.jobs && job in s'.history
            && RowMove(s.jobs[job], s.history[job], s'.jobs[job], s'.history[job], job, step, lease)
  {
    if step.act.Claim? {
      ClaimingMovesRow(s, step.act.job, step.act.readAt - lease, step.now, job);
    } else if step.act.Deliver? {
      DeliveryMovesRow(s, step, lease, job);
    } else if step.act.FinishDone? || step.act.FinishError? {
      FinishMovesRow(s, step, lease, job);
    } else if step.act.Retry? || step.act.Heartbeat? || step.act.Create? {
      EditMovesRow(s, step, lease, job);
    } else {
      QuietStepKeepsRows(s, step, lease);
    }
  }

  lemma ClaimingKeepsKeys(s: State, job: JobId, cutoff: int, now: int)
    requires s.jobs.Keys == s.history.Keys && job in s.jobs
    ensures Claiming(s, job, cutoff, now).jobs.Keys == s.jobs.Keys
    ensures Claiming(s, job, cutoff, now).history.Keys == s.jobs.Keys
  {
  }

  lemma DeliveryKeepsKeys(s: State, step: Step, lease: int)
    requires s.jobs.Keys == s.history.Keys && Enabled(s, step, lease) && step.act.Deliver?
    ensures Next(s, step, lease).jobs.Keys == Next(s, step, lease).history.Keys == s.jobs.Keys
  {
    ClaimingKeepsKeys(s, step.act.job, step.act.readAt - lease, step.now);
    DeliveringClaimsOrNot(s, step.act.job, step.act.readAt, step.act.acked, lease, step.now);
  }

  lemma OtherStepKeepsKeys(s: State, step: Step, lease: int)
    requires s.jobs.Keys == s.history.Keys && Enabled(s, step, lease) && !step.act.Deliver? && !step.act.Claim?
    ensures var s' := Next(s, step, lease);
            s'.jobs.Keys == s'.history.Keys == if step.act.Create? then s.jobs.Keys + {step.act.job} else s.jobs.Keys
  {
    if step.act.FinishDone? || step.act.FinishError? || step.act.Heartbeat? || step.act.Retry? || step.act.Create? {
    } else {
      QuietStepKeepsRows(s, step, lease);
    }
  }

  lemma StepKeepsKeys(s: State, step: Step, lease: int)
    requires s.jobs.Keys == s.history.Keys && Enabled(s, step, lease)
    ensures var s' := Next(s, step, lease);
            s'.jobs.Keys == s'.history.Keys == if step.act.Create? then s.jobs.Keys + {step.act.job} else s.jobs.Keys
  {
    if step.act.Claim? {
      ClaimingKeepsKeys(s, step.act.job, step.act.readAt - lease, step.now);
    } else if step.act.Deliver? {
      DeliveryKeepsKeys(s, step, lease);
    } else {
      OtherStepKeepsKeys(s, step, lease);
    }
  }

  lemma ClaimingMovesRow(s: State, claimed: JobId, cutoff: int, now: int, job: JobId)
    requires s.jobs.Keys == s.history.Keys && claimed in s.jobs && job in s.jobs
    ensures var s' := Claiming(s, claimed, cutoff, now);
            && job in s'.jobs && job in s'.history
            && if job == claimed
               then TakenOver(s.jobs[job], s.history[job], s'.jobs[job], s'.history[job], cutoff, now)
               else s'.jobs[job] == s.jobs[job] && s'.history[job] == s.history[job]
  {
  }

  lemma DeliveringClaimsOrNot(s: State, job: JobId, readAt: int, acked: bool, lease: int, now: int)
    requires job in s.jobs && job in s.history
    ensures var s', claimed := Delivering(s, job, readAt, acked, lease, now), Claiming(s, job, readAt - lease, now);
            || (s'.jobs == s.jobs && s'.history == s.history)
            || (s'.jobs == claimed.jobs && s'.history == claimed.history)
  {
    if Reschedules(s, job, readAt - lease) {
      var due := now + RetryDelay(s.jobs[job], lease, now) * SECOND;
      assert Delivering(s, job, readAt, acked, lease, now) == s.(outbox := D.Enqueued(s.outbox, job, Some(due), now));
    } else if job in s.held {
      assert Delivering(s, job, readAt, acked, lease, now) == Consumed(s, job);
    }
  }

  lemma DeliveryMovesRow(s: State, step: Step, lease: int, job: JobId)
    requires s.jobs.Keys == s.history.Keys && Enabled(s, step, lease) && job in s.jobs && step.act.Deliver?
    ensures var s' := Next(s, step, lease);
            && job in s'.jobs && job in s'.history
            && RowMove(s.jobs[job], s.history[job], s'.jobs[job], s'.history[job], job, step, lease)
  {
    ClaimingMovesRow(s, step.act.job, step.act.readAt - lease, step.now, job);
    DeliveringClaimsOrNot(s, step.act.job, step.act.readAt, step.act.acked, lease, step.now);
  }

  lemma EditMovesRow(s: State, step: Step, lease: int, job: JobId)
    requires s.jobs.Keys == s.history.Keys && Enabled(s, step, lease) && job in s.jobs
    requires step.act.Retry? || step.act.Heartbeat? || step.act.Create?
    ensures var s' := Next(s, step, lease);
            && job in s'.jobs && job in s'.history
            && RowMove(s.jobs[job], s.history[job], s'.jobs[job], s'.history[job], job, step, lease)
  {
  }

  lemma FinishMovesRow(s: State, step: Step, lease: int, job: JobId)
    requires s.jobs.Keys == s.history.Keys && Enabled(s, step, lease) && job in s.jobs
    requires step.act.FinishDone? || step.act.FinishError?
    ensures var s' := Next(s, step, lease);
            && job in s'.jobs && job in s'.history
            && RowMove(s.jobs[job], s.history[job], s'.jobs[job], s'.history[job], job, step, lease)
  {
  }

  lemma QuietStepKeepsRows(s: State, step: Step, lease: int)
    requires Enabled(s, step, lease)
    requires !step.act.Claim? && !step.act.Deliver? && !step.act.FinishDone? && !step.act.FinishError?
    requires !step.act.Retry? && !step.act.Heartbeat? && !step.act.Create?
    ensures Next(s, step, lease).jobs == s.jobs && Next(s, step, lease).history == s.history
  {
    if step.act.LockBatch? || step.act.PublishOk? || step.act.PublishFails? || step.act.CommitBatch? {
      PollerStepKeepsRows(s, step, lease);
    }
  }

  lemma PollerStepKeepsRows(s: State, step: Step, lease: int)
    requires Enabled(s, step, lease)
    requires step.act.LockBatch? || step.act.PublishOk? || step.act.PublishFails? || step.act.CommitBatch?
    ensures Next(s, step, lease).jobs == s.jobs && Next(s, step, lease).history == s.history
  {
  }

  lemma StepGrowsAttempts(s: State, step: Step, lease: int, job: JobId)
    requires Inv(s) && Enabled(s, step, lease) && job in s.jobs
    ensures var s' := Next(s, step, lease);
            && job in s'.jobs && job in s'.history
            && s.jobs[job].attemptCount <= s'.jobs[job].attemptCount
            && s.history[job] <= s'.history[job]
            && (s.jobs[job].status == DONE ==>
                  s'.jobs[job] == s.jobs[job] && s'.history[job] == s.history[job])
  {
    StepMovesRow(s, step, lease, job);
  }

  /** Over any run attempts only grow, history is only appended to, and a DONE job never changes again. */
  lemma {:induction false} DoneIsAbsorbing(s: State, steps: seq<Step>, lease: int, job: JobId)
    requires Inv(s) && job in s.jobs && Run(s, steps, lease).Some?
    ensures var t := Run(s, steps, lease).value;
            && job in t.jobs && job in t.history
            && s.jobs[job].attemptCount <= t.jobs[job].attemptCount
            && s.history[job] <= t.history[job]
            && (s.jobs[job].status == DONE ==>
                  t.jobs[job] == s.jobs[job] && t.history[job] == s.history[job])
    decreases |steps|
  {
    if steps != [] {
      StepGrowsAttempts(s, steps[0], lease, job);
      StepKeepsInv(s, steps[0], lease);
      DoneIsAbsorbing(Next(s, steps[0], lease), steps[1..], lease, job);
    }
  }

  /** Once a later attempt was claimed, no run ever lets the worker of an older one touch the row again. */
  lemma OldAttemptIsPowerless(
    s: State, steps: seq<Step>, t: State, lease: int, job: JobId, attempt: nat, last: Step)
    requires Inv(s) && job in s.jobs && attempt < s.jobs[job].attemptCount
    requires Run(s, steps, lease) == Some(t)
    ensures && Enabled(t, last, lease)
            && (last.act == Heartbeat(job, attempt) || Ends(last, job, attempt))
            ==> Next(t, last, lease) == t.(clock := last.now)
  {
    DoneIsAbsorbing(s, steps, lease, job);
  }

  // ------------------------------------------------------------------- leases

  /** Every step comes less than a lease after the latest touch, which `last` is to begin with. */
  predicate Spaced(steps: seq<Step>, job: JobId, attempt: nat, last: int, lease: int)
    decreases |steps|
  {
    steps != [] ==>
      && steps[0].now < last + lease
      && Spaced(steps[1..], job, attempt,
                if steps[0].act == Heartbeat(job, attempt) then steps[0].now else last, lease)
  }

  predicate Ends(step: Step, job: JobId, attempt: nat) {
    || step.act == FinishDone(job, attempt)
    || (step.act.FinishError? && step.act.job == job && step.act.attempt == attempt)
  }

  lemma SpacedStepKeepsTheLease(s: State, step: Step, lease: int, job: JobId, attempt: nat, last: int)
    requires Inv(s) && Enabled(s, step, lease) && job in s.jobs
    requires Holds(s.jobs[job], attempt) && LastTouch(s.jobs[job]) >= last
    requires step.now < last + lease && !Ends(step, job, attempt)
    ensures var s' := Next(s, step, lease);
            && job in s'.jobs && Holds(s'.jobs[job], attempt)
            && LastTouch(s'.jobs[job]) >= if step.act == Heartbeat(job, attempt) then step.now else last
  {
    StepMovesRow(s, step, lease, job);
    if step.act == Heartbeat(job, attempt) {
      assert Next(s, step, lease).jobs[job] == AfterHeartbeat(s.jobs[job], attempt, step.now);
    }
  }

  /** A worker whose touches are spaced under the lease is never reclaimed before it finishes. */
  lemma {:induction false} SpacedWorkerKeepsItsJob(
    s: State, steps: seq<Step>, lease: int, job: JobId, attempt: nat, last: int)
    requires Inv(s) && job in s.jobs && Holds(s.jobs[job], attempt) && LastTouch(s.jobs[job]) >= last
    requires Spaced(steps, job, attempt, last, lease) && Run(s, steps, lease).Some?
    ensures || (exists k :: 0 <= k < |steps| && Ends(steps[k], job, attempt))
            || (var t := Run(s, steps, lease).value; job in t.jobs && Holds(t.jobs[job], attempt))
    decreases |steps|
  {
    if steps != [] && !Ends(steps[0], job, attempt) {
      SpacedStepKeepsTheLease(s, steps[0], lease, job, attempt, last);
      StepKeepsInv(s, steps[0], lease);
      var rest := steps[1..];
      SpacedWorkerKeepsItsJob(Next(s, steps[0], lease), rest, lease, job, attempt,
        if steps[0].act == Heartbeat(job, attempt) then steps[0].now else last);
      if k :| 0 <= k < |rest| && Ends(rest[k], job, attempt) {
        assert Ends(steps[k + 1], job, attempt);
      }
    }
  }

  /** The converse: a worker silent for a whole lease loses the row to the next claim. */
  lemma SilentWorkerIsReplaced(s: State, step: Step, lease: int, job: JobId)
    requires Inv(s) && Enabled(s, step, lease) && job in s.jobs && s.jobs[job].status == RUNNING
    requires step.act.Claim? && step.act.job == job
    ensures var row' := Next(s, step, lease).jobs[job];
            if step.act.readAt < LastTouch(s.jobs[job]) + lease then row' == s.jobs[job]
            else !Holds(row', s.jobs[job].attemptCount)
  {
  }

  // -------------------------------------------------------------- thin margins

  lemma RunFirst(s: State, step: Step, rest: seq<Step>, lease: int)
    requires Enabled(s, step, lease)
    ensures Run(s, [step] + rest, lease) == Run(Next(s, step, lease), rest, lease)
  {
  }

  /** A run in which job 0 is created, published once, and its message delivered. */
  lemma Published(lease: int) returns (steps: seq<Step>, s: State)
    ensures Run(Initial, steps, lease) == Some(s) && s.clock == 0
    ensures s.jobs == map[0 := NewJob(3, map[], 0)] && s.held == {} && s.history == map[0 := []]
    ensures s.batches == map[0 := map[0 := Some(D.Sent)]]
    ensures s.outbox == map[0 := D.DispatchRow(0, 0)]
    ensures s.inFlight == multiset{0} && s.dropped == {} && s.woken == {0}
  {
    var a, b, c := At(0, Create(0, 3, map[])), At(0, LockBatch(0, [0])), At(0, PublishOk(0, 0));
    var s1 := Next(Initial, a, lease);
    assert s1.outbox == map[0 := D.DispatchRow(0, 0)];
    assert Enabled(s1, b, lease);
    var s2 := Next(s1, b, lease);
    var batch: Batch := map[0 := None];
    assert s2.batches[0] == batch;
    assert s2.batches == map[0 := map[0 := None]];
    var s3 := Next(s2, c, lease);
    var sent: Batch := map[0 := Some(D.Sent)];
    assert s3.batches[0] == sent;
    RunFirst(Initial, a, [b, c], lease);
    RunFirst(s1, b, [c], lease);
    RunFirst(s2, c, [], lease);
    assert [a] + [b, c] == [a, b, c] && [b] + [c] == [b, c] && [c] + [] == [c];
    steps, s := [a, b, c], s3;
  }

  lemma {:induction false} RunThen(s: State, first: seq<Step>, second: seq<Step>, lease: int)
    requires Run(s, first, lease).Some?
    ensures Run(s, first + second, lease) == Run(Run(s, first, lease).value, second, lease)
    decreases |first|
  {
    if first == [] {
      assert first + second == second;
    } else {
      assert (first + second)[1..] == first[1..] + second;
      RunThen(Next(s, first[0], lease), first[1..], second, lease);
    }
  }

  /** Published and settled: only the message is left, and a refused retry holds the row. */
  lemma PublishedAndHeld(lease: int) returns (steps: seq<Step>, s: State)
    ensures Run(Initial, steps, lease) == Some(s) && s.clock == 0
    ensures s.jobs == map[0 := NewJob(3, map[], 0)] && s.held == {0} && s.history == map[0 := []]
    ensures s.batches == map[] && s.outbox == map[] && s.inFlight == multiset{0}
  {
    var before, s0 := Published(lease);
    var a, b := At(0, CommitBatch(0)), At(0, Hold(0));
    assert Results(s0.batches[0])[0] == D.Sent;
    var s1 := Next(s0, a, lease);
    assert s1.outbox == map[] && s1.batches == map[];
    s := Next(s1, b, lease);
    RunFirst(s0, a, [b], lease);
    RunFirst(s1, b, [], lease);
    assert [a] + [b] == [a, b] && [b] + [] == [b];
    RunThen(Initial, before, [a, b], lease);
    steps := before + [a, b];
  }

  /** The published job is delivered, fails, and is back in ERROR while the poller still holds its row. */
  lemma FailedUnderLock(lease: int) returns (steps: seq<Step>, s: State)
    ensures Run(Initial, steps, lease) == Some(s) && s.clock == 0
    ensures 0 in s.jobs && s.jobs[0].status == ERROR && s.jobs[0].attemptCount == 1 && s.jobs[0].maxAttempts == 3
    ensures s.batches == map[0 := map[0 := Some(D.Sent)]]
    ensures s.outbox == map[0 := D.DispatchRow(0, 0)]
    ensures s.inFlight == multiset{} && s.dropped == {}
  {
    var before, s0 := Published(lease);
    var a, b := At(0, Deliver(0, 0, true)), At(0, FinishError(0, 1, "PDF_STORAGE_ERROR"));
    assert ClaimResult(s0.jobs[0], 0 - lease) == ClaimOutcome.Claimed;
    var s1 := Next(s0, a, lease);
    assert s1.jobs[0] == MarkRunning(s0.jobs[0], 0);
    assert s1.inFlight == multiset{};
    assert s1.batches == s0.batches && s1.outbox == s0.outbox;
    var s2 := Next(s1, b, lease);
    RunFirst(s0, a, [b], lease);
    RunFirst(s1, b, [], lease);
    assert [a] + [b] == [a, b] && [b] + [] == [b];
    RunThen(Initial, before, [a, b], lease);
    steps, s := before + [a, b], s2;
  }

  /** Retrying with nothing but the status trigger's `DO NOTHING`, which does not wait for a locked row. */
  function RetryByTriggerAlone(s: State, job: JobId, now: int): State
    requires job in s.jobs
  {
    s.(jobs := s.jobs[job := AfterRetry(s.jobs[job], now)],
       outbox := D.Enqueued(s.outbox, job, None, now),
       woken := s.woken - {job}, dropped := s.dropped - {job})
  }

  /**
   Why `retry_job` also upserts: with the trigger alone, a poller that published
   before the retry deletes the row after it, and the queued job has no wake-up.
   */
  lemma TriggerAloneWouldLoseTheWakeUp(lease: int) returns (steps: seq<Step>, s: State)
    ensures Run(Initial, steps, lease) == Some(s)
    ensures 0 in s.jobs && Retryable(s.jobs[0]) && RowLocked(s, 0)
    ensures var retried := RetryByTriggerAlone(s, 0, 0);
            var commit := At(0, CommitBatch(0));
            && Enabled(retried, commit, lease)
            && var end := Next(retried, commit, lease);
               && end.jobs[0].status == QUEUED
               && 0 !in end.outbox && 0 !in end.woken && 0 !in end.inFlight && 0 !in end.dropped
  {
    steps, s := FailedUnderLock(lease);
    assert 0 in s.batches && 0 in s.batches[0];
    var retried := RetryByTriggerAlone(s, 0, 0);
    assert retried.outbox == s.outbox;
    assert Results(retried.batches[0])[0] == D.Sent;
  }
}
