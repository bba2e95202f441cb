/**
 When the protocol leaves a queued job with nothing that will ever wake a worker:
 the exact steps that do it, the exact steps that undo it, and the runs that end so.
 */
module AnalysisStranding {
  import opened Base
  import opened AnalysisJobs
  import opened AnalysisRuns
  import T = AnalysisTheorems
  import D = AnalysisDispatch

  predicate Queued(s: State, job: JobId) {
    job in s.jobs && s.jobs[job].status == QUEUED
  }

  /** Queued, but no outbox row will publish it and no message will claim it. */
  predicate Stranded(s: State, job: JobId) {
    Queued(s, job) && job !in s.outbox && job !in s.inFlight
  }

  /** One message is all that is left of the job's wake-up. */
  predicate LastMessage(s: State, job: JobId) {
    job !in s.outbox && s.inFlight[job] == 1
  }

  /**
   The step takes a queued job's last wake-up: the last message is skipped over a
   row lock or its task fails, or a poller deletes the row it published after the
   message was already used up.
   */
  predicate Strands(s: State, act: Action, job: JobId) {
    && Queued(s, job)
    && match act
       case Deliver(j, _, _) => j == job && job in s.held && LastMessage(s, job)
       case DeliveryFails(j) => j == job && LastMessage(s, job)
       case CommitBatch(p) =>
         && p in s.batches && job in s.batches[p]
         && s.batches[p][job] == Some(D.Sent) && job !in s.inFlight
       case _ => false
  }

  /** The steps that give a stranded job another wake-up, or a worker. */
  predicate Rescues(act: Action, job: JobId) {
    act == GetExisting(job) || act == LatePublish(job) || (act.Claim? && act.job == job)
  }

  // ------------------------------------------------------------------ one step

  lemma TakingWakeUps(s: State, step: Step, lease: int, job: JobId)
    requires Inv(s) && Enabled(s, step, lease) && !Stranded(s, job)
    requires step.act.DeliveryFails? || step.act.CommitBatch?
    ensures Stranded(Next(s, step, lease), job) <==> Strands(s, step.act, job)
  {
    if step.act.CommitBatch? && Queued(s, job) {
      CommittedRow(s, step.act.poller, job, lease);
    }
  }

  lemma CommittedRow(s: State, p: Poller, job: JobId, lease: int)
    requires Inv(s) && p in s.batches
    ensures job in D.Settled(s.outbox, Results(s.batches[p])) <==>
            && job in s.outbox && !(job in s.batches[p] && s.batches[p][job] == Some(D.Sent))
    ensures job in s.batches[p] ==> job in s.outbox
  {
    if job in s.batches[p] {
      assert BatchInv(s, p, job);
    }
  }

  lemma DeliveryStrands(s: State, step: Step, lease: int, job: JobId)
    requires Inv(s) && Enabled(s, step, lease) && !Stranded(s, job) && step.act.Deliver?
    ensures Stranded(Next(s, step, lease), job) <==> Strands(s, step.act, job)
  {
    var j, cutoff := step.act.job, step.act.readAt - lease;
    assert JobInv(s.jobs[j], s.history[j]);
    if Reschedules(s, j, cutoff) {
      assert Next(s, step, lease).jobs == s.jobs;
    } else if j !in s.held {
      T.ClaimingMovesRow(s, j, cutoff, step.now, if job in s.jobs then job else j);
      T.ClaimingKeepsKeys(s, j, cutoff, step.now);
    }
  }

  lemma KeepingWakeUps(s: State, step: Step, lease: int, job: JobId)
    requires Inv(s) && Enabled(s, step, lease) && !Stranded(s, job)
    requires !step.act.Deliver? && !step.act.DeliveryFails? && !step.act.CommitBatch?
    ensures !Stranded(Next(s, step, lease), job)
  {
    var s' := Next(s, step, lease);
    T.StepKeepsKeys(s, step, lease);
    if job in s.jobs {
      assert JobInv(s.jobs[job], s.history[job]);
      T.StepMovesRow(s, step, lease, job);
    }
  }

  /**
   The exact condition, read off the state before the step: a job that still had a
   wake-up is stranded by the step if and only if the step takes the last one.
   */
  lemma StepStrandsExactlyTheLastWakeUp(s: State, step: Step, lease: int, job: JobId)
    requires Inv(s) && Enabled(s, step, lease) && !Stranded(s, job)
    ensures Stranded(Next(s, step, lease), job) <==> Strands(s, step.act, job)
  {
    if step.act.Deliver? {
      DeliveryStrands(s, step, lease, job);
    } else if step.act.DeliveryFails? || step.act.CommitBatch? {
      TakingWakeUps(s, step, lease, job);
    } else {
      KeepingWakeUps(s, step, lease, job);
    }
  }

  /** A stranded job has no message to deliver, no row to delete and no failure to retry. */
  lemma StrandedIsOutOfReach(s: State, step: Step, lease: int, job: JobId)
    requires Inv(s) && Enabled(s, step, lease) && Stranded(s, job)
    ensures !Strands(s, step.act, job)
    ensures step.act.Deliver? ==> step.act.job != job
    ensures step.act.PublishOk? ==> step.act.job != job
    ensures step.act.Retry? || step.act.Create? ==> step.act.job != job
  {
    assert forall p :: p in s.batches && job in s.batches[p] ==> BatchInv(s, p, job);
  }

  lemma ClaimRescues(s: State, step: Step, lease: int, job: JobId)
    requires Inv(s) && Enabled(s, step, lease) && Stranded(s, job) && step.act.Claim?
    ensures Stranded(Next(s, step, lease), job) <==> !Rescues(step.act, job)
  {
    var j, cutoff := step.act.job, step.act.readAt - lease;
    assert JobInv(s.jobs[job], s.history[job]);
    T.ClaimingMovesRow(s, j, cutoff, step.now, job);
  }

  lemma DeliveryRescuesNone(s: State, step: Step, lease: int, job: JobId)
    requires Inv(s) && Enabled(s, step, lease) && Stranded(s, job) && step.act.Deliver? && step.act.job != job
    ensures Stranded(Next(s, step, lease), job)
  {
    var j, cutoff := step.act.job, step.act.readAt - lease;
    if Reschedules(s, j, cutoff) {
      assert Next(s, step, lease).jobs == s.jobs;
    } else if j !in s.held {
      T.ClaimingMovesRow(s, j, cutoff, step.now, job);
    }
  }

  lemma OtherRescues(s: State, step: Step, lease: int, job: JobId)
    requires Inv(s) && Enabled(s, step, lease) && Stranded(s, job) && !step.act.Claim? && !step.act.Deliver?
    ensures Stranded(Next(s, step, lease), job) <==> !Rescues(step.act, job)
  {
    StrandedIsOutOfReach(s, step, lease, job);
    T.StepMovesRow(s, step, lease, job);
  }

  /**
   A stranded job stays stranded until somebody asks for the analysis again, a
   publication given up for lost arrives, or a worker claims it outright.
   */
  lemma StepRescuesExactly(s: State, step: Step, lease: int, job: JobId)
    requires Inv(s) && Enabled(s, step, lease) && Stranded(s, job)
    ensures Stranded(Next(s, step, lease), job) <==> !Rescues(step.act, job)
    ensures !Strands(s, step.act, job)
  {
    StrandedIsOutOfReach(s, step, lease, job);
    if step.act.Claim? {
      ClaimRescues(s, step, lease, job);
    } else if step.act.Deliver? {
      DeliveryRescuesNone(s, step, lease, job);
    } else {
      OtherRescues(s, step, lease, job);
    }
  }

  // ---------------------------------------------------------------- whole runs

  lemma {:induction false} RunLast(s: State, steps: seq<Step>, lease: int)
    requires steps != [] && Run(s, steps, lease).Some?
    ensures var front := steps[..|steps| - 1];
            && Run(s, front, lease).Some?
            && Enabled(Run(s, front, lease).value, steps[|steps| - 1], lease)
            && Run(s, steps, lease).value == Next(Run(s, front, lease).value, steps[|steps| - 1], lease)
    decreases |steps|
  {
    if |steps| > 1 {
      RunLast(Next(s, steps[0], lease), steps[1..], lease);
      assert steps[1..][..|steps| - 2] == steps[..|steps| - 1][1..];
    }
  }

  /** Step `k` of the run takes the job's last wake-up and no later step gives it another. */
  predicate StrandedBy(s: State, steps: seq<Step>, lease: int, job: JobId, k: int) {
    && 0 <= k < |steps|
    && Run(s, steps[..k], lease).Some?
    && Strands(Run(s, steps[..k], lease).value, steps[k].act, job)
    && forall i :: k < i < |steps| ==> !Rescues(steps[i].act, job)
  }

  lemma StrandedBySplits(s: State, steps: seq<Step>, lease: int, job: JobId, t: State, k: int)
    requires steps != [] && Run(s, steps[..|steps| - 1], lease) == Some(t)
    ensures StrandedBy(s, steps, lease, job, k) <==> SplitStranding(s, steps, lease, job, t, k)
  {
    var last := |steps| - 1;
    var front := steps[..last];
    if 0 <= k < last {
      assert front[..k] == steps[..k] && front[k] == steps[k];
      assert forall i :: k < i < last ==> front[i] == steps[i];
    }
  }

  /** A stranding by the last step, or an earlier one the last step leaves. */
  predicate SplitStranding(s: State, steps: seq<Step>, lease: int, job: JobId, t: State, k: int)
    requires steps != []
  {
    var last := |steps| - 1;
    || (k == last && Strands(t, steps[last].act, job))
    || (StrandedBy(s, steps[..last], lease, job, k) && !Rescues(steps[last].act, job))
  }

  /**
   Over any run: a job that had a wake-up ends without one if and only if some step
   took the last one and no later step gave it another. Every other queued job has
   an outbox row or a message.
   */
  lemma {:induction false} RunStrandsExactly(s: State, steps: seq<Step>, lease: int, job: JobId)
    requires Inv(s) && !Stranded(s, job) && Run(s, steps, lease).Some?
    ensures Stranded(Run(s, steps, lease).value, job) <==>
            exists k :: StrandedBy(s, steps, lease, job, k)
    decreases |steps|
  {
    if steps != [] {
      var last := |steps| - 1;
      RunLast(s, steps, lease);
      var t := Run(s, steps[..last], lease).value;
      RunStrandsExactly(s, steps[..last], lease, job);
      RunKeepsInv(s, steps[..last], lease);
      forall k ensures StrandedBy(s, steps, lease, job, k) <==> SplitStranding(s, steps, lease, job, t, k) {
        StrandedBySplits(s, steps, lease, job, t, k);
      }
      LastStepDecides(s, steps, lease, job, t);
    }
  }

  lemma LastStepDecides(s: State, steps: seq<Step>, lease: int, job: JobId, t: State)
    requires steps != [] && var last := |steps| - 1;
      && Inv(t) && Enabled(t, steps[last], lease)
      && (Stranded(t, job) <==> exists k :: StrandedBy(s, steps[..last], lease, job, k))
      && forall k :: StrandedBy(s, steps, lease, job, k) <==> SplitStranding(s, steps, lease, job, t, k)
    ensures Stranded(Next(t, steps[|steps| - 1], lease), job) <==>
            exists k :: StrandedBy(s, steps, lease, job, k)
  {
    var last := |steps| - 1;
    if Stranded(t, job) {
      StepRescuesExactly(t, steps[last], lease, job);
      var k :| StrandedBy(s, steps[..last], lease, job, k);
      if !Rescues(steps[last].act, job) {
        assert StrandedBy(s, steps, lease, job, k);
      }
    } else {
      StepStrandsExactlyTheLastWakeUp(t, steps[last], lease, job);
      if Strands(t, steps[last].act, job) {
        assert StrandedBy(s, steps, lease, job, last);
      }
    }
  }

  // -------------------------------------------------------------- such runs exist

  /**
   A delivery that skips over a row lock (a refused retry holds it) is
   acknowledged, and the job stays queued with neither an outbox row nor a message.
   */
  lemma SkippedDeliveryStrandsTheJob(lease: int) returns (steps: seq<Step>, s: State)
    ensures Run(Initial, steps, lease) == Some(s)
    ensures Stranded(s, 0) && s.held == {} && s.batches == map[]
  {
    var before, s0 := T.PublishedAndHeld(lease);
    var a, b := At(0, Deliver(0, 0, true)), At(0, Release(0));
    assert !Reschedules(s0, 0, 0 - lease);
    var s1 := Next(s0, a, lease);
    assert s1 == Consumed(s0, 0);
    assert s1.inFlight == multiset{};
    s := Next(s1, b, lease);
    T.RunFirst(s0, a, [b], lease);
    T.RunFirst(s1, b, [], lease);
    assert [a] + [b] == [a, b] && [b] + [] == [b];
    T.RunThen(Initial, before, [a, b], lease);
    steps := before + [a, b];
  }

  /** The same by a commit: the task fails before the poller that published it deletes the row. */
  lemma LateCommitStrandsTheJob(lease: int) returns (steps: seq<Step>, s: State)
    ensures Run(Initial, steps, lease) == Some(s)
    ensures Stranded(s, 0) && s.held == {} && s.batches == map[]
  {
    var before, s0 := T.Published(lease);
    var a, b := At(0, DeliveryFails(0)), At(0, CommitBatch(0));
    var s1 := Next(s0, a, lease);
    assert s1.inFlight == multiset{};
    assert Results(s1.batches[0])[0] == D.Sent;
    s := Next(s1, b, lease);
    assert s.outbox == map[] && s.batches == map[];
    T.RunFirst(s0, a, [b], lease);
    T.RunFirst(s1, b, [], lease);
    assert [a] + [b] == [a, b] && [b] + [] == [b];
    T.RunThen(Initial, before, [a, b], lease);
    steps := before + [a, b];
  }
}
