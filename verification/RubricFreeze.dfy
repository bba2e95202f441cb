/**
 The triggers that freeze a rubric at the first submission. Statements of every kind
 are run against them, the application's requests and direct changes alike.
 */
module RubricFreeze {
  import opened Base
  import opened Rubrics

  /**
   One statement. In an assignment update a field that is not in the SET list is None;
   `nested` says that it runs inside another trigger.
   */
  datatype Statement =
    | Request(rv: LoadedRubric, request: Rubrics.Request)
    | InsertCriterion(id: int, criterion: Criterion)
    | UpdateCriterion(id: int, criterion: Criterion)
    | DeleteCriterion(id: int)
    | InsertRubric(id: int, rubricRow: Rubric)
    | UpdateRubric(id: int, rubricRow: Rubric)
    | DeleteRubric(id: int)
    | InsertAssignment(id: int, assignment: Assignment)
    | UpdateAssignment(id: int, rubric: Option<int>, firstSubmission: Option<Option<int>>, nested: bool)
    | DeleteAssignment(id: int)
    | Submit(id: int, to: int, now: int)
    | MoveSubmission(id: int, to: int, now: int)
    | DeleteSubmission(id: int)

  /** The loop every criterion trigger runs for a parent rubric. */
  method ParentMutable(db: Database, parent: int) returns (ok: bool)
    ensures ok <==> !Frozen(db, parent)
  {
    var todo := set a | a in db.assignments && db.assignments[a].rubric == parent;
    while todo != {}
      invariant forall a :: a in todo ==> a in db.assignments && db.assignments[a].rubric == parent
      invariant forall a :: a in db.assignments && db.assignments[a].rubric == parent && a !in todo ==>
                  db.assignments[a].firstSubmission.None?
      decreases |todo|
    {
      HasElement(todo);
      var a :| a in todo;
      if db.assignments[a].firstSubmission.Some? {
        return false;
      }
      todo := todo - {a};
    }
    ok := true;
  }

  /** The criterion trigger: no parent involved may be frozen. */
  function CriterionInserted(db: Database, id: int, c: Criterion): Database {
    if id in db.criteria || c.rubric !in db.rubrics || Frozen(db, c.rubric) then db
    else db.(criteria := db.criteria[id := c])
  }

  function CriterionUpdated(db: Database, id: int, c: Criterion): Database {
    if id !in db.criteria || c.rubric !in db.rubrics || Frozen(db, db.criteria[id].rubric) || Frozen(db, c.rubric)
    then db
    else db.(criteria := db.criteria[id := c])
  }

  function CriterionDeleted(db: Database, id: int): Database {
    if id !in db.criteria || Frozen(db, db.criteria[id].rubric) then db
    else db.(criteria := db.criteria - {id})
  }

  /** The rubric trigger, and the table's check on the total. */
  function RubricUpdated(db: Database, id: int, row: Rubric): Database {
    if id !in db.rubrics || Frozen(db, id) || !InRange(row.total) then db
    else db.(rubrics := db.rubrics[id := row])
  }

  /** A rubric an assignment uses stays; otherwise its criteria go with it. */
  function RubricDeleted(db: Database, id: int): Database {
    if id !in db.rubrics || Frozen(db, id) || (exists a :: a in db.assignments && db.assignments[a].rubric == id)
    then db
    else db.(rubrics := db.rubrics - {id},
             criteria := map c | c in db.criteria && db.criteria[c].rubric != id :: db.criteria[c])
  }

  /** The marker may not be brought along by an insert. */
  function AssignmentInserted(db: Database, id: int, a: Assignment): Database {
    if id in db.assignments || a.rubric !in db.rubrics || a.firstSubmission.Some? then db
    else db.(assignments := db.assignments[id := a])
  }

  /** Raised by the marker trigger. */
  predicate MarkerRefused(before: Option<int>, after: Option<int>, nested: bool) {
    || (before.Some? && after != before)
    || (before.None? && after.Some? && !nested)
  }

  function AssignmentUpdated(
    db: Database, id: int, rubric: Option<int>, firstSubmission: Option<Option<int>>, nested: bool): Database
  {
    if id !in db.assignments then db
    else
      var a := db.assignments[id];
      var b := Assignment(if rubric.Some? then rubric.value else a.rubric,
                          if firstSubmission.Some? then firstSubmission.value else a.firstSubmission);
      if firstSubmission.Some? && MarkerRefused(a.firstSubmission, b.firstSubmission, nested) then db
      else if rubric.Some? && b.rubric != a.rubric && (a.firstSubmission.Some? || b.rubric !in db.rubrics) then db
      else db.(assignments := db.assignments[id := b])
  }

  predicate HasSubmission(db: Database, assignment: int) {
    exists x :: x in db.submissions && db.submissions[x] == assignment
  }

  /** An assignment with submissions may not go. */
  function AssignmentDeleted(db: Database, id: int): Database {
    if HasSubmission(db, id) then db else db.(assignments := db.assignments - {id})
  }

  /** A submission to an assignment, new or moved, sets the marker once, from inside its own trigger. */
  function SubmissionPut(db: Database, id: int, assignment: int, now: int): Database {
    if assignment !in db.assignments then db
    else
      var before := db.assignments[assignment].firstSubmission;
      var marked := AssignmentUpdated(db, assignment, None, Some(if before.Some? then before else Some(now)), true);
      marked.(submissions := marked.submissions[id := assignment])
  }

  function Run(db: Database, s: Statement): Database {
    match s
    case Request(rv, request) => Served(db, rv, request)
    case InsertCriterion(id, c) => CriterionInserted(db, id, c)
    case UpdateCriterion(id, c) => CriterionUpdated(db, id, c)
    case DeleteCriterion(id) => CriterionDeleted(db, id)
    case InsertAssignment(id, a) => AssignmentInserted(db, id, a)
    case UpdateAssignment(id, rubric, firstSubmission, nested) =>
      AssignmentUpdated(db, id, rubric, firstSubmission, nested)
    case DeleteAssignment(id) => AssignmentDeleted(db, id)
    case InsertRubric(id, row) =>
      if id in db.rubrics || !InRange(row.total) then db else db.(rubrics := db.rubrics[id := row])
    case UpdateRubric(id, row) => RubricUpdated(db, id, row)
    case DeleteRubric(id) => RubricDeleted(db, id)
    case Submit(id, to, now) => if id in db.submissions then db else SubmissionPut(db, id, to, now)
    case MoveSubmission(id, to, now) => if id !in db.submissions then db else SubmissionPut(db, id, to, now)
    case DeleteSubmission(id) => db.(submissions := db.submissions - {id})
  }

  function After(db: Database, run: seq<Statement>): Database {
    if run == [] then db else Run(After(db, run[..|run| - 1]), run[|run| - 1])
  }

  /** The criteria of rubric `r` are the same in both. */
  ghost predicate SameCriteria(before: Database, after: Database, r: int) {
    forall id, c: Criterion :: c.rubric == r ==>
      ((id in before.criteria && before.criteria[id] == c) <==> (id in after.criteria && after.criteria[id] == c))
  }

  lemma StepKeepsFrozenCriteria(db: Database, s: Statement, r: int)
    requires Frozen(db, r)
    ensures SameCriteria(db, Run(db, s), r)
  {
  }

  /** The row of a frozen rubric stays what it was too, its total included. */
  lemma StepKeepsFrozenRubric(db: Database, s: Statement, r: int)
    requires Frozen(db, r) && r in db.rubrics
    ensures r in Run(db, s).rubrics && Run(db, s).rubrics[r] == db.rubrics[r]
  {
  }

  predicate Marked(db: Database, a: int) {
    a in db.assignments && db.assignments[a].firstSubmission.Some?
  }

  /** A marked assignment keeps its rubric and its marker, and goes exactly by a deletion when nothing is submitted to it. */
  lemma MarkedAssignmentGoesExactlyUnsubmitted(db: Database, s: Statement, a: int)
    requires Marked(db, a)
    ensures a in Run(db, s).assignments ==> Run(db, s).assignments[a] == db.assignments[a]
    ensures a !in Run(db, s).assignments <==> s == DeleteAssignment(a) && !HasSubmission(db, a)
  {
  }

  /**
   A frozen rubric thaws in one step exactly when the step deletes the only marked
   assignment that uses it, and nothing is submitted to that one.
   */
  lemma ThawsExactlyWithItsLastAssignment(db: Database, s: Statement, r: int)
    requires Frozen(db, r)
    ensures !Frozen(Run(db, s), r) <==>
              && s.DeleteAssignment? && !HasSubmission(db, s.id)
              && forall a :: Marked(db, a) && db.assignments[a].rubric == r ==> a == s.id
  {
    var after := Run(db, s);
    forall a | Marked(db, a) ensures a in after.assignments ==> after.assignments[a] == db.assignments[a]
      ensures a !in after.assignments <==> s == DeleteAssignment(a) && !HasSubmission(db, a)
    {
      MarkedAssignmentGoesExactlyUnsubmitted(db, s, a);
    }
    var a :| a in db.assignments && db.assignments[a].rubric == r && db.assignments[a].firstSubmission.Some?;
    assert Marked(db, a);
    if s.DeleteAssignment? && !HasSubmission(db, s.id) {
      assert after.assignments == db.assignments - {s.id};
    } else {
      assert a in after.assignments;
    }
  }

  /** Every submission is to an assignment that is there and carries the marker. */
  ghost predicate SubmissionsMark(db: Database) {
    forall x :: x in db.submissions ==> Marked(db, db.submissions[x])
  }

  lemma StepKeepsSubmissionsMark(db: Database, s: Statement)
    requires SubmissionsMark(db)
    ensures SubmissionsMark(Run(db, s))
  {
    var after := Run(db, s);
    forall x | x in after.submissions ensures Marked(after, after.submissions[x]) {
      if x in db.submissions && after.submissions[x] == db.submissions[x] {
        MarkedAssignmentGoesExactlyUnsubmitted(db, s, db.submissions[x]);
      }
    }
  }

  lemma {:induction false} RunKeepsSubmissionsMark(db: Database, run: seq<Statement>)
    requires SubmissionsMark(db)
    ensures SubmissionsMark(After(db, run))
  {
    if run != [] {
      RunKeepsSubmissionsMark(db, run[..|run| - 1]);
      StepKeepsSubmissionsMark(After(db, run[..|run| - 1]), run[|run| - 1]);
    }
  }

  /** The statement deletes submission `x` or makes it one to another assignment. */
  predicate Withdraws(s: Statement, x: int) {
    s == DeleteSubmission(x) || (s.MoveSubmission? && s.id == x)
  }

  lemma StepKeepsSubmission(db: Database, s: Statement, x: int)
    requires x in db.submissions && !Withdraws(s, x)
    ensures x in Run(db, s).submissions && Run(db, s).submissions[x] == db.submissions[x]
  {
  }

  /** Step `k` of the run deletes the assignment at a moment when nothing is submitted to it. */
  predicate Removes(db: Database, run: seq<Statement>, a: int, k: int)
    requires 0 <= k < |run|
  {
    run[k] == DeleteAssignment(a) && !HasSubmission(After(db, run[..k]), a)
  }

  /** The assignment and all that freezes with it are the same in both. */
  ghost predicate SameFrozen(before: Database, after: Database, a: int)
    requires a in before.assignments
  {
    var r := before.assignments[a].rubric;
    && a in after.assignments && after.assignments[a] == before.assignments[a]
    && SameCriteria(before, after, r)
    && (r in before.rubrics ==> r in after.rubrics && after.rubrics[r] == before.rubrics[r])
  }

  lemma StepKeepsFrozen(db: Database, s: Statement, a: int)
    requires Marked(db, a) && !(s == DeleteAssignment(a) && !HasSubmission(db, a))
    ensures SameFrozen(db, Run(db, s), a)
  {
    MarkedAssignmentGoesExactlyUnsubmitted(db, s, a);
    assert Frozen(db, db.assignments[a].rubric);
    StepKeepsFrozenCriteria(db, s, db.assignments[a].rubric);
    if db.assignments[a].rubric in db.rubrics {
      StepKeepsFrozenRubric(db, s, db.assignments[a].rubric);
    }
  }

  /**
   After the first submission to an assignment nothing that follows, short of deleting
   the assignment when every submission to it is gone, changes its rubric, its marker,
   any criterion of that rubric, or the rubric's row.
   */
  lemma {:induction false} FirstSubmissionFreezes(db: Database, run: seq<Statement>, a: int)
    requires Marked(db, a) && forall k :: 0 <= k < |run| ==> !Removes(db, run, a, k)
    ensures SameFrozen(db, After(db, run), a)
  {
    if run != [] {
      var last := |run| - 1;
      var front := run[..last];
      forall k | 0 <= k < last ensures !Removes(db, front, a, k) {
        assert front[..k] == run[..k] && !Removes(db, run, a, k);
      }
      FirstSubmissionFreezes(db, front, a);
      assert !Removes(db, run, a, last);
      StepKeepsFrozen(After(db, front), run[last], a);
    }
  }

  /** And the assignment is there all along exactly when no step removes it so. */
  lemma StaysExactlyUnlessRemoved(db: Database, run: seq<Statement>, a: int)
    requires Marked(db, a)
    ensures (forall k :: 0 <= k <= |run| ==> a in After(db, run[..k]).assignments)
       <==> (forall k :: 0 <= k < |run| ==> !Removes(db, run, a, k))
  {
    if k :| 0 <= k < |run| && Removes(db, run, a, k) {
      assert run[..k + 1][..k] == run[..k];
      assert a !in After(db, run[..k + 1]).assignments;
    } else {
      forall k | 0 <= k <= |run| ensures a in After(db, run[..k]).assignments {
        forall i | 0 <= i < k ensures !Removes(db, run[..k], a, i) {
          assert run[..k][..i] == run[..i] && !Removes(db, run, a, i);
        }
        FirstSubmissionFreezes(db, run[..k], a);
      }
    }
  }

  lemma {:induction false} RunKeepsSubmission(db: Database, run: seq<Statement>, x: int)
    requires x in db.submissions && forall k :: 0 <= k < |run| ==> !Withdraws(run[k], x)
    ensures x in After(db, run).submissions && After(db, run).submissions[x] == db.submissions[x]
  {
    if run != [] {
      RunKeepsSubmission(db, run[..|run| - 1], x);
      StepKeepsSubmission(After(db, run[..|run| - 1]), run[|run| - 1], x);
    }
  }

  /** One submission that stays is enough: its assignment cannot be deleted, and all of it stays as it is. */
  lemma StandingSubmissionKeepsFreeze(db: Database, run: seq<Statement>, x: int)
    requires SubmissionsMark(db) && x in db.submissions
    requires forall k :: 0 <= k < |run| ==> !Withdraws(run[k], x)
    ensures Marked(db, db.submissions[x]) && SameFrozen(db, After(db, run), db.submissions[x])
  {
    var a := db.submissions[x];
    forall k | 0 <= k < |run| ensures !Removes(db, run, a, k) {
      RunKeepsSubmission(db, run[..k], x);
    }
    FirstSubmissionFreezes(db, run, a);
  }

  /** Nothing but a submission brings a marker into being. */
  lemma MarkerComesFromSubmission(db: Database, s: Statement, a: int)
    requires a !in db.assignments || db.assignments[a].firstSubmission.None?
    requires a in Run(db, s).assignments && Run(db, s).assignments[a].firstSubmission.Some?
    requires s.UpdateAssignment? ==> !s.nested
    ensures (s.Submit? || s.MoveSubmission?) && s.to == a
    ensures Run(db, s).assignments[a].firstSubmission == Some(s.now)
    ensures a in db.assignments && Run(db, s).assignments[a].rubric == db.assignments[a].rubric
  {
  }
}
