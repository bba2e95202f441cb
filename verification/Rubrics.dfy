/**
 Editing the criteria of a rubric while its total weight is kept as a running sum.
 Weights are whole hundredths. A request loads the rubric and the criterion first and
 takes the rubric's lock only afterwards, so what it loaded may be out of date.
 */
module Rubrics {
  import opened Base

  const FULL_WEIGHT := 100_00

  datatype Criterion = Criterion(rubric: int, weight: int, enabled: bool, content: string)

  datatype Rubric = Rubric(total: int, revision: int)

  datatype Assignment = Assignment(rubric: int, firstSubmission: Option<int>)

  /** `submissions` says which assignment each submission was made to. */
  datatype Database = Database(
    rubrics: map<int, Rubric>, criteria: map<int, Criterion>, assignments: map<int, Assignment>,
    submissions: map<int, int>)

  // ------------------------------------------------------------ the sum

  /** What a criterion adds to the total of rubric `r`. */
  function Share(c: Criterion, r: int): int {
    if c.rubric == r && c.enabled then c.weight else 0
  }

  ghost function EnabledWeight(criteria: map<int, Criterion>, r: int): int
    decreases |criteria|
  {
    if criteria.Keys == {} then 0
    else
      HasElement(criteria.Keys);
      var id :| id in criteria.Keys;
      Share(criteria[id], r) + EnabledWeight(criteria - {id}, r)
  }

  lemma {:induction false} WithoutOne(criteria: map<int, Criterion>, r: int, id: int)
    requires id in criteria
    ensures EnabledWeight(criteria, r) == Share(criteria[id], r) + EnabledWeight(criteria - {id}, r)
    decreases |criteria|
  {
    var first :| first in criteria && EnabledWeight(criteria, r)
                                      == Share(criteria[first], r) + EnabledWeight(criteria - {first}, r);
    if first != id {
      WithoutOne(criteria - {first}, r, id);
      WithoutOne(criteria - {id}, r, first);
      assert criteria - {first} - {id} == criteria - {id} - {first};
    }
  }

  lemma PutOne(criteria: map<int, Criterion>, r: int, id: int, c: Criterion)
    ensures EnabledWeight(criteria[id := c], r)
         == EnabledWeight(criteria, r) - (if id in criteria then Share(criteria[id], r) else 0) + Share(c, r)
  {
    WithoutOne(criteria[id := c], r, id);
    assert criteria[id := c] - {id} == criteria - {id};
    if id in criteria {
      WithoutOne(criteria, r, id);
    } else {
      assert criteria - {id} == criteria;
    }
  }

  /** The rubric's total is the sum of its enabled criteria. */
  ghost predicate Accounted(db: Database, r: int) {
    r in db.rubrics && db.rubrics[r].total == EnabledWeight(db.criteria, r)
  }

  // ------------------------------------------------------------ freezing

  /** An assignment that uses the rubric has had a submission. */
  predicate Frozen(db: Database, r: int) {
    exists a :: a in db.assignments && db.assignments[a].rubric == r && db.assignments[a].firstSubmission.Some?
  }

  // ------------------------------------------------------------ requests

  /** What a request read before it took the lock. */
  datatype LoadedRubric = LoadedRubric(id: int, total: int, revision: int)

  datatype LoadedCriterion = LoadedCriterion(id: int, row: Criterion)

  /** Absent fields stay as they are. `content` stands for every field but these two. */
  datatype Change = Change(weight: Option<int>, enabled: Option<bool>, content: Option<string>)

  function Changed(c: Criterion, change: Change): Criterion {
    c.(weight := if change.weight.Some? then change.weight.value else c.weight,
       enabled := if change.enabled.Some? then change.enabled.value else c.enabled,
       content := if change.content.Some? then change.content.value else c.content)
  }

  predicate Touches(c: Criterion, change: Change) {
    || change.content.Some?
    || Changed(c, change).weight != c.weight || Changed(c, change).enabled != c.enabled
  }

  /** Only the columns that differ from what was loaded are written. */
  function Merged(committed: Criterion, loaded: Criterion, change: Change): Criterion {
    var edited := Changed(loaded, change);
    committed.(weight := if edited.weight != loaded.weight then edited.weight else committed.weight,
               enabled := if edited.enabled != loaded.enabled then edited.enabled else committed.enabled,
               content := if change.content.Some? then edited.content else committed.content)
  }

  function TotalWritten(committed: int, loaded: int, computed: int): int {
    if computed != loaded then computed else committed
  }

  predicate InRange(weight: int) {
    0 <= weight <= FULL_WEIGHT
  }

  function WithTotal(db: Database, rv: LoadedRubric, computed: int): Database
    requires rv.id in db.rubrics
  {
    db.(rubrics := db.rubrics[rv.id := Rubric(TotalWritten(db.rubrics[rv.id].total, rv.total, computed),
                                              rv.revision + 1)])
  }

  /** The rubric row is there, not frozen, and the new total passes the table's check. */
  predicate Writable(db: Database, rv: LoadedRubric, computed: int) {
    && rv.id in db.rubrics && !Frozen(db, rv.id)
    && InRange(TotalWritten(db.rubrics[rv.id].total, rv.total, computed))
  }

  function Added(db: Database, rv: LoadedRubric, id: int, weight: int, enabled: bool, content: string): Database {
    var c := Criterion(rv.id, weight, enabled, content);
    var computed := rv.total + Share(c, rv.id);
    if Writable(db, rv, computed) && InRange(weight) && id !in db.criteria
    then WithTotal(db, rv, computed).(criteria := db.criteria[id := c])
    else db
  }

  function Edited(db: Database, rv: LoadedRubric, cv: LoadedCriterion, change: Change): Database {
    var edited := Changed(cv.row, change);
    var computed := rv.total - Share(cv.row, cv.row.rubric) + Share(edited, cv.row.rubric);
    if Touches(cv.row, change) && Writable(db, rv, computed) && cv.id in db.criteria
       && !Frozen(db, db.criteria[cv.id].rubric) && InRange(Merged(db.criteria[cv.id], cv.row, change).weight)
    then WithTotal(db, rv, computed).(criteria := db.criteria[cv.id := Merged(db.criteria[cv.id], cv.row, change)])
    else db
  }

  function Deleted(db: Database, rv: LoadedRubric, cv: LoadedCriterion): Database {
    var computed := rv.total - Share(cv.row, cv.row.rubric);
    if Writable(db, rv, computed) && (cv.id in db.criteria ==> !Frozen(db, db.criteria[cv.id].rubric))
    then WithTotal(db, rv, computed).(criteria := db.criteria - {cv.id})
    else db
  }

  /** Nothing but the criteria and the row of rubric `r` may differ. */
  ghost predicate OnlyRubric(before: Database, after: Database, r: int) {
    && after.assignments == before.assignments && after.submissions == before.submissions
    && r in after.rubrics && r in before.rubrics && after.rubrics.Keys == before.rubrics.Keys
    && forall other :: other in after.rubrics && other != r ==> after.rubrics[other] == before.rubrics[other]
  }

  /**
   What an edit of the loaded row leaves stored: each field asked for that differs from
   the loaded one has the value asked for, and the others what was stored.
   */
  predicate EditStored(stored: Criterion, loaded: Criterion, change: Change, after: Database, id: int) {
    && id in after.criteria && after.criteria[id].rubric == stored.rubric
    && after.criteria[id].weight == (if change.weight.Some? && change.weight.value != loaded.weight
                                     then change.weight.value else stored.weight)
    && after.criteria[id].enabled == (if change.enabled.Some? && change.enabled.value != loaded.enabled
                                      then change.enabled.value else stored.enabled)
    && after.criteria[id].content == (if change.content.Some? then change.content.value else stored.content)
  }

  /** The session of one request: the rows it loaded, edited in memory and flushed together. */
  class Session {
    var db: Database
    const rv: LoadedRubric
    var total: int

    constructor (db: Database, rv: LoadedRubric)
      ensures this.db == db && this.rv == rv && total == rv.total
    {
      this.db, this.rv, this.total := db, rv, rv.total;
    }

    method AddCriterion(id: int, weight: int, enabled: bool, content: string) returns (ok: bool)
      requires total == rv.total
      modifies this
      ensures db == Added(old(db), rv, id, weight, enabled, content)
      ensures !ok ==> db == old(db)
      ensures ok <==>
                && rv.id in old(db).rubrics && !Frozen(old(db), rv.id)
                && id !in old(db).criteria && 0 <= weight <= 100_00
                && 0 <= (if enabled && weight != 0 then rv.total + weight else old(db).rubrics[rv.id].total) <= 100_00
      ensures ok ==>
                && db.criteria == old(db).criteria[id := Criterion(rv.id, weight, enabled, content)]
                && db.rubrics.Keys == old(db).rubrics.Keys && OnlyRubric(old(db), db, rv.id)
                && db.rubrics[rv.id].revision == rv.revision + 1
                && (enabled && weight != 0 ==> db.rubrics[rv.id].total == rv.total + weight)
    {
      if Frozen(db, rv.id) {
        return false;
      }
      total := total + if enabled then weight else 0;
      ok := Writable(db, rv, total) && InRange(weight) && id !in db.criteria;
      if ok {
        db := WithTotal(db, rv, total).(criteria := db.criteria[id := Criterion(rv.id, weight, enabled, content)]);
      }
    }

    /** The total follows field by field, first the weight, then the switch. */
    method UpdateCriterion(cv: LoadedCriterion, change: Change) returns (ok: bool)
      requires total == rv.total && cv.row.rubric == rv.id
      modifies this
      ensures db == Edited(old(db), rv, cv, change)
      ensures !ok ==> db == old(db)
      ensures ok ==> cv.id in old(db).criteria && EditStored(old(db).criteria[cv.id], cv.row, change, db, cv.id)
      ensures ok ==>
                && db.criteria.Keys == old(db).criteria.Keys && OnlyRubric(old(db), db, rv.id)
                && (forall other :: other in db.criteria && other != cv.id ==> db.criteria[other] == old(db).criteria[other])
    {
      if Frozen(db, rv.id) {
        return false;
      }
      var row, touched := cv.row, false;
      if change.weight.Some? && change.weight.value != row.weight {
        if row.enabled {
          total := total + (change.weight.value - row.weight);
        }
        row, touched := row.(weight := change.weight.value), true;
      }
      if change.enabled.Some? && change.enabled.value != row.enabled {
        row, touched := row.(enabled := change.enabled.value), true;
        total := if row.enabled then total + row.weight else total - row.weight;
      }
      if change.content.Some? {
        row, touched := row.(content := change.content.value), true;
      }
      ok := touched && Writable(db, rv, total) && cv.id in db.criteria
            && !Frozen(db, db.criteria[cv.id].rubric) && InRange(Merged(db.criteria[cv.id], cv.row, change).weight);
      if ok {
        db := WithTotal(db, rv, total).(criteria := db.criteria[cv.id := Merged(db.criteria[cv.id], cv.row, change)]);
      }
    }

    method DeleteCriterion(cv: LoadedCriterion) returns (ok: bool)
      requires total == rv.total && cv.row.rubric == rv.id
      modifies this
      ensures db == Deleted(old(db), rv, cv)
      ensures !ok ==> db == old(db)
      ensures ok ==>
                && db.criteria == old(db).criteria - {cv.id} && OnlyRubric(old(db), db, rv.id)
                && (cv.row.enabled && cv.row.weight != 0 ==> db.rubrics[rv.id].total == rv.total - cv.row.weight)
    {
      if Frozen(db, rv.id) {
        return false;
      }
      if cv.row.enabled {
        total := total - cv.row.weight;
      }
      ok := Writable(db, rv, total) && (cv.id in db.criteria ==> !Frozen(db, db.criteria[cv.id].rubric));
      if ok {
        db := WithTotal(db, rv, total).(criteria := db.criteria - {cv.id});
      }
    }
  }

  // ------------------------------------------------------------ accounting

  datatype Request =
    | Add(id: int, weight: int, enabled: bool, content: string)
    | Edit(cv: LoadedCriterion, change: Change)
    | Delete(cv: LoadedCriterion)

  function Served(db: Database, rv: LoadedRubric, q: Request): Database {
    match q
    case Add(id, weight, enabled, content) => Added(db, rv, id, weight, enabled, content)
    case Edit(cv, change) => Edited(db, rv, cv, change)
    case Delete(cv) => Deleted(db, rv, cv)
  }

  /** The criterion a request names is one of this rubric's, as loaded and as stored. */
  predicate Concerns(db: Database, rv: LoadedRubric, q: Request) {
    (q.Edit? || q.Delete?) ==>
      && q.cv.row.rubric == rv.id
      && (q.cv.id in db.criteria ==> db.criteria[q.cv.id].rubric == rv.id)
  }

  /** Weight the loaded rubric holds beside the criterion in question. */
  function LoadedRest(rv: LoadedRubric, q: Request): int {
    rv.total - if q.Add? then 0 else Share(q.cv.row, rv.id)
  }

  function StoredShare(db: Database, rv: LoadedRubric, q: Request): int {
    if q.Add? || q.cv.id !in db.criteria then 0 else Share(db.criteria[q.cv.id], rv.id)
  }

  function StoredRest(db: Database, rv: LoadedRubric, q: Request): int
    requires rv.id in db.rubrics
  {
    db.rubrics[rv.id].total - StoredShare(db, rv, q)
  }

  /** What the criterion will add according to the rows loaded, and according to the rows stored. */
  function LoadedShareAfter(rv: LoadedRubric, q: Request): int {
    match q
    case Add(_, weight, enabled, _) => if enabled then weight else 0
    case Edit(cv, change) => Share(Changed(cv.row, change), rv.id)
    case Delete(_) => 0
  }

  function StoredShareAfter(db: Database, rv: LoadedRubric, q: Request): int {
    match q
    case Add(_, weight, enabled, _) => if enabled then weight else 0
    case Edit(cv, change) =>
      if cv.id in db.criteria then Share(Merged(db.criteria[cv.id], cv.row, change), rv.id) else 0
    case Delete(_) => 0
  }

  predicate WritesTotal(rv: LoadedRubric, q: Request) {
    LoadedRest(rv, q) + LoadedShareAfter(rv, q) != rv.total
  }

  /** The rows loaded give the same answer as the rows stored. */
  predicate Agree(db: Database, rv: LoadedRubric, q: Request)
    requires rv.id in db.rubrics
  {
    if WritesTotal(rv, q)
    then LoadedRest(rv, q) + LoadedShareAfter(rv, q) == StoredRest(db, rv, q) + StoredShareAfter(db, rv, q)
    else StoredShareAfter(db, rv, q) == StoredShare(db, rv, q)
  }

  lemma SumAfter(db: Database, rv: LoadedRubric, q: Request)
    requires rv.id in db.rubrics && Concerns(db, rv, q) && Served(db, rv, q) != db
    ensures EnabledWeight(Served(db, rv, q).criteria, rv.id)
         == EnabledWeight(db.criteria, rv.id) - StoredShare(db, rv, q) + StoredShareAfter(db, rv, q)
  {
    match q
    case Add(id, weight, enabled, content) =>
      PutOne(db.criteria, rv.id, id, Criterion(rv.id, weight, enabled, content));
    case Edit(cv, change) =>
      PutOne(db.criteria, rv.id, cv.id, Merged(db.criteria[cv.id], cv.row, change));
    case Delete(cv) =>
      if cv.id in db.criteria {
        WithoutOne(db.criteria, rv.id, cv.id);
      } else {
        assert db.criteria - {cv.id} == db.criteria;
      }
  }

  /** An accepted request keeps the account exactly when its loaded rows agree with the stored ones. */
  lemma AccountKeptExactlyOnAgreement(db: Database, rv: LoadedRubric, q: Request)
    requires Accounted(db, rv.id) && Concerns(db, rv, q) && Served(db, rv, q) != db
    ensures Accounted(Served(db, rv, q), rv.id) <==> Agree(db, rv, q)
  {
    SumAfter(db, rv, q);
  }

  /** What was loaded is what is stored. */
  predicate Fresh(db: Database, rv: LoadedRubric, q: Request) {
    && rv.id in db.rubrics && db.rubrics[rv.id] == Rubric(rv.total, rv.revision)
    && (q.Edit? || q.Delete? ==> q.cv.id in db.criteria && db.criteria[q.cv.id] == q.cv.row)
  }

  /** Requests that load under no interference keep every rubric's account. */
  lemma FreshRequestKeepsAccounts(db: Database, rv: LoadedRubric, q: Request, r: int)
    requires Accounted(db, r) && Concerns(db, rv, q) && Fresh(db, rv, q)
    ensures Accounted(Served(db, rv, q), r)
  {
    if Served(db, rv, q) != db {
      if r == rv.id {
        AccountKeptExactlyOnAgreement(db, rv, q);
      } else {
        match q
        case Add(id, weight, enabled, content) =>
          PutOne(db.criteria, r, id, Criterion(rv.id, weight, enabled, content));
        case Edit(cv, change) =>
          PutOne(db.criteria, r, cv.id, Merged(db.criteria[cv.id], cv.row, change));
        case Delete(cv) =>
          WithoutOne(db.criteria, r, cv.id);
      }
    }
  }

  /**
   An accepted edit on current rows stores every value asked for and keeps the others,
   and moves the total by what the criterion weighs more or less.
   */
  lemma FreshEditStoresWhatWasAsked(db: Database, rv: LoadedRubric, cv: LoadedCriterion, change: Change)
    requires Fresh(db, rv, Edit(cv, change)) && cv.row.rubric == rv.id && Edited(db, rv, cv, change) != db
    ensures var after := Edited(db, rv, cv, change);
            && cv.id in after.criteria && rv.id in after.rubrics
            && var c, d := cv.row, after.criteria[cv.id];
               && d.rubric == c.rubric
               && d.weight == (if change.weight.Some? then change.weight.value else c.weight)
               && d.enabled == (if change.enabled.Some? then change.enabled.value else c.enabled)
               && d.content == (if change.content.Some? then change.content.value else c.content)
               && after.rubrics[rv.id].total - rv.total
                  == (if d.enabled then d.weight else 0) - (if c.enabled then c.weight else 0)
  {
  }

  /** And on current rows it is accepted exactly when something is asked for, nothing is frozen and weight and total stay in range. */
  lemma FreshEditAcceptedExactly(db: Database, rv: LoadedRubric, cv: LoadedCriterion, change: Change)
    requires Fresh(db, rv, Edit(cv, change)) && cv.row.rubric == rv.id
    ensures Edited(db, rv, cv, change) != db <==>
              var weight := if change.weight.Some? then change.weight.value else cv.row.weight;
              var enabled := if change.enabled.Some? then change.enabled.value else cv.row.enabled;
              && (change.content.Some? || weight != cv.row.weight || enabled != cv.row.enabled)
              && !Frozen(db, rv.id) && 0 <= weight <= 100_00
              && 0 <= rv.total - (if cv.row.enabled then cv.row.weight else 0) + (if enabled then weight else 0) <= 100_00
  {
    var after := Edited(db, rv, cv, change);
    if Writable(db, rv, rv.total - Share(cv.row, rv.id) + Share(Changed(cv.row, change), rv.id)) {
      assert after != db ==> after.rubrics[rv.id].revision == rv.revision + 1;
      assert WithTotal(db, rv, 0).rubrics[rv.id].revision == rv.revision + 1;
    }
  }

  /** For an addition that weighs something, the loaded total has to be the stored one. */
  lemma AddKeepsAccountExactlyWhenTotalIsCurrent(
    db: Database, rv: LoadedRubric, id: int, weight: int, enabled: bool, content: string)
    requires Accounted(db, rv.id)
    requires var q := Add(id, weight, enabled, content); Served(db, rv, q) != db
    ensures var q := Add(id, weight, enabled, content);
            Accounted(Served(db, rv, q), rv.id) <==>
              !enabled || weight == 0 || rv.total == db.rubrics[rv.id].total
  {
    AccountKeptExactlyOnAgreement(db, rv, Add(id, weight, enabled, content));
  }

  /** Two additions that loaded the same rubric: both criteria stay, one weight is lost from the total. */
  lemma ConcurrentAddsLoseOne(
    db: Database, rv: LoadedRubric, a: int, b: int, first: int, second: int, content: string)
    requires Accounted(db, rv.id) && db.rubrics[rv.id] == Rubric(rv.total, rv.revision)
    requires first > 0 && second > 0 && a != b && a !in db.criteria && b !in db.criteria
    requires rv.total + first <= FULL_WEIGHT && rv.total + second <= FULL_WEIGHT
    requires rv.total >= 0 && !Frozen(db, rv.id)
    ensures var one := Added(db, rv, a, first, true, content);
            var two := Added(one, rv, b, second, true, content);
            && a in two.criteria && b in two.criteria
            && EnabledWeight(two.criteria, rv.id) == rv.total + first + second
            && two.rubrics[rv.id].total == rv.total + second
  {
    var one := Added(db, rv, a, first, true, content);
    PutOne(db.criteria, rv.id, a, Criterion(rv.id, first, true, content));
    PutOne(one.criteria, rv.id, b, Criterion(rv.id, second, true, content));
  }

  datatype Submitted = Submitted(rv: LoadedRubric, request: Request)

  function AfterAll(db: Database, run: seq<Submitted>): Database {
    if run == [] then db
    else
      var last := run[|run| - 1];
      Served(AfterAll(db, run[..|run| - 1]), last.rv, last.request)
  }

  /** Each request loads after the one before it has committed. */
  ghost predicate OneAtATime(db: Database, run: seq<Submitted>) {
    forall k :: 0 <= k < |run| ==>
      var now := AfterAll(db, run[..k]);
      Concerns(now, run[k].rv, run[k].request) && Fresh(now, run[k].rv, run[k].request)
  }

  lemma {:induction false} SerialRequestsKeepAccounts(db: Database, run: seq<Submitted>, r: int)
    requires Accounted(db, r) && OneAtATime(db, run)
    ensures Accounted(AfterAll(db, run), r)
  {
    if run != [] {
      var last := |run| - 1;
      var front := run[..last];
      forall k | 0 <= k < last
        ensures var now := AfterAll(db, front[..k]);
                Concerns(now, front[k].rv, front[k].request) && Fresh(now, front[k].rv, front[k].request)
      {
        assert front[..k] == run[..k] && front[k] == run[k];
      }
      SerialRequestsKeepAccounts(db, front, r);
      FreshRequestKeepsAccounts(AfterAll(db, front), run[last].rv, run[last].request, r);
    }
  }
}
