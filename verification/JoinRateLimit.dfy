/**
 The fixed-window limiter in front of course joins: one row per account and one per
 address, both touched by every request, with expired rows of other subjects
 deleted along the way.
 */
module JoinRateLimit {
  import opened Base

  const PURGE_LIMIT: nat := 100

  datatype Settings = Settings(maxRequests: nat, windowSeconds: nat) {
    predicate Valid() {
      maxRequests >= 1 && windowSeconds >= 1
    }
    function Window(): int {
      windowSeconds * SECOND
    }
  }

  datatype Subject = Account(id: int) | Ip(address: int)

  datatype Row = Row(windowStart: int, count: nat)

  type Table = map<Subject, Row>

  datatype Answer = Admitted | Limited(retryAfter: int)

  /** `now` is read before the advisory locks are taken; `purge` is what the cleanup query returned. */
  datatype Request = Request(now: int, account: int, address: int, purge: seq<Subject>) {
    function Subjects(): seq<Subject> {
      [Account(account), Ip(address)]
    }
  }

  function RowOf(table: Table, s: Subject): Option<Row> {
    if s in table then Some(table[s]) else None
  }

  predicate Restarts(row: Option<Row>, now: int, cfg: Settings) {
    row.None? || now - row.value.windowStart >= cfg.Window()
  }

  function TouchedRow(row: Option<Row>, now: int, cfg: Settings): Row {
    if Restarts(row, now, cfg) then Row(now, 1) else Row(row.value.windowStart, row.value.count + 1)
  }

  function CeilSeconds(micros: int): int {
    -((-micros) / SECOND)
  }

  function Wait(row: Option<Row>, now: int, cfg: Settings): int {
    if Restarts(row, now, cfg) then 0
    else CeilSeconds(cfg.Window() - (now - row.value.windowStart))
  }

  function Touched(table: Table, r: Request, cfg: Settings): Table {
    table[Account(r.account) := TouchedRow(RowOf(table, Account(r.account)), r.now, cfg)]
         [Ip(r.address) := TouchedRow(RowOf(table, Ip(r.address)), r.now, cfg)]
  }

  predicate OverLimit(row: Row, cfg: Settings) {
    row.count > cfg.maxRequests
  }

  function AnswerOf(table: Table, r: Request, cfg: Settings): Answer {
    var account, address := RowOf(table, Account(r.account)), RowOf(table, Ip(r.address));
    if OverLimit(TouchedRow(account, r.now, cfg), cfg) || OverLimit(TouchedRow(address, r.now, cfg), cfg)
    then Limited(Max(1, Max(Wait(account, r.now, cfg), Wait(address, r.now, cfg))))
    else Admitted
  }

  function Purged(table: Table, purge: seq<Subject>): Table {
    map s | s in table && s !in purge :: table[s]
  }

  function AfterRequest(table: Table, r: Request, cfg: Settings): Table {
    Purged(Touched(table, r, cfg), r.purge)
  }

  /** Rows the cleanup query may return: expired at this reading, and not the requester's own. */
  predicate PurgeAllowed(table: Table, r: Request, cfg: Settings) {
    && |r.purge| <= PURGE_LIMIT
    && forall s :: s in r.purge ==>
         s in table && table[s].windowStart < r.now - cfg.Window() && s !in r.Subjects()
  }

  class JoinLimiter {
    var rows: Table

    constructor ()
      ensures rows == map[]
    {
      rows := map[];
    }

    method Enforce(r: Request, cfg: Settings) returns (answer: Answer)
      requires PurgeAllowed(rows, r, cfg)
      modifies this
      ensures answer == AnswerOf(old(rows), r, cfg)
      ensures rows == AfterRequest(old(rows), r, cfg)
    {
      var retryAfter, limited := 0, false;
      var digests := r.Subjects();
      ghost var before := rows;
      for i := 0 to |digests|
        invariant i == 0 ==> rows == before && retryAfter == 0 && !limited
        invariant i == 1 ==>
          && rows == before[digests[0] := TouchedRow(RowOf(before, digests[0]), r.now, cfg)]
          && retryAfter == Max(0, Wait(RowOf(before, digests[0]), r.now, cfg))
          && limited == OverLimit(rows[digests[0]], cfg)
        invariant i == 2 ==>
          && rows == Touched(before, r, cfg)
          && retryAfter == Max(0, Max(Wait(RowOf(before, digests[0]), r.now, cfg),
                                      Wait(RowOf(before, digests[1]), r.now, cfg)))
          && limited == (OverLimit(TouchedRow(RowOf(before, digests[0]), r.now, cfg), cfg)
                         || OverLimit(TouchedRow(RowOf(before, digests[1]), r.now, cfg), cfg))
      {
        var digest := digests[i];
        if digest !in rows || r.now - rows[digest].windowStart >= cfg.Window() {
          rows := rows[digest := Row(r.now, 1)];
        } else {
          var row := rows[digest];
          rows := rows[digest := row.(count := row.count + 1)];
          retryAfter := Max(retryAfter, CeilSeconds(cfg.Window() - (r.now - row.windowStart)));
        }
        limited := limited || rows[digest].count > cfg.maxRequests;
      }
      rows := map s | s in rows && s !in r.purge :: rows[s];
      answer := if limited then Limited(Max(1, retryAfter)) else Admitted;
    }
  }

  // ------------------------------------------------------------- one request

  /** The subject has a row whose window is open at the reading. */
  predicate InWindow(table: Table, s: Subject, now: int, cfg: Settings) {
    s in table && now < table[s].windowStart + cfg.windowSeconds * 1_000_000
  }

  /**
   The answer in full: limited exactly when the account or the address has used up the
   limit in an open window, and then with the least whole number of seconds, one at
   least, that outlasts every open window of the two.
   */
  lemma AnswerExactly(table: Table, r: Request, cfg: Settings)
    requires cfg.Valid()
    ensures AnswerOf(table, r, cfg).Limited? <==>
              || (InWindow(table, Account(r.account), r.now, cfg) && table[Account(r.account)].count >= cfg.maxRequests)
              || (InWindow(table, Ip(r.address), r.now, cfg) && table[Ip(r.address)].count >= cfg.maxRequests)
    ensures AnswerOf(table, r, cfg).Limited? ==>
              var wait := AnswerOf(table, r, cfg).retryAfter;
              && wait >= 1
              && !InWindow(table, Account(r.account), r.now + wait * 1_000_000, cfg)
              && !InWindow(table, Ip(r.address), r.now + wait * 1_000_000, cfg)
              && (wait > 1 ==> var sooner := r.now + (wait - 1) * 1_000_000;
                    InWindow(table, Account(r.account), sooner, cfg) || InWindow(table, Ip(r.address), sooner, cfg))
  {
  }

  /** The rows in full: both subjects' rows count the request, and of all others just the ones the cleanup names are gone. */
  lemma RowsExactly(table: Table, r: Request, cfg: Settings, s: Subject)
    requires PurgeAllowed(table, r, cfg)
    ensures var after := AfterRequest(table, r, cfg);
            if s == Account(r.account) || s == Ip(r.address) then
              && s in after
              && after[s] == if InWindow(table, s, r.now, cfg) then table[s].(count := table[s].count + 1)
                             else Row(r.now, 1)
            else
              && (s in after <==> s in table && s !in r.purge)
              && (s in after ==> after[s] == table[s])
  {
    assert r.Subjects()[0] == Account(r.account) && r.Subjects()[1] == Ip(r.address);
  }

  // ------------------------------------------------------------------ cleanup

  function Run(table: Table, requests: seq<Request>, cfg: Settings): Table
    decreases |requests|
  {
    if requests == [] then table else Run(AfterRequest(table, requests[0], cfg), requests[1..], cfg)
  }

  function Answers(table: Table, requests: seq<Request>, cfg: Settings): (answers: seq<Answer>)
    ensures |answers| == |requests|
    decreases |requests|
  {
    if requests == [] then []
    else [AnswerOf(table, requests[0], cfg)] + Answers(AfterRequest(table, requests[0], cfg), requests[1..], cfg)
  }

  predicate PurgesAllowed(table: Table, requests: seq<Request>, cfg: Settings)
    decreases |requests|
  {
    requests == [] ||
    (PurgeAllowed(table, requests[0], cfg)
     && PurgesAllowed(AfterRequest(table, requests[0], cfg), requests[1..], cfg))
  }

  /** The same requests against a limiter that never deletes a row. */
  function AnswersWithoutCleanup(table: Table, requests: seq<Request>, cfg: Settings): (answers: seq<Answer>)
    ensures |answers| == |requests|
    decreases |requests|
  {
    if requests == [] then []
    else
      [AnswerOf(table, requests[0], cfg)]
      + AnswersWithoutCleanup(Touched(table, requests[0], cfg), requests[1..], cfg)
  }

  function RunWithoutCleanup(table: Table, requests: seq<Request>, cfg: Settings): Table
    decreases |requests|
  {
    if requests == [] then table else RunWithoutCleanup(Touched(table, requests[0], cfg), requests[1..], cfg)
  }

  /** What cleanup has left is what the limiter without cleanup holds for the same subject. */
  ghost predicate Agrees(cleaned: Table, full: Table) {
    forall s :: s in cleaned ==> s in full && full[s] == cleaned[s]
  }

  /** The request does not read a time inside the window of a deleted row of its own subjects. */
  predicate OutsideDeletedWindows(cleaned: Table, full: Table, r: Request, cfg: Settings) {
    forall s :: s in r.Subjects() && s in full && s !in cleaned ==> r.now >= full[s].windowStart + cfg.Window()
  }

  predicate Guarded(cleaned: Table, full: Table, requests: seq<Request>, cfg: Settings)
    decreases |requests|
  {
    requests == [] ||
    (OutsideDeletedWindows(cleaned, full, requests[0], cfg)
     && Guarded(AfterRequest(cleaned, requests[0], cfg), Touched(full, requests[0], cfg), requests[1..], cfg))
  }

  /** One deleted row is missed by its subject's next request exactly when that request reads a time inside the row's window. */
  lemma DeletedRowIsMissedExactlyInsideItsWindow(row: Row, now: int, cfg: Settings)
    requires row.count >= 1
    ensures TouchedRow(None, now, cfg) == TouchedRow(Some(row), now, cfg)
       <==> now >= row.windowStart + cfg.Window()
  {
  }

  /** The guard is exact: the step keeps the two tables in agreement if and only if its request meets it. */
  lemma GuardKeepsAgreementExactly(cleaned: Table, full: Table, r: Request, cfg: Settings)
    requires Agrees(cleaned, full) && Counted(full) && PurgeAllowed(cleaned, r, cfg)
    ensures OutsideDeletedWindows(cleaned, full, r, cfg)
       <==> Agrees(AfterRequest(cleaned, r, cfg), Touched(full, r, cfg))
    ensures OutsideDeletedWindows(cleaned, full, r, cfg) ==> AnswerOf(cleaned, r, cfg) == AnswerOf(full, r, cfg)
    ensures Counted(Touched(full, r, cfg))
  {
    var next, next' := AfterRequest(cleaned, r, cfg), Touched(full, r, cfg);
    var account, address := r.Subjects()[0], r.Subjects()[1];
    assert account in next && address in next;
    if !OutsideDeletedWindows(cleaned, full, r, cfg) {
      var s :| s in r.Subjects() && s in full && s !in cleaned && r.now < full[s].windowStart + cfg.Window();
      DeletedRowIsMissedExactlyInsideItsWindow(full[s], r.now, cfg);
      assert next[s] != next'[s];
    }
  }

  /** Deleting expired rows cannot be observed by requests that read no time inside a deleted row's window. */
  lemma {:induction false} CleanupIsInvisible(cleaned: Table, full: Table, requests: seq<Request>, cfg: Settings)
    requires Agrees(cleaned, full) && Counted(full) && PurgesAllowed(cleaned, requests, cfg)
    requires Guarded(cleaned, full, requests, cfg)
    ensures Answers(cleaned, requests, cfg) == AnswersWithoutCleanup(full, requests, cfg)
    decreases |requests|
  {
    if requests != [] {
      GuardKeepsAgreementExactly(cleaned, full, requests[0], cfg);
      CleanupIsInvisible(AfterRequest(cleaned, requests[0], cfg), Touched(full, requests[0], cfg), requests[1..], cfg);
    }
  }

  ghost predicate AgreesAfter(cleaned: Table, full: Table, requests: seq<Request>, k: int, cfg: Settings) {
    0 <= k <= |requests| ==>
      Agrees(Run(cleaned, requests[..k], cfg), RunWithoutCleanup(full, requests[..k], cfg))
  }

  lemma AgreesLater(cleaned: Table, full: Table, requests: seq<Request>, k: int, cfg: Settings)
    requires 0 <= k < |requests|
    ensures AgreesAfter(cleaned, full, requests, k + 1, cfg)
       <==> AgreesAfter(AfterRequest(cleaned, requests[0], cfg), Touched(full, requests[0], cfg), requests[1..], k, cfg)
  {
    assert requests[..k + 1][1..] == requests[1..][..k];
    assert requests[..k + 1][0] == requests[0];
  }

  /** Over a whole run: every request meets the guard if and only if the tables agree after every one of them. */
  lemma {:induction false} GuardedExactlyWhileTablesAgree(
    cleaned: Table, full: Table, requests: seq<Request>, cfg: Settings)
    requires Agrees(cleaned, full) && Counted(full) && PurgesAllowed(cleaned, requests, cfg)
    ensures Guarded(cleaned, full, requests, cfg) <==>
            forall k :: 0 <= k <= |requests| ==> AgreesAfter(cleaned, full, requests, k, cfg)
    decreases |requests|
  {
    if requests != [] {
      var r, rest := requests[0], requests[1..];
      var next, next' := AfterRequest(cleaned, r, cfg), Touched(full, r, cfg);
      GuardKeepsAgreementExactly(cleaned, full, r, cfg);
      forall k | 0 <= k <= |rest|
        ensures AgreesAfter(next, next', rest, k, cfg) <==> AgreesAfter(cleaned, full, requests, k + 1, cfg)
      {
        AgreesLater(cleaned, full, requests, k, cfg);
      }
      assert rest[..0] == [];
      assert AgreesAfter(next, next', rest, 0, cfg) <==> Agrees(next, next');
      if Agrees(next, next') {
        GuardedExactlyWhileTablesAgree(next, next', rest, cfg);
        if forall k :: 0 <= k <= |rest| ==> AgreesAfter(next, next', rest, k, cfg) {
          forall k | 0 <= k <= |requests| ensures AgreesAfter(cleaned, full, requests, k, cfg) {
            if k > 0 {
              assert AgreesAfter(next, next', rest, k - 1, cfg);
            }
          }
        }
      }
    }
  }

  /** Readings do not go back in the order the requests were processed, starting from `now`. */
  predicate InOrder(now: int, requests: seq<Request>)
    decreases |requests|
  {
    requests == [] || (now <= requests[0].now && InOrder(requests[0].now, requests[1..]))
  }

  /** The cleaned table is the full one less rows that are expired for every reading from `now` on. */
  ghost predicate Simulates(cleaned: Table, full: Table, now: int, cfg: Settings) {
    && Agrees(cleaned, full)
    && (forall s :: s in full && s !in cleaned ==> full[s].windowStart < now - cfg.Window())
  }

  lemma RequestKeepsSimulation(cleaned: Table, full: Table, now: int, r: Request, cfg: Settings)
    requires Simulates(cleaned, full, now, cfg) && now <= r.now && PurgeAllowed(cleaned, r, cfg)
    ensures Simulates(AfterRequest(cleaned, r, cfg), Touched(full, r, cfg), r.now, cfg)
  {
  }

  /** Requests processed in the order of their readings all meet the guard. */
  lemma {:induction false} OrderIsGuarded(
    cleaned: Table, full: Table, now: int, requests: seq<Request>, cfg: Settings)
    requires Simulates(cleaned, full, now, cfg) && InOrder(now, requests)
    requires PurgesAllowed(cleaned, requests, cfg)
    ensures Guarded(cleaned, full, requests, cfg)
    decreases |requests|
  {
    if requests != [] {
      RequestKeepsSimulation(cleaned, full, now, requests[0], cfg);
      OrderIsGuarded(AfterRequest(cleaned, requests[0], cfg), Touched(full, requests[0], cfg),
        requests[0].now, requests[1..], cfg);
    }
  }

  // ------------------------------------------------------ when cleanup is visible

  /** Requests whose answers tell whether rows were deleted along the way. */
  predicate Shows(cleaned: Table, full: Table, requests: seq<Request>, cfg: Settings) {
    && PurgesAllowed(cleaned, requests, cfg)
    && Answers(cleaned, requests, cfg) != AnswersWithoutCleanup(full, requests, cfg)
  }

  lemma AnswersJoin(a: seq<Answer>, b: seq<Answer>, c: seq<Answer>)
    ensures a + (b + c) == a + b + c
  {
  }

  lemma {:induction false} AnswersSplit(table: Table, a: seq<Request>, b: seq<Request>, cfg: Settings)
    ensures Answers(table, a + b, cfg) == Answers(table, a, cfg) + Answers(Run(table, a, cfg), b, cfg)
    decreases |a|
  {
    if a == [] {
      assert a + b == b;
    } else {
      var next, first := AfterRequest(table, a[0], cfg), [AnswerOf(table, a[0], cfg)];
      assert (a + b)[0] == a[0] && (a + b)[1..] == a[1..] + b;
      AnswersSplit(next, a[1..], b, cfg);
      assert Answers(table, a + b, cfg) == first + Answers(next, a[1..] + b, cfg);
      assert Answers(table, a, cfg) == first + Answers(next, a[1..], cfg);
      AnswersJoin(first, Answers(next, a[1..], cfg), Answers(Run(next, a[1..], cfg), b, cfg));
    }
  }

  lemma {:induction false} PurgesSplit(table: Table, a: seq<Request>, b: seq<Request>, cfg: Settings)
    ensures PurgesAllowed(table, a + b, cfg) <==>
            PurgesAllowed(table, a, cfg) && PurgesAllowed(Run(table, a, cfg), b, cfg)
    decreases |a|
  {
    if a == [] {
      assert a + b == b;
    } else {
      assert (a + b)[1..] == a[1..] + b;
      PurgesSplit(AfterRequest(table, a[0], cfg), a[1..], b, cfg);
    }
  }

  lemma {:induction false} FullAnswersSplit(table: Table, a: seq<Request>, b: seq<Request>, cfg: Settings)
    ensures AnswersWithoutCleanup(table, a + b, cfg)
         == AnswersWithoutCleanup(table, a, cfg) + AnswersWithoutCleanup(RunWithoutCleanup(table, a, cfg), b, cfg)
    decreases |a|
  {
    if a == [] {
      assert a + b == b;
    } else {
      assert (a + b)[1..] == a[1..] + b;
      FullAnswersSplit(Touched(table, a[0], cfg), a[1..], b, cfg);
    }
  }

  /** Answers that differ at the last of some requests make the whole sequences of answers differ. */
  lemma LastAnswerTells(cleaned: Table, full: Table, before: seq<Request>, r: Request, cfg: Settings)
    requires AnswerOf(Run(cleaned, before, cfg), r, cfg) != AnswerOf(RunWithoutCleanup(full, before, cfg), r, cfg)
    ensures Answers(cleaned, before + [r], cfg) != AnswersWithoutCleanup(full, before + [r], cfg)
  {
    AnswersSplit(cleaned, before, [r], cfg);
    FullAnswersSplit(full, before, [r], cfg);
    assert Answers(cleaned, before + [r], cfg)[|before|] == AnswerOf(Run(cleaned, before, cfg), r, cfg);
    assert AnswersWithoutCleanup(full, before + [r], cfg)[|before|]
        == AnswerOf(RunWithoutCleanup(full, before, cfg), r, cfg);
  }

  function Repeated(r: Request, n: nat): (requests: seq<Request>)
    ensures |requests| == n
    ensures forall k :: 0 <= k < n ==> requests[k] == r
  {
    if n == 0 then [] else [r] + Repeated(r, n - 1)
  }

  function TouchedTimes(row: Option<Row>, now: int, n: nat, cfg: Settings): Option<Row> {
    if n == 0 then row
    else Some(if Restarts(row, now, cfg) then Row(now, n) else Row(row.value.windowStart, row.value.count + n))
  }

  /** The same request `n` times, with nothing to clean up: both of its rows count it each time. */
  lemma {:induction false} RepeatedFills(table: Table, r: Request, n: nat, cfg: Settings)
    requires cfg.Valid() && r.purge == []
    ensures PurgesAllowed(table, Repeated(r, n), cfg)
    ensures var end := Run(table, Repeated(r, n), cfg);
            && end == RunWithoutCleanup(table, Repeated(r, n), cfg)
            && (forall s :: s !in r.Subjects() ==> RowOf(end, s) == RowOf(table, s))
            && (forall s :: s in r.Subjects() ==> RowOf(end, s) == TouchedTimes(RowOf(table, s), r.now, n, cfg))
    decreases n
  {
    if n > 0 {
      assert Repeated(r, n)[1..] == Repeated(r, n - 1);
      var next := AfterRequest(table, r, cfg);
      assert next == Touched(table, r, cfg);
      RepeatedFills(next, r, n - 1, cfg);
      OneTouch(table, r, cfg);
      forall s | s in r.Subjects()
        ensures TouchedTimes(RowOf(next, s), r.now, n - 1, cfg) == TouchedTimes(RowOf(table, s), r.now, n, cfg)
      {
      }
    }
  }

  lemma OneTouch(table: Table, r: Request, cfg: Settings)
    ensures var next := Touched(table, r, cfg);
            && (forall s :: s !in r.Subjects() ==> RowOf(next, s) == RowOf(table, s))
            && (forall s :: s in r.Subjects() ==> RowOf(next, s) == Some(TouchedRow(RowOf(table, s), r.now, cfg)))
  {
    assert r.Subjects()[0] == Account(r.account) && r.Subjects()[1] == Ip(r.address);
  }

  /**
   The reading is taken before the lock, so order can be lost. For every setting:
   an account and its address use up the limit, a request past their window deletes
   their rows, and one that had read its clock inside that window is admitted after
   it, where without the cleanup it is refused.
   */
  lemma OutOfOrderCleanupIsVisible(cfg: Settings) returns (requests: seq<Request>)
    requires cfg.Valid()
    ensures PurgesAllowed(map[], requests, cfg)
    ensures Answers(map[], requests, cfg) != AnswersWithoutCleanup(map[], requests, cfg)
  {
    var window, max := cfg.Window(), cfg.maxRequests;
    var a, b, c := Request(0, 1, 1, []), Request(window + 1, 2, 2, [Account(1), Ip(1)]), Request(window - 1, 1, 1, []);
    var fill := Repeated(a, max);
    RepeatedFills(map[], a, max, cfg);
    assert a.Subjects()[0] == Account(1) && a.Subjects()[1] == Ip(1);
    var filled := Run(map[], fill, cfg);
    assert RowOf(filled, Account(1)) == Some(Row(0, max)) && RowOf(filled, Ip(1)) == Some(Row(0, max));
    assert PurgeAllowed(filled, b, cfg) && PurgesAllowed(filled, [b], cfg);
    PurgesSplit(map[], fill, [b], cfg);
    var before := fill + [b];
    RunSplit(map[], fill, [b], cfg);
    var cleaned, full := Run(map[], before, cfg), RunWithoutCleanup(map[], before, cfg);
    assert [b][1..] == [];
    assert cleaned == AfterRequest(filled, b, cfg) && full == Touched(filled, b, cfg);
    assert PurgesAllowed(cleaned, [c], cfg);
    PurgesSplit(map[], before, [c], cfg);
    assert AnswerOf(cleaned, c, cfg) == Admitted;
    assert AnswerOf(full, c, cfg).Limited?;
    LastAnswerTells(map[], map[], before, c, cfg);
    requests := before + [c];
  }

  lemma {:induction false} RunSplit(table: Table, a: seq<Request>, b: seq<Request>, cfg: Settings)
    ensures Run(table, a + b, cfg) == Run(Run(table, a, cfg), b, cfg)
    ensures RunWithoutCleanup(table, a + b, cfg) == RunWithoutCleanup(RunWithoutCleanup(table, a, cfg), b, cfg)
    decreases |a|
  {
    if a == [] {
      assert a + b == b;
    } else {
      assert (a + b)[1..] == a[1..] + b;
      RunSplit(AfterRequest(table, a[0], cfg), a[1..], b, cfg);
      RunSplit(Touched(table, a[0], cfg), a[1..], b, cfg);
    }
  }

  lemma NewIdentity(seen: set<Subject>) returns (id: int)
    ensures Account(id) !in seen && Ip(id) !in seen
  {
    id := NewIdentityFrom(seen);
  }

  /** No identity from `id` on occurs among the subjects. */
  ghost predicate NoneFrom(seen: set<Subject>, id: int) {
    forall s :: s in seen ==> Identity(s) < id
  }

  function Identity(s: Subject): int {
    match s
    case Account(id) => id
    case Ip(address) => address
  }

  lemma NewIdentityFrom(seen: set<Subject>) returns (id: int)
    ensures NoneFrom(seen, id)
    decreases seen
  {
    id := 0;
    if seen != {} {
      var s :| s in seen;
      var rest := NewIdentityFrom(seen - {s});
      id := Max(rest, Identity(s) + 1);
    }
  }

  /** A request of `s` together with a subject of the other kind. */
  function Paired(s: Subject, other: int, now: int): (r: Request)
    ensures s in r.Subjects() && r.purge == [] && r.now == now
    ensures r.Subjects() == match s case Account(_) => [s, Ip(other)] case Ip(_) => [Account(other), s]
  {
    match s
    case Account(id) => Request(now, id, other, [])
    case Ip(address) => Request(now, other, address, [])
  }

  /** All of the requests read `now` and come from `s`. */
  predicate From(s: Subject, now: int, requests: seq<Request>) {
    forall k :: 0 <= k < |requests| ==> s in requests[k].Subjects() && requests[k].now == now
  }

  lemma MissedRowAnswers(a: Table, b: Table, s: Subject, r: Request, cfg: Settings)
    requires s in r.Subjects() && r.purge == []
    requires forall o :: o in r.Subjects() ==> !OverLimit(TouchedRow(RowOf(a, o), r.now, cfg), cfg)
    requires OverLimit(TouchedRow(RowOf(b, s), r.now, cfg), cfg)
    ensures AnswerOf(a, r, cfg) == Admitted && AnswerOf(b, r, cfg).Limited? && PurgesAllowed(a, [r], cfg)
  {
    assert r.Subjects()[0] == Account(r.account) && r.Subjects()[1] == Ip(r.address);
  }

  lemma LastOfManyAnswers(cleaned: Table, full: Table, s: Subject, r: Request, n: nat, cfg: Settings)
    requires cfg.Valid() && n == cfg.maxRequests - 1 && s in r.Subjects() && r.purge == []
    requires s in full && full[s].count >= 1 && r.now < full[s].windowStart + cfg.Window()
    requires forall o :: o in r.Subjects() ==> o !in cleaned
    ensures AnswerOf(Run(cleaned, Repeated(r, n), cfg), r, cfg) == Admitted
    ensures AnswerOf(RunWithoutCleanup(full, Repeated(r, n), cfg), r, cfg).Limited?
    ensures PurgesAllowed(Run(cleaned, Repeated(r, n), cfg), [r], cfg)
  {
    RepeatedFills(cleaned, r, n, cfg);
    RepeatedFills(full, r, n, cfg);
    var a, b := Run(cleaned, Repeated(r, n), cfg), RunWithoutCleanup(full, Repeated(r, n), cfg);
    assert RowOf(b, s) == Some(Row(full[s].windowStart, full[s].count + n));
    forall o | o in r.Subjects() ensures !OverLimit(TouchedRow(RowOf(a, o), r.now, cfg), cfg) {
      assert RowOf(a, o) == TouchedTimes(None, r.now, n, cfg);
    }
    MissedRowAnswers(a, b, s, r, cfg);
  }

  /**
   Inside the window of a deleted row the limit's worth of requests from its subject,
   each with the same new partner, is admitted whole; with the row still there the
   last of them is refused.
   */
  lemma DeletedRowShows(cleaned: Table, full: Table, s: Subject, now: int, cfg: Settings)
    returns (more: seq<Request>)
    requires cfg.Valid() && s in full && s !in cleaned
    requires full[s].count >= 1 && now < full[s].windowStart + cfg.Window()
    ensures Shows(cleaned, full, more, cfg) && From(s, now, more)
  {
    var other := NewIdentity(cleaned.Keys + full.Keys);
    var r, n := Paired(s, other, now), cfg.maxRequests - 1;
    var before := Repeated(r, n);
    RepeatedFills(cleaned, r, n, cfg);
    LastOfManyAnswers(cleaned, full, s, r, n, cfg);
    LastAnswerTells(cleaned, full, before, r, cfg);
    PurgesSplit(cleaned, before, [r], cfg);
    more := before + [r];
  }

  lemma LaterAnswersTell(cleaned: Table, full: Table, r: Request, later: seq<Request>, cfg: Settings)
    requires PurgeAllowed(cleaned, r, cfg)
    requires Shows(AfterRequest(cleaned, r, cfg), Touched(full, r, cfg), later, cfg)
    ensures Shows(cleaned, full, [r] + later, cfg)
  {
    assert ([r] + later)[1..] == later;
    assert Answers(cleaned, [r] + later, cfg)[1..] == Answers(AfterRequest(cleaned, r, cfg), later, cfg);
    assert AnswersWithoutCleanup(full, [r] + later, cfg)[1..]
        == AnswersWithoutCleanup(Touched(full, r, cfg), later, cfg);
  }

  /**
   No weaker guard will do: where a request first fails it, requests from one of its
   own subjects at its own reading would show the cleanup.
   */
  lemma {:induction false} UnguardedCleanupShows(cleaned: Table, full: Table, requests: seq<Request>, cfg: Settings)
    returns (k: nat, s: Subject, more: seq<Request>)
    requires cfg.Valid() && Agrees(cleaned, full) && Counted(full) && PurgesAllowed(cleaned, requests, cfg)
    requires !Guarded(cleaned, full, requests, cfg)
    ensures k < |requests| && s in requests[k].Subjects() && From(s, requests[k].now, more)
    ensures Shows(cleaned, full, requests[..k] + more, cfg)
    decreases |requests|
  {
    var r, rest := requests[0], requests[1..];
    if OutsideDeletedWindows(cleaned, full, r, cfg) {
      GuardKeepsAgreementExactly(cleaned, full, r, cfg);
      k, s, more := UnguardedCleanupShows(AfterRequest(cleaned, r, cfg), Touched(full, r, cfg), rest, cfg);
      var later := rest[..k] + more;
      k := k + 1;
      assert requests[..k] + more == [r] + later;
      LaterAnswersTell(cleaned, full, r, later, cfg);
    } else {
      k := 0;
      s :| s in r.Subjects() && s in full && s !in cleaned && r.now < full[s].windowStart + cfg.Window();
      more := DeletedRowShows(cleaned, full, s, r.now, cfg);
      assert requests[..0] + more == more;
    }
  }

  // ------------------------------------------------------------ admission bound

  function Admissions(table: Table, requests: seq<Request>, s: Subject, cfg: Settings): nat
    decreases |requests|
  {
    if requests == [] then 0
    else
      (if s in requests[0].Subjects() && AnswerOf(table, requests[0], cfg) == Admitted then 1 else 0)
      + Admissions(AfterRequest(table, requests[0], cfg), requests[1..], s, cfg)
  }

  predicate Within(requests: seq<Request>, t: int, cfg: Settings) {
    forall k :: 0 <= k < |requests| ==> t <= requests[k].now < t + cfg.Window()
  }

  predicate Counted(table: Table) {
    forall s :: s in table ==> table[s].count >= 1
  }

  lemma {:induction false} RunsAreCounted(table: Table, requests: seq<Request>, cfg: Settings)
    requires Counted(table)
    ensures Counted(Run(table, requests, cfg))
    decreases |requests|
  {
    if requests != [] {
      RunsAreCounted(AfterRequest(table, requests[0], cfg), requests[1..], cfg);
    }
  }

  function Room(row: Row, cfg: Settings): int {
    Max(0, cfg.maxRequests - row.count)
  }

  /** How many more admissions the interval starting at `t` can see for one subject. */
  function Budget(row: Option<Row>, t: int, cfg: Settings): int {
    if row.None? then cfg.maxRequests
    else if row.value.windowStart >= t then Room(row.value, cfg)
    else Room(row.value, cfg) + cfg.maxRequests
  }

  lemma RequestSpendsBudget(table: Table, r: Request, s: Subject, t: int, cfg: Settings)
    requires cfg.Valid() && Counted(table) && PurgeAllowed(table, r, cfg)
    requires t <= r.now < t + cfg.Window()
    ensures var spent := if s in r.Subjects() && AnswerOf(table, r, cfg) == Admitted then 1 else 0;
            Budget(RowOf(AfterRequest(table, r, cfg), s), t, cfg) <= Budget(RowOf(table, s), t, cfg) - spent
    ensures Counted(AfterRequest(table, r, cfg))
  {
  }

  lemma {:induction false} AdmissionsWithinBudget(
    table: Table, requests: seq<Request>, s: Subject, t: int, cfg: Settings)
    requires cfg.Valid() && Counted(table) && PurgesAllowed(table, requests, cfg)
    requires Within(requests, t, cfg)
    ensures Admissions(table, requests, s, cfg) <= Budget(RowOf(table, s), t, cfg)
    decreases |requests|
  {
    if requests != [] {
      RequestSpendsBudget(table, requests[0], s, t, cfg);
      AdmissionsWithinBudget(AfterRequest(table, requests[0], cfg), requests[1..], s, t, cfg);
    }
  }

  /** After any past, one subject is admitted at most `2·max − 1` times in a half-open interval of one window length. */
  lemma AdmissionBound(past: seq<Request>, requests: seq<Request>, s: Subject, t: int, cfg: Settings)
    requires cfg.Valid() && PurgesAllowed(Run(map[], past, cfg), requests, cfg)
    requires Within(requests, t, cfg)
    ensures Admissions(Run(map[], past, cfg), requests, s, cfg) <= 2 * cfg.maxRequests - 1
  {
    RunsAreCounted(map[], past, cfg);
    AdmissionsWithinBudget(Run(map[], past, cfg), requests, s, t, cfg);
  }

  /** `n` requests of account 0 at one instant, each from an address not seen before. */
  function Burst(n: nat, now: int, address: int): (r: seq<Request>)
    ensures |r| == n
    ensures forall k :: 0 <= k < n ==> r[k].now == now && r[k].account == 0
  {
    if n == 0 then [] else [Request(now, 0, address, [])] + Burst(n - 1, now, address + 1)
  }

  /** No address from `address` on has a row yet. */
  ghost predicate Unseen(table: Table, address: int) {
    forall a :: a >= address ==> Ip(a) !in table
  }

  lemma NewAddressIsAdmitted(table: Table, now: int, address: int, cfg: Settings)
    requires cfg.Valid() && Unseen(table, address)
    requires !OverLimit(TouchedRow(RowOf(table, Account(0)), now, cfg), cfg)
    ensures var r := Request(now, 0, address, []);
            && Account(0) in r.Subjects() && PurgeAllowed(table, r, cfg) && AnswerOf(table, r, cfg) == Admitted
            && Unseen(AfterRequest(table, r, cfg), address + 1)
            && RowOf(AfterRequest(table, r, cfg), Account(0)) == Some(TouchedRow(RowOf(table, Account(0)), now, cfg))
  {
    assert Request(now, 0, address, []).Subjects()[0] == Account(0);
  }

  lemma {:induction false} BurstIsAdmitted(table: Table, n: nat, now: int, address: int, cfg: Settings)
    requires cfg.Valid() && Unseen(table, address)
    requires var row := RowOf(table, Account(0));
             if Restarts(row, now, cfg) then n <= cfg.maxRequests else row.value.count + n <= cfg.maxRequests
    ensures PurgesAllowed(table, Burst(n, now, address), cfg)
    ensures Admissions(table, Burst(n, now, address), Account(0), cfg) == n
    ensures Unseen(Run(table, Burst(n, now, address), cfg), address + n)
    ensures n > 0 ==>
            var row := RowOf(table, Account(0));
            RowOf(Run(table, Burst(n, now, address), cfg), Account(0)) ==
            Some(if Restarts(row, now, cfg) then Row(now, n) else Row(row.value.windowStart, row.value.count + n))
    decreases n
  {
    if n > 0 {
      var burst := Burst(n, now, address);
      var r := burst[0];
      assert burst[1..] == Burst(n - 1, now, address + 1);
      var next := AfterRequest(table, r, cfg);
      NewAddressIsAdmitted(table, now, address, cfg);
      if n > 1 {
        BurstIsAdmitted(next, n - 1, now, address + 1, cfg);
      } else {
        assert burst[1..] == [];
      }
    }
  }

  lemma {:induction false} AdmissionsSplit(table: Table, a: seq<Request>, b: seq<Request>, s: Subject, cfg: Settings)
    ensures Admissions(table, a + b, s, cfg)
         == Admissions(table, a, s, cfg) + Admissions(Run(table, a, cfg), b, s, cfg)
    decreases |a|
  {
    if a == [] {
      assert a + b == b;
    } else {
      assert (a + b)[1..] == a[1..] + b;
      AdmissionsSplit(AfterRequest(table, a[0], cfg), a[1..], b, s, cfg);
    }
  }

  /** The rest of the budget at the end of a window, and a whole budget at the start of the next. */
  lemma TwoBursts(open: Table, cfg: Settings) returns (requests: seq<Request>)
    requires cfg.Valid() && Unseen(open, 1) && RowOf(open, Account(0)) == Some(Row(0, 1))
    ensures requests == Burst(cfg.maxRequests - 1, cfg.Window() - 1, 1) + Burst(cfg.maxRequests, cfg.Window(), cfg.maxRequests)
    ensures PurgesAllowed(open, requests, cfg)
    ensures Admissions(open, requests, Account(0), cfg) == 2 * cfg.maxRequests - 1
  {
    var window, max := cfg.Window(), cfg.maxRequests;
    var first, second := Burst(max - 1, window - 1, 1), Burst(max, window, max);
    BurstIsAdmitted(open, max - 1, window - 1, 1, cfg);
    if max == 1 {
      assert first == [];
    }
    BurstIsAdmitted(Run(open, first, cfg), max, window, max, cfg);
    AdmissionsSplit(open, first, second, Account(0), cfg);
    PurgesSplit(open, first, second, cfg);
    requests := first + second;
  }

  /** The bound is reached: the end of one window followed by the whole of the next. */
  lemma AdmissionBoundIsReached(cfg: Settings)
    returns (past: seq<Request>, requests: seq<Request>, t: int)
    requires cfg.Valid()
    ensures InOrder(0, past) && PurgesAllowed(Run(map[], past, cfg), requests, cfg)
    ensures Within(requests, t, cfg)
    ensures Admissions(Run(map[], past, cfg), requests, Account(0), cfg) == 2 * cfg.maxRequests - 1
  {
    past, t := Burst(1, 0, 0), 1;
    BurstIsAdmitted(map[], 1, 0, 0, cfg);
    requests := TwoBursts(Run(map[], past, cfg), cfg);
    assert past[1..] == [];
  }

  // -------------------------------------------------------------- Retry-After

  predicate Involves(requests: seq<Request>, account: int, address: int) {
    exists k :: 0 <= k < |requests| && (requests[k].account == account || requests[k].address == address)
  }

  lemma InvolvedInTail(requests: seq<Request>, account: int, address: int)
    requires requests != [] && Involves(requests[1..], account, address)
    ensures Involves(requests, account, address)
  {
  }

  lemma {:induction false} OthersLeaveRows(
    table: Table, requests: seq<Request>, account: int, address: int, s: Subject, cfg: Settings)
    requires !Involves(requests, account, address) && s in {Account(account), Ip(address)}
    ensures RowOf(Run(table, requests, cfg), s) in {RowOf(table, s), None}
    decreases |requests|
  {
    if requests != [] {
      if Involves(requests[1..], account, address) {
        InvolvedInTail(requests, account, address);
        assert false;
      }
      assert requests[0].account != account && requests[0].address != address;
      OthersLeaveRows(AfterRequest(table, requests[0], cfg), requests[1..], account, address, s, cfg);
    }
  }

  /**
   Waiting out the answer: a refused requester who comes back after the returned
   time, while only others made requests, is admitted.
   */
  ghost predicate HonestAt(table: Table, cfg: Settings) {
    forall r: Request, others: seq<Request>, again: Request ::
      && PurgeAllowed(table, r, cfg) && AnswerOf(table, r, cfg).Limited?
      && !Involves(others, r.account, r.address)
      && again.account == r.account && again.address == r.address
      && again.now >= r.now + AnswerOf(table, r, cfg).retryAfter * SECOND
      ==> AnswerOf(Run(AfterRequest(table, r, cfg), others, cfg), again, cfg) == Admitted
  }

  /** It holds in every table a limiter that started empty can come to. */
  ghost predicate RetryAfterIsHonest(cfg: Settings) {
    forall past: seq<Request> :: PurgesAllowed(map[], past, cfg) ==> HonestAt(Run(map[], past, cfg), cfg)
  }

  lemma WaitedRowAdmits(row: Option<Row>, left: Option<Row>, now: int, again: int, retryAfter: int, cfg: Settings)
    requires cfg.Valid() && (cfg.maxRequests >= 2 || cfg.windowSeconds == 1)
    requires left in {Some(TouchedRow(row, now, cfg)), None}
    requires retryAfter >= 1 && retryAfter >= Wait(row, now, cfg) && again >= now + retryAfter * SECOND
    ensures !OverLimit(TouchedRow(left, again, cfg), cfg)
  {
  }

  lemma WaitingSuffices(table: Table, cfg: Settings)
    requires cfg.Valid() && (cfg.maxRequests >= 2 || cfg.windowSeconds == 1)
    ensures HonestAt(table, cfg)
  {
    forall r: Request, others: seq<Request>, again: Request
      | && PurgeAllowed(table, r, cfg) && AnswerOf(table, r, cfg).Limited?
        && !Involves(others, r.account, r.address)
        && again.account == r.account && again.address == r.address
        && again.now >= r.now + AnswerOf(table, r, cfg).retryAfter * SECOND
      ensures AnswerOf(Run(AfterRequest(table, r, cfg), others, cfg), again, cfg) == Admitted
    {
      var left := AfterRequest(table, r, cfg);
      var back := Run(left, others, cfg);
      forall s | s in {Account(r.account), Ip(r.address)}
        ensures !OverLimit(TouchedRow(RowOf(back, s), again.now, cfg), cfg)
      {
        OthersLeaveRows(left, others, r.account, r.address, s, cfg);
        assert r.Subjects()[0] == Account(r.account) && r.Subjects()[1] == Ip(r.address);
        WaitedRowAdmits(RowOf(table, s), RowOf(back, s), r.now, again.now,
          AnswerOf(table, r, cfg).retryAfter, cfg);
      }
    }
  }

  /** The returned Retry-After is enough exactly when the limit is at least two, or the window is a single second. */
  lemma RetryAfterIsHonestExactly(cfg: Settings)
    requires cfg.Valid()
    ensures RetryAfterIsHonest(cfg) <==> cfg.maxRequests >= 2 || cfg.windowSeconds == 1
  {
    if cfg.maxRequests >= 2 || cfg.windowSeconds == 1 {
      forall past: seq<Request> | PurgesAllowed(map[], past, cfg) ensures HonestAt(Run(map[], past, cfg), cfg) {
        WaitingSuffices(Run(map[], past, cfg), cfg);
      }
    } else {
      FreshAddressDefeatsRetryAfter(cfg);
    }
  }

  /**
   With a limit of one: an account that joined from one address is refused from
   another, and the row that refusal opened for the new address refuses the next.
   */
  lemma FreshAddressDefeatsRetryAfter(cfg: Settings)
    requires cfg.Valid() && cfg.maxRequests == 1 && cfg.windowSeconds > 1
    ensures !RetryAfterIsHonest(cfg)
  {
    var now := cfg.Window() - 1;
    var past := [Request(0, 0, 5, [])];
    var table := Run(map[], past, cfg);
    assert past[1..] == [] && table == AfterRequest(map[], past[0], cfg);
    assert PurgesAllowed(map[], past, cfg);
    assert table == map[Account(0) := Row(0, 1), Ip(5) := Row(0, 1)];
    var r := Request(now, 0, 0, []);
    var others: seq<Request> := [];
    assert AnswerOf(table, r, cfg) == Limited(1);
    var again := Request(now + SECOND, 0, 0, []);
    var left := AfterRequest(table, r, cfg);
    assert left[Ip(0)] == Row(now, 1);
    assert Run(left, others, cfg) == left;
    assert AnswerOf(Run(left, others, cfg), again, cfg).Limited?;
    assert !HonestAt(table, cfg);
  }
}
