/**
 The persistent login lockout: a fixed window of failures, then a timed lock
 during which the real password hash is not consulted.
 */
module LoginLockout {
  import opened Base

  /** The three settings; each is positive, and nothing relates lockout to window. */
  datatype Settings = Settings(maxFailed: nat, windowSeconds: nat, lockoutSeconds: nat) {
    predicate Valid() {
      maxFailed >= 1 && windowSeconds >= 1 && lockoutSeconds >= 1
    }
    function Window(): int {
      windowSeconds * SECOND
    }
    function Lockout(): int {
      lockoutSeconds * SECOND
    }
  }

  datatype Login = Login(failed: nat, windowStart: Option<int>, lockedUntil: Option<int>)

  const Fresh: Login := Login(0, None, None)

  /** A dummy check leaks nothing; the other two compared the real hash. */
  datatype Outcome = DummyCheck | Rejected | Accepted

  /** One call for an existing active user, at one clock reading. */
  datatype Try = Try(now: int, matches: bool)

  function Unlocked(login: Login): Login {
    if login.lockedUntil.Some? then Fresh else login
  }

  function OutcomeOf(login: Login, try: Try): Outcome {
    if login.lockedUntil.Some? && login.lockedUntil.value > try.now then DummyCheck
    else if try.matches then Accepted
    else Rejected
  }

  function AfterFailure(login: Login, now: int, cfg: Settings): Login {
    var counted :=
      if login.windowStart.None? || login.windowStart.value + cfg.Window() <= now
      then login.(failed := 1, windowStart := Some(now))
      else login.(failed := login.failed + 1);
    if counted.failed >= cfg.maxFailed then counted.(lockedUntil := Some(now + cfg.Lockout())) else counted
  }

  function AfterTry(login: Login, try: Try, cfg: Settings): Login {
    match OutcomeOf(login, try)
    case DummyCheck => login
    case Accepted => Unlocked(login).(failed := 0, windowStart := None)
    case Rejected => AfterFailure(Unlocked(login), try.now, cfg)
  }

  /** The user row that `_authenticate_user` updates under its row lock. */
  class UserRow {
    var failedLoginAttempts: nat
    var failedLoginWindowStartedAt: Option<int>
    var loginLockedUntil: Option<int>

    function State(): Login
      reads this
    {
      Login(failedLoginAttempts, failedLoginWindowStartedAt, loginLockedUntil)
    }

    constructor ()
      ensures State() == Fresh
    {
      failedLoginAttempts, failedLoginWindowStartedAt, loginLockedUntil := 0, None, None;
    }

    method Authenticate(now: int, matches: bool, cfg: Settings) returns (outcome: Outcome)
      modifies this
      ensures outcome == OutcomeOf(old(State()), Try(now, matches))
      ensures State() == AfterTry(old(State()), Try(now, matches), cfg)
    {
      if loginLockedUntil.Some? {
        if loginLockedUntil.value > now {
          return DummyCheck;
        }
        failedLoginAttempts := 0;
        failedLoginWindowStartedAt := None;
        loginLockedUntil := None;
      }
      if !matches {
        if failedLoginWindowStartedAt.None?
           || failedLoginWindowStartedAt.value + cfg.Window() <= now {
          failedLoginAttempts := 1;
          failedLoginWindowStartedAt := Some(now);
        } else {
          failedLoginAttempts := failedLoginAttempts + 1;
        }
        if failedLoginAttempts >= cfg.maxFailed {
          loginLockedUntil := Some(now + cfg.Lockout());
        }
        return Rejected;
      }
      if failedLoginAttempts != 0 || failedLoginWindowStartedAt.Some? {
        failedLoginAttempts := 0;
        failedLoginWindowStartedAt := None;
      }
      return Accepted;
    }
  }

  // -------------------------------------------------------------------- one try

  /**
   One try in full. While a lock lasts nothing is compared and nothing moves. Otherwise
   the right password is accepted and leaves no failure, window or lock behind, and a
   wrong one counts: on from the window's count if the window is open and was not
   ended by a lock, from one if not, and it locks as soon as the limit is reached.
   */
  lemma TryMeans(login: Login, try: Try, cfg: Settings)
    ensures var locked := login.lockedUntil.Some? && try.now < login.lockedUntil.value;
            && (OutcomeOf(login, try) == DummyCheck <==> locked)
            && (OutcomeOf(login, try) == Accepted <==> !locked && try.matches)
            && (OutcomeOf(login, try) == Rejected <==> !locked && !try.matches)
    ensures var after, outcome := AfterTry(login, try, cfg), OutcomeOf(login, try);
            && (outcome == DummyCheck ==> after == login)
            && (outcome == Accepted ==> after.failed == 0 && after.windowStart.None? && after.lockedUntil.None?)
            && (outcome == Rejected ==>
                  var open := login.lockedUntil.None? && login.windowStart.Some?
                              && try.now < login.windowStart.value + cfg.windowSeconds * 1_000_000;
                  && after.failed == (if open then login.failed + 1 else 1)
                  && after.windowStart == (if open then login.windowStart else Some(try.now))
                  && after.lockedUntil == if after.failed >= cfg.maxFailed
                                          then Some(try.now + cfg.lockoutSeconds * 1_000_000) else None)
  {
  }

  // --------------------------------------------------------------------- runs

  function After(login: Login, tries: seq<Try>, cfg: Settings): Login
    decreases |tries|
  {
    if tries == [] then login else After(AfterTry(login, tries[0], cfg), tries[1..], cfg)
  }

  /** Failed comparisons against the real hash. */
  function Rejections(login: Login, tries: seq<Try>, cfg: Settings): nat
    decreases |tries|
  {
    if tries == [] then 0
    else
      (if OutcomeOf(login, tries[0]) == Rejected then 1 else 0)
      + Rejections(AfterTry(login, tries[0], cfg), tries[1..], cfg)
  }

  predicate NoSuccess(login: Login, tries: seq<Try>, cfg: Settings)
    decreases |tries|
  {
    tries == [] ||
    (OutcomeOf(login, tries[0]) != Accepted && NoSuccess(AfterTry(login, tries[0], cfg), tries[1..], cfg))
  }

  /** Every try falls in the half-open interval of one window length that starts at `t`. */
  predicate Within(tries: seq<Try>, t: int, cfg: Settings) {
    forall k :: 0 <= k < |tries| ==> t <= tries[k].now < t + cfg.Window()
  }

  predicate InOrder(tries: seq<Try>) {
    forall i, j :: 0 <= i < j < |tries| ==> tries[i].now <= tries[j].now
  }

  /** The most guesses one window length can hold: `2·max − 2`, or one when `max` is one. */
  function Bound(cfg: Settings): nat
    requires cfg.Valid()
  {
    Max(cfg.maxFailed, 2 * cfg.maxFailed - 2)
  }

  predicate Consistent(login: Login, cfg: Settings) {
    && (login.windowStart.Some? <==> login.failed >= 1)
    && (login.lockedUntil.None? ==> login.failed < cfg.maxFailed)
  }

  lemma {:induction false} RunsAreConsistent(login: Login, tries: seq<Try>, cfg: Settings)
    requires cfg.Valid() && Consistent(login, cfg)
    ensures Consistent(After(login, tries, cfg), cfg)
    decreases |tries|
  {
    if tries != [] {
      RunsAreConsistent(AfterTry(login, tries[0], cfg), tries[1..], cfg);
    }
  }

  /** How many more guesses the interval starting at `t` can still see from this state. */
  function Budget(login: Login, t: int, cfg: Settings): int {
    if login.lockedUntil.Some? then
      if login.lockedUntil.value >= t + cfg.Window() then 0 else cfg.maxFailed
    else if login.windowStart.None? then cfg.maxFailed
    else if login.windowStart.value >= t then cfg.maxFailed - login.failed
    else 2 * cfg.maxFailed - 1 - login.failed
  }

  lemma GuessSpendsBudget(login: Login, try: Try, t: int, cfg: Settings)
    requires cfg.Valid() && cfg.lockoutSeconds >= cfg.windowSeconds && Consistent(login, cfg)
    requires t <= try.now < t + cfg.Window() && OutcomeOf(login, try) != Accepted
    ensures var spent := if OutcomeOf(login, try) == Rejected then 1 else 0;
            0 <= Budget(AfterTry(login, try, cfg), t, cfg) <= Budget(login, t, cfg) - spent
    ensures Consistent(AfterTry(login, try, cfg), cfg)
  {
  }

  lemma {:induction false} GuessesWithinBudget(login: Login, tries: seq<Try>, t: int, cfg: Settings)
    requires cfg.Valid() && cfg.lockoutSeconds >= cfg.windowSeconds && Consistent(login, cfg)
    requires Within(tries, t, cfg) && NoSuccess(login, tries, cfg) && Budget(login, t, cfg) >= 0
    ensures Rejections(login, tries, cfg) <= Budget(login, t, cfg)
    decreases |tries|
  {
    if tries != [] {
      GuessSpendsBudget(login, tries[0], t, cfg);
      GuessesWithinBudget(AfterTry(login, tries[0], cfg), tries[1..], t, cfg);
    }
  }

  /**
   After any past, an interval of one window length without a successful login
   holds at most `Bound` failed checks, provided the lock outlasts the window.
   */
  lemma LockoutBound(past: seq<Try>, tries: seq<Try>, t: int, cfg: Settings)
    requires cfg.Valid() && cfg.lockoutSeconds >= cfg.windowSeconds
    requires Within(tries, t, cfg) && NoSuccess(After(Fresh, past, cfg), tries, cfg)
    ensures Rejections(After(Fresh, past, cfg), tries, cfg) <= Bound(cfg)
  {
    RunsAreConsistent(Fresh, past, cfg);
    GuessesWithinBudget(After(Fresh, past, cfg), tries, t, cfg);
  }

  // ------------------------------------------------------- exactness of the bound

  /** The bound, for every history and every interval, on a clock that never goes back. */
  ghost predicate BoundHolds(cfg: Settings)
    requires cfg.Valid()
  {
    forall past: seq<Try>, tries: seq<Try>, t: int ::
      InOrder(past + tries) && Within(tries, t, cfg) && NoSuccess(After(Fresh, past, cfg), tries, cfg) ==>
        Rejections(After(Fresh, past, cfg), tries, cfg) <= Bound(cfg)
  }

  function Burst(n: nat, now: int): (r: seq<Try>)
    ensures |r| == n && forall k :: 0 <= k < n ==> r[k] == Try(now, false)
  {
    if n == 0 then [] else [Try(now, false)] + Burst(n - 1, now)
  }

  lemma {:induction false} Splits(login: Login, a: seq<Try>, b: seq<Try>, cfg: Settings)
    ensures After(login, a + b, cfg) == After(After(login, a, cfg), b, cfg)
    ensures Rejections(login, a + b, cfg) == Rejections(login, a, cfg) + Rejections(After(login, a, cfg), b, cfg)
    ensures NoSuccess(login, a + b, cfg) <==> NoSuccess(login, a, cfg) && NoSuccess(After(login, a, cfg), b, cfg)
    decreases |a|
  {
    if a == [] {
      assert a + b == b;
    } else {
      assert (a + b)[1..] == a[1..] + b;
      Splits(AfterTry(login, a[0], cfg), a[1..], b, cfg);
    }
  }

  /** Wrong guesses at one instant inside an open window all count; the last one locks if it reaches the limit. */
  lemma {:induction false} BurstInWindow(login: Login, n: nat, now: int, cfg: Settings)
    requires cfg.Valid() && login.lockedUntil.None? && login.windowStart.Some?
    requires login.windowStart.value + cfg.Window() > now && login.failed + n <= cfg.maxFailed
    requires login.failed < cfg.maxFailed
    ensures Rejections(login, Burst(n, now), cfg) == n && NoSuccess(login, Burst(n, now), cfg)
    ensures After(login, Burst(n, now), cfg) ==
            login.(failed := login.failed + n,
                   lockedUntil := if login.failed + n == cfg.maxFailed then Some(now + cfg.Lockout()) else None)
    decreases n
  {
    if n > 0 {
      var tries := Burst(n, now);
      assert tries[1..] == Burst(n - 1, now);
      var next := AfterTry(login, tries[0], cfg);
      if n > 1 {
        BurstInWindow(next, n - 1, now, cfg);
      } else {
        assert tries[1..] == [];
      }
    }
  }

  /** A full burst when no window or lock is in force: all of it is compared, then the account locks. */
  lemma FullBurst(login: Login, now: int, cfg: Settings)
    requires cfg.Valid()
    requires login.lockedUntil.Some? ==> login.lockedUntil.value <= now
    requires login.lockedUntil.None? && login.windowStart.Some? ==> login.windowStart.value + cfg.Window() <= now
    ensures var tries := Burst(cfg.maxFailed, now);
            && Rejections(login, tries, cfg) == cfg.maxFailed && NoSuccess(login, tries, cfg)
            && After(login, tries, cfg) == Login(cfg.maxFailed, Some(now), Some(now + cfg.Lockout()))
  {
    var tries := Burst(cfg.maxFailed, now);
    assert tries[1..] == Burst(cfg.maxFailed - 1, now);
    var next := AfterTry(login, tries[0], cfg);
    if cfg.maxFailed > 1 {
      BurstInWindow(next, cfg.maxFailed - 1, now, cfg);
    } else {
      assert tries[1..] == [];
    }
  }

  /** With a lock shorter than the window, two full bursts fit into one window length. */
  lemma ShortLockBreaksTheBound(cfg: Settings)
    requires cfg.Valid() && cfg.lockoutSeconds < cfg.windowSeconds
    ensures !BoundHolds(cfg)
  {
    var first, second := Burst(cfg.maxFailed, 0), Burst(cfg.maxFailed, cfg.Lockout());
    FullBurst(Fresh, 0, cfg);
    FullBurst(After(Fresh, first, cfg), cfg.Lockout(), cfg);
    Splits(Fresh, first, second, cfg);
    var past: seq<Try> := [];
    assert After(Fresh, past, cfg) == Fresh;
    assert InOrder(past + (first + second)) && Within(first + second, 0, cfg);
  }

  /** The bound holds of every run exactly when the lock lasts at least as long as the window. */
  lemma BoundHoldsExactlyForLongLocks(cfg: Settings)
    requires cfg.Valid()
    ensures BoundHolds(cfg) <==> cfg.lockoutSeconds >= cfg.windowSeconds
  {
    if cfg.lockoutSeconds >= cfg.windowSeconds {
      forall past: seq<Try>, tries: seq<Try>, t: int
        | Within(tries, t, cfg) && NoSuccess(After(Fresh, past, cfg), tries, cfg)
        ensures Rejections(After(Fresh, past, cfg), tries, cfg) <= Bound(cfg)
      {
        LockoutBound(past, tries, t, cfg);
      }
    } else {
      ShortLockBreaksTheBound(cfg);
    }
  }

  /** The bound is reached: a late end of one window, then the whole of the next. */
  lemma BoundIsReached(cfg: Settings) returns (past: seq<Try>, tries: seq<Try>, t: int)
    requires cfg.Valid()
    ensures InOrder(past + tries) && Within(tries, t, cfg) && NoSuccess(After(Fresh, past, cfg), tries, cfg)
    ensures Rejections(After(Fresh, past, cfg), tries, cfg) == Bound(cfg)
  {
    var max, window := cfg.maxFailed, cfg.Window();
    if max < 2 {
      past, tries, t := [], Burst(max, 0), 0;
      FullBurst(Fresh, 0, cfg);
      assert past + tries == tries;
    } else {
      past, t := [Try(0, false)], 1;
      var open := After(Fresh, past, cfg);
      assert past[1..] == [];
      assert open == AfterTry(Fresh, past[0], cfg);
      var first, second := Burst(max - 2, window - 1), Burst(max, window);
      BurstInWindow(open, max - 2, window - 1, cfg);
      FullBurst(After(open, first, cfg), window, cfg);
      Splits(open, first, second, cfg);
      tries := first + second;
    }
  }

  // ------------------------------------------------------------ when a lock begins

  predicate AllWrong(tries: seq<Try>) {
    forall k :: 0 <= k < |tries| ==> !tries[k].matches
  }

  /** Wrong passwords within one window of the first of them: all are compared, and just the one that reaches the limit locks. */
  lemma {:induction false} LocksExactlyAtTheLimit(tries: seq<Try>, cfg: Settings)
    requires cfg.Valid() && 1 <= |tries| <= cfg.maxFailed && AllWrong(tries)
    requires forall k :: 0 <= k < |tries| ==> tries[k].now < tries[0].now + cfg.Window()
    ensures After(Fresh, tries, cfg)
         == Login(|tries|, Some(tries[0].now),
                  if |tries| == cfg.maxFailed then Some(tries[|tries| - 1].now + cfg.Lockout()) else None)
    ensures Rejections(Fresh, tries, cfg) == |tries|
    decreases |tries|
  {
    var last := |tries| - 1;
    var front, try := tries[..last], tries[last];
    assert tries == front + [try];
    if last > 0 {
      LocksExactlyAtTheLimit(front, cfg);
    } else {
      assert front == [];
    }
    AfterOneMore(Fresh, front, try, cfg);
  }

  lemma {:induction false} AfterOneMore(login: Login, tries: seq<Try>, try: Try, cfg: Settings)
    ensures After(login, tries + [try], cfg) == AfterTry(After(login, tries, cfg), try, cfg)
    ensures Rejections(login, tries + [try], cfg) == Rejections(login, tries, cfg)
              + if OutcomeOf(After(login, tries, cfg), try) == Rejected then 1 else 0
    decreases |tries|
  {
    if tries == [] {
      assert [try][1..] == [];
    } else {
      assert (tries + [try])[1..] == tries[1..] + [try];
      AfterOneMore(AfterTry(login, tries[0], cfg), tries[1..], try, cfg);
    }
  }
}
