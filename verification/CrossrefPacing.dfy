/**
 The shared Crossref slot reserver, the per-job deadline and failure breaker, and
 the retrying request built from them. Times are the monotonic clock, as reals.
 */
module CrossrefPacing {
  import opened Base

  const PROVIDER_TIMEOUT: real := 15.0
  const MIN_TIMEOUT: real := 0.001
  const MAX_RETRY_AFTER: real := 10.0
  const MAX_CONSECUTIVE_FAILURES: nat := 3
  const ATTEMPTS: nat := 3

  // ---------------------------------------------------------------- the pacer

  /** A caller inside the lock: its two clock readings and its deadline, None for no deadline. */
  datatype Caller = Caller(now: real, checkedAt: real, deadline: Option<real>)

  function Delay(nextAt: real, now: real): real {
    RealMax(0.0, nextAt - now)
  }

  predicate Refused(nextAt: real, c: Caller) {
    c.deadline.Some? && Delay(nextAt, c.now) >= c.deadline.value - c.checkedAt
  }

  function SlotOf(nextAt: real, c: Caller): Option<real> {
    if Refused(nextAt, c) then None else Some(c.now + Delay(nextAt, c.now))
  }

  function NextAfter(nextAt: real, c: Caller, interval: real): real {
    if Refused(nextAt, c) then nextAt else RealMax(c.now, nextAt) + interval
  }

  /** The module-level `_NEXT_REQUEST_AT` and the lock around it. */
  class Pacer {
    var nextRequestAt: real

    constructor ()
      ensures nextRequestAt == 0.0
    {
      nextRequestAt := 0.0;
    }

    method Reserve(c: Caller, interval: real) returns (slot: Option<real>)
      modifies this
      ensures slot == SlotOf(old(nextRequestAt), c)
      ensures nextRequestAt == NextAfter(old(nextRequestAt), c, interval)
    {
      var delay := RealMax(0.0, nextRequestAt - c.now);
      if c.deadline.Some? && delay >= c.deadline.value - c.checkedAt {
        return None;
      }
      nextRequestAt := RealMax(c.now, nextRequestAt) + interval;
      return Some(c.now + delay);
    }
  }

  /** Slots handed out to a sequence of callers, in the order they held the lock. */
  function Slots(nextAt: real, callers: seq<Caller>, interval: real): seq<real>
    decreases |callers|
  {
    if callers == [] then []
    else
      var rest := Slots(NextAfter(nextAt, callers[0], interval), callers[1..], interval);
      match SlotOf(nextAt, callers[0])
      case None => rest
      case Some(slot) => [slot] + rest
  }

  /** A refused caller leaves the pacer as it was; an accepted one gets a slot before its deadline. */
  lemma ReservationRespectsDeadline(nextAt: real, c: Caller, interval: real)
    requires c.checkedAt >= c.now
    ensures SlotOf(nextAt, c).None? ==> NextAfter(nextAt, c, interval) == nextAt
    ensures SlotOf(nextAt, c).Some? ==>
              && SlotOf(nextAt, c).value >= c.now
              && SlotOf(nextAt, c).value >= nextAt
              && NextAfter(nextAt, c, interval) == SlotOf(nextAt, c).value + interval
              && (c.deadline.Some? ==> SlotOf(nextAt, c).value < c.deadline.value)
  {
  }

  ghost predicate Spaced(slots: seq<real>, interval: real) {
    forall i, j :: 0 <= i < j < |slots| ==> slots[j] >= slots[i] + interval
  }

  /** Whoever calls and whenever, slots are at least one interval apart and none is handed out before `nextAt`. */
  lemma {:induction false} SlotsAreSpaced(nextAt: real, callers: seq<Caller>, interval: real)
    requires interval > 0.0
    ensures Spaced(Slots(nextAt, callers, interval), interval)
    ensures forall k :: 0 <= k < |Slots(nextAt, callers, interval)| ==> Slots(nextAt, callers, interval)[k] >= nextAt
    decreases |callers|
  {
    if callers != [] {
      SlotsAreSpaced(NextAfter(nextAt, callers[0], interval), callers[1..], interval);
    }
  }

  function CountIn(slots: seq<real>, from: real, until: real): nat {
    if slots == [] then 0
    else (if from <= slots[0] < until then 1 else 0) + CountIn(slots[1..], from, until)
  }

  /** The length of `c` intervals on end. */
  function Intervals(c: nat, interval: real): real {
    if c == 0 then 0.0 else Intervals(c - 1, interval) + interval
  }

  lemma {:induction false} IntervalsAreProduct(c: nat, interval: real)
    ensures Intervals(c, interval) == c as real * interval
  {
    if c > 0 {
      IntervalsAreProduct(c - 1, interval);
      assert c as real == (c - 1) as real + 1.0;
      OneMoreTimes((c - 1) as real, interval);
    }
  }

  lemma OneMoreTimes(x: real, interval: real)
    ensures (x + 1.0) * interval == x * interval + interval
  {
  }

  /** Spaced slots fill less than the window: all but one of those inside are an interval further on. */
  lemma {:induction false} SpacedCount(slots: seq<real>, start: real, from: real, until: real, interval: real)
    requires interval > 0.0 && Spaced(slots, interval) && start >= from
    requires forall k :: 0 <= k < |slots| ==> from <= slots[k] ==> slots[k] >= start
    requires CountIn(slots, from, until) > 0
    ensures Intervals(CountIn(slots, from, until) - 1, interval) < until - start
    decreases |slots|
  {
    var rest := slots[1..];
    SpacedTail(slots, interval);
    if from <= slots[0] < until {
      var c := CountIn(rest, from, until);
      if c > 0 {
        SpacedCount(rest, slots[0] + interval, from, until, interval);
      }
    } else {
      SpacedCount(rest, start, from, until, interval);
    }
  }

  lemma SpacedTail(slots: seq<real>, interval: real)
    requires Spaced(slots, interval) && slots != []
    ensures Spaced(slots[1..], interval)
    ensures forall k :: 0 <= k < |slots| - 1 ==> slots[1..][k] == slots[k + 1] >= slots[0] + interval
  {
  }

  lemma CountFromSpan(count: nat, width: real, interval: real)
    requires interval > 0.0 && count > 0 && Intervals(count - 1, interval) < width
    ensures count <= Ceil(width / interval)
  {
    IntervalsAreProduct(count - 1, interval);
    ProductBelow((count - 1) as real, width, interval);
  }

  lemma ProductBelow(c: real, width: real, interval: real)
    requires interval > 0.0
    ensures c * interval < width <==> c < width / interval
  {
  }

  /** At most `⌈W / interval⌉` slots fall in any half-open window of length W. */
  lemma WindowBound(nextAt: real, callers: seq<Caller>, interval: real, from: real, width: real)
    requires interval > 0.0 && width > 0.0
    ensures CountIn(Slots(nextAt, callers, interval), from, from + width) <= Ceil(width / interval)
  {
    var slots := Slots(nextAt, callers, interval);
    SlotsAreSpaced(nextAt, callers, interval);
    var count := CountIn(slots, from, from + width);
    if count > 0 {
      SpacedCount(slots, from, from, from + width, interval);
      CountFromSpan(count, width, interval);
    } else {
      assert width / interval >= 0.0;
    }
  }

  /** `n` callers at once, none with a deadline. */
  function Crowd(n: nat, now: real): (r: seq<Caller>)
    ensures |r| == n
  {
    if n == 0 then [] else [Caller(now, now, None)] + Crowd(n - 1, now)
  }

  lemma {:induction false} CrowdSlots(n: nat, nextAt: real, now: real, interval: real)
    requires interval > 0.0 && nextAt >= now
    ensures |Slots(nextAt, Crowd(n, now), interval)| == n
    ensures forall k :: 0 <= k < n ==>
              Slots(nextAt, Crowd(n, now), interval)[k] == nextAt + k as real * interval
    decreases n
  {
    if n > 0 {
      assert Crowd(n, now)[1..] == Crowd(n - 1, now);
      CrowdSlots(n - 1, nextAt + interval, now, interval);
      var rest := Slots(nextAt + interval, Crowd(n - 1, now), interval);
      forall k | 0 <= k < n
        ensures ([nextAt] + rest)[k] == nextAt + k as real * interval
      {
        if k > 0 {
          assert (k - 1) as real * interval + interval == k as real * interval;
        }
      }
    }
  }

  lemma {:induction false} AllInside(slots: seq<real>, from: real, until: real)
    requires forall k :: 0 <= k < |slots| ==> from <= slots[k] < until
    ensures CountIn(slots, from, until) == |slots|
  {
    if slots != [] {
      AllInside(slots[1..], from, until);
    }
  }

  /** A crowd reaches the bound. */
  lemma WindowBoundIsReached(now: real, interval: real, width: real)
    requires interval > 0.0 && width > 0.0
    ensures Ceil(width / interval) >= 0
    ensures CountIn(Slots(now, Crowd(Ceil(width / interval), now), interval), now, now + width)
         == Ceil(width / interval)
  {
    assert width / interval >= 0.0;
    var n := Ceil(width / interval);
    CrowdSlots(n, now, now, interval);
    var slots := Slots(now, Crowd(n, now), interval);
    forall k | 0 <= k < n ensures now <= slots[k] < now + width {
      assert k as real <= (n - 1) as real < width / interval;
      ProductBelow(k as real, width, interval);
      assert k as real * interval >= 0.0;
    }
    AllInside(slots, now, now + width);
  }

  // --------------------------------------------------------------- job limits

  class JobLimits {
    const deadline: real
    var failures: map<string, nat>

    constructor (deadline: real)
      ensures this.deadline == deadline && failures == map[]
    {
      this.deadline := deadline;
      failures := map[];
    }

    function Streak(provider: string): nat
      reads this
    {
      if provider in failures then failures[provider] else 0
    }

    predicate Allows(provider: string, clock: real)
      reads this
    {
      deadline - clock > 0.0 && Streak(provider) < MAX_CONSECUTIVE_FAILURES
    }

    predicate Fits(wait: real, clock: real) {
      wait < deadline - clock
    }

    function Timeout(wanted: real, clock: real): real {
      RealMax(MIN_TIMEOUT, RealMin(wanted, deadline - clock))
    }

    method Record(provider: string, ok: Option<bool>)
      modifies this
      ensures failures == match ok
                          case None => old(failures)
                          case Some(b) => old(failures)[provider := if b then 0 else old(Streak(provider)) + 1]
    {
      if ok.None? {
        return;
      }
      var streak := if provider in failures then failures[provider] else 0;
      failures := failures[provider := if ok.value then 0 else streak + 1];
    }
  }

  // ---------------------------------------------------------- one whole request

  datatype Reply = Payload | HttpError(code: int, retryAfter: Option<real>) | TransportError

  /**
   What the surroundings do to one attempt: how long the lock takes, what other
   threads left in the pacer, how late the two sleeps return, how long the call
   would take if it were let run, and how it ends.
   */
  datatype Attempt = Attempt(
    lockStall: real, nextAt: real, slotLate: real, duration: real, reply: Reply, backoffLate: real)

  predicate Bounded(a: Attempt, slack: real) {
    && 0.0 <= a.lockStall <= slack && 0.0 <= a.slotLate <= slack
    && 0.0 <= a.backoffLate <= slack && 0.0 <= a.duration
  }

  predicate Retryable(code: int) {
    code in {429, 500, 502, 503, 504}
  }

  function Backoff(attempt: nat): (r: real)
    ensures r >= 1.0
  {
    if attempt == 0 then 1.0 else 2.0 * Backoff(attempt - 1)
  }

  function RetryDelay(retryAfter: Option<real>, attempt: nat): real {
    if retryAfter.Some? then RealMin(MAX_RETRY_AFTER, RealMax(0.0, retryAfter.value)) else Backoff(attempt)
  }

  /** How a request ends: what it returns, and what it tells the breaker. */
  datatype Ending = Got | GaveUp(recorded: Option<bool>) | LimitReached

  // What the surroundings make of a request that starts at `start`, attempt by attempt.

  /** When attempt `k` is told its slot, and when its call goes out. */
  function SlotAt(env: seq<Attempt>, start: real, deadline: real, k: nat): real
    requires k < |env|
    decreases k, 1
  {
    RealMax(StartOf(env, start, deadline, k) + env[k].lockStall, env[k].nextAt)
  }

  function CalledAt(env: seq<Attempt>, start: real, deadline: real, k: nat): real
    requires k < |env|
    decreases k, 2
  {
    var slot := SlotAt(env, start, deadline, k);
    if slot > StartOf(env, start, deadline, k) + env[k].lockStall then slot + env[k].slotLate else slot
  }

  function AnsweredAt(env: seq<Attempt>, start: real, deadline: real, k: nat): real
    requires k < |env|
    decreases k, 3
  {
    var called := CalledAt(env, start, deadline, k);
    called + RealMin(env[k].duration, RealMax(MIN_TIMEOUT, RealMin(PROVIDER_TIMEOUT, deadline - called)))
  }

  function StartOf(env: seq<Attempt>, start: real, deadline: real, k: nat): real
    requires k <= |env|
    decreases k, 0
  {
    if k == 0 then start
    else AnsweredAt(env, start, deadline, k - 1) + WaitAfter(env[k - 1].reply, k - 1) + env[k - 1].backoffLate
  }

  /** How long the request means to wait after a failed attempt. */
  function WaitAfter(reply: Reply, k: nat): real {
    match reply
    case HttpError(_, retryAfter) => RetryDelay(retryAfter, k)
    case _ => Backoff(k)
  }

  /** Another attempt is in order: a transport error or one of five statuses, and not the third. */
  predicate Repeats(reply: Reply, k: nat) {
    && k < 2
    && match reply
       case Payload => false
       case HttpError(code, _) => code == 429 || code == 500 || code == 502 || code == 503 || code == 504
       case TransportError => true
  }

  /** Attempt `k`, once begun, gets its slot before the deadline. */
  predicate GetsSlot(env: seq<Attempt>, start: real, deadline: real, k: nat)
    requires k < |env|
  {
    StartOf(env, start, deadline, k) < deadline && SlotAt(env, start, deadline, k) < deadline
  }

  predicate WaitFits(env: seq<Attempt>, start: real, deadline: real, k: nat)
    requires k < |env|
  {
    AnsweredAt(env, start, deadline, k) + WaitAfter(env[k].reply, k) < deadline
  }

  predicate GoesOn(env: seq<Attempt>, start: real, deadline: real, k: nat)
    requires k < |env|
  {
    GetsSlot(env, start, deadline, k) && Repeats(env[k].reply, k) && WaitFits(env, start, deadline, k)
  }

  predicate Begun(env: seq<Attempt>, start: real, deadline: real, k: nat)
    requires k < |env|
  {
    forall j :: 0 <= j < k ==> GoesOn(env, start, deadline, j)
  }

  /** Attempt `k` is made: every attempt before it failed for now, and every slot and wait up to it fit. */
  predicate Made(env: seq<Attempt>, start: real, deadline: real, k: nat)
    requires k < |env|
  {
    Begun(env, start, deadline, k) && GetsSlot(env, start, deadline, k)
  }

  /** The attempt ends the request without a payload, and this is what the breaker hears. */
  predicate IsFinal(reply: Reply, k: nat, recorded: Option<bool>) {
    match reply
    case Payload => false
    case HttpError(code, _) =>
      !Repeats(reply, k) && recorded == if code == 429 then None else Some(code < 500)
    case TransportError => k == 2 && recorded == Some(false)
  }

  /** The job's limits stop the request at attempt `k`: no slot, or no time for the wait after it. */
  predicate Stopped(env: seq<Attempt>, start: real, deadline: real, k: nat)
    requires k < |env|
  {
    && Begun(env, start, deadline, k)
    && (GetsSlot(env, start, deadline, k) ==>
          Repeats(env[k].reply, k) && !WaitFits(env, start, deadline, k))
  }

  /** The first `n` attempts are those that are made. */
  ghost predicate MadeAre(env: seq<Attempt>, start: real, deadline: real, n: int)
    requires |env| == ATTEMPTS
  {
    forall k :: 0 <= k < ATTEMPTS ==> (k < n <==> Made(env, start, deadline, k))
  }

  /** What each ending says about the attempts, in both directions. */
  ghost predicate EndsAs(env: seq<Attempt>, start: real, deadline: real, ending: Ending)
    requires |env| == ATTEMPTS
  {
    && (ending == Got <==>
          exists k :: 0 <= k < ATTEMPTS && Made(env, start, deadline, k) && env[k].reply == Payload)
    && (forall ok :: ending == GaveUp(ok) <==>
          exists k :: 0 <= k < ATTEMPTS && Made(env, start, deadline, k) && IsFinal(env[k].reply, k, ok))
    && (ending == LimitReached <==>
          exists k :: 0 <= k < ATTEMPTS && Stopped(env, start, deadline, k))
  }

  lemma OneAttemptDecides(env: seq<Attempt>, start: real, deadline: real, i: nat)
    requires |env| == ATTEMPTS && i < ATTEMPTS
    requires Begun(env, start, deadline, i) && !GoesOn(env, start, deadline, i)
    ensures forall k :: 0 <= k < ATTEMPTS ==>
              (Made(env, start, deadline, k) <==> k < i || (k == i && GetsSlot(env, start, deadline, i)))
    ensures forall k :: 0 <= k < i ==> Repeats(env[k].reply, k)
    ensures forall k :: 0 <= k < ATTEMPTS && Stopped(env, start, deadline, k) ==> k == i
  {
    assert forall j :: 0 <= j < i ==> GoesOn(env, start, deadline, j);
    forall k | 0 <= k < ATTEMPTS
      ensures Made(env, start, deadline, k) <==> k < i || (k == i && GetsSlot(env, start, deadline, i))
      ensures k < i ==> Repeats(env[k].reply, k)
      ensures Stopped(env, start, deadline, k) ==> k == i
    {
      if k < i {
        assert GoesOn(env, start, deadline, k);
      }
    }
  }

  /** How attempt `i` ends the request, if it does not go on. */
  function EndingOf(env: seq<Attempt>, start: real, deadline: real, i: nat): Ending
    requires i < |env|
  {
    if !GetsSlot(env, start, deadline, i) then LimitReached
    else
      match env[i].reply
      case Payload => Got
      case HttpError(code, _) =>
        if Repeats(env[i].reply, i) then LimitReached
        else GaveUp(if code == 429 then None else Some(code < 500))
      case TransportError => if i == 2 then GaveUp(Some(false)) else LimitReached
  }

  lemma EndingIsExact(env: seq<Attempt>, start: real, deadline: real, i: nat)
    requires |env| == ATTEMPTS && i < ATTEMPTS
    requires Begun(env, start, deadline, i) && !GoesOn(env, start, deadline, i)
    ensures EndsAs(env, start, deadline, EndingOf(env, start, deadline, i))
    ensures MadeAre(env, start, deadline, if GetsSlot(env, start, deadline, i) then i + 1 else i)
  {
    OneAttemptDecides(env, start, deadline, i);
    var ending := EndingOf(env, start, deadline, i);
    if ending == LimitReached {
      assert Stopped(env, start, deadline, i);
    } else {
      assert Made(env, start, deadline, i);
    }
  }

  /** Slots and calls follow one another, and while they fit, the answer comes at most the slack and a millisecond late. */
  lemma AttemptTiming(env: seq<Attempt>, start: real, deadline: real, k: nat, slack: real)
    requires k < |env| && slack >= 0.0 && Bounded(env[k], slack)
    ensures StartOf(env, start, deadline, k) <= SlotAt(env, start, deadline, k)
    ensures SlotAt(env, start, deadline, k) <= CalledAt(env, start, deadline, k)
    ensures CalledAt(env, start, deadline, k) <= AnsweredAt(env, start, deadline, k)
    ensures GetsSlot(env, start, deadline, k) ==> AnsweredAt(env, start, deadline, k) <= deadline + slack + MIN_TIMEOUT
    ensures WaitAfter(env[k].reply, k) >= 0.0
    ensures StartOf(env, start, deadline, k + 1) >= SlotAt(env, start, deadline, k) + WaitAfter(env[k].reply, k)
    ensures WaitFits(env, start, deadline, k) ==> StartOf(env, start, deadline, k + 1) < deadline + slack
  {
  }

  /** The breaker's counts after a request: cleared, one more, or as they were. */
  function Told(failures: map<string, nat>, ended: Option<Ending>): map<string, nat> {
    match ended
    case Some(Got) => failures["crossref" := 0]
    case Some(GaveUp(Some(true))) => failures["crossref" := 0]
    case Some(GaveUp(Some(false))) =>
      failures["crossref" := (if "crossref" in failures then failures["crossref"] else 0) + 1]
    case _ => failures
  }

  /** A call runs its course if that takes fifteen seconds at most and ends by the deadline; it is cut off at the earlier of the two, a millisecond in at the soonest. */
  lemma CallsLast(env: seq<Attempt>, start: real, deadline: real, k: nat)
    requires k < |env| && env[k].duration >= 0.0
    ensures var called, answered := CalledAt(env, start, deadline, k), AnsweredAt(env, start, deadline, k);
            && answered <= called + 15.0 && (answered <= deadline || answered <= called + 0.001)
            && (env[k].duration <= 15.0 && called + env[k].duration <= deadline ==> answered == called + env[k].duration)
            && (answered < called + env[k].duration ==>
                  answered == called + 15.0 || answered == deadline || answered == called + 0.001)
  {
  }

  /** A payload on the first attempt is taken whenever its slot fits the deadline. */
  lemma FirstPayloadIsTaken(env: seq<Attempt>, start: real, deadline: real, ending: Ending)
    requires |env| == ATTEMPTS && EndsAs(env, start, deadline, ending)
    requires start < deadline && RealMax(start + env[0].lockStall, env[0].nextAt) < deadline
    requires env[0].reply == Payload
    ensures ending == Got
  {
    assert Made(env, start, deadline, 0);
  }

  /** The waits in figures: one, two and four seconds, or what the server asked for, never more than ten. */
  lemma WaitsMean(reply: Reply, k: nat)
    requires k < ATTEMPTS
    ensures !reply.HttpError? || reply.retryAfter.None? ==>
              WaitAfter(reply, k) == if k == 0 then 1.0 else if k == 1 then 2.0 else 4.0
    ensures reply.HttpError? && reply.retryAfter.Some? ==>
              var asked := reply.retryAfter.value;
              WaitAfter(reply, k) == if asked < 0.0 then 0.0 else if asked > 10.0 then 10.0 else asked
  {
    assert Backoff(2) == 2.0 * Backoff(1) && Backoff(1) == 2.0 * Backoff(0);
  }

  predicate Succeeded(ending: Ending) {
    ending == Got || ending == GaveUp(Some(true))
  }

  predicate Broke(ending: Ending) {
    ending == GaveUp(Some(false))
  }

  function Breaks(endings: seq<Ending>): nat {
    if endings == [] then 0
    else Breaks(endings[..|endings| - 1]) + if Broke(endings[|endings| - 1]) then 1 else 0
  }

  function ToldAll(failures: map<string, nat>, endings: seq<Ending>): map<string, nat> {
    if endings == [] then failures
    else Told(ToldAll(failures, endings[..|endings| - 1]), Some(endings[|endings| - 1]))
  }

  /** The breaker's count is the failures since the last success; other endings do not touch it. */
  lemma {:induction false} StreakIsFailuresSinceSuccess(failures: map<string, nat>, before: seq<Ending>, rest: seq<Ending>)
    requires if before == [] then "crossref" !in failures else Succeeded(before[|before| - 1])
    requires forall k :: 0 <= k < |rest| ==> !Succeeded(rest[k])
    ensures var told := ToldAll(failures, before + rest);
            (if "crossref" in told then told["crossref"] else 0) == Breaks(rest)
    decreases |rest|
  {
    if rest == [] {
      assert before + rest == before;
    } else {
      var front := rest[..|rest| - 1];
      assert (before + rest)[..|before + rest| - 1] == before + front;
      StreakIsFailuresSinceSuccess(failures, before, front);
    }
  }

  ghost predicate SlotsAre(env: seq<Attempt>, start: real, deadline: real, slots: seq<real>) {
    |slots| <= |env| && forall k :: 0 <= k < |slots| ==> slots[k] == SlotAt(env, start, deadline, k)
  }

  /** The slots of attempts that are made lie before the deadline, each at least the wait meant after the one before. */
  lemma {:induction false} MadeSlotsFit(env: seq<Attempt>, start: real, deadline: real, n: nat, slack: real)
    requires |env| == ATTEMPTS && n <= ATTEMPTS && slack >= 0.0
    requires forall k :: 0 <= k < ATTEMPTS ==> Bounded(env[k], slack)
    requires forall k :: 0 <= k < n ==> Made(env, start, deadline, k)
    ensures forall k :: 0 <= k < n ==> start <= SlotAt(env, start, deadline, k) < deadline
    ensures forall k :: 0 <= k < n - 1 ==>
              SlotAt(env, start, deadline, k + 1) >= SlotAt(env, start, deadline, k) + WaitAfter(env[k].reply, k)
    decreases n
  {
    if n > 0 {
      MadeSlotsFit(env, start, deadline, n - 1, slack);
      AttemptTiming(env, start, deadline, n - 1, slack);
      assert Made(env, start, deadline, n - 1);
      if n > 1 {
        AttemptTiming(env, start, deadline, n - 2, slack);
      }
    }
  }

  class Client {
    var clock: real
    const pacer: Pacer
    const limits: JobLimits
    const interval: real

    constructor (pacer: Pacer, limits: JobLimits, interval: real, now: real)
      ensures this.pacer == pacer && this.limits == limits && this.interval == interval && clock == now
    {
      this.pacer, this.limits, this.interval, clock := pacer, limits, interval, now;
    }

    /** `_wait_for_crossref_rate_limit`: reserve the next slot and wait for it. */
    method TakeSlot(a: Attempt) returns (slot: Option<real>)
      requires a.slotLate >= 0.0
      modifies this`clock, pacer
      ensures var at := RealMax(old(clock) + a.lockStall, a.nextAt);
              if at >= limits.deadline then slot == None && clock == old(clock) + a.lockStall
              else slot == Some(at) && clock == if at > old(clock) + a.lockStall then at + a.slotLate else at
    {
      clock := clock + a.lockStall;
      pacer.nextRequestAt := a.nextAt;
      slot := pacer.Reserve(Caller(clock, clock, Some(limits.deadline)), interval);
      if slot.Some? && slot.value > clock {
        clock := slot.value + a.slotLate;
      }
    }

    /** What a reply comes to: the end of the request, told to the breaker, or the wait before the next attempt. */
    method Take(reply: Reply, k: nat) returns (ended: Option<Ending>, delay: real)
      requires k < ATTEMPTS
      modifies limits
      ensures ended.None? <==> Repeats(reply, k)
      ensures ended.None? ==> delay == WaitAfter(reply, k)
      ensures ended.Some? && reply == Payload ==> ended.value == Got
      ensures ended.Some? && reply != Payload ==> ended.value.GaveUp? && IsFinal(reply, k, ended.value.recorded)
      ensures limits.failures == Told(old(limits.failures), ended)
    {
      ended, delay := None, 0.0;
      match reply {
        case Payload =>
          limits.Record("crossref", Some(true));
          ended := Some(Got);
        case HttpError(code, retryAfter) =>
          if !Retryable(code) || k == 2 {
            var ok := if code == 429 then None else Some(code < 500);
            limits.Record("crossref", ok);
            ended := Some(GaveUp(ok));
          } else {
            delay := RetryDelay(retryAfter, k);
          }
        case TransportError =>
          if k == 2 {
            limits.Record("crossref", Some(false));
            ended := Some(GaveUp(Some(false)));
          } else {
            delay := Backoff(k);
          }
      }
    }

    /** One attempt: check, slot, call, and the wait before the next. Nothing is returned when it goes on. */
    method Try(env: seq<Attempt>, k: nat, ghost start: real, ghost slack: real)
      returns (ended: Option<Ending>, slot: Option<real>)
      requires |env| == ATTEMPTS && k < ATTEMPTS && slack >= 0.0 && Bounded(env[k], slack)
      requires clock == StartOf(env, start, limits.deadline, k)
      modifies this, pacer, limits
      ensures old(clock) <= clock
      ensures ended.None? <==> old(limits.Allows("crossref", clock)) && GoesOn(env, start, limits.deadline, k)
      ensures ended.None? ==> clock == StartOf(env, start, limits.deadline, k + 1)
      ensures ended.Some? ==> clock <= RealMax(old(clock), limits.deadline + slack + MIN_TIMEOUT)
      ensures ended.Some? && old(limits.Allows("crossref", clock)) ==>
                ended.value == EndingOf(env, start, limits.deadline, k)
      ensures !old(limits.Allows("crossref", clock)) ==> ended == Some(LimitReached) && clock == old(clock)
      ensures slot == if old(limits.Allows("crossref", clock)) && GetsSlot(env, start, limits.deadline, k)
                      then Some(SlotAt(env, start, limits.deadline, k)) else None
      ensures limits.failures == Told(old(limits.failures), ended)
    {
      AttemptTiming(env, start, limits.deadline, k, slack);
      slot := None;
      if !limits.Allows("crossref", clock) {
        return Some(LimitReached), None;
      }
      slot := TakeSlot(env[k]);
      if slot.None? {
        return Some(LimitReached), None;
      }
      clock := clock + RealMin(env[k].duration, limits.Timeout(PROVIDER_TIMEOUT, clock));
      var delay;
      ended, delay := Take(env[k].reply, k);
      if ended.None? {
        if !limits.Fits(delay, clock) {
          return Some(LimitReached), slot;
        }
        clock := clock + delay + env[k].backoffLate;
      }
    }

    /** The retry loop; `last` is the attempt that ends it. */
    method Attempts(env: seq<Attempt>, ghost slack: real)
      returns (ending: Ending, slots: seq<real>, ghost last: nat)
      requires |env| == ATTEMPTS && slack >= 0.0
      requires forall k :: 0 <= k < ATTEMPTS ==> Bounded(env[k], slack)
      modifies this, pacer, limits
      ensures old(clock) <= clock <= RealMax(old(clock), limits.deadline + slack + MIN_TIMEOUT)
      ensures !old(limits.Allows("crossref", clock)) ==> ending == LimitReached && slots == [] && clock == old(clock)
      ensures old(limits.Allows("crossref", clock)) ==>
                && last < ATTEMPTS && Begun(env, old(clock), limits.deadline, last)
                && !GoesOn(env, old(clock), limits.deadline, last)
                && ending == EndingOf(env, old(clock), limits.deadline, last)
                && |slots| == last + if GetsSlot(env, old(clock), limits.deadline, last) then 1 else 0
      ensures SlotsAre(env, old(clock), limits.deadline, slots)
      ensures limits.failures == Told(old(limits.failures), Some(ending))
    {
      slots, last := [], 0;
      var attempt := 0;
      ghost var start, deadline := clock, limits.deadline;
      while attempt < ATTEMPTS
        invariant 0 <= attempt < ATTEMPTS && |slots| == attempt
        invariant start <= clock == StartOf(env, start, deadline, attempt)
        invariant Begun(env, start, deadline, attempt)
        invariant attempt > 0 ==> old(limits.Allows("crossref", clock)) && clock < deadline + slack
        invariant SlotsAre(env, start, deadline, slots)
        invariant limits.failures == old(limits.failures)
      {
        AttemptTiming(env, start, deadline, attempt, slack);
        var ended, slot := Try(env, attempt, start, slack);
        if slot.Some? {
          slots := slots + [slot.value];
        }
        if ended.Some? {
          return ended.value, slots, attempt;
        }
        attempt := attempt + 1;
      }
      assert false;
    }

    /**
     `_crossref_request`. If every sleep and lock returns within `slack` of what was
     asked and every call respects its timeout, the request is over by the deadline
     plus that slack plus one millisecond, or at once when it starts too late; every
     slot it took lies before the deadline; and an open breaker means no call at all.
     */
    method Request(env: seq<Attempt>, ghost slack: real) returns (ending: Ending, slots: seq<real>)
      requires |env| == ATTEMPTS && slack >= 0.0
      requires forall k :: 0 <= k < ATTEMPTS ==> Bounded(env[k], slack)
      modifies this, pacer, limits
      ensures clock >= old(clock)
      ensures clock <= RealMax(old(clock), limits.deadline + slack + MIN_TIMEOUT)
      ensures |slots| <= ATTEMPTS
      ensures !old(limits.Allows("crossref", clock)) ==> ending == LimitReached && slots == [] && clock == old(clock)
      ensures old(limits.Allows("crossref", clock)) ==>
                && MadeAre(env, old(clock), limits.deadline, |slots|)
                && EndsAs(env, old(clock), limits.deadline, ending)
      ensures forall k :: 0 <= k < |slots| ==> slots[k] == SlotAt(env, old(clock), limits.deadline, k)
      ensures forall k :: 0 <= k < |slots| ==> old(clock) <= slots[k] < limits.deadline
      ensures forall k :: 0 <= k < |slots| - 1 ==> slots[k + 1] >= slots[k] + WaitAfter(env[k].reply, k)
      ensures limits.failures ==
              match ending
              case Got => old(limits.failures)["crossref" := 0]
              case GaveUp(Some(ok)) => old(limits.failures)["crossref" := if ok then 0 else old(limits.Streak("crossref")) + 1]
              case _ => old(limits.failures)
    {
      ghost var last;
      ghost var start, deadline, allowed := clock, limits.deadline, limits.Allows("crossref", clock);
      ending, slots, last := Attempts(env, slack);
      if allowed {
        EndingIsExact(env, start, deadline, last);
        MadeSlotsFit(env, start, deadline, |slots|, slack);
      }
    }
  }
}
