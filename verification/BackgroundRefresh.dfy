/** The background refresh task in time: a ticker, requested wake-ups, and the
    backoff after failures. Times are nanoseconds; attempts take none. */
module BackgroundRefresh {
  import opened Wrappers
  import opened Retry

  const MIN_REFRESH_INTERVAL: Duration := 5 * NANOS_PER_SECOND
  const REFRESH_RETRY_BASE_DELAY: Duration := NANOS_PER_SECOND
  const REFRESH_RETRY_MAX_DELAY: Duration := 30 * NANOS_PER_SECOND
  const HALF_SECOND: nat := 500000000

  type Seconds = n: nat | n <= U64_MAX

  function Max(a: nat, b: nat): nat {
    if a < b then b else a
  }

  /** The healthy cadence for a token that lives `expiresIn` seconds. */
  function RefreshInterval(expiresIn: Seconds): Duration {
    var doubled := if expiresIn * 2 <= U64_MAX then expiresIn * 2 else U64_MAX;
    var floored := Max(doubled / 3 * NANOS_PER_SECOND, MIN_REFRESH_INTERVAL);
    var ceiling := Max(expiresIn - (if expiresIn == 0 then 0 else 1), 1) * NANOS_PER_SECOND;
    if floored < ceiling then floored else ceiling
  }

  function RefreshTickPeriod(interval: Duration): Duration {
    Max(interval, NANOS_PER_SECOND)
  }

  function RetryBackoff(attempt: nat): Duration {
    DelayCeiling(REFRESH_RETRY_BASE_DELAY, REFRESH_RETRY_MAX_DELAY, attempt)
  }

  /** Drawn from the upper half of the ceiling. */
  function JitteredRetryBackoff(attempt: nat, draw: Numerator): Duration {
    var ceiling := RetryBackoff(attempt);
    var lowerHalf := ceiling / 2;
    lowerHalf + FullJitter(ceiling - lowerHalf, draw)
  }

  /** The next refresh lands before the token expires exactly when it lives at
      least two seconds; the ticker never has to lengthen the interval. */
  lemma IntervalBeforeExpiry(expiresIn: Seconds)
    ensures RefreshInterval(expiresIn) < expiresIn * NANOS_PER_SECOND <==> expiresIn >= 2
    ensures RefreshInterval(expiresIn) >= NANOS_PER_SECOND
    ensures RefreshTickPeriod(RefreshInterval(expiresIn)) == RefreshInterval(expiresIn)
  {
  }

  /** The interval is two thirds of the lifetime in whole seconds, rounded down,
      where that is five seconds or more, so that a third of the life is left;
      short lives get the floor of five seconds or all but their last second. */
  lemma IntervalIsTwoThirds(expiresIn: Seconds)
    ensures var interval := RefreshInterval(expiresIn);
            && (8 <= expiresIn && 2 * expiresIn <= U64_MAX ==>
                  3 * interval <= 2 * (expiresIn * 1000000000) < 3 * (interval + 1000000000))
            && (2 * expiresIn > U64_MAX ==> interval == U64_MAX / 3 * 1000000000)
            && (6 <= expiresIn <= 7 ==> interval == 5000000000)
            && (2 <= expiresIn <= 5 ==> interval == (expiresIn - 1) * 1000000000)
            && (expiresIn <= 1 ==> interval == 1000000000)
            && interval % 1000000000 == 0
  {
    if expiresIn >= 8 {
      var doubled := if expiresIn * 2 <= U64_MAX then expiresIn * 2 else U64_MAX;
      assert 5 <= doubled / 3 <= expiresIn - 1;
    }
  }

  /** The ticker's period is the interval asked for, but never below a second. */
  lemma TickPeriodIsAtLeastASecond(interval: Duration)
    ensures RefreshTickPeriod(interval) == if interval >= 1000000000 then interval else 1000000000
  {
  }

  /** 1 s, 2 s, 4 s, 8 s, 16 s, then 30 s. */
  lemma BackoffSchedule(attempt: nat)
    ensures RetryBackoff(attempt) == 1000000000 * Min(Pow2(attempt), 30)
    ensures RetryBackoff(attempt) == Min(NANOS_PER_SECOND * Pow2(attempt), REFRESH_RETRY_MAX_DELAY)
    ensures NANOS_PER_SECOND <= RetryBackoff(attempt) <= REFRESH_RETRY_MAX_DELAY
  {
    DocumentedCeiling(REFRESH_RETRY_BASE_DELAY, REFRESH_RETRY_MAX_DELAY, attempt);
  }

  lemma JitterKeepsUpperHalf(attempt: nat, draw: Numerator)
    ensures RetryBackoff(attempt) / 2 <= JitteredRetryBackoff(attempt, draw) <= RetryBackoff(attempt)
    ensures HALF_SECOND <= JitteredRetryBackoff(attempt, draw) <= REFRESH_RETRY_MAX_DELAY
  {
    BackoffSchedule(attempt);
    var ceiling := RetryBackoff(attempt);
    JitterIsScaling(ceiling - ceiling / 2, draw);
  }

  /** The numerators that make a jittered backoff last `value`. */
  function BackoffDraws(attempt: nat, value: nat): set<nat> {
    set x: nat | x < JITTER_RANGE && JitteredRetryBackoff(attempt, x) == value
  }

  /** Over the upper half of the ceiling the backoff is as uniform as integers allow. */
  lemma BackoffIsUniform(attempt: nat, value: nat)
    ensures var ceiling := RetryBackoff(attempt);
            var width := ceiling - ceiling / 2 + 1;
            if ceiling / 2 <= value <= ceiling
            then JITTER_RANGE / width <= |BackoffDraws(attempt, value)| <= CeilDiv(JITTER_RANGE, width)
            else BackoffDraws(attempt, value) == {}
  {
    var ceiling := RetryBackoff(attempt);
    BackoffSchedule(attempt);
    if value >= ceiling / 2 {
      JitterIsUniform(ceiling - ceiling / 2, value - ceiling / 2);
      assert BackoffDraws(attempt, value) == Draws(ceiling - ceiling / 2, value - ceiling / 2);
    }
  }

  // ---- the task ------------------------------------------------------------

  /** `expiresIn` is the lifetime of the cached token, fetched at `fetchedAt`. */
  datatype State = State(now: nat, nextTick: nat, failures: nat, fetchedAt: nat, expiresIn: Seconds)

  /** Either time passes, or the task wakes (on its timer or because a caller
      asked) and its attempt yields a token of some lifetime, or fails. */
  datatype Event =
    | Pass(at: nat)
    | Attempt(at: nat, byTimer: bool, lifetime: Option<Seconds>, draw: Numerator)
  {
    predicate Succeeds() {
      Attempt? && lifetime.Some?
    }

    predicate Fails() {
      Attempt? && lifetime.None?
    }
  }

  predicate Legal(s: State, e: Event) {
    s.now <= e.at <= s.nextTick && (e.Attempt? && e.byTimer ==> e.at == s.nextTick)
  }

  function Apply(s: State, e: Event): State {
    match e
    case Pass(at) => s.(now := at)
    case Attempt(at, _, lifetime, draw) =>
      if lifetime.Some? then State(at, at + RefreshInterval(lifetime.value), 0, at, lifetime.value)
      else
        var retryIn := JitteredRetryBackoff(s.failures, draw);
        s.(now := at, nextTick := at + retryIn, failures := Min(s.failures + 1, U32_MAX))
  }

  predicate LegalRun(s: State, events: seq<Event>)
    decreases |events|
  {
    events == [] || (Legal(s, events[0]) && LegalRun(Apply(s, events[0]), events[1..]))
  }

  function After(s: State, events: seq<Event>): State
    decreases |events|
  {
    if events == [] then s else After(Apply(s, events[0]), events[1..])
  }

  /** The task as spawned at `now` for a token fetched at `fetchedAt`. */
  function Spawned(now: nat, fetchedAt: nat, expiresIn: Seconds, interval: Duration): State {
    State(now, now + RefreshTickPeriod(interval), 0, fetchedAt, expiresIn)
  }

  class RefreshTask {
    var now: nat
    var nextTick: nat
    var consecutiveFailures: nat
    var fetchedAt: nat
    var expiresIn: Seconds

    constructor (now: nat, fetchedAt: nat, expiresIn: Seconds, interval: Duration)
      ensures View() == Spawned(now, fetchedAt, expiresIn, interval)
    {
      this.now, this.fetchedAt, this.expiresIn := now, fetchedAt, expiresIn;
      this.nextTick, this.consecutiveFailures := now + RefreshTickPeriod(interval), 0;
    }

    function View(): State
      reads this
    {
      State(now, nextTick, consecutiveFailures, fetchedAt, expiresIn)
    }

    /** The loop of the task, over whatever wakes it. */
    method Loop(events: seq<Event>)
      requires LegalRun(View(), events)
      modifies this
      ensures View() == After(old(View()), events)
    {
      var i := 0;
      while i < |events|
        invariant 0 <= i <= |events|
        invariant LegalRun(View(), events[i..])
        invariant After(View(), events[i..]) == After(old(View()), events)
      {
        var event := events[i];
        assert events[i..][0] == event && events[i..][1..] == events[i + 1..];
        now := event.at;
        if event.Attempt? {
          match event.lifetime {
            case Some(lifetime) =>
              fetchedAt, expiresIn := now, lifetime;
              consecutiveFailures := 0;
              nextTick := now + RefreshInterval(expiresIn);
            case None =>
              var retryIn := JitteredRetryBackoff(consecutiveFailures, event.draw);
              consecutiveFailures := if consecutiveFailures < U32_MAX then consecutiveFailures + 1 else U32_MAX;
              nextTick := now + retryIn;
          }
        }
        i := i + 1;
      }
      assert events[i..] == [];
    }
  }

  // ---- recovery ------------------------------------------------------------

  /** When the token cached in a state expires. */
  function Expiry(s: State): nat {
    s.fetchedAt + s.expiresIn * NANOS_PER_SECOND
  }

  /** The token is good, and the next attempt is due before it expires. */
  predicate Fresh(s: State) {
    s.fetchedAt <= s.now <= s.nextTick < Expiry(s)
  }

  /** Every token lives two seconds or more, and every failing attempt still has
      more than the longest backoff before the token then cached expires. */
  predicate FailuresAreEarly(s: State, events: seq<Event>)
    decreases |events|
  {
    events == [] || (
      && (events[0].Succeeds() ==> events[0].lifetime.value >= 2)
      && (events[0].Fails() ==> events[0].at + REFRESH_RETRY_MAX_DELAY < Expiry(s))
      && FailuresAreEarly(Apply(s, events[0]), events[1..]))
  }

  /** Then no token ever expires in the cache: over any number of tokens and
      outages, for every failure pattern, draw and requested wake-up. */
  lemma {:induction false} NeverExpires(s: State, events: seq<Event>)
    requires Fresh(s) && LegalRun(s, events) && FailuresAreEarly(s, events)
    ensures Fresh(After(s, events))
    decreases |events|
  {
    if events != [] {
      var e := events[0];
      if e.Succeeds() { IntervalBeforeExpiry(e.lifetime.value); }
      if e.Attempt? { JitterKeepsUpperHalf(s.failures, e.draw); }
      NeverExpires(Apply(s, e), events[1..]);
    }
  }

  /** A run that lasts until the cached token's expiry has replaced it before. */
  lemma {:induction false} RenewedBeforeExpiry(s: State, events: seq<Event>) returns (i: nat)
    requires Fresh(s) && LegalRun(s, events) && FailuresAreEarly(s, events)
    requires After(s, events).now >= Expiry(s)
    ensures i < |events| && events[i].Succeeds() && s.now <= events[i].at < Expiry(s)
    decreases |events|
  {
    NeverExpires(s, []);
    var e := events[0];
    if e.Succeeds() { return 0; }
    if e.Attempt? { JitterKeepsUpperHalf(s.failures, e.draw); }
    i := RenewedBeforeExpiry(Apply(s, e), events[1..]);
    i := i + 1;
  }

  /** A task spawned within a second of its token starts out so exactly when the
      token lives two seconds or more. */
  lemma SpawnedIsFresh(now: nat, fetchedAt: nat, expiresIn: Seconds)
    requires fetchedAt <= now < fetchedAt + NANOS_PER_SECOND
    ensures Fresh(Spawned(now, fetchedAt, expiresIn, RefreshInterval(expiresIn))) <==> expiresIn >= 2
  {
    IntervalBeforeExpiry(expiresIn);
  }

  /** With tokens of one lifetime it is enough that no attempt fails from
      `recovery` on, more than the longest backoff before the first expiry. */
  lemma {:induction false} OneOutage(s: State, events: seq<Event>, recovery: nat)
    requires s.fetchedAt <= s.now && LegalRun(s, events)
    requires s.expiresIn >= 2 && recovery + REFRESH_RETRY_MAX_DELAY <= Expiry(s)
    requires forall i :: 0 <= i < |events| ==>
               && (events[i].Succeeds() ==> events[i].lifetime == Some(s.expiresIn))
               && (events[i].Fails() ==> events[i].at < recovery)
    ensures FailuresAreEarly(s, events)
    decreases |events|
  {
    if events != [] {
      var e, rest := events[0], events[1..];
      assert forall i :: 0 <= i < |rest| ==> rest[i] == events[i + 1];
      OneOutage(Apply(s, e), rest, recovery);
    }
  }

  /** How many attempts have failed since the last success, `before` of them
      before the first event. */
  function FailuresInARow(before: nat, events: seq<Event>): nat {
    if events == [] then before
    else
      var last := events[|events| - 1];
      if last.Succeeds() then 0
      else FailuresInARow(before, events[..|events| - 1]) + (if last.Fails() then 1 else 0)
  }

  lemma {:induction false} AfterAppend(s: State, events: seq<Event>, last: Event)
    ensures After(s, events + [last]) == Apply(After(s, events), last)
    decreases |events|
  {
    if events == [] {
      assert [] + [last] == [last] && [last][1..] == [];
    } else {
      assert (events + [last])[1..] == events[1..] + [last];
      AfterAppend(Apply(s, events[0]), events[1..], last);
    }
  }

  lemma {:induction false} FailuresCounted(s: State, events: seq<Event>)
    requires s.failures <= U32_MAX
    ensures After(s, events).failures == Min(FailuresInARow(s.failures, events), U32_MAX)
    decreases |events|
  {
    if events != [] {
      var n := |events| - 1;
      FailuresCounted(s, events[..n]);
      assert events == events[..n] + [events[n]];
      AfterAppend(s, events[..n], events[n]);
    }
  }

  /** After a success the next tick is an interval of the new token away; after a
      failure that follows `n` in a row it is between half and all of 2^n seconds
      away, or of 30 where that is less. */
  lemma NextTickIsDue(s: State, events: seq<Event>, last: Event)
    requires s.failures <= U32_MAX && last.Attempt?
    ensures var t := After(s, events + [last]);
            if last.Succeeds()
            then t.nextTick == last.at + RefreshInterval(last.lifetime.value) && t.failures == 0
            else
              var ceiling := 1000000000 * Min(Pow2(FailuresInARow(s.failures, events)), 30);
              last.at + ceiling / 2 <= t.nextTick <= last.at + ceiling
  {
    AfterAppend(s, events, last);
    FailuresCounted(s, events);
    var n := FailuresInARow(s.failures, events);
    if last.Fails() {
      JitterKeepsUpperHalf(Min(n, U32_MAX), last.draw);
      BackoffSchedule(Min(n, U32_MAX));
      if n > U32_MAX {
        assert Pow2(5) == 32;
        Pow2Monotone(5, U32_MAX);
        Pow2Monotone(5, n);
      }
    }
  }

  function TimerAttempts(events: seq<Event>): nat {
    if events == [] then 0
    else (if events[0].Attempt? && events[0].byTimer then 1 else 0) + TimerAttempts(events[1..])
  }

  /** Attempts made on the timer are at least half a second apart, so only
      finitely many fall in any outage. `since` is when the timer was last set. */
  lemma {:induction false} TimerAttemptsAreSpaced(s: State, events: seq<Event>, since: nat)
    requires LegalRun(s, events)
    requires since <= s.now && since + HALF_SECOND <= s.nextTick
    ensures since + TimerAttempts(events) * HALF_SECOND <= After(s, events).now
    decreases |events|
  {
    if events != [] {
      var e := events[0];
      if e.Succeeds() { IntervalBeforeExpiry(e.lifetime.value); }
      if e.Attempt? { JitterKeepsUpperHalf(s.failures, e.draw); }
      TimerAttemptsAreSpaced(Apply(s, e), events[1..], if e.Attempt? then e.at else since);
    }
  }

  /** Time is never stuck: the task can always wait for its tick and attempt then,
      or be woken and attempt at any time before. */
  lemma TickIsLegal(s: State, lifetime: Option<Seconds>, draw: Numerator)
    requires s.now <= s.nextTick
    ensures forall at :: s.now <= at <= s.nextTick ==> Legal(s, Attempt(at, false, lifetime, draw))
    ensures LegalRun(s, [Pass(s.nextTick), Attempt(s.nextTick, true, lifetime, draw)])
  {
    var tick := Attempt(s.nextTick, true, lifetime, draw);
    assert [Pass(s.nextTick), tick][1..] == [tick];
    assert [tick][1..] == [];
    var t := Apply(s, Pass(s.nextTick));
    assert LegalRun(Apply(t, tick), []);
    assert LegalRun(t, [tick]);
  }
}
