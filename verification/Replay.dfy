/** One RPC with its refresh-and-replay, and the retry loop around it. */
module Replay {
  import opened Wrappers
  import opened Retry

  datatype Code = Aborted | Unavailable | Unauthenticated | OtherCode(number: int)

  /** An upstream status, or an error that carries none. */
  datatype Error = Upstream(code: Code) | Local(kind: int)

  type Outcome = Result<int, Error>

  /** How many RPCs and token refreshes a client has issued. */
  datatype Count = Count(rpcs: nat, refreshes: nat)

  datatype RetryPolicy = RetryPolicy(
    maxAttempts: nat, baseDelay: Duration, maxDelay: Duration, retryUnavailable: bool)
  {
    function Attempts(): nat {
      if maxAttempts == 0 then 1 else maxAttempts
    }

    predicate ShouldRetry(e: Error) {
      e == Upstream(Aborted) || (retryUnavailable && e == Upstream(Unavailable))
    }

    /** An outcome to try again after, attempts permitting. */
    predicate TriesAgain(r: Outcome) {
      r.Err? && ShouldRetry(r.error)
    }

    /** ABORTED is tried again always, UNAVAILABLE by choice, and nothing else;
        a limit of zero attempts means one. */
    lemma WhatIsTriedAgain(r: Outcome)
      ensures TriesAgain(Err(Upstream(Aborted)))
      ensures TriesAgain(Err(Upstream(Unavailable))) <==> retryUnavailable
      ensures TriesAgain(r) ==> r == Err(Upstream(Aborted)) || r == Err(Upstream(Unavailable))
      ensures Attempts() >= 1 && (maxAttempts >= 1 ==> Attempts() == maxAttempts)
      ensures maxAttempts == 0 ==> Attempts() == 1
    {
    }

    function Ceiling(retry: nat): Duration {
      DelayCeiling(baseDelay, maxDelay, retry)
    }

    /** The delays before the first `n` retries, for given jitter draws. */
    function Delays(draws: nat -> Numerator, n: nat): seq<Duration> {
      if n == 0 then [] else Delays(draws, n - 1) + [FullJitter(Ceiling(n - 1), draws(n - 1))]
    }

    function Ceilings(n: nat): seq<Duration> {
      if n == 0 then [] else Ceilings(n - 1) + [Ceiling(n - 1)]
    }
  }

  function Total(delays: seq<Duration>): nat {
    if delays == [] then 0 else Total(delays[..|delays| - 1]) + delays[|delays| - 1]
  }

  lemma DelayUnderCeiling(p: RetryPolicy, draw: Numerator, retry: nat)
    ensures FullJitter(p.Ceiling(retry), draw) <= p.Ceiling(retry) <= p.maxDelay
  {
    JitterIsScaling(p.Ceiling(retry), draw);
  }

  lemma TotalAppend(delays: seq<Duration>, last: Duration)
    ensures Total(delays + [last]) == Total(delays) + last
  {
    assert (delays + [last])[..|delays|] == delays;
  }

  /** The delay before each retry is drawn under that retry's own ceiling. */
  lemma {:induction false} DelayAt(p: RetryPolicy, draws: nat -> Numerator, n: nat, i: nat)
    requires i < n
    ensures |p.Delays(draws, n)| == n
    ensures p.Delays(draws, n)[i] == FullJitter(DelayCeiling(p.baseDelay, p.maxDelay, i), draws(i))
    ensures p.Delays(draws, n)[i] <= Min(p.baseDelay * Min(Pow2(i), 4294967295), p.maxDelay)
  {
    if i < n - 1 {
      DelayAt(p, draws, n - 1, i);
    } else {
      SleepIsBounded(p, draws, n - 1);
      DelayUnderCeiling(p, draws(i), i);
      CeilingFormula(p.baseDelay, p.maxDelay, i);
    }
  }

  /** All the sleeping of `n` retries stays under the sum of their ceilings. */
  lemma {:induction false} SleepIsBounded(p: RetryPolicy, draws: nat -> Numerator, n: nat)
    ensures |p.Delays(draws, n)| == |p.Ceilings(n)| == n
    ensures Total(p.Delays(draws, n)) <= Total(p.Ceilings(n)) <= n * p.maxDelay
  {
    if n != 0 {
      SleepIsBounded(p, draws, n - 1);
      DelayUnderCeiling(p, draws(n - 1), n - 1);
      var delay, ceiling := FullJitter(p.Ceiling(n - 1), draws(n - 1)), p.Ceiling(n - 1);
      TotalAppend(p.Delays(draws, n - 1), delay);
      TotalAppend(p.Ceilings(n - 1), ceiling);
      assert n * p.maxDelay == (n - 1) * p.maxDelay + p.maxDelay;
    }
  }

  /** A client and what happens to it: the n-th RPC ever issued has outcome
      `rpc(n)`, the n-th token refresh succeeds iff `refresh(n)`. */
  class Client {
    const authEnabled: bool
    const rpc: nat -> Outcome
    const refresh: nat -> bool
    var rpcs: nat
    var refreshes: nat
    var slept: seq<Duration>

    constructor (authEnabled: bool, rpc: nat -> Outcome, refresh: nat -> bool)
      ensures this.authEnabled == authEnabled && this.rpc == rpc && this.refresh == refresh
      ensures rpcs == 0 && refreshes == 0 && slept == []
    {
      this.authEnabled, this.rpc, this.refresh := authEnabled, rpc, refresh;
      rpcs, refreshes, slept := 0, 0, [];
    }

    method Attempt() returns (r: Outcome)
      modifies this`rpcs
      ensures r == rpc(old(rpcs)) && rpcs == old(rpcs) + 1
    {
      r := rpc(rpcs);
      rpcs := rpcs + 1;
    }

    method RefreshForReplay(e: Error) returns (replay: bool)
      modifies this`refreshes
      ensures refreshes == old(refreshes) + (if e == Upstream(Unauthenticated) && authEnabled then 1 else 0)
      ensures replay == (e == Upstream(Unauthenticated) && authEnabled && refresh(old(refreshes)))
    {
      if e != Upstream(Unauthenticated) || !authEnabled {
        return false;
      }
      replay := refresh(refreshes);
      refreshes := refreshes + 1;
    }

    /** One RPC, and a second exactly when the first is refused as unauthenticated
        and the refresh succeeds; the answer is the last RPC's. */
    method AttemptWithReplay() returns (r: Outcome)
      modifies this`rpcs, this`refreshes
      ensures rpcs == old(rpcs) + 2 <==>
              && authEnabled && rpc(old(rpcs)) == Err(Upstream(Unauthenticated))
              && refresh(old(refreshes))
      ensures rpcs == old(rpcs) + 1 || rpcs == old(rpcs) + 2
      ensures refreshes == old(refreshes) + 1 <==> authEnabled && rpc(old(rpcs)) == Err(Upstream(Unauthenticated))
      ensures refreshes == old(refreshes) || refreshes == old(refreshes) + 1
      ensures Issued() == AttemptFrom(old(Issued()))
      ensures r == rpc(rpcs - 1)
    {
      r := Attempt();
      if r.Ok? || !authEnabled {
        return;
      }
      var replay := RefreshForReplay(r.error);
      if replay {
        r := Attempt();
      }
    }

    function Issued(): Count
      reads this
    {
      Count(rpcs, refreshes)
    }

    /** The counts after one more attempt: two RPCs exactly when the first is
        refused as unauthenticated and the refresh succeeds. */
    function AttemptFrom(c: Count): Count {
      var refused := authEnabled && rpc(c.rpcs) == Err(Upstream(Unauthenticated));
      Count(c.rpcs + (if refused && refresh(c.refreshes) then 2 else 1), c.refreshes + (if refused then 1 else 0))
    }

    function AttemptsFrom(c: Count, n: nat): Count {
      if n == 0 then c else AttemptFrom(AttemptsFrom(c, n - 1))
    }

    /** The outcome of the n-th of those attempts: that of its last RPC. */
    function OutcomeOf(c: Count, n: nat): Outcome {
      rpc(AttemptsFrom(c, n + 1).rpcs - 1)
    }

    /** The first `n` of those attempts each ended in an outcome to try again after. */
    ghost predicate Retryable(p: RetryPolicy, c: Count, n: nat) {
      forall i :: 0 <= i < n ==> p.TriesAgain(OutcomeOf(c, i))
    }

    lemma StillRetryable(p: RetryPolicy, c: Count, n: nat)
      requires Retryable(p, c, n) && p.TriesAgain(OutcomeOf(c, n))
      ensures Retryable(p, c, n + 1)
    {
    }

    /** A replay costs a refresh, and an attempt costs at most one of each. */
    lemma {:induction false} CountsAreBounded(c: Count, n: nat)
      ensures Bounded(c, AttemptsFrom(c, n), n)
    {
      if n != 0 {
        CountsAreBounded(c, n - 1);
      }
    }

    predicate Bounded(c: Count, d: Count, n: nat) {
      && c.rpcs + n <= d.rpcs <= c.rpcs + 2 * n
      && d.rpcs - c.rpcs - n <= d.refreshes - c.refreshes <= n
      && (!authEnabled ==> d == Count(c.rpcs + n, c.refreshes))
    }

    /** Attempt number `n` of a call that began with `start` issued. */
    method Try(ghost start: Count, ghost n: nat) returns (r: Outcome)
      requires Issued() == AttemptsFrom(start, n)
      modifies this`rpcs, this`refreshes
      ensures Issued() == AttemptsFrom(start, n + 1) && Bounded(start, Issued(), n + 1)
      ensures r == OutcomeOf(start, n)
    {
      r := AttemptWithReplay();
      CountsAreBounded(start, n + 1);
    }

    /** The wait before the given retry; `before` is what was slept earlier than that. */
    method BackOff(p: RetryPolicy, draws: nat -> Numerator, retry: nat, ghost before: seq<Duration>)
      requires slept == before + p.Delays(draws, retry)
      modifies this`slept
      ensures slept == before + p.Delays(draws, retry + 1)
    {
      slept := slept + [FullJitter(p.Ceiling(retry), draws(retry))];
    }

    /** Runs an RPC under a policy, with `calls` attempts in all. */
    method RetryCall(p: RetryPolicy, draws: nat -> Numerator) returns (r: Outcome, calls: nat)
      modifies this
      ensures 1 <= calls <= p.Attempts() && (calls == 1 || calls <= p.maxAttempts)
      ensures Issued() == AttemptsFrom(old(Issued()), calls) && Bounded(old(Issued()), Issued(), calls)
      ensures r == OutcomeOf(old(Issued()), calls - 1)
      ensures Retryable(p, old(Issued()), calls - 1)
      ensures p.TriesAgain(r) ==> calls == p.Attempts()
      ensures slept == old(slept) + p.Delays(draws, calls - 1)
    {
      ghost var start, earlier := Issued(), slept;
      var attempts := p.Attempts();
      var retry := 0;
      assert slept == earlier + p.Delays(draws, 0);
      while true
        invariant retry < attempts
        invariant Retryable(p, start, retry)
        invariant Issued() == AttemptsFrom(start, retry)
        invariant slept == earlier + p.Delays(draws, retry)
        decreases attempts - retry
      {
        r := Try(start, retry);
        if r.Ok? || retry + 1 >= attempts || !p.ShouldRetry(r.error) {
          return r, retry + 1;
        }
        StillRetryable(p, start, retry);
        BackOff(p, draws, retry, earlier);
        retry := retry + 1;
      }
    }
  }
}
