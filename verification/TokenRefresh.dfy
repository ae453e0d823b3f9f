/** Coalesced token refresh: any number of callers interleaving the steps of
    `refresh_now` over one fair lock, one generation counter and one cached token. */
module TokenRefresh {
  import opened Wrappers

  type Caller = nat

  /** A token, named by the number of the attempt that fetched it; attempt 0 is
      the one that created the manager. */
  datatype Token = Token(attempt: nat, expiresIn: nat)

  datatype Outcome = Installed(token: Token) | Refused(message: int)

  /** What a caller is told. An inherited failure is marked as such. */
  datatype Answer = Refreshed | AuthError(message: int, inherited: bool)

  /** Everything the lock protects, and the two counters. */
  datatype Shared = Shared(
    generation: nat, attempts: nat, lastFailure: Option<int>, header: Token, lifetime: Token)

  function FailureOf(o: Outcome): Option<int> {
    if o.Refused? then Some(o.message) else None
  }

  /** The answer to a caller that fetched for itself, and to one that did not. */
  function OwnAnswer(o: Outcome): Answer {
    if o.Refused? then AuthError(o.message, false) else Refreshed
  }

  function InheritedAnswer(lastFailure: Option<int>): Answer {
    if lastFailure.Some? then AuthError(lastFailure.value, true) else Refreshed
  }

  function BeginFetch(s: Shared): Shared { s.(attempts := s.attempts + 1) }
  function SetLifetime(s: Shared, t: Token): Shared { s.(lifetime := t) }
  function SetHeader(s: Shared, t: Token): Shared { s.(header := t) }
  function RecordOutcome(s: Shared, o: Outcome): Shared { s.(lastFailure := FailureOf(o)) }
  function BumpGeneration(s: Shared): Shared { s.(generation := s.generation + 1) }

  /** What a caller whose fetch has ended does before it lets go of the lock. */
  function Complete(s: Shared, o: Outcome): Shared {
    var installed := if o.Installed? then SetHeader(SetLifetime(s, o.token), o.token) else s;
    BumpGeneration(RecordOutcome(installed, o))
  }

  /** The manager's fields, and `refresh_now` cut at its two await points. */
  class TokenManager {
    var refreshGeneration: nat
    var fetchAttempts: nat
    var lastAttemptFailure: Option<int>
    var headerValue: Token
    var lifetime: Token

    constructor (expiresIn: nat)
      ensures View() == Initial(Token(0, expiresIn))
    {
      refreshGeneration, fetchAttempts, lastAttemptFailure := 0, 0, None;
      headerValue, lifetime := Token(0, expiresIn), Token(0, expiresIn);
    }

    function View(): Shared
      reads this
    {
      Shared(refreshGeneration, fetchAttempts, lastAttemptFailure, headerValue, lifetime)
    }

    /** With the lock just acquired: either the answer of a contemporaneous
        attempt, or a fetch under way. */
    method AfterLock(observedGeneration: nat) returns (answer: Option<Answer>)
      modifies this`fetchAttempts
      ensures refreshGeneration != observedGeneration ==>
                View() == old(View()) && answer == Some(InheritedAnswer(View().lastFailure))
      ensures refreshGeneration == observedGeneration ==>
                View() == BeginFetch(old(View())) && answer == None
    {
      if refreshGeneration != observedGeneration {
        match lastAttemptFailure {
          case None => return Some(Refreshed);
          case Some(message) => return Some(AuthError(message, true));
        }
      }
      fetchAttempts := fetchAttempts + 1;
      return None;
    }

    method FetchAndInstall(fetched: Outcome)
      modifies this`lifetime, this`headerValue
      ensures View() == if fetched.Installed? then SetHeader(SetLifetime(old(View()), fetched.token), fetched.token)
                        else old(View())
    {
      if fetched.Refused? {
        return;
      }
      lifetime := fetched.token;
      headerValue := fetched.token;
    }

    /** With the fetch ended: install, record, bump, answer. */
    method AfterFetch(fetched: Outcome) returns (answer: Answer)
      modifies this
      ensures View() == Complete(old(View()), fetched) && answer == OwnAnswer(fetched)
    {
      FetchAndInstall(fetched);
      lastAttemptFailure := if fetched.Refused? then Some(fetched.message) else None;
      refreshGeneration := refreshGeneration + 1;
      answer := if fetched.Refused? then AuthError(fetched.message, false) else Refreshed;
    }

    /** What a caller does once the lock is its own, given the generation it
        observed before it queued: it takes the answer of an attempt completed
        since, or else makes the next attempt. */
    method RefreshNow(observedGeneration: nat, fetched: Outcome) returns (answer: Answer)
      modifies this
      ensures old(refreshGeneration) != observedGeneration ==>
                View() == old(View()) && answer == InheritedAnswer(View().lastFailure)
      ensures old(refreshGeneration) == observedGeneration ==>
                View() == Complete(BeginFetch(old(View())), fetched) && answer == OwnAnswer(fetched)
      ensures old(refreshGeneration) == observedGeneration ==>
                refreshGeneration == old(refreshGeneration) + 1 && fetchAttempts == old(fetchAttempts) + 1
      ensures old(refreshGeneration) == observedGeneration && fetched.Installed? ==>
                && headerValue == fetched.token && lifetime == fetched.token
                && lastAttemptFailure == None && answer == Refreshed
      ensures old(refreshGeneration) == observedGeneration && fetched.Refused? ==>
                && headerValue == old(headerValue) && lifetime == old(lifetime)
                && lastAttemptFailure == Some(fetched.message) && answer == AuthError(fetched.message, false)
      ensures old(refreshGeneration) != observedGeneration ==>
                answer == match lastAttemptFailure
                          case None => Refreshed
                          case Some(message) => AuthError(message, true)
    {
      var inherited := AfterLock(observedGeneration);
      match inherited {
        case Some(given) => answer := given;
        case None => answer := AfterFetch(fetched);
      }
    }
  }

  function Initial(first: Token): Shared {
    Shared(0, 0, None, first, first)
  }

  // ---- the interleaving ----------------------------------------------------

  /** Where a caller stands. `arrived` is the generation when it joined the queue;
      `attempt` the number, among completed attempts, of the one it answers with. */
  datatype Phase =
    | Idle
    | Observed(snapshot: nat)
    | Waiting(snapshot: nat, arrived: nat)
    | Admitted(snapshot: nat, arrived: nat)
    | Fetching(snapshot: nat)
    | Fetched(snapshot: nat, outcome: Outcome)
    | LifetimeSet(snapshot: nat, token: Token)
    | HeaderSet(snapshot: nat, token: Token)
    | Recorded(snapshot: nat, outcome: Outcome)
    | Returning(snapshot: nat, answer: Answer, attempt: nat)
    | Answered(snapshot: nat, answer: Answer, attempt: nat)

  /** A completed attempt: what came of it, the generation its caller had observed
      before it queued, and that caller. */
  datatype Completed = Completed(outcome: Outcome, observed: nat, author: Caller)

  datatype State = State(
    shared: Shared, queue: seq<Caller>, holder: Option<Caller>, phases: map<Caller, Phase>,
    history: seq<Completed>, cancelled: nat, first: Token)

  /** One atomic step of one caller. Dropping a caller's future is possible at its
      two await points only: in the queue, and during its fetch. */
  datatype Step =
    | Observe(c: Caller)
    | Enqueue(c: Caller)
    | Acquire(c: Caller)
    | Inherit(c: Caller)
    | StartFetch(c: Caller)
    | EndFetch(c: Caller, result: Outcome)
    | InstallLifetime(c: Caller)
    | InstallHeader(c: Caller)
    | Record(c: Caller)
    | Bump(c: Caller)
    | Release(c: Caller)
    | LeaveQueue(c: Caller)
    | AbandonFetch(c: Caller)

  function PhaseOf(s: State, c: Caller): Phase {
    if c in s.phases then s.phases[c] else Idle
  }

  function IndexIn(queue: seq<Caller>, c: Caller): (k: nat)
    requires c in queue
    ensures k < |queue| && queue[k] == c
  {
    if queue[0] == c then 0 else 1 + IndexIn(queue[1..], c)
  }

  function Without(queue: seq<Caller>, c: Caller): seq<Caller> {
    if c in queue then queue[..IndexIn(queue, c)] + queue[IndexIn(queue, c) + 1..] else queue
  }

  predicate Enabled(s: State, step: Step) {
    var phase := PhaseOf(s, step.c);
    match step
    case Observe(_) => phase.Idle? || phase.Answered?
    case Enqueue(_) => phase.Observed?
    case Acquire(c) => phase.Waiting? && s.holder.None? && s.queue != [] && s.queue[0] == c
    case Inherit(_) => phase.Admitted? && s.shared.generation != phase.snapshot
    case StartFetch(_) => phase.Admitted? && s.shared.generation == phase.snapshot
    case EndFetch(_, result) => phase.Fetching? && (result.Installed? ==> result.token.attempt == s.shared.attempts)
    case InstallLifetime(_) => phase.Fetched? && phase.outcome.Installed?
    case InstallHeader(_) => phase.LifetimeSet?
    case Record(_) => phase.HeaderSet? || (phase.Fetched? && phase.outcome.Refused?)
    case Bump(_) => phase.Recorded?
    case Release(_) => phase.Returning?
    case LeaveQueue(_) => phase.Waiting?
    case AbandonFetch(_) => phase.Fetching?
  }

  function Move(s: State, c: Caller, phase: Phase): State {
    s.(phases := s.phases[c := phase])
  }

  function Apply(s: State, step: Step): State
    requires Enabled(s, step)
  {
    var c, phase := step.c, PhaseOf(s, step.c);
    match step
    case Observe(_) => Move(s, c, Observed(s.shared.generation))
    case Enqueue(_) => Move(s, c, Waiting(phase.snapshot, s.shared.generation)).(queue := s.queue + [c])
    case Acquire(_) => Move(s, c, Admitted(phase.snapshot, phase.arrived)).(queue := s.queue[1..], holder := Some(c))
    case Inherit(_) => Move(s, c, Returning(phase.snapshot, InheritedAnswer(s.shared.lastFailure), s.shared.generation))
    case StartFetch(_) => Move(s, c, Fetching(phase.snapshot)).(shared := BeginFetch(s.shared))
    case EndFetch(_, result) => Move(s, c, Fetched(phase.snapshot, result))
    case InstallLifetime(_) =>
      Move(s, c, LifetimeSet(phase.snapshot, phase.outcome.token))
      .(shared := SetLifetime(s.shared, phase.outcome.token))
    case InstallHeader(_) =>
      Move(s, c, HeaderSet(phase.snapshot, phase.token)).(shared := SetHeader(s.shared, phase.token))
    case Record(_) =>
      var outcome := if phase.HeaderSet? then Installed(phase.token) else phase.outcome;
      Move(s, c, Recorded(phase.snapshot, outcome)).(shared := RecordOutcome(s.shared, outcome))
    case Bump(_) =>
      Move(s, c, Returning(phase.snapshot, OwnAnswer(phase.outcome), s.shared.generation + 1))
      .(shared := BumpGeneration(s.shared), history := s.history + [Completed(phase.outcome, phase.snapshot, c)])
    case Release(_) => Move(s, c, Answered(phase.snapshot, phase.answer, phase.attempt)).(holder := None)
    case LeaveQueue(_) => Move(s, c, Idle).(queue := Without(s.queue, c))
    case AbandonFetch(_) => Move(s, c, Idle).(holder := None, cancelled := s.cancelled + 1)
  }

  function Start(first: Token): State {
    State(Initial(first), [], None, map[], [], 0, first)
  }

  predicate Run(s: State, steps: seq<Step>, t: State)
    decreases |steps|
  {
    if steps == [] then s == t
    else Enabled(s, steps[0]) && Run(Apply(s, steps[0]), steps[1..], t)
  }

  // ---- the invariant -------------------------------------------------------

  predicate HoldsLock(p: Phase) {
    p.Admitted? || InAttempt(p) || p.Returning?
  }

  /** Between the start of a fetch and the bump that completes it. */
  predicate InAttempt(p: Phase) {
    p.Fetching? || p.Fetched? || p.LifetimeSet? || p.HeaderSet? || p.Recorded?
  }

  /** One holder, and a queue of exactly the waiting callers, each once. */
  ghost predicate LockInvariant(s: State) {
    && (forall c: Caller :: HoldsLock(PhaseOf(s, c)) <==> s.holder == Some(c))
    && (forall c: Caller :: PhaseOf(s, c).Waiting? <==> c in s.queue)
    && (forall i, j :: 0 <= i < j < |s.queue| ==> s.queue[i] != s.queue[j])
  }

  /** The token of the latest completed attempt that fetched one. */
  function LastToken(history: seq<Completed>, first: Token): Token {
    if history == [] then first
    else
      var last := history[|history| - 1].outcome;
      if last.Installed? then last.token else LastToken(history[..|history| - 1], first)
  }

  function Holder(s: State): Phase {
    if s.holder.Some? then PhaseOf(s, s.holder.value) else Idle
  }

  /** Attempts are those completed, those abandoned and the one under way; each
      completed one is of a caller that observed its own generation; failures leave the token alone. */
  ghost predicate FetchAccounting(s: State) {
    var h := Holder(s);
    && s.shared.generation == |s.history|
    && s.shared.attempts == s.shared.generation + s.cancelled + (if InAttempt(h) then 1 else 0)
    && (forall i :: 0 <= i < |s.history| ==> s.history[i].observed == i)
    && (InAttempt(h) ==> h.snapshot == s.shared.generation)
    && (NewToken(h).Some? ==> NewToken(h).value.attempt == s.shared.attempts)
    && (h.Returning? ==> h.attempt == s.shared.generation)
  }

  /** The token an attempt under way has fetched. */
  function NewToken(p: Phase): Option<Token> {
    if p.LifetimeSet? || p.HeaderSet? then Some(p.token)
    else if (p.Fetched? || p.Recorded?) && p.outcome.Installed? then Some(p.outcome.token)
    else None
  }

  /** The header is the token of the latest successful attempt to install one, and
      the lifetime runs ahead of it only between the two installs. */
  ghost predicate InstalledState(s: State) {
    var h := Holder(s);
    var settled := LastToken(s.history, s.first);
    && settled.attempt <= s.shared.attempts - (if InAttempt(h) then 1 else 0)
    && s.shared.header == (if (h.HeaderSet? || h.Recorded?) && NewToken(h).Some? then NewToken(h).value else settled)
    && s.shared.lifetime == (if h.LifetimeSet? then h.token else s.shared.header)
    && (h.Recorded? ==> s.shared.lastFailure == FailureOf(h.outcome))
    && (!h.Recorded? && s.history != [] ==>
          s.shared.lastFailure == FailureOf(s.history[|s.history| - 1].outcome))
  }

  /** No snapshot is ahead of the generation, and an answer is that of a completed
      attempt the caller's snapshot had not counted. */
  ghost predicate Answers(s: State, p: Phase) {
    && (!p.Idle? ==> p.snapshot <= s.shared.generation)
    && (p.Returning? || p.Answered? ==>
          && p.snapshot < p.attempt <= |s.history|
          && p.answer.Refreshed? == s.history[p.attempt - 1].outcome.Installed?
          && (p.answer.AuthError? ==> FailureOf(s.history[p.attempt - 1].outcome) == Some(p.answer.message)))
  }

  ghost predicate AnswersInvariant(s: State) {
    forall c: Caller :: Answers(s, PhaseOf(s, c))
  }

  /** Attempts completed since a caller's snapshot, up to its answer, are others';
      its failure is marked as inherited exactly when the attempt was another's. */
  ghost predicate Authors(s: State, c: Caller) {
    var p := PhaseOf(s, c);
    if p.Returning? || p.Answered? then
      p.answer.AuthError? && 1 <= p.attempt <= |s.history| ==>
        (p.answer.inherited <==> s.history[p.attempt - 1].author != c)
    else
      !p.Idle? ==> forall i :: p.snapshot <= i < |s.history| ==> s.history[i].author != c
  }

  ghost predicate AuthorsInvariant(s: State) {
    forall c: Caller :: Authors(s, c)
  }

  /** At most one attempt has completed since a queued caller joined: everyone
      ahead of it had taken its snapshot by then. */
  ghost predicate Patient(s: State, i: nat)
    requires i < |s.queue|
  {
    var p := PhaseOf(s, s.queue[i]);
    && p.Waiting? && p.snapshot <= p.arrived <= s.shared.generation <= p.arrived + 1
    && (forall j :: 0 <= j < i ==> SnapshotBy(PhaseOf(s, s.queue[j]), p.arrived))
    && (s.holder.Some? ==> SnapshotBy(Holder(s), p.arrived))
  }

  predicate SnapshotBy(p: Phase, generation: nat) {
    p.Idle? || p.snapshot <= generation
  }

  ghost predicate QueueInvariant(s: State) {
    && (forall i :: 0 <= i < |s.queue| ==> Patient(s, i))
    && (Holder(s).Admitted? ==> Holder(s).arrived <= s.shared.generation <= Holder(s).arrived + 1)
  }

  ghost predicate Invariant(s: State) {
    && LockInvariant(s) && FetchAccounting(s) && InstalledState(s) && AnswersInvariant(s) && QueueInvariant(s)
    && AuthorsInvariant(s)
  }

  lemma StartSatisfies(first: Token)
    requires first.attempt == 0
    ensures Invariant(Start(first))
  {
  }

  lemma WithoutFacts(queue: seq<Caller>, c: Caller)
    requires c in queue
    requires forall i, j :: 0 <= i < j < |queue| ==> queue[i] != queue[j]
    ensures var rest := Without(queue, c);
            && (forall x :: x in rest <==> x in queue && x != c)
            && (forall i, j :: 0 <= i < j < |rest| ==> rest[i] != rest[j])
  {
    var k, rest := IndexIn(queue, c), Without(queue, c);
    forall x | x in queue && x != c
      ensures x in rest
    {
      var i :| 0 <= i < |queue| && queue[i] == x;
      assert rest[if i < k then i else i - 1] == x;
    }
  }

  /** Steps in and out of the queue. */
  predicate MovesQueue(step: Step) {
    step.Enqueue? || step.Acquire? || step.LeaveQueue?
  }

  lemma KeepsQueueOfWaiting(s: State, step: Step)
    requires LockInvariant(s) && Enabled(s, step) && MovesQueue(step)
    ensures LockInvariant(Apply(s, step))
  {
    var t := Apply(s, step);
    if step.LeaveQueue? {
      WithoutFacts(s.queue, step.c);
    }
    forall c: Caller
      ensures HoldsLock(PhaseOf(t, c)) <==> t.holder == Some(c)
      ensures PhaseOf(t, c).Waiting? <==> c in t.queue
    {
      assert HoldsLock(PhaseOf(s, c)) <==> s.holder == Some(c);
      assert PhaseOf(s, c).Waiting? <==> c in s.queue;
      if step.Acquire? {
        assert s.queue == [s.queue[0]] + s.queue[1..];
      }
    }
  }

  lemma KeepsLockInvariant(s: State, step: Step)
    requires LockInvariant(s) && Enabled(s, step)
    ensures LockInvariant(Apply(s, step))
  {
    if MovesQueue(step) {
      KeepsQueueOfWaiting(s, step);
    } else {
      var t := Apply(s, step);
      assert t.queue == s.queue;
      forall c: Caller
        ensures HoldsLock(PhaseOf(t, c)) <==> t.holder == Some(c)
        ensures PhaseOf(t, c).Waiting? <==> c in t.queue
      {
        assert HoldsLock(PhaseOf(s, c)) <==> s.holder == Some(c);
        assert PhaseOf(s, c).Waiting? <==> c in s.queue;
      }
    }
  }

  lemma KeepsFetchAccounting(s: State, step: Step)
    requires LockInvariant(s) && FetchAccounting(s) && Enabled(s, step)
    ensures FetchAccounting(Apply(s, step))
  {
    assert HoldsLock(PhaseOf(s, step.c)) <==> s.holder == Some(step.c);
  }

  lemma KeepsInstalledState(s: State, step: Step)
    requires LockInvariant(s) && FetchAccounting(s) && InstalledState(s) && Enabled(s, step)
    ensures InstalledState(Apply(s, step))
  {
    assert HoldsLock(PhaseOf(s, step.c)) <==> s.holder == Some(step.c);
  }

  lemma KeepsAnswers(s: State, step: Step)
    requires Invariant(s) && Enabled(s, step)
    ensures AnswersInvariant(Apply(s, step))
  {
    var t := Apply(s, step);
    assert HoldsLock(PhaseOf(s, step.c)) ==> s.holder == Some(step.c);
    forall c: Caller
      ensures Answers(t, PhaseOf(t, c))
    {
      assert Answers(s, PhaseOf(s, c));
    }
  }

  lemma KeepsAuthors(s: State, step: Step)
    requires LockInvariant(s) && FetchAccounting(s) && AnswersInvariant(s) && AuthorsInvariant(s) && Enabled(s, step)
    ensures AuthorsInvariant(Apply(s, step))
  {
    var t := Apply(s, step);
    assert HoldsLock(PhaseOf(s, step.c)) <==> s.holder == Some(step.c);
    forall c: Caller
      ensures Authors(t, c)
    {
      assert Authors(s, c) && Answers(s, PhaseOf(s, c));
    }
  }

  lemma KeepsQueueInvariant(s: State, step: Step)
    requires Invariant(s) && Enabled(s, step)
    ensures QueueInvariant(Apply(s, step))
  {
    var t := Apply(s, step);
    assert HoldsLock(PhaseOf(s, step.c)) ==> s.holder == Some(step.c);
    assert Answers(s, PhaseOf(s, step.c));
    forall i | 0 <= i < |t.queue|
      ensures Patient(t, i)
    {
      KeepsPatient(s, step, i);
    }
    if step.Acquire? { assert Patient(s, 0); }
  }

  /** The position, before a step, of the caller now at position `i`. */
  function Before(s: State, step: Step, i: nat): nat {
    if step.Acquire? then i + 1
    else if step.LeaveQueue? && step.c in s.queue && IndexIn(s.queue, step.c) <= i then i + 1
    else i
  }

  lemma KeepsPatient(s: State, step: Step, i: nat)
    requires Invariant(s) && Enabled(s, step) && i < |Apply(s, step).queue|
    ensures Patient(Apply(s, step), i)
  {
    if step.Enqueue? && i == |s.queue| {
      NewcomerIsPatient(s, step.c);
    } else {
      StaysPatient(s, step, i);
    }
  }

  lemma NewcomerIsPatient(s: State, c: Caller)
    requires Invariant(s) && Enabled(s, Enqueue(c))
    ensures Patient(Apply(s, Enqueue(c)), |s.queue|)
  {
    var t := Apply(s, Enqueue(c));
    assert Answers(s, PhaseOf(s, c));
    forall j | 0 <= j < |s.queue|
      ensures SnapshotBy(PhaseOf(t, t.queue[j]), s.shared.generation)
    {
      assert t.queue[j] == s.queue[j] && s.queue[j] in s.queue;
      assert Answers(s, PhaseOf(s, s.queue[j]));
    }
    if s.holder.Some? { assert Answers(s, Holder(s)); }
  }

  /** A step keeps the callers that stay queued in their order. */
  lemma PositionBefore(s: State, step: Step, i: nat)
    requires LockInvariant(s) && Enabled(s, step) && i < |Apply(s, step).queue|
    requires step.Enqueue? ==> i < |s.queue|
    ensures Before(s, step, i) < |s.queue|
    ensures Apply(s, step).queue[i] == s.queue[Before(s, step, i)] != step.c
    ensures forall j :: 0 <= j < i ==> Before(s, step, j) < Before(s, step, i)
  {
    assert PhaseOf(s, step.c).Waiting? <==> step.c in s.queue;
  }

  lemma StaysPatient(s: State, step: Step, i: nat)
    requires Invariant(s) && Enabled(s, step) && i < |Apply(s, step).queue|
    requires step.Enqueue? ==> i < |s.queue|
    ensures Patient(Apply(s, step), i)
  {
    var t, k := Apply(s, step), Before(s, step, i);
    PositionBefore(s, step, i);
    assert Patient(s, k);
    var p := PhaseOf(s, s.queue[k]);
    forall j | 0 <= j < i
      ensures SnapshotBy(PhaseOf(t, t.queue[j]), p.arrived)
    {
      PositionBefore(s, step, j);
      assert SnapshotBy(PhaseOf(s, s.queue[Before(s, step, j)]), p.arrived);
    }
    HolderStaysBy(s, step, p.arrived);
  }

  /** Whoever holds the lock after a step had its snapshot before it. */
  lemma HolderStaysBy(s: State, step: Step, arrived: nat)
    requires Invariant(s) && Enabled(s, step)
    requires s.holder.Some? ==> SnapshotBy(Holder(s), arrived)
    requires step.Acquire? ==> SnapshotBy(PhaseOf(s, step.c), arrived)
    requires arrived <= s.shared.generation <= arrived + 1
    ensures Apply(s, step).holder.Some? ==> SnapshotBy(Holder(Apply(s, step)), arrived)
    ensures arrived <= Apply(s, step).shared.generation <= arrived + 1
  {
    assert HoldsLock(PhaseOf(s, step.c)) <==> s.holder == Some(step.c);
  }

  lemma {:induction false} InvariantAlways(s: State, steps: seq<Step>, t: State)
    requires Invariant(s) && Run(s, steps, t)
    ensures Invariant(t)
    decreases |steps|
  {
    if steps != [] {
      KeepsLockInvariant(s, steps[0]);
      KeepsFetchAccounting(s, steps[0]);
      KeepsInstalledState(s, steps[0]);
      KeepsAnswers(s, steps[0]);
      KeepsQueueInvariant(s, steps[0]);
      KeepsAuthors(s, steps[0]);
      InvariantAlways(Apply(s, steps[0]), steps[1..], t);
    }
  }

  // ---- what every run keeps ------------------------------------------------

  predicate Reachable(first: Token, steps: seq<Step>, s: State) {
    first.attempt == 0 && Run(Start(first), steps, s)
  }

  lemma ReachableSatisfies(first: Token, steps: seq<Step>, s: State)
    requires Reachable(first, steps, s)
    ensures Invariant(s)
  {
    StartSatisfies(first);
    InvariantAlways(Start(first), steps, s);
  }

  /** A caller about to return answers with the latest completed attempt, one that
      completed after its snapshot; its answer is that attempt's, success and
      failure alike. */
  lemma CoalescingIsLinearizable(first: Token, steps: seq<Step>, s: State, c: Caller)
    requires Reachable(first, steps, s) && PhaseOf(s, c).Returning?
    ensures var p := PhaseOf(s, c);
            && p.snapshot < p.attempt == s.shared.generation == |s.history|
            && (p.answer == Refreshed <==> s.history[p.attempt - 1].outcome.Installed?)
            && (forall m, i :: p.answer == AuthError(m, i) ==> s.history[p.attempt - 1].outcome == Refused(m))
  {
    ReachableSatisfies(first, steps, s);
    assert Answers(s, PhaseOf(s, c));
    assert HoldsLock(PhaseOf(s, c));
  }

  /** An answer once given stays the answer of that attempt. */
  lemma AnswersLast(first: Token, steps: seq<Step>, s: State, c: Caller)
    requires Reachable(first, steps, s) && PhaseOf(s, c).Answered?
    ensures var p := PhaseOf(s, c);
            && p.snapshot < p.attempt <= |s.history|
            && (p.answer == Refreshed <==> s.history[p.attempt - 1].outcome.Installed?)
            && (forall m, i :: p.answer == AuthError(m, i) ==> s.history[p.attempt - 1].outcome == Refused(m))
  {
    ReachableSatisfies(first, steps, s);
    assert Answers(s, PhaseOf(s, c));
  }

  /** The failure of a caller that has its answer is marked as another's exactly
      when the attempt was another's. */
  lemma FailuresAreMarked(first: Token, steps: seq<Step>, s: State, c: Caller)
    requires Reachable(first, steps, s)
    requires (PhaseOf(s, c).Returning? || PhaseOf(s, c).Answered?) && PhaseOf(s, c).answer.AuthError?
    ensures 1 <= PhaseOf(s, c).attempt <= |s.history|
    ensures PhaseOf(s, c).answer.inherited <==> s.history[PhaseOf(s, c).attempt - 1].author != c
  {
    ReachableSatisfies(first, steps, s);
    assert Authors(s, c) && Answers(s, PhaseOf(s, c));
  }

  /** From joining the queue to holding the lock, at most one attempt completes. */
  lemma WaitsThroughOneAttempt(first: Token, steps: seq<Step>, s: State, c: Caller)
    requires Reachable(first, steps, s)
    requires PhaseOf(s, c).Waiting? || PhaseOf(s, c).Admitted?
    ensures PhaseOf(s, c).arrived <= |s.history| <= PhaseOf(s, c).arrived + 1
  {
    ReachableSatisfies(first, steps, s);
    if PhaseOf(s, c).Waiting? {
      assert c in s.queue;
      assert Patient(s, IndexIn(s.queue, c));
    } else {
      assert HoldsLock(PhaseOf(s, c));
    }
  }

  /** One fetch at a time, by a caller that observed the generation still current. */
  lemma FetchesAreExclusive(first: Token, steps: seq<Step>, s: State, c: Caller, d: Caller)
    requires Reachable(first, steps, s) && InAttempt(PhaseOf(s, c)) && InAttempt(PhaseOf(s, d))
    ensures c == d && PhaseOf(s, c).snapshot == |s.history|
    ensures s.shared.attempts == |s.history| + s.cancelled + 1
  {
    ReachableSatisfies(first, steps, s);
    assert HoldsLock(PhaseOf(s, c)) && HoldsLock(PhaseOf(s, d));
  }

  /** The i-th completed attempt is of a caller that observed generation i before
      it queued, so no two callers that observed one generation both complete a
      fetch: all but one of them inherit. */
  lemma OneAttemptPerGeneration(first: Token, steps: seq<Step>, s: State, i: nat)
    requires Reachable(first, steps, s) && i < |s.history|
    ensures s.history[i].observed == i
  {
    ReachableSatisfies(first, steps, s);
  }

  /** With the lock free, header and lifetime are one token: that of the latest
      attempt to have fetched one. Nowhere is the lifetime the older of the two. */
  lemma InstalledTogether(first: Token, steps: seq<Step>, s: State)
    requires Reachable(first, steps, s)
    ensures s.holder.None? ==> s.shared.header == s.shared.lifetime == LastToken(s.history, s.first)
    ensures s.shared.header.attempt <= s.shared.lifetime.attempt <= s.shared.attempts
    ensures s.holder.None? ==> s.shared.attempts == s.shared.generation + s.cancelled
  {
    ReachableSatisfies(first, steps, s);
  }

  /** Only the holder's steps touch what the lock protects. */
  lemma OthersLeaveShared(first: Token, steps: seq<Step>, s: State, step: Step)
    requires Reachable(first, steps, s) && Enabled(s, step) && s.holder != Some(step.c)
    ensures Apply(s, step).shared == s.shared && Apply(s, step).history == s.history
  {
    ReachableSatisfies(first, steps, s);
    assert HoldsLock(PhaseOf(s, step.c)) <==> s.holder == Some(step.c);
  }

  /** The steps of a caller whose fetch has ended add up to `Complete`. */
  function Completion(c: Caller, o: Outcome): seq<Step> {
    (if o.Installed? then [InstallLifetime(c), InstallHeader(c)] else []) + [Record(c), Bump(c)]
  }

  lemma {:induction false} CompletionIsComplete(s: State, c: Caller) returns (t: State)
    requires PhaseOf(s, c).Fetched?
    ensures var p := PhaseOf(s, c);
            && Run(s, Completion(c, p.outcome), t)
            && t.shared == Complete(s.shared, p.outcome)
            && PhaseOf(t, c) == Returning(p.snapshot, OwnAnswer(p.outcome), t.shared.generation)
            && t.history == s.history + [Completed(p.outcome, p.snapshot, c)]
  {
    var o := PhaseOf(s, c).outcome;
    var u := s;
    if o.Installed? {
      u := Apply(Apply(s, InstallLifetime(c)), InstallHeader(c));
    }
    var v := Apply(u, Record(c));
    t := Apply(v, Bump(c));
    assert Run(t, [], t);
    assert [Bump(c)][1..] == [];
    assert Run(v, [Bump(c)], t);
    assert [Record(c), Bump(c)][1..] == [Bump(c)];
    assert Run(u, [Record(c), Bump(c)], t);
    if o.Installed? {
      var rest := [InstallHeader(c), Record(c), Bump(c)];
      assert rest[1..] == [Record(c), Bump(c)];
      assert Run(Apply(s, InstallLifetime(c)), rest, t);
      assert Completion(c, o)[1..] == rest;
    } else {
      assert Completion(c, o) == [Record(c), Bump(c)];
    }
  }

  /** Nothing is ruled out: any caller may come, take its snapshot and queue in
      separate steps, whatever others do; a waiting one may be dropped, and so may
      one that fetches, which frees the lock and leaves the token as it is; and a
      fetch may come to any end. */
  lemma NothingIsRuledOut(s: State, c: Caller, o: Outcome)
    requires o.Installed? ==> o.token.attempt == s.shared.attempts
    ensures var p := PhaseOf(s, c);
            && (p.Idle? || p.Answered? ==> Enabled(s, Observe(c)) && PhaseOf(Apply(s, Observe(c)), c).Observed?)
            && (p.Observed? ==> Enabled(s, Enqueue(c)) && PhaseOf(Apply(s, Enqueue(c)), c).Waiting?)
            && (p.Waiting? ==>
                  && Enabled(s, LeaveQueue(c))
                  && PhaseOf(Apply(s, LeaveQueue(c)), c).Idle? && Apply(s, LeaveQueue(c)).shared == s.shared)
            && (p.Fetching? ==>
                  && Enabled(s, EndFetch(c, o)) && PhaseOf(Apply(s, EndFetch(c, o)), c) == Fetched(p.snapshot, o)
                  && Enabled(s, AbandonFetch(c))
                  && var t := Apply(s, AbandonFetch(c));
                     PhaseOf(t, c).Idle? && t.holder.None? && t.shared == s.shared && t.history == s.history)
  {
  }

  /** Nobody is stuck: a queue always has someone who can move it along. */
  lemma QueueMoves(first: Token, steps: seq<Step>, s: State) returns (step: Step)
    requires Reachable(first, steps, s) && s.queue != []
    ensures Enabled(s, step) && !step.LeaveQueue? && !step.AbandonFetch?
    ensures step.c == if s.holder.Some? then s.holder.value else s.queue[0]
  {
    ReachableSatisfies(first, steps, s);
    if s.holder.None? {
      assert s.queue[0] in s.queue;
      step := Acquire(s.queue[0]);
    } else {
      var c := s.holder.value;
      assert HoldsLock(PhaseOf(s, c));
      match PhaseOf(s, c)
      case Admitted(snapshot, _) =>
        step := if s.shared.generation == snapshot then StartFetch(c) else Inherit(c);
      case Fetching(_) => step := EndFetch(c, Refused(0));
      case Fetched(_, o) => step := if o.Installed? then InstallLifetime(c) else Record(c);
      case LifetimeSet(_, _) => step := InstallHeader(c);
      case HeaderSet(_, _) => step := Record(c);
      case Recorded(_, _) => step := Bump(c);
      case Returning(_, _, _) => step := Release(c);
    }
  }
}
