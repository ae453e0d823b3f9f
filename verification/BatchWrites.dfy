/** `put_nodes` against a deduplicating server: groups run side by side, items of
    a group one after another, runs stop at the first error, and calls that were
    given up on may still land at any later time. */
module BatchWrites {
  import opened Wrappers
  import opened Grouping

  const CONCURRENT_REQUESTS: nat := 10

  datatype Request = Request(node: string, requestId: string, payload: int)

  /** What the server deduplicates on; tenant, graph and operation are fixed. */
  type Marker = (string, string)

  function MarkerOf(r: Request): Marker {
    (r.node, r.requestId)
  }

  function KeyOf(r: Request): string {
    r.node
  }

  function GroupOf(items: seq<Request>, k: string): seq<Request> {
    Group(items, KeyOf, k)
  }

  /** Nodes, markers of the writes ever applied, and the writes applied so far by
      this batch, in order. */
  datatype Server = Server(store: map<string, int>, marks: set<Marker>, log: seq<Request>)

  /** The server's contract: apply and mark in one step, or recognize a replay. */
  function Deliver(s: Server, r: Request): Server {
    if MarkerOf(r) in s.marks then s
    else Server(s.store[r.node := r.payload], s.marks + {MarkerOf(r)}, s.log + [r])
  }

  /** One clean sequential run, in caller order. */
  function DeliverAll(s: Server, items: seq<Request>): Server {
    if items == [] then s
    else Deliver(DeliverAll(s, items[..|items| - 1]), items[|items| - 1])
  }

  /** Every item of a key has its own request id. */
  ghost predicate DistinctIds(batch: seq<Request>) {
    forall i, j :: 0 <= i < j < |batch| ==> MarkerOf(batch[i]) != MarkerOf(batch[j])
  }

  /** Request ids are per key: two items collide only on the same node. */
  lemma IdsArePerKey(batch: seq<Request>)
    ensures DistinctIds(batch) <==> forall i, j :: 0 <= i < j < |batch| ==>
                                      batch[i].node != batch[j].node || batch[i].requestId != batch[j].requestId
  {
    if !DistinctIds(batch) {
      var i, j :| 0 <= i < j < |batch| && MarkerOf(batch[i]) == MarkerOf(batch[j]);
      assert batch[i].node == batch[j].node;
    }
  }

  /** A server that has seen none of the batch's writes. */
  ghost predicate Unmarked(s: Server, batch: seq<Request>) {
    s.log == [] && forall r :: r in batch ==> MarkerOf(r) !in s.marks
  }

  // ---- runs ----------------------------------------------------------------

  /** A group's task: `done` items acknowledged, and the call in flight, if any,
      with whether the server has processed it. */
  datatype Task = NotStarted | Active(done: nat, call: Option<bool>) | Finished

  datatype RunState = NoRun | Running(tasks: map<string, Task>) | Ended(ok: bool)

  /** `limbo`: requests of calls that failed or were dropped; each may still reach
      the server at any time, more than once, or never. */
  datatype State = State(server: Server, limbo: set<Request>, run: RunState)

  datatype Step =
    | Begin
    | Activate(k: string)
    | Send(k: string)
    | Land(k: string)
    | Reply(k: string)
    | Resend(k: string)
    | FinishGroup(k: string)
    | Stop
    | Complete
    | LandLate(r: Request)

  function ActiveKeys(tasks: map<string, Task>): set<string> {
    set k | k in tasks && tasks[k].Active?
  }

  predicate InFlight(t: Task) {
    t.Active? && t.call.Some?
  }

  predicate Enabled(batch: seq<Request>, s: State, step: Step) {
    if step.Begin? then !s.run.Running?
    else if step.LandLate? then step.r in s.limbo
    else
      && s.run.Running?
      && var tasks := s.run.tasks;
         match step
         case Activate(k) => k in tasks && tasks[k].NotStarted? && |ActiveKeys(tasks)| < CONCURRENT_REQUESTS
         case Send(k) => k in tasks && tasks[k].Active? && tasks[k].call.None? && tasks[k].done < |GroupOf(batch, k)|
         case Land(k) =>
           k in tasks && tasks[k].Active? && tasks[k].call == Some(false) && tasks[k].done < |GroupOf(batch, k)|
         case Reply(k) => k in tasks && tasks[k].Active? && tasks[k].call == Some(true)
         case Resend(k) => k in tasks && InFlight(tasks[k]) && tasks[k].done < |GroupOf(batch, k)|
         case FinishGroup(k) => k in tasks && tasks[k] == Active(|GroupOf(batch, k)|, None)
         case Stop => true
         case Complete => forall k :: k in tasks ==> tasks[k].Finished?
         case _ => true
  }

  /** The requests of the calls in flight. */
  function Outstanding(batch: seq<Request>, tasks: map<string, Task>): set<Request> {
    set k | k in tasks && InFlight(tasks[k]) && tasks[k].done < |GroupOf(batch, k)| :: GroupOf(batch, k)[tasks[k].done]
  }

  function Apply(batch: seq<Request>, s: State, step: Step): State
    requires Enabled(batch, s, step)
  {
    match step
    case Begin => s.(run := Running(map r | r in batch :: r.node := NotStarted))
    case Activate(k) => s.(run := Running(s.run.tasks[k := Active(0, None)]))
    case Send(k) => s.(run := Running(s.run.tasks[k := Active(s.run.tasks[k].done, Some(false))]))
    case Land(k) =>
      var done := s.run.tasks[k].done;
      var landed := Running(s.run.tasks[k := Active(done, Some(true))]);
      s.(server := Deliver(s.server, GroupOf(batch, k)[done]), run := landed)
    case Reply(k) => s.(run := Running(s.run.tasks[k := Active(s.run.tasks[k].done + 1, None)]))
    case Resend(k) =>
      var done := s.run.tasks[k].done;
      s.(limbo := s.limbo + {GroupOf(batch, k)[done]}, run := Running(s.run.tasks[k := Active(done, Some(false))]))
    case FinishGroup(k) => s.(run := Running(s.run.tasks[k := Finished]))
    case Stop => s.(limbo := s.limbo + Outstanding(batch, s.run.tasks), run := Ended(false))
    case Complete => s.(run := Ended(true))
    case LandLate(r) => s.(server := Deliver(s.server, r))
  }

  predicate Run(batch: seq<Request>, s: State, steps: seq<Step>, t: State)
    decreases |steps|
  {
    if steps == [] then s == t
    else Enabled(batch, s, steps[0]) && Run(batch, Apply(batch, s, steps[0]), steps[1..], t)
  }

  // ---- the invariant -------------------------------------------------------

  /** How many items of key `k` the server has applied. */
  function Applied(s: Server, k: string): nat {
    |GroupOf(s.log, k)|
  }

  /** What was applied of each key is a first part of its group, and the marks are
      those of the start and of what was applied. */
  ghost predicate ServerInvariant(batch: seq<Request>, start: Server, s: Server) {
    && (forall k :: GroupOf(s.log, k) <= GroupOf(batch, k))
    && s.marks == start.marks + Markers(s.log)
    && s.store == Written(start.store, s.log)
  }

  /** `r` may be delivered: everything before it in its group has been applied. */
  ghost predicate Ready(batch: seq<Request>, s: Server, r: Request, i: nat) {
    i < |GroupOf(batch, r.node)| && GroupOf(batch, r.node)[i] == r && i <= Applied(s, r.node)
  }

  ghost predicate TaskInvariant(batch: seq<Request>, s: Server, k: string, t: Task) {
    match t
    case NotStarted => true
    case Active(done, call) =>
      && done <= Applied(s, k) && done <= |GroupOf(batch, k)|
      && (call == Some(true) ==> done < Applied(s, k))
      && (call.Some? ==> done < |GroupOf(batch, k)|)
    case Finished => Applied(s, k) == |GroupOf(batch, k)|
  }

  ghost predicate Invariant(batch: seq<Request>, start: Server, s: State) {
    && ServerInvariant(batch, start, s.server)
    && (forall r :: r in s.limbo ==> exists i :: Ready(batch, s.server, r, i))
    && (s.run.Running? ==>
          && s.run.tasks.Keys == (set r | r in batch :: r.node)
          && |ActiveKeys(s.run.tasks)| <= CONCURRENT_REQUESTS
          && forall k :: k in s.run.tasks ==> TaskInvariant(batch, s.server, k, s.run.tasks[k]))
    && (s.run == Ended(true) ==> forall k :: GroupOf(s.server.log, k) == GroupOf(batch, k))
  }

  /** The store after writes, later ones winning. */
  function Written(store: map<string, int>, log: seq<Request>): map<string, int> {
    if log == [] then store
    else
      var last := log[|log| - 1];
      Written(store, log[..|log| - 1])[last.node := last.payload]
  }

  // ---- one delivery --------------------------------------------------------

  lemma {:induction false} GroupDistinct(items: seq<Request>, k: string)
    requires DistinctIds(items)
    ensures DistinctIds(GroupOf(items, k))
  {
    if items != [] {
      var n := |items| - 1;
      var front := items[..n];
      GroupDistinct(front, k);
      forall x | x in GroupOf(front, k)
        ensures MarkerOf(x) != MarkerOf(items[n])
      {
        GroupMembers(front, KeyOf, k, x);
        var i :| 0 <= i < n && items[i] == x;
      }
    }
  }

  /** A ready request is marked exactly when it has been applied before. */
  lemma MarkedIffApplied(batch: seq<Request>, start: Server, s: Server, r: Request, i: nat)
    requires DistinctIds(batch) && Unmarked(start, batch)
    requires ServerInvariant(batch, start, s) && Ready(batch, s, r, i)
    ensures MarkerOf(r) in s.marks <==> i < Applied(s, r.node)
  {
    var k := r.node;
    var group, log := GroupOf(batch, k), GroupOf(s.log, k);
    assert log == group[..|log|];
    GroupMembers(batch, KeyOf, k, r);
    GroupMembers(s.log, KeyOf, k, r);
    GroupDistinct(batch, k);
    if i < |log| {
      assert log[i] == r;
    }
    if MarkerOf(r) in s.marks {
      var x :| x in s.log && MarkerOf(x) == MarkerOf(r);
      GroupMembers(s.log, KeyOf, k, x);
      var j :| 0 <= j < |log| && log[j] == x;
      assert group[j] == x && MarkerOf(group[j]) == MarkerOf(group[i]);
    }
  }

  /** Delivering a ready request applies it if it is next and changes nothing if
      it is a replay; either way every key's order is kept. */
  lemma DeliverReady(batch: seq<Request>, start: Server, s: Server, r: Request, i: nat)
    requires DistinctIds(batch) && Unmarked(start, batch)
    requires ServerInvariant(batch, start, s) && Ready(batch, s, r, i)
    ensures var t := Deliver(s, r);
            && ServerInvariant(batch, start, t)
            && i < Applied(t, r.node)
            && (i < Applied(s, r.node) ==> t == s)
            && forall k :: Applied(s, k) <= Applied(t, k)
  {
    var t := Deliver(s, r);
    MarkedIffApplied(batch, start, s, r, i);
    if t != s {
      forall k
        ensures GroupOf(t.log, k) == GroupOf(s.log, k) + (if k == r.node then [r] else [])
        ensures GroupOf(t.log, k) <= GroupOf(batch, k)
      {
        GroupAppend(s.log, KeyOf, k, r);
        assert GroupOf(s.log, k) <= GroupOf(batch, k);
      }
      WrittenAppend(start.store, s.log, r);
      MarkersAppend(s.log, r);
    }
  }

  lemma ReadyLasts(batch: seq<Request>, s: Server, t: Server, r: Request, i: nat)
    requires Ready(batch, s, r, i) && Applied(s, r.node) <= Applied(t, r.node)
    ensures Ready(batch, t, r, i)
  {
  }

  // ---- every step ----------------------------------------------------------

  /** The server's state moves on; limbo and tasks stay as they should be. */
  lemma ServerMoves(batch: seq<Request>, start: Server, s: State, server: Server)
    requires Invariant(batch, start, s)
    requires ServerInvariant(batch, start, server)
    requires forall k :: Applied(s.server, k) <= Applied(server, k)
    ensures Invariant(batch, start, s.(server := server))
  {
    forall r | r in s.limbo
      ensures exists i :: Ready(batch, server, r, i)
    {
      var i :| Ready(batch, s.server, r, i);
      ReadyLasts(batch, s.server, server, r, i);
    }
    if s.run.Running? {
      forall k | k in s.run.tasks
        ensures TaskInvariant(batch, server, k, s.run.tasks[k])
      {
        assert TaskInvariant(batch, s.server, k, s.run.tasks[k]);
        assert GroupOf(server.log, k) <= GroupOf(batch, k);
      }
    }
    if s.run == Ended(true) {
      forall k
        ensures GroupOf(server.log, k) == GroupOf(batch, k)
      {
        assert GroupOf(server.log, k) <= GroupOf(batch, k) && Applied(s.server, k) <= Applied(server, k);
        assert GroupOf(s.server.log, k) == GroupOf(batch, k);
      }
    }
  }

  /** One task moves on. */
  lemma TaskMoves(batch: seq<Request>, start: Server, s: State, k: string, task: Task)
    requires Invariant(batch, start, s) && s.run.Running? && k in s.run.tasks
    requires TaskInvariant(batch, s.server, k, task)
    requires task.Active? && !s.run.tasks[k].Active? ==> |ActiveKeys(s.run.tasks)| < CONCURRENT_REQUESTS
    ensures Invariant(batch, start, s.(run := Running(s.run.tasks[k := task])))
  {
    var tasks := s.run.tasks[k := task];
    if task.Active? && !s.run.tasks[k].Active? {
      assert ActiveKeys(tasks) == ActiveKeys(s.run.tasks) + {k};
    } else {
      assert ActiveKeys(tasks) <= ActiveKeys(s.run.tasks);
      SubsetSize(ActiveKeys(tasks), ActiveKeys(s.run.tasks));
    }
    assert tasks.Keys == s.run.tasks.Keys;
  }

  lemma SubsetSize<T>(a: set<T>, b: set<T>)
    requires a <= b
    ensures |a| <= |b|
  {
    assert b == a + (b - a);
  }

  /** More requests are left in limbo. */
  lemma LimboGrows(batch: seq<Request>, start: Server, s: State, more: set<Request>, run: RunState)
    requires Invariant(batch, start, s)
    requires forall r :: r in more ==> exists i :: Ready(batch, s.server, r, i)
    requires run == s.run || run == Ended(false)
    ensures Invariant(batch, start, s.(limbo := s.limbo + more, run := run))
  {
  }

  lemma NextIsReady(batch: seq<Request>, s: Server, k: string, done: nat)
    requires done < |GroupOf(batch, k)| && done <= Applied(s, k)
    ensures GroupOf(batch, k)[done].node == k
    ensures Ready(batch, s, GroupOf(batch, k)[done], done)
  {
    GroupMembers(batch, KeyOf, k, GroupOf(batch, k)[done]);
  }

  lemma DeliveryKeepsInvariant(batch: seq<Request>, start: Server, s: State, r: Request, i: nat)
    requires DistinctIds(batch) && Unmarked(start, batch)
    requires Invariant(batch, start, s) && Ready(batch, s.server, r, i)
    ensures Invariant(batch, start, s.(server := Deliver(s.server, r)))
    ensures i < Applied(Deliver(s.server, r), r.node)
  {
    DeliverReady(batch, start, s.server, r, i);
    ServerMoves(batch, start, s, Deliver(s.server, r));
  }

  lemma BeginKeepsInvariant(batch: seq<Request>, start: Server, s: State)
    requires Invariant(batch, start, s) && Enabled(batch, s, Begin)
    ensures Invariant(batch, start, Apply(batch, s, Begin))
  {
    var tasks := Apply(batch, s, Begin).run.tasks;
    assert ActiveKeys(tasks) == {};
  }

  lemma StopKeepsInvariant(batch: seq<Request>, start: Server, s: State)
    requires Invariant(batch, start, s) && Enabled(batch, s, Stop)
    ensures Invariant(batch, start, Apply(batch, s, Stop))
  {
    forall r | r in Outstanding(batch, s.run.tasks)
      ensures exists i :: Ready(batch, s.server, r, i)
    {
      var k :| k in s.run.tasks && InFlight(s.run.tasks[k]) && s.run.tasks[k].done < |GroupOf(batch, k)|
               && r == GroupOf(batch, k)[s.run.tasks[k].done];
      assert TaskInvariant(batch, s.server, k, s.run.tasks[k]);
      NextIsReady(batch, s.server, k, s.run.tasks[k].done);
    }
    LimboGrows(batch, start, s, Outstanding(batch, s.run.tasks), Ended(false));
  }

  lemma CompleteKeepsInvariant(batch: seq<Request>, start: Server, s: State)
    requires Invariant(batch, start, s) && Enabled(batch, s, Complete)
    ensures Invariant(batch, start, Apply(batch, s, Complete))
  {
    forall k
      ensures GroupOf(s.server.log, k) == GroupOf(batch, k)
    {
      assert GroupOf(s.server.log, k) <= GroupOf(batch, k);
      if GroupOf(batch, k) != [] {
        var r := GroupOf(batch, k)[0];
        GroupMembers(batch, KeyOf, k, r);
        assert k in s.run.tasks;
        assert TaskInvariant(batch, s.server, k, s.run.tasks[k]);
      }
    }
  }

  lemma LandKeepsInvariant(batch: seq<Request>, start: Server, s: State, k: string)
    requires DistinctIds(batch) && Unmarked(start, batch)
    requires Invariant(batch, start, s) && Enabled(batch, s, Land(k))
    ensures Invariant(batch, start, Apply(batch, s, Land(k)))
  {
    assert TaskInvariant(batch, s.server, k, s.run.tasks[k]);
    var done := s.run.tasks[k].done;
    var r := GroupOf(batch, k)[done];
    NextIsReady(batch, s.server, k, done);
    DeliveryKeepsInvariant(batch, start, s, r, done);
    TaskMoves(batch, start, s.(server := Deliver(s.server, r)), k, Active(done, Some(true)));
  }

  lemma ResendKeepsInvariant(batch: seq<Request>, start: Server, s: State, k: string)
    requires Invariant(batch, start, s) && Enabled(batch, s, Resend(k))
    ensures Invariant(batch, start, Apply(batch, s, Resend(k)))
  {
    assert TaskInvariant(batch, s.server, k, s.run.tasks[k]);
    var done := s.run.tasks[k].done;
    NextIsReady(batch, s.server, k, done);
    LimboGrows(batch, start, s, {GroupOf(batch, k)[done]}, s.run);
    TaskMoves(batch, start, s.(limbo := s.limbo + {GroupOf(batch, k)[done]}), k, Active(done, Some(false)));
  }

  lemma StepKeepsInvariant(batch: seq<Request>, start: Server, s: State, step: Step)
    requires DistinctIds(batch) && Unmarked(start, batch)
    requires Invariant(batch, start, s) && Enabled(batch, s, step)
    ensures Invariant(batch, start, Apply(batch, s, step))
  {
    match step
    case Begin => BeginKeepsInvariant(batch, start, s);
    case Activate(k) => TaskMoves(batch, start, s, k, Active(0, None));
    case Send(k) =>
      assert TaskInvariant(batch, s.server, k, s.run.tasks[k]);
      TaskMoves(batch, start, s, k, Active(s.run.tasks[k].done, Some(false)));
    case Land(k) => LandKeepsInvariant(batch, start, s, k);
    case Reply(k) =>
      assert TaskInvariant(batch, s.server, k, s.run.tasks[k]);
      assert GroupOf(s.server.log, k) <= GroupOf(batch, k);
      TaskMoves(batch, start, s, k, Active(s.run.tasks[k].done + 1, None));
    case Resend(k) => ResendKeepsInvariant(batch, start, s, k);
    case FinishGroup(k) =>
      assert TaskInvariant(batch, s.server, k, s.run.tasks[k]);
      assert GroupOf(s.server.log, k) <= GroupOf(batch, k);
      TaskMoves(batch, start, s, k, Finished);
    case Stop => StopKeepsInvariant(batch, start, s);
    case Complete => CompleteKeepsInvariant(batch, start, s);
    case LandLate(r) =>
      var i :| Ready(batch, s.server, r, i);
      DeliveryKeepsInvariant(batch, start, s, r, i);
  }

  lemma {:induction false} InvariantAlways(batch: seq<Request>, start: Server, s: State, steps: seq<Step>, t: State)
    requires DistinctIds(batch) && Unmarked(start, batch)
    requires Invariant(batch, start, s) && Run(batch, s, steps, t)
    ensures Invariant(batch, start, t)
    decreases |steps|
  {
    if steps != [] {
      StepKeepsInvariant(batch, start, s, steps[0]);
      InvariantAlways(batch, start, Apply(batch, s, steps[0]), steps[1..], t);
    }
  }

  lemma StartSatisfies(batch: seq<Request>, start: Server)
    requires start.log == []
    ensures Invariant(batch, start, State(start, {}, NoRun))
  {
  }

  // ---- the store -----------------------------------------------------------

  /** What a key holds after writes depends on that key's writes alone. */
  lemma {:induction false} WrittenAt(store: map<string, int>, log: seq<Request>, k: string)
    ensures var group := GroupOf(log, k);
            && (k in Written(store, log) <==> k in store || group != [])
            && (group != [] ==> Written(store, log)[k] == group[|group| - 1].payload)
            && (group == [] && k in store ==> Written(store, log)[k] == store[k])
  {
    if log != [] {
      WrittenAt(store, log[..|log| - 1], k);
    }
  }

  lemma SameGroupsSameStore(store: map<string, int>, a: seq<Request>, b: seq<Request>)
    requires forall k :: GroupOf(a, k) == GroupOf(b, k)
    ensures Written(store, a) == Written(store, b)
  {
    forall k
      ensures k in Written(store, a) <==> k in Written(store, b)
      ensures k in Written(store, a) ==> Written(store, a)[k] == Written(store, b)[k]
    {
      WrittenAt(store, a, k);
      WrittenAt(store, b, k);
      assert GroupOf(a, k) == GroupOf(b, k);
    }
  }

  lemma SameGroupsSameItems(a: seq<Request>, b: seq<Request>)
    requires forall k :: GroupOf(a, k) == GroupOf(b, k)
    ensures multiset(a) == multiset(b)
  {
    forall r: Request
      ensures multiset(a)[r] == multiset(b)[r]
    {
      GroupCounts(a, KeyOf, r.node, r);
      GroupCounts(b, KeyOf, r.node, r);
      assert GroupOf(a, r.node) == GroupOf(b, r.node);
    }
  }

  function Markers(items: seq<Request>): set<Marker> {
    set r | r in items :: MarkerOf(r)
  }

  lemma WrittenAppend(store: map<string, int>, log: seq<Request>, last: Request)
    ensures Written(store, log + [last]) == Written(store, log)[last.node := last.payload]
  {
    assert (log + [last])[..|log|] == log;
  }

  lemma MarkersAppend(items: seq<Request>, last: Request)
    ensures Markers(items + [last]) == Markers(items) + {MarkerOf(last)}
  {
    assert forall r :: r in items + [last] <==> r in items || r == last;
  }

  /** A clean run marks every item, and its store is that of what it applied. */
  lemma {:induction false} CleanRunState(start: Server, batch: seq<Request>)
    requires start.log == []
    ensures var end := DeliverAll(start, batch);
            && end.store == Written(start.store, end.log)
            && end.marks == start.marks + Markers(batch)
            && |end.log| <= |batch|
  {
    if batch != [] {
      var n := |batch| - 1;
      var before := DeliverAll(start, batch[..n]);
      CleanRunState(start, batch[..n]);
      assert batch == batch[..n] + [batch[n]];
      MarkersAppend(batch[..n], batch[n]);
      WrittenAppend(start.store, before.log, batch[n]);
    }
  }

  lemma DistinctAppend(start: Server, items: seq<Request>, last: Request)
    ensures DistinctIds(items + [last]) && Unmarked(start, items + [last]) <==>
            DistinctIds(items) && Unmarked(start, items) && MarkerOf(last) !in start.marks + Markers(items)
  {
    var all := items + [last];
    assert forall r :: r in all <==> r in items || r == last;
    assert forall i :: 0 <= i < |items| ==> all[i] == items[i] && MarkerOf(items[i]) in Markers(items);
    if DistinctIds(all) {
      forall r | r in items
        ensures MarkerOf(r) != MarkerOf(last)
      {
        var i :| 0 <= i < |items| && items[i] == r;
        assert MarkerOf(all[i]) != MarkerOf(all[|items|]);
      }
    }
  }

  /** A clean sequential run writes each item, in order, exactly when no item
      shares its request id with another of its key or with an earlier write. */
  lemma {:induction false} CleanRun(start: Server, batch: seq<Request>)
    requires start.log == []
    ensures DeliverAll(start, batch).log == batch <==> DistinctIds(batch) && Unmarked(start, batch)
  {
    if batch != [] {
      var n := |batch| - 1;
      var front, last := batch[..n], batch[n];
      var before := DeliverAll(start, front);
      assert batch == front + [last];
      CleanRun(start, front);
      CleanRunState(start, front);
      DistinctAppend(start, front, last);
      if MarkerOf(last) !in before.marks {
        assert before.log + [last] == batch <==> before.log == front;
      }
    }
  }

  // ---- main results --------------------------------------------------------

  lemma SameGroupsSameMarkers(a: seq<Request>, b: seq<Request>)
    requires forall k :: GroupOf(a, k) == GroupOf(b, k)
    ensures Markers(a) == Markers(b)
  {
    forall r: Request
      ensures r in a <==> r in b
    {
      GroupMembers(a, KeyOf, r.node, r);
      GroupMembers(b, KeyOf, r.node, r);
      assert GroupOf(a, r.node) == GroupOf(b, r.node);
    }
  }

  lemma SettledAsSequential(batch: seq<Request>, start: Server, s: Server)
    requires DistinctIds(batch) && Unmarked(start, batch)
    requires ServerInvariant(batch, start, s)
    requires forall k :: GroupOf(s.log, k) == GroupOf(batch, k)
    ensures s.store == DeliverAll(start, batch).store && s.marks == DeliverAll(start, batch).marks
  {
    CleanRun(start, batch);
    CleanRunState(start, batch);
    SameGroupsSameStore(start.store, s.log, batch);
    SameGroupsSameMarkers(s.log, batch);
  }

  /** Any number of runs of one batch, stopped anywhere under any schedule, with
      abandoned calls landing whenever they like: once a run reports success,
      every item has been applied exactly once, each key's in the caller's order,
      and the server is as one clean sequential run leaves it. */
  lemma ResumeConverges(batch: seq<Request>, start: Server, steps: seq<Step>, t: State)
    requires DistinctIds(batch) && Unmarked(start, batch)
    requires Run(batch, State(start, {}, NoRun), steps, t) && t.run == Ended(true)
    ensures forall k :: GroupOf(t.server.log, k) == GroupOf(batch, k)
    ensures multiset(t.server.log) == multiset(batch)
    ensures t.server.store == DeliverAll(start, batch).store
    ensures t.server.marks == DeliverAll(start, batch).marks
  {
    StartSatisfies(batch, start);
    InvariantAlways(batch, start, State(start, {}, NoRun), steps, t);
    SameGroupsSameItems(t.server.log, batch);
    SettledAsSequential(batch, start, t.server);
  }

  /** Whatever happens after that, replays and late calls included, is absorbed. */
  lemma {:induction false} NothingMoreIsApplied(batch: seq<Request>, start: Server,
                                                s: State, steps: seq<Step>, t: State)
    requires DistinctIds(batch) && Unmarked(start, batch) && Invariant(batch, start, s)
    requires forall k :: GroupOf(s.server.log, k) == GroupOf(batch, k)
    requires Run(batch, s, steps, t)
    ensures t.server == s.server
    decreases |steps|
  {
    if steps != [] {
      var step := steps[0];
      if step.Land? {
        var k := step.k;
        assert TaskInvariant(batch, s.server, k, s.run.tasks[k]);
        NextIsReady(batch, s.server, k, s.run.tasks[k].done);
        DeliverReady(batch, start, s.server, GroupOf(batch, k)[s.run.tasks[k].done], s.run.tasks[k].done);
      } else if step.LandLate? {
        var i :| Ready(batch, s.server, step.r, i);
        DeliverReady(batch, start, s.server, step.r, i);
      }
      StepKeepsInvariant(batch, start, s, step);
      NothingMoreIsApplied(batch, start, Apply(batch, s, step), steps[1..], t);
    }
  }

  /** The store such a run leaves: a key of the batch holds the payload of its
      last item, the `n`-th of all, and any other key what it held at the start. */
  lemma FinalStore(batch: seq<Request>, start: Server, steps: seq<Step>, t: State, k: string, n: nat)
    requires DistinctIds(batch) && Unmarked(start, batch)
    requires Run(batch, State(start, {}, NoRun), steps, t) && t.run == Ended(true)
    requires n <= |batch| && (n < |batch| ==> batch[n].node == k)
    requires forall m :: (if n < |batch| then n + 1 else 0) <= m < |batch| ==> batch[m].node != k
    ensures n < |batch| ==> k in t.server.store && t.server.store[k] == batch[n].payload
    ensures n == |batch| ==> (k in t.server.store <==> k in start.store)
    ensures n == |batch| && k in start.store ==> t.server.store[k] == start.store[k]
  {
    StartSatisfies(batch, start);
    InvariantAlways(batch, start, State(start, {}, NoRun), steps, t);
    assert GroupOf(t.server.log, k) == GroupOf(batch, k);
    WrittenAt(start.store, t.server.log, k);
    if n < |batch| {
      LastOfGroup(batch, k, n);
    } else if GroupOf(batch, k) != [] {
      GroupMembers(batch, KeyOf, k, GroupOf(batch, k)[0]);
    }
  }

  lemma {:induction false} LastOfGroup(items: seq<Request>, k: string, n: nat)
    requires n < |items| && items[n].node == k && forall m :: n < m < |items| ==> items[m].node != k
    ensures GroupOf(items, k) != [] && GroupOf(items, k)[|GroupOf(items, k)| - 1] == items[n]
    decreases |items|
  {
    if n < |items| - 1 {
      LastOfGroup(items[..|items| - 1], k, n);
    }
  }

  // ---- what the schedule may do --------------------------------------------

  /** A call in flight when a run stops can still land, like every call given up
      on before, and having landed once can land again. */
  lemma AbandonedCallsCanLand(batch: seq<Request>, s: State, r: Request)
    requires s.run.Running?
    requires r in s.limbo || exists k :: (k in s.run.tasks && InFlight(s.run.tasks[k])
               && s.run.tasks[k].done < |GroupOf(batch, k)| && r == GroupOf(batch, k)[s.run.tasks[k].done])
    ensures var stopped := Apply(batch, s, Stop);
            && Enabled(batch, s, Stop) && stopped.run == Ended(false) && stopped.server == s.server
            && Enabled(batch, stopped, LandLate(r))
            && Enabled(batch, Apply(batch, stopped, LandLate(r)), LandLate(r))
            && Enabled(batch, stopped, Begin) && r in Apply(batch, stopped, Begin).limbo
  {
  }

  /** A call in flight may be sent again, whether or not the first has landed; the
      first can then land on its own, and so can the second. */
  lemma CallsCanBeReplayed(batch: seq<Request>, s: State, k: string)
    requires s.run.Running? && k in s.run.tasks && InFlight(s.run.tasks[k])
    requires s.run.tasks[k].done < |GroupOf(batch, k)|
    ensures Enabled(batch, s, Resend(k)) && Apply(batch, s, Resend(k)).server == s.server
    ensures var again := Apply(batch, s, Resend(k));
            Enabled(batch, again, LandLate(GroupOf(batch, k)[s.run.tasks[k].done])) && Enabled(batch, again, Land(k))
  {
  }

  /** As long as fewer than ten groups are active, one not yet begun can be, and
      can send its first item, whatever the others are about. */
  lemma GroupsOverlap(batch: seq<Request>, s: State, k: string)
    requires s.run.Running? && k in s.run.tasks && s.run.tasks[k].NotStarted? && GroupOf(batch, k) != []
    requires |ActiveKeys(s.run.tasks)| < 10
    ensures Enabled(batch, s, Activate(k))
    ensures var begun := Apply(batch, s, Activate(k));
            && Enabled(batch, begun, Send(k)) && Apply(batch, begun, Send(k)).server == s.server
            && Apply(batch, begun, Send(k)).run == Running(s.run.tasks[k := Active(0, Some(false))])
  {
  }

  /** At most ten groups are active in any reachable state, and what the server
      has of each key is a first part of the caller's sequence. */
  lemma AlwaysOrderedAndBounded(batch: seq<Request>, start: Server, steps: seq<Step>, t: State)
    requires DistinctIds(batch) && Unmarked(start, batch)
    requires Run(batch, State(start, {}, NoRun), steps, t)
    ensures forall k :: GroupOf(t.server.log, k) <= GroupOf(batch, k)
    ensures t.run.Running? ==> |set k | k in t.run.tasks && t.run.tasks[k].Active?| <= 10
  {
    StartSatisfies(batch, start);
    InvariantAlways(batch, start, State(start, {}, NoRun), steps, t);
  }

  // ---- a run can always be finished ----------------------------------------

  lemma RunStep(batch: seq<Request>, s: State, step: Step, rest: seq<Step>, t: State)
    requires Enabled(batch, s, step) && Run(batch, Apply(batch, s, step), rest, t)
    ensures Run(batch, s, [step] + rest, t)
  {
    assert ([step] + rest)[1..] == rest;
  }

  lemma {:induction false} DriveGroup(batch: seq<Request>, s: State, k: string)
    returns (steps: seq<Step>, t: State)
    requires s.run.Running? && k in s.run.tasks
    requires s.run.tasks[k].Active? && s.run.tasks[k].call.None? && s.run.tasks[k].done <= |GroupOf(batch, k)|
    ensures Run(batch, s, steps, t) && t.run == Running(s.run.tasks[k := Finished])
    decreases |GroupOf(batch, k)| - s.run.tasks[k].done
  {
    var done := s.run.tasks[k].done;
    if done == |GroupOf(batch, k)| {
      t := Apply(batch, s, FinishGroup(k));
      RunStep(batch, s, FinishGroup(k), [], t);
      steps := [FinishGroup(k)] + [];
    } else {
      var sent := Apply(batch, s, Send(k));
      var landed := Apply(batch, sent, Land(k));
      var replied := Apply(batch, landed, Reply(k));
      steps, t := DriveGroup(batch, replied, k);
      assert replied.run.tasks[k := Finished] == s.run.tasks[k := Finished];
      RunStep(batch, landed, Reply(k), steps, t);
      RunStep(batch, sent, Land(k), [Reply(k)] + steps, t);
      RunStep(batch, s, Send(k), [Land(k)] + ([Reply(k)] + steps), t);
      steps := [Send(k)] + ([Land(k)] + ([Reply(k)] + steps));
    }
  }

  lemma {:induction false} RunThen(batch: seq<Request>, s: State, first: seq<Step>, u: State,
                                   second: seq<Step>, t: State)
    requires Run(batch, s, first, u) && Run(batch, u, second, t)
    ensures Run(batch, s, first + second, t)
    decreases |first|
  {
    if first == [] {
      assert first + second == second;
    } else {
      assert (first + second)[1..] == first[1..] + second;
      RunThen(batch, Apply(batch, s, first[0]), first[1..], u, second, t);
    }
  }

  lemma {:induction false} DriveAll(batch: seq<Request>, s: State, left: set<string>)
    returns (steps: seq<Step>, t: State)
    requires s.run.Running? && left <= s.run.tasks.Keys
    requires forall k :: k in s.run.tasks ==> s.run.tasks[k] == (if k in left then NotStarted else Finished)
    ensures Run(batch, s, steps, t) && t.run == Ended(true)
    decreases left
  {
    if left == {} {
      t := Apply(batch, s, Complete);
      RunStep(batch, s, Complete, [], t);
      steps := [Complete] + [];
    } else {
      var k :| k in left;
      assert ActiveKeys(s.run.tasks) == {};
      var started := Apply(batch, s, Activate(k));
      var group, u := DriveGroup(batch, started, k);
      assert u.run.tasks == s.run.tasks[k := Finished];
      steps, t := DriveAll(batch, u, left - {k});
      RunThen(batch, started, group, u, steps, t);
      RunStep(batch, s, Activate(k), group + steps, t);
      steps := [Activate(k)] + (group + steps);
    }
  }

  /** From any state between runs, some schedule of one more run succeeds. */
  lemma ResumeIsPossible(batch: seq<Request>, s: State) returns (steps: seq<Step>, t: State)
    requires !s.run.Running?
    ensures Run(batch, s, steps, t) && t.run == Ended(true)
  {
    var begun := Apply(batch, s, Begin);
    steps, t := DriveAll(batch, begun, begun.run.tasks.Keys);
    RunStep(batch, s, Begin, steps, t);
    steps := [Begin] + steps;
  }
}
