/**
  The registry under any number of threads. Writers take the mutex, load the snapshot, check,
  build a new table and publish it; readers load the published table at any instant and keep
  endpoints whose validity they test in two further steps. Every label is one atomic step.
 */
module Concurrency {
  import opened Segments
  import opened Patterns
  import opened Wrappers
  import opened RoutingTable
  import opened RegistryLaws
  import opened Operations

  datatype Phase =
    | Idle
    | Waiting(op: Op)
    | Entered(op: Op)
    | Loaded(op: Op, snapshot: Routes)
    | FactoryRan(op: Op, snapshot: Routes)
    | Silenced(op: Op, snapshot: Routes)
    | Ready(op: Op, next: Routes, result: Result)
    | Leaving(op: Op, result: Result)

  /** A cached endpoint: found by lookup, given its version, and past the version half of `is_valid`. */
  datatype Endpoint =
    | Looked(address: Bytes, target: Target)
    | Cached(address: Bytes, target: Target, version: nat)
    | VersionSeen(address: Bytes, target: Target, version: nat)

  /**
    `silenced` holds the slots whose sender is `None`, `hungUp` those whose receiver is gone.
    `factoryCalls` counts how often a factory ran.
   */
  datatype State = State(
    published: Routes,
    mutex: Option<nat>,
    threads: map<nat, Phase>,
    log: seq<Event>,
    factoryCalls: nat,
    silenced: set<nat>,
    hungUp: set<nat>,
    bumps: map<nat, nat>,
    endpoints: map<nat, Endpoint>)

  datatype Label =
    | Begin(thread: nat, op: Op)
    | Acquire(thread: nat)
    | Load(thread: nat)
    | Refuse(thread: nat, result: Result)
    | RunFactory(thread: nat)
    | FailFactory(thread: nat)
    | Build(thread: nat)
    | Silence(thread: nat)
    | Bump(thread: nat)
    | Publish(thread: nat)
    | Release(thread: nat)
    | Shutdown(slot: nat)
    | HangUp(slot: nat)
    | Resolve(endpoint: nat, address: Bytes)
    | ReadVersion(endpoint: nat)
    | CheckVersion(endpoint: nat)
    | CheckClosed(endpoint: nat)

  const Init: State := State(EmptyTable(), None, map[], [], 0, {}, {}, map[], map[])

  function PhaseOf(s: State, thread: nat): Phase {
    if thread in s.threads then s.threads[thread] else Idle
  }

  /** Slots start at version 1, and every removal adds one. */
  function VersionOf(s: State, slot: nat): nat {
    1 + if slot in s.bumps then s.bumps[slot] else 0
  }

  predicate Closed(s: State, slot: nat) {
    slot in s.silenced || slot in s.hungUp
  }

  /** The operation changes nothing on this table. */
  ghost predicate Declined(table: Routes, op: Op) {
    if op.Unregister? then !Owns(table, op.address, op.slot) else !CanRegister(table, op.address)
  }

  ghost predicate Enabled(s: State, l: Label) {
    match l
    case Begin(t, _) => PhaseOf(s, t).Idle?
    case Acquire(t) => PhaseOf(s, t).Waiting? && s.mutex == None
    case Load(t) => PhaseOf(s, t).Entered?
    case Refuse(t, r) =>
      var p := PhaseOf(s, t);
      p.Loaded? && Declined(p.snapshot, p.op) && Outcome(p.snapshot, p.op, r)
    case RunFactory(t) =>
      var p := PhaseOf(s, t);
      p.Loaded? && p.op.GetOrRegister? && CanRegister(p.snapshot, p.op.address)
    case FailFactory(t) =>
      var p := PhaseOf(s, t);
      p.FactoryRan? && p.op.GetOrRegister? && !p.op.factoryOk
    case Build(t) =>
      var p := PhaseOf(s, t);
      || (p.Loaded? && p.op.Register? && CanRegister(p.snapshot, p.op.address))
      || (p.FactoryRan? && p.op.GetOrRegister? && p.op.factoryOk)
    case Silence(t) =>
      var p := PhaseOf(s, t);
      p.Loaded? && p.op.Unregister? && Owns(p.snapshot, p.op.address, p.op.slot)
    case Bump(t) => PhaseOf(s, t).Silenced? && PhaseOf(s, t).op.Unregister?
    case Publish(t) => PhaseOf(s, t).Ready?
    case Release(t) => PhaseOf(s, t).Leaving?
    case Shutdown(_) => true
    case HangUp(_) => true
    case Resolve(e, address) => e !in s.endpoints && Lookup(s.published, address).Some?
    case ReadVersion(e) => e in s.endpoints && s.endpoints[e].Looked?
    case CheckVersion(e) =>
      e in s.endpoints && s.endpoints[e].Cached? && VersionOf(s, s.endpoints[e].target.slot) == s.endpoints[e].version
    case CheckClosed(e) =>
      e in s.endpoints && s.endpoints[e].VersionSeen?
  }

  function SetPhase(s: State, thread: nat, p: Phase): State {
    s.(threads := s.threads[thread := p])
  }

  function SetEndpoint(s: State, e: nat, ep: Endpoint): State {
    s.(endpoints := s.endpoints[e := ep])
  }

  ghost function Next(s: State, l: Label): State
    requires Enabled(s, l)
  {
    match l
    case Begin(t, op) => SetPhase(s, t, Waiting(op))
    case Acquire(t) => SetPhase(s, t, Entered(PhaseOf(s, t).op)).(mutex := Some(t))
    case Load(t) => SetPhase(s, t, Loaded(PhaseOf(s, t).op, s.published))
    case Refuse(t, r) =>
      SetPhase(s, t, Leaving(PhaseOf(s, t).op, r)).(log := s.log + [Event(t, PhaseOf(s, t).op, r)])
    case RunFactory(t) =>
      SetPhase(s, t, FactoryRan(PhaseOf(s, t).op, PhaseOf(s, t).snapshot)).(factoryCalls := s.factoryCalls + 1)
    case FailFactory(t) =>
      SetPhase(s, t, Leaving(PhaseOf(s, t).op, FactoryFailed)).(log := s.log + [Event(t, PhaseOf(s, t).op, FactoryFailed)])
    case Build(t) =>
      var p := PhaseOf(s, t);
      var result := if p.op.Register? then Done else Registered(p.op.target);
      SetPhase(s, t, Ready(p.op, Insert(p.snapshot, p.op.address, p.op.target), result))
    case Silence(t) =>
      var p := PhaseOf(s, t);
      SetPhase(s, t, Silenced(p.op, p.snapshot)).(silenced := s.silenced + {p.op.slot})
    case Bump(t) =>
      var p := PhaseOf(s, t);
      SetPhase(s, t, Ready(p.op, Remove(p.snapshot, p.op.address), Done)).(bumps := s.bumps[p.op.slot := VersionOf(s, p.op.slot)])
    case Publish(t) =>
      var p := PhaseOf(s, t);
      SetPhase(s, t, Leaving(p.op, p.result)).(published := p.next, log := s.log + [Event(t, p.op, p.result)])
    case Release(t) => SetPhase(s, t, Idle).(mutex := None)
    case Shutdown(slot) => s.(silenced := s.silenced + {slot}, bumps := s.bumps[slot := VersionOf(s, slot)])
    case HangUp(slot) => s.(hungUp := s.hungUp + {slot})
    case Resolve(e, address) => SetEndpoint(s, e, Looked(address, Lookup(s.published, address).value))
    case ReadVersion(e) =>
      var ep := s.endpoints[e];
      SetEndpoint(s, e, Cached(ep.address, ep.target, VersionOf(s, ep.target.slot)))
    case CheckVersion(e) =>
      var ep := s.endpoints[e];
      SetEndpoint(s, e, VersionSeen(ep.address, ep.target, ep.version))
    case CheckClosed(e) =>
      var ep := s.endpoints[e];
      SetEndpoint(s, e, Cached(ep.address, ep.target, ep.version))
  }

  /** Label `i` leads from state `i` to the next. */
  ghost predicate StepAt(states: seq<State>, labels: seq<Label>, i: nat)
    requires i < |labels| && |states| == |labels| + 1
  {
    Enabled(states[i], labels[i]) && states[i + 1] == Next(states[i], labels[i])
  }

  /** A run: states joined by labels, from the empty registry. */
  ghost predicate Run(states: seq<State>, labels: seq<Label>) {
    && |states| == |labels| + 1
    && states[0] == Init
    && forall i :: 0 <= i < |labels| ==> StepAt(states, labels, i)
  }

  // --------------------------------------------------------------- invariant

  predicate InCriticalSection(p: Phase) {
    !p.Idle? && !p.Waiting?
  }

  ghost predicate MutexInv(s: State) {
    forall t: nat :: InCriticalSection(PhaseOf(s, t)) <==> s.mutex == Some(t)
  }

  /** What the thread in the critical section knows. */
  ghost predicate PhaseInv(s: State, t: nat, p: Phase) {
    match p
    case Loaded(_, snapshot) => snapshot == s.published
    case FactoryRan(op, snapshot) => snapshot == s.published && op.GetOrRegister? && CanRegister(s.published, op.address)
    case Silenced(op, snapshot) =>
      snapshot == s.published && op.Unregister? && Owns(s.published, op.address, op.slot) && op.slot in s.silenced
    case Ready(op, next, result) =>
      && next == Apply(s.published, op)
      && Outcome(s.published, op, result)
      && (op.Unregister? ==> Owns(s.published, op.address, op.slot) && op.slot in s.silenced)
      && (!op.Unregister? ==> CanRegister(s.published, op.address))
      && (op.GetOrRegister? ==> op.factoryOk)
    case Leaving(op, result) =>
      s.log != [] && s.log[|s.log| - 1] == Event(t, op, result)
    case _ => true
  }

  ghost predicate HistoryInv(s: State) {
    s.published == Replay(s.log) && Legal(s.log)
  }

  /** How many factory runs a finished or current operation stands for. */
  function CountFactories(log: seq<Event>): nat {
    if log == [] then 0 else
      var last := log[|log| - 1].result;
      CountFactories(log[..|log| - 1]) + if last.Registered? || last.FactoryFailed? then 1 else 0
  }

  predicate FactoryPending(p: Phase) {
    p.FactoryRan? || (p.Ready? && p.op.GetOrRegister?)
  }

  predicate HolderPends(s: State) {
    s.mutex.Some? && FactoryPending(PhaseOf(s, s.mutex.value))
  }

  predicate FactoryInv(s: State) {
    s.factoryCalls == CountFactories(s.log) + if HolderPends(s) then 1 else 0
  }

  /** While a target's slot keeps its sender, the entry that routed the address to it is still there. */
  ghost predicate Rooted(s: State, address: Bytes, target: Target) {
    target.slot in s.silenced || exists k :: Route(s.published, k, target) && Covers(k, address)
  }

  ghost predicate EndpointInv(s: State) {
    forall e :: e in s.endpoints && s.endpoints[e].target.Single? && StarFree(s.endpoints[e].address) ==>
      Rooted(s, s.endpoints[e].address, s.endpoints[e].target)
  }

  ghost predicate Inv(s: State) {
    && MutexInv(s)
    && (forall t :: PhaseInv(s, t, PhaseOf(s, t)))
    && HistoryInv(s)
    && FactoryInv(s)
    && EndpointInv(s)
  }

  // ------------------------------------------------------------- preservation

  lemma StepKeepsMutex(s: State, l: Label)
    requires Inv(s) && Enabled(s, l)
    ensures MutexInv(Next(s, l))
  {
    var s' := Next(s, l);
    forall t: nat ensures InCriticalSection(PhaseOf(s', t)) <==> s'.mutex == Some(t) {
      assert InCriticalSection(PhaseOf(s, t)) <==> s.mutex == Some(t);
      if l.Release? || l.Acquire? {
        assert InCriticalSection(PhaseOf(s, l.thread)) <==> s.mutex == Some(l.thread);
      }
    }
  }

  /** The thread that takes a step, if a thread does. */
  predicate Acts(l: Label, t: nat) {
    match l
    case Begin(u, _) => t == u
    case Refuse(u, _) => t == u
    case Shutdown(_) => false
    case HangUp(_) => false
    case Resolve(_, _) => false
    case ReadVersion(_) => false
    case CheckVersion(_) => false
    case CheckClosed(_) => false
    case _ => t == l.thread
  }

  /** Publishing and logging are for the thread in the critical section alone. */
  lemma OthersKeepPhase(s: State, l: Label, t: nat)
    requires Inv(s) && Enabled(s, l) && !Acts(l, t)
    ensures PhaseInv(Next(s, l), t, PhaseOf(Next(s, l), t))
  {
    var s' := Next(s, l);
    assert PhaseInv(s, t, PhaseOf(s, t)) && PhaseOf(s', t) == PhaseOf(s, t);
    if Logs(l) {
      assert InCriticalSection(PhaseOf(s, l.thread)) <==> s.mutex == Some(l.thread);
      assert InCriticalSection(PhaseOf(s, t)) <==> s.mutex == Some(t);
    }
  }

  lemma ActorKeepsPhase(s: State, l: Label, t: nat)
    requires Inv(s) && Enabled(s, l) && Acts(l, t)
    ensures PhaseInv(Next(s, l), t, PhaseOf(Next(s, l), t))
  {
    assert PhaseInv(s, t, PhaseOf(s, t));
  }

  lemma StepKeepsPhases(s: State, l: Label, t: nat)
    requires Inv(s) && Enabled(s, l)
    ensures PhaseInv(Next(s, l), t, PhaseOf(Next(s, l), t))
  {
    if Acts(l, t) {
      ActorKeepsPhase(s, l, t);
    } else {
      OthersKeepPhase(s, l, t);
    }
  }

  /** The logged operation, applied to the published table, gives the table published next. */
  lemma LoggedIsApplied(s: State, l: Label)
    requires Inv(s) && Enabled(s, l) && Logs(l)
    ensures
      var e := Next(s, l).log[|s.log|];
      && Next(s, l).log == s.log + [e]
      && Outcome(s.published, e.op, e.result)
      && Next(s, l).published == Apply(s.published, e.op)
  {
    assert PhaseInv(s, l.thread, PhaseOf(s, l.thread));
  }

  lemma StepKeepsHistory(s: State, l: Label)
    requires Inv(s) && Enabled(s, l)
    ensures HistoryInv(Next(s, l))
  {
    if Logs(l) {
      LoggedIsApplied(s, l);
      LegalSnoc(s.log, Next(s, l).log[|s.log|]);
    }
  }

  predicate Logs(l: Label) {
    l.Refuse? || l.FailFactory? || l.Publish?
  }

  /** A logged operation turns a pending factory run into a counted one. */
  lemma LoggingKeepsFactories(s: State, l: Label)
    requires Inv(s) && Enabled(s, l) && Logs(l)
    ensures FactoryInv(Next(s, l))
  {
    var t := l.thread;
    var s' := Next(s, l);
    assert s'.log[..|s.log|] == s.log;
    assert InCriticalSection(PhaseOf(s, t)) <==> s.mutex == Some(t);
    assert PhaseInv(s, t, PhaseOf(s, t));
  }

  /** Any other step of a thread leaves the log, and changes what is pending only by running a factory. */
  lemma QuietKeepsFactories(s: State, l: Label, t: nat)
    requires Inv(s) && Enabled(s, l) && Acts(l, t) && !Logs(l)
    ensures FactoryInv(Next(s, l))
  {
    assert InCriticalSection(PhaseOf(s, t)) <==> s.mutex == Some(t);
    assert PhaseInv(s, t, PhaseOf(s, t));
  }

  lemma StepKeepsFactories(s: State, l: Label)
    requires Inv(s) && Enabled(s, l)
    ensures FactoryInv(Next(s, l))
  {
    if Logs(l) {
      LoggingKeepsFactories(s, l);
    } else if t :| Acts(l, t) {
      QuietKeepsFactories(s, l, t);
    }
  }

  /** An entry other than the one a removal takes stays, and so does its route. */
  lemma RoutePersists(table: Routes, op: Op, k: Bytes, target: Target)
    requires Valid(table) && Route(table, k, target)
    requires op.Unregister? && Owns(table, op.address, op.slot) ==> target.slot != op.slot
    ensures Route(Apply(table, op), k, target)
  {
    if Apply(table, op) != table {
      if op.Unregister? {
        RouteOwn(table, k, target);
        RouteOfRemove(table, op.address, k, target);
      } else {
        InsertKeepsRoute(table, op.address, op.target, k, target);
      }
    }
  }

  lemma InsertKeepsRoute(table: Routes, address: Bytes, new': Target, k: Bytes, target: Target)
    requires CanRegister(table, address) && Route(table, k, target)
    ensures Route(Insert(table, address, new'), k, target)
  {
    if i :| 0 <= i < |table.singles| && table.singles[i] == (k, target) {
      assert Insert(table, address, new').singles[i] == (k, target);
    }
  }

  lemma RouteOwn(table: Routes, k: Bytes, target: Target)
    requires Valid(table) && Route(table, k, target)
    ensures OwnEntry(table, k) == Some(target)
  {
    if i :| 0 <= i < |table.singles| && table.singles[i] == (k, target) {
      SinglesUnique(table, i);
    }
  }

  lemma SinglesUnique<T>(table: Table<T>, i: nat)
    requires Valid(table) && i < |table.singles|
    ensures FindSingle(table.singles, table.singles[i].0) == Some(table.singles[i].1)
  {
    var key := table.singles[i].0;
    OverlapSelf(key);
    assert forall j :: 0 <= j < |table.singles| && j != i ==> table.singles[j].0 != key;
  }

  lemma PublishKeepsRoute(s: State, l: Label, k: Bytes, target: Target)
    requires Inv(s) && Enabled(s, l) && l.Publish? && Route(s.published, k, target) && target.slot !in s.silenced
    ensures Route(Apply(s.published, PhaseOf(s, l.thread).op), k, target)
    ensures Next(s, l).published == Apply(s.published, PhaseOf(s, l.thread).op)
  {
    ReplayValid(s.log);
    assert PhaseInv(s, l.thread, PhaseOf(s, l.thread));
    RoutePersists(s.published, PhaseOf(s, l.thread).op, k, target);
  }

  lemma OnlyPublishPublishes(s: State, l: Label)
    requires Enabled(s, l)
    ensures !l.Publish? ==> Next(s, l).published == s.published
    ensures s.silenced <= Next(s, l).silenced
  {
  }

  /** A route stays, or its slot loses its sender. */
  lemma RouteStays(s: State, l: Label, k: Bytes, target: Target)
    requires Inv(s) && Enabled(s, l) && Route(s.published, k, target)
    ensures Route(Next(s, l).published, k, target) || target.slot in Next(s, l).silenced
  {
    OnlyPublishPublishes(s, l);
    if l.Publish? && target.slot !in s.silenced {
      PublishKeepsRoute(s, l, k, target);
    }
  }

  lemma RootedStays(s: State, l: Label, address: Bytes, target: Target)
    requires Inv(s) && Enabled(s, l) && Rooted(s, address, target)
    ensures Rooted(Next(s, l), address, target)
  {
    if target.slot !in s.silenced {
      var k :| Route(s.published, k, target) && Covers(k, address);
      RouteStays(s, l, k, target);
    }
  }

  /** What a lookup gives is rooted, and while it keeps its sender a lookup gives it again. */
  lemma RootedIsLookup(s: State, address: Bytes, target: Target)
    requires Inv(s) && StarFree(address)
    ensures Lookup(s.published, address) == Some(target) ==> Rooted(s, address, target)
    ensures Rooted(s, address, target) && target.slot !in s.silenced ==> Lookup(s.published, address) == Some(target)
  {
    ReplayValid(s.log);
    LookupRefines(s.published, address, target);
  }

  lemma StepKeepsEndpoints(s: State, l: Label)
    requires Inv(s) && Enabled(s, l)
    ensures EndpointInv(Next(s, l))
  {
    var s' := Next(s, l);
    forall e | e in s'.endpoints && s'.endpoints[e].target.Single? && StarFree(s'.endpoints[e].address)
      ensures Rooted(s', s'.endpoints[e].address, s'.endpoints[e].target)
    {
      var ep := s'.endpoints[e];
      if e !in s.endpoints {
        RootedIsLookup(s, ep.address, ep.target);
      }
      RootedStays(s, l, ep.address, ep.target);
    }
  }

  lemma StepKeepsInv(s: State, l: Label)
    requires Inv(s) && Enabled(s, l)
    ensures Inv(Next(s, l))
  {
    StepKeepsMutex(s, l);
    forall t ensures PhaseInv(Next(s, l), t, PhaseOf(Next(s, l), t)) {
      StepKeepsPhases(s, l, t);
    }
    StepKeepsHistory(s, l);
    StepKeepsFactories(s, l);
    StepKeepsEndpoints(s, l);
  }

  lemma {:induction false} RunKeepsInv(states: seq<State>, labels: seq<Label>, i: nat)
    requires Run(states, labels) && i < |states|
    ensures Inv(states[i])
  {
    if i > 0 {
      RunKeepsInv(states, labels, i - 1);
      assert StepAt(states, labels, i - 1);
      StepKeepsInv(states[i - 1], labels[i - 1]);
    }
  }

  /** A slot's version only grows, and a slot once closed stays closed. */
  lemma SlotsAge(s: State, l: Label, slot: nat)
    requires Enabled(s, l)
    ensures VersionOf(s, slot) <= VersionOf(Next(s, l), slot)
    ensures Closed(s, slot) ==> Closed(Next(s, l), slot)
  {
  }

  // ------------------------------------------------------------------ results

  /**
    In every interleaving the published table is the one left by the logged operations run one
    at a time, each with the result it would have had alone, and the table is valid.
   */
  lemma Linearizable(states: seq<State>, labels: seq<Label>, i: nat)
    requires Run(states, labels) && i < |states|
    ensures states[i].published == Replay(states[i].log) && Legal(states[i].log) && Valid(states[i].published)
  {
    RunKeepsInv(states, labels, i);
    ReplayValid(states[i].log);
  }

  /** What has been logged stays logged, at the same place. */
  lemma {:induction false} LogGrows(states: seq<State>, labels: seq<Label>, i: nat, j: nat)
    requires Run(states, labels) && i <= j < |states|
    ensures states[i].log <= states[j].log
    decreases j
  {
    if i < j {
      LogGrows(states, labels, i, j - 1);
      assert StepAt(states, labels, j - 1);
      StepGrows(states[j - 1], labels[j - 1]);
    }
  }

  lemma StepGrows(s: State, l: Label)
    requires Enabled(s, l)
    ensures s.log <= Next(s, l).log
  {
  }

  /** An operation leaves the critical section as the last one logged, with its thread and result. */
  lemma ResultIsLogged(states: seq<State>, labels: seq<Label>, i: nat, t: nat)
    requires Run(states, labels) && i < |states| && PhaseOf(states[i], t).Leaving?
    ensures states[i].mutex == Some(t)
    ensures
      var s, p := states[i], PhaseOf(states[i], t);
      s.log != [] && s.log[|s.log| - 1] == Event(t, p.op, p.result)
  {
    RunKeepsInv(states, labels, i);
    assert PhaseInv(states[i], t, PhaseOf(states[i], t));
    assert InCriticalSection(PhaseOf(states[i], t)) <==> states[i].mutex == Some(t);
  }

  /** The logged operations of a thread, with their results. */
  function EventsOf(log: seq<Event>, t: nat): seq<(Op, Result)> {
    EventsUpTo(log, |log|, t)
  }

  function EventsUpTo(log: seq<Event>, n: nat, t: nat): seq<(Op, Result)>
    requires n <= |log|
  {
    if n == 0 then []
    else EventsUpTo(log, n - 1, t) + if log[n - 1].thread == t then [(log[n - 1].op, log[n - 1].result)] else []
  }

  lemma {:induction false} EventsUpToSnoc(log: seq<Event>, e: Event, n: nat, t: nat)
    requires n <= |log|
    ensures EventsUpTo(log + [e], n, t) == EventsUpTo(log, n, t)
  {
    if n > 0 {
      EventsUpToSnoc(log, e, n - 1, t);
    }
  }

  lemma EventsOfSnoc(log: seq<Event>, e: Event, t: nat)
    ensures EventsOf(log + [e], t) == EventsOf(log, t) + if e.thread == t then [(e.op, e.result)] else []
  {
    EventsUpToSnoc(log, e, |log|, t);
  }

  function AtExit(p: Phase): seq<(Op, Result)> {
    if p.Leaving? then [(p.op, p.result)] else []
  }

  /** The operations that a thread has begun and returned from by step `i`, with the results it returned. */
  function Returned(states: seq<State>, labels: seq<Label>, i: nat, t: nat): seq<(Op, Result)>
    requires i <= |labels| && i <= |states|
  {
    if i == 0 then []
    else Returned(states, labels, i - 1, t) + Returns(states[i - 1], labels[i - 1], t)
  }

  /** The operations that a thread has begun by step `i`. */
  function Begun(labels: seq<Label>, i: nat, t: nat): seq<Op>
    requires i <= |labels|
  {
    if i == 0 then []
    else Begun(labels, i - 1, t) + Begins(labels[i - 1], t)
  }

  function OpsOf(calls: seq<(Op, Result)>): seq<Op> {
    seq(|calls|, i requires 0 <= i < |calls| => calls[i].0)
  }

  function UnderWay(p: Phase): seq<Op> {
    if p.Idle? then [] else [p.op]
  }

  /** What the step makes the thread return. */
  function Returns(s: State, l: Label, t: nat): seq<(Op, Result)> {
    if l == Release(t) then AtExit(PhaseOf(s, t)) else []
  }

  function Begins(l: Label, t: nat): seq<Op> {
    if l.Begin? && l.thread == t then [l.op] else []
  }

  lemma StepOfThread(s: State, l: Label, t: nat)
    requires Enabled(s, l)
    ensures
      var p, p' := PhaseOf(s, t), PhaseOf(Next(s, l), t);
      && (if Logs(l) && l.thread == t then AtExit(p) == []
          else AtExit(p) == Returns(s, l, t) + AtExit(p'))
      && UnderWay(p) + Begins(l, t) == OpsOf(Returns(s, l, t)) + UnderWay(p')
  {
  }

  /** Whoever logs an operation is about to leave with it. */
  lemma LogsOnLeaving(s: State, l: Label)
    requires Enabled(s, l) && Logs(l)
    ensures
      var p' := PhaseOf(Next(s, l), l.thread);
      p'.Leaving? && Next(s, l).log == s.log + [Event(l.thread, p'.op, p'.result)]
  {
  }

  lemma StepLogs(s: State, l: Label, t: nat)
    requires Enabled(s, l)
    ensures
      var s' := Next(s, l);
      EventsOf(s'.log, t) == EventsOf(s.log, t) + if Logs(l) && l.thread == t then AtExit(PhaseOf(s', t)) else []
  {
    if Logs(l) {
      var p' := PhaseOf(Next(s, l), l.thread);
      LogsOnLeaving(s, l);
      EventsOfSnoc(s.log, Event(l.thread, p'.op, p'.result), t);
    }
  }

  lemma StepLosesNothing(s: State, l: Label, t: nat, returned: seq<(Op, Result)>)
    requires Enabled(s, l)
    requires EventsOf(s.log, t) == returned + AtExit(PhaseOf(s, t))
    ensures EventsOf(Next(s, l).log, t) == returned + Returns(s, l, t) + AtExit(PhaseOf(Next(s, l), t))
  {
    StepLogs(s, l, t);
    StepOfThread(s, l, t);
    if Logs(l) && l.thread == t {
      assert Returns(s, l, t) == [];
    } else {
      Regroup(returned, Returns(s, l, t), AtExit(PhaseOf(Next(s, l), t)));
    }
  }

  lemma StepReturnsBegun(s: State, l: Label, t: nat, begun: seq<Op>, returned: seq<(Op, Result)>)
    requires Enabled(s, l)
    requires begun == OpsOf(returned) + UnderWay(PhaseOf(s, t))
    ensures begun + Begins(l, t) == OpsOf(returned + Returns(s, l, t)) + UnderWay(PhaseOf(Next(s, l), t))
  {
    StepOfThread(s, l, t);
    Regroup(OpsOf(returned), UnderWay(PhaseOf(s, t)), Begins(l, t));
    Regroup(OpsOf(returned), OpsOf(Returns(s, l, t)), UnderWay(PhaseOf(Next(s, l), t)));
    assert OpsOf(returned + Returns(s, l, t)) == OpsOf(returned) + OpsOf(Returns(s, l, t));
  }

  /** What is logged for the thread is what it returned from, and what it is just leaving. */
  ghost predicate Accounted(states: seq<State>, labels: seq<Label>, i: nat, t: nat)
    requires i < |states| && i <= |labels|
  {
    EventsOf(states[i].log, t) == Returned(states, labels, i, t) + AtExit(PhaseOf(states[i], t))
  }

  lemma AccountedAtFirst(states: seq<State>, labels: seq<Label>, t: nat)
    requires Run(states, labels)
    ensures Accounted(states, labels, 0, t)
  {
    assert PhaseOf(Init, t) == Idle;
  }

  lemma AccountedNext(states: seq<State>, labels: seq<Label>, i: nat, t: nat)
    requires Run(states, labels) && i < |labels| && Accounted(states, labels, i, t)
    ensures Accounted(states, labels, i + 1, t)
  {
    assert StepAt(states, labels, i);
    StepLosesNothing(states[i], labels[i], t, Returned(states, labels, i, t));
  }

  lemma {:induction false} LoggedIsReturned(states: seq<State>, labels: seq<Label>, i: nat, t: nat)
    requires Run(states, labels) && i < |states|
    ensures Accounted(states, labels, i, t)
    decreases i
  {
    if i == 0 {
      AccountedAtFirst(states, labels, t);
    } else {
      LoggedIsReturned(states, labels, i - 1, t);
      AccountedNext(states, labels, i - 1, t);
    }
  }

  lemma {:induction false} ReturnedIsBegun(states: seq<State>, labels: seq<Label>, i: nat, t: nat)
    requires Run(states, labels) && i < |states|
    ensures Begun(labels, i, t) == OpsOf(Returned(states, labels, i, t)) + UnderWay(PhaseOf(states[i], t))
  {
    if i > 0 {
      ReturnedIsBegun(states, labels, i - 1, t);
      assert StepAt(states, labels, i - 1);
      StepReturnsBegun(states[i - 1], labels[i - 1], t, Begun(labels, i - 1, t), Returned(states, labels, i - 1, t));
    }
  }

  /**
    No update is lost: the operations logged for a thread are exactly those it returned from, in
    order and with the results it returned, and the one it is just leaving; and what it returned
    from is what it began, but for the one under way.
   */
  lemma NoUpdateIsLost(states: seq<State>, labels: seq<Label>, i: nat, t: nat)
    requires Run(states, labels) && i < |states|
    ensures EventsOf(states[i].log, t) == Returned(states, labels, i, t) + AtExit(PhaseOf(states[i], t))
    ensures Begun(labels, i, t) == OpsOf(Returned(states, labels, i, t)) + UnderWay(PhaseOf(states[i], t))
  {
    LoggedIsReturned(states, labels, i, t);
    ReturnedIsBegun(states, labels, i, t);
  }

  lemma {:induction false} ReturnedGrows(states: seq<State>, labels: seq<Label>, i: nat, j: nat, t: nat)
    requires |states| == |labels| + 1 && i <= j <= |labels|
    ensures |Returned(states, labels, i, t)| <= |Returned(states, labels, j, t)|
    decreases j
  {
    if i < j {
      ReturnedGrows(states, labels, i, j - 1, t);
    }
  }

  lemma PrefixOrSame<A>(a: seq<A>, b: seq<A>)
    requires a <= b
    ensures a < b || a == b
  {
    if |a| == |b| {
      assert a == b[..|a|];
    }
  }

  /** An operation takes effect between its beginning and its end: the order of the log respects real time. */
  lemma TakesEffectDuringCall(states: seq<State>, labels: seq<Label>, i: nat, j: nat, t: nat)
    requires Run(states, labels) && i <= j < |states|
    requires PhaseOf(states[i], t).Idle? && PhaseOf(states[j], t).Leaving?
    ensures states[i].log < states[j].log
    ensures states[j].log[|states[j].log| - 1] == Event(t, PhaseOf(states[j], t).op, PhaseOf(states[j], t).result)
  {
    LogGrows(states, labels, i, j);
    NoUpdateIsLost(states, labels, i, t);
    NoUpdateIsLost(states, labels, j, t);
    ReturnedGrows(states, labels, i, j, t);
    PrefixOrSame(states[i].log, states[j].log);
    ResultIsLogged(states, labels, j, t);
  }

  function CountRegistered(log: seq<Event>): nat {
    if log == [] then 0
    else CountRegistered(log[..|log| - 1]) + if log[|log| - 1].result.Registered? then 1 else 0
  }

  lemma {:induction false} CountWithoutFailures(log: seq<Event>)
    requires forall i :: 0 <= i < |log| ==> !log[i].result.FactoryFailed?
    ensures CountFactories(log) == CountRegistered(log)
  {
    if log != [] {
      CountWithoutFailures(log[..|log| - 1]);
    }
  }

  /** When no factory fails, factories run once for every `Registered` result and never otherwise. */
  lemma FactoryRunsOncePerRegistration(states: seq<State>, labels: seq<Label>, i: nat)
    requires Run(states, labels) && i < |states| && states[i].mutex == None
    requires forall k :: 0 <= k < |states[i].log| ==> !states[i].log[k].result.FactoryFailed?
    ensures states[i].factoryCalls == CountRegistered(states[i].log)
  {
    RunKeepsInv(states, labels, i);
    CountWithoutFailures(states[i].log);
  }

  /** In every interleaving, two registrations of one address have its removal between them. */
  lemma RegistrationsSeparatedInRun(states: seq<State>, labels: seq<Label>, n: nat, i: nat, j: nat, address: Bytes)
    requires Run(states, labels) && n < |states| && i < j < |states[n].log|
    requires Takes(states[n].log[i], address) && Takes(states[n].log[j], address)
    ensures exists k :: i < k < j && Removes(Replay(states[n].log[..k]), states[n].log[k].op, address)
  {
    RunKeepsInv(states, labels, n);
    RegistrationsSeparated(states[n].log, i, j, address);
  }

  /**
    Cache coherence: when a cached endpoint of an exclusive target passes the closed half of
    `is_valid`, a fresh lookup of its address at that very instant gives the same target.
   */
  lemma CacheCoherence(states: seq<State>, labels: seq<Label>, i: nat, e: nat)
    requires Run(states, labels) && i < |labels| && StepAt(states, labels, i) && labels[i] == CheckClosed(e)
    requires
      var ep := states[i].endpoints[e];
      ep.target.Single? && StarFree(ep.address) && !Closed(states[i], ep.target.slot)
    ensures Lookup(states[i].published, states[i].endpoints[e].address) == Some(states[i].endpoints[e].target)
  {
    var s := states[i];
    var ep := s.endpoints[e];
    RunKeepsInv(states, labels, i);
    RootedIsLookup(s, ep.address, ep.target);
  }

  lemma RouteStaysAt(states: seq<State>, labels: seq<Label>, i: nat, k: Bytes, target: Target)
    requires Run(states, labels) && i < |labels|
    requires Route(states[i].published, k, target) || target.slot in states[i].silenced
    ensures Route(states[i + 1].published, k, target) || target.slot in states[i + 1].silenced
  {
    RunKeepsInv(states, labels, i);
    assert StepAt(states, labels, i);
    if Route(states[i].published, k, target) {
      RouteStays(states[i], labels[i], k, target);
    }
  }

  /** In every run a route is there until its slot has lost its sender. */
  lemma {:induction false} RouteOutlivesNoSlot(states: seq<State>, labels: seq<Label>, i: nat, j: nat, k: Bytes, target: Target)
    requires Run(states, labels) && i <= j < |states| && Route(states[i].published, k, target)
    ensures Route(states[j].published, k, target) || target.slot in states[j].silenced
    decreases j
  {
    if i < j {
      RouteOutlivesNoSlot(states, labels, i, j - 1, k, target);
      RouteStaysAt(states, labels, j - 1, k, target);
    }
  }

  // ------------------------------------------------------------- reply routing

  /** `address` is bound to the client's slot, and nobody is about to remove that binding. */
  ghost predicate ClientLives(s: State, address: Bytes, slot: nat) {
    && StarFree(address)
    && OwnEntry(s.published, address) == Some(Single(slot))
    && forall t :: PhaseOf(s, t).Idle? || PhaseOf(s, t).op != Unregister(address, slot)
  }

  lemma StepKeepsClient(s: State, l: Label, address: Bytes, slot: nat)
    requires Inv(s) && Enabled(s, l) && ClientLives(s, address, slot)
    requires !(l.Begin? && l.op == Unregister(address, slot))
    ensures ClientLives(Next(s, l), address, slot)
  {
    var s' := Next(s, l);
    if l.Publish? {
      var op := PhaseOf(s, l.thread).op;
      assert PhaseInv(s, l.thread, PhaseOf(s, l.thread));
      EntryPersists(s.published, op, address);
    }
    forall t ensures PhaseOf(s', t).Idle? || PhaseOf(s', t).op != Unregister(address, slot) {
      assert PhaseOf(s, t).Idle? || PhaseOf(s, t).op != Unregister(address, slot);
    }
  }

  lemma ClientLivesAt(states: seq<State>, labels: seq<Label>, i: nat, address: Bytes, slot: nat)
    requires Run(states, labels) && i < |labels| && ClientLives(states[i], address, slot)
    requires !(labels[i].Begin? && labels[i].op == Unregister(address, slot))
    ensures ClientLives(states[i + 1], address, slot)
  {
    RunKeepsInv(states, labels, i);
    assert StepAt(states, labels, i);
    StepKeepsClient(states[i], labels[i], address, slot);
  }

  lemma {:induction false} ClientLivesOn(states: seq<State>, labels: seq<Label>, i: nat, j: nat, address: Bytes, slot: nat)
    requires Run(states, labels) && i <= j < |states| && ClientLives(states[i], address, slot)
    requires forall k :: i <= k < j ==> !(labels[k].Begin? && labels[k].op == Unregister(address, slot))
    ensures ClientLives(states[j], address, slot)
    decreases j
  {
    if i < j {
      ClientLivesOn(states, labels, i, j - 1, address, slot);
      ClientLivesAt(states, labels, j - 1, address, slot);
    }
  }

  /**
    From the moment a client's address is bound until its own handle starts to unregister,
    a lookup of that address gives the client's reply slot, whatever the other threads do.
   */
  lemma RepliesReachTheClient(states: seq<State>, labels: seq<Label>, i: nat, j: nat, address: Bytes, slot: nat)
    requires Run(states, labels) && i <= j < |states| && ClientLives(states[i], address, slot)
    requires forall k :: i <= k < j ==> !(labels[k].Begin? && labels[k].op == Unregister(address, slot))
    ensures Lookup(states[j].published, address) == Some(Single(slot))
  {
    ClientLivesOn(states, labels, i, j, address, slot);
  }
}
