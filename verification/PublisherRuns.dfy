/** What the publisher's cache holds over whole runs, that callers never block each other for ever, and a run that hits. */
module PublisherRuns {
  import opened Segments
  import opened Wrappers
  import opened Patterns
  import opened RoutingTable
  import opened Operations
  import Broker = Concurrency
  import opened PublisherCache

  // ------------------------------------------------------- what the cache holds

  /** What was returned by the last store before step `i`, if the cache has not been emptied since. */
  ghost function LastStored(states: seq<State>, labels: seq<Label>, i: nat): Option<Endpoint>
    requires i <= |labels| && i <= |states|
  {
    if i == 0 then None
    else
      match labels[i - 1]
      case Store(c) => Returns(states[i - 1], labels[i - 1], c)
      case Invalidate => None
      case _ => LastStored(states, labels, i - 1)
  }

  lemma CacheStep(s: State, l: Label)
    requires Enabled(s, l)
    ensures Next(s, l).cache ==
      match l
      case Store(c) => Returns(s, l, c)
      case Invalidate => None
      case _ => s.cache
  {
  }

  /** In every run the cache holds what was stored last, and nothing after it was emptied. */
  lemma {:induction false} CacheIsLastStored(address: Bytes, states: seq<State>, labels: seq<Label>, i: nat)
    requires Run(address, states, labels) && i < |states|
    ensures states[i].cache == LastStored(states, labels, i)
  {
    if i > 0 {
      CacheIsLastStored(address, states, labels, i - 1);
      assert StepAt(states, labels, i - 1);
      CacheStep(states[i - 1], labels[i - 1]);
    }
  }

  /** Whether a group has request senders of consumers before step `i`: after the last of its joins and leaves. */
  function HasConsumers(labels: seq<Label>, i: nat, group: nat): bool
    requires i <= |labels|
  {
    i > 0 &&
    if labels[i - 1] == Join(group) then true
    else if labels[i - 1] == Leave(group) then false
    else HasConsumers(labels, i - 1, group)
  }

  lemma JoinedStep(s: State, l: Label, group: nat)
    requires Enabled(s, l)
    ensures group in Next(s, l).joined <==> l == Join(group) || (group in s.joined && l != Leave(group))
  {
  }

  lemma {:induction false} GroupIsOpen(address: Bytes, states: seq<State>, labels: seq<Label>, i: nat, group: nat, slot: nat)
    requires Run(address, states, labels) && i < |states|
    ensures Closed(states[i], LoadBalanced(group, slot)) <==> !HasConsumers(labels, i, group)
  {
    if i > 0 {
      GroupIsOpen(address, states, labels, i - 1, group, slot);
      assert StepAt(states, labels, i - 1);
      JoinedStep(states[i - 1], labels[i - 1], group);
    }
  }

  /** The shutdowns of a group before step `i`. */
  function CountBumps(labels: seq<Label>, i: nat, group: nat): nat
    requires i <= |labels|
  {
    if i == 0 then 0 else CountBumps(labels, i - 1, group) + if labels[i - 1] == BumpGroup(group) then 1 else 0
  }

  lemma BumpStep(s: State, l: Label, group: nat, slot: nat)
    requires Enabled(s, l)
    ensures VersionOf(Next(s, l), LoadBalanced(group, slot)) ==
      VersionOf(s, LoadBalanced(group, slot)) + if l == BumpGroup(group) then 1 else 0
  {
  }

  /** A group's version counts its shutdowns, from 1. */
  lemma {:induction false} GroupVersionCounts(address: Bytes, states: seq<State>, labels: seq<Label>, i: nat, group: nat, slot: nat)
    requires Run(address, states, labels) && i < |states|
    ensures VersionOf(states[i], LoadBalanced(group, slot)) == 1 + CountBumps(labels, i, group)
  {
    if i > 0 {
      GroupVersionCounts(address, states, labels, i - 1, group, slot);
      assert StepAt(states, labels, i - 1);
      BumpStep(states[i - 1], labels[i - 1], group, slot);
    }
  }

  /** A cached endpoint is answered with only at an instant at which there is somebody to receive. */
  lemma HitIsReal(address: Bytes, states: seq<State>, labels: seq<Label>, i: nat, c: nat)
    requires Run(address, states, labels) && i < |labels| && labels[i] in {FastHit(c), SecondHit(c), ThirdHit(c)}
    ensures states[i].cache.Some?
    ensures
      var target := states[i].cache.value.target;
      if target.Single? then target.slot !in states[i].broker.silenced && target.slot !in states[i].broker.hungUp
      else HasConsumers(labels, i, target.group)
  {
    assert StepAt(states, labels, i);
    if states[i].cache.value.target.LoadBalanced? {
      GroupIsOpen(address, states, labels, i, states[i].cache.value.target.group, states[i].cache.value.target.slot);
    }
  }

  /** What is cached is not to be used: there is nothing, it has an old version, or its target is closed. */
  predicate Unusable(s: State) {
    s.cache.Some? ==>
      match s.cache.value.target
      case Single(slot) =>
        || Broker.VersionOf(s.broker, slot) != s.cache.value.version
        || slot in s.broker.silenced || slot in s.broker.hungUp
      case LoadBalanced(group, _) =>
        || s.cache.value.version != 1 + (if group in s.groupBumps then s.groupBumps[group] else 0)
        || group !in s.joined
  }

  /** A caller passes the cache by, or overwrites it, only at an instant at which it is not to be used. */
  lemma MissIsReal(address: Bytes, states: seq<State>, labels: seq<Label>, i: nat, c: nat)
    requires Run(address, states, labels) && i < |labels| && labels[i] in {FastMiss(c), SecondMiss(c), Store(c)}
    ensures Unusable(states[i])
  {
    assert StepAt(states, labels, i);
  }

  // ------------------------------------------------------------------ progress

  /** Only a lock held by somebody else keeps a caller from its next step. */
  predicate Blocked(s: State, c: nat) {
    (PhaseOf(s, c).Resolved? && (s.upgrader.Some? || s.writer.Some?)) || (PhaseOf(s, c).Upgrading? && s.readers != {})
  }

  lemma CheckGoesOn(s: State, p: Phase)
    requires Checks(p)
    ensures Hits(s, p) || Misses(s, p) || (!p.current && CacheIsCurrent(s))
  {
  }

  lemma UnblockedMoves(s: State, c: nat) returns (l: Label)
    requires !PhaseOf(s, c).Out? && !Blocked(s, c)
    ensures Acts(l, c) && Enabled(s, l)
  {
    var p := PhaseOf(s, c);
    if Checks(p) {
      CheckGoesOn(s, p);
    }
    match p
    case Reading(_) => l := if Misses(s, p) then FastMiss(c) else if Hits(s, p) then FastHit(c) else CheckVersion(c);
    case Resolving => l := if Lookup(s.broker.published, s.address).Some? then LookUp(c) else LookupFails(c);
    case Looked(_) => l := ReadVersion(c);
    case Resolved(_) => l := LockUpgradable(c);
    case Upgradable(_, _) => l := if Misses(s, p) then SecondMiss(c) else if Hits(s, p) then SecondHit(c) else CheckVersion(c);
    case Upgrading(_) => l := Upgrade(c);
    case Writing(_, _) => l := if Misses(s, p) then Store(c) else if Hits(s, p) then ThirdHit(c) else CheckVersion(c);
  }

  lemma UnblockerExists(s: State, c: nat) returns (d: nat)
    requires Inv(s) && Blocked(s, c)
    ensures !PhaseOf(s, d).Out? && !Blocked(s, d)
  {
    if s.readers != {} {
      d :| d in s.readers;
    } else if s.writer.Some? {
      d := s.writer.value;
      assert PhaseOf(s, d).Writing?;
    } else {
      d := s.upgrader.value;
      assert PhaseOf(s, d).Upgradable? || PhaseOf(s, d).Upgrading?;
    }
  }

  /** No deadlock: as long as a call is going on, that caller or one that it waits for can step. */
  lemma NobodyIsStuck(address: Bytes, states: seq<State>, labels: seq<Label>, i: nat, c: nat) returns (d: nat, l: Label)
    requires Run(address, states, labels) && i < |states| && !PhaseOf(states[i], c).Out?
    ensures Acts(l, d) && Enabled(states[i], l) && !PhaseOf(states[i], d).Out?
    ensures !Blocked(states[i], c) ==> d == c
  {
    d := c;
    if Blocked(states[i], c) {
      RunKeepsInv(address, states, labels, i);
      d := UnblockerExists(states[i], c);
    }
    l := UnblockedMoves(states[i], d);
  }

  // -------------------------------------------------------------- a run that hits

  const A: Bytes := [97]
  const T: Target := Single(5)

  lemma Extend(address: Bytes, states: seq<State>, labels: seq<Label>, l: Label)
    returns (states': seq<State>, labels': seq<Label>)
    requires Run(address, states, labels) && Enabled(states[|labels|], l)
    ensures states' == states + [Next(states[|labels|], l)] && labels' == labels + [l]
    ensures Run(address, states', labels')
  {
    states', labels' := states + [Next(states[|labels|], l)], labels + [l];
    assert forall i :: 0 <= i < |labels| ==> StepAt(states, labels, i) ==> StepAt(states', labels', i);
  }

  lemma CanRegisterA()
    ensures CanRegister(EmptyTable<Target>(), A) && Lookup(Insert(EmptyTable(), A, T), A) == Some(T)
  {
  }

  /** A broker that has done nothing but what thread 0 is doing, under a new publisher. */
  predicate Working(s: State, phase: Broker.Phase, published: Routes, log: seq<Event>) {
    && s == Init(A).(broker := s.broker)
    && s.broker == Broker.Init.(mutex := Some(0), threads := map[0 := phase], published := published, log := log)
  }

  lemma Loads() returns (states: seq<State>, labels: seq<Label>)
    ensures Run(A, states, labels) && |labels| == 3
    ensures Working(states[3], Broker.Loaded(Register(A, T), EmptyTable()), EmptyTable(), [])
  {
    states, labels := Extend(A, [Init(A)], [], Elsewhere(Broker.Begin(0, Register(A, T))));
    states, labels := Extend(A, states, labels, Elsewhere(Broker.Acquire(0)));
    states, labels := Extend(A, states, labels, Elsewhere(Broker.Load(0)));
    assert states[3].broker.threads == map[0 := Broker.Loaded(Register(A, T), EmptyTable())];
  }

  lemma Publishes(states: seq<State>, labels: seq<Label>) returns (states': seq<State>, labels': seq<Label>)
    requires Run(A, states, labels) && |labels| == 3
    requires Working(states[3], Broker.Loaded(Register(A, T), EmptyTable()), EmptyTable(), [])
    ensures Run(A, states', labels') && |labels'| == 5
    ensures Working(states'[5], Broker.Leaving(Register(A, T), Done), Insert(EmptyTable(), A, T), [Event(0, Register(A, T), Done)])
  {
    CanRegisterA();
    states', labels' := Extend(A, states, labels, Elsewhere(Broker.Build(0)));
    states', labels' := Extend(A, states', labels', Elsewhere(Broker.Publish(0)));
    assert states'[5].broker.threads == map[0 := Broker.Leaving(Register(A, T), Done)];
  }

  /** One thread registers the exclusive target of slot 5. */
  lemma Registers() returns (states: seq<State>, labels: seq<Label>)
    ensures Run(A, states, labels) && |labels| == 6
    ensures var s := states[6]; Ready(s) && Quiet(s) && s.cache == None
  {
    states, labels := Loads();
    states, labels := Publishes(states, labels);
    states, labels := Extend(A, states, labels, Elsewhere(Broker.Release(0)));
  }

  /** The registered target's slot is as new. */
  predicate Ready(s: State) {
    && s.address == A && s.broker.published == Insert(EmptyTable(), A, T)
    && 5 !in s.broker.silenced && 5 !in s.broker.hungUp && 5 !in s.broker.bumps
  }

  predicate Quiet(s: State) {
    s.readers == {} && s.upgrader == None && s.writer == None && PhaseOf(s, 1).Out?
  }

  /** Nobody holds a lock on the cache. */
  predicate Unlocked(s: State) {
    s.readers == {} && s.upgrader == None && s.writer == None
  }

  lemma MissesFirst(states: seq<State>, labels: seq<Label>) returns (states': seq<State>, labels': seq<Label>)
    requires Run(A, states, labels)
    requires var s := states[|labels|]; Ready(s) && Quiet(s) && s.cache == None
    ensures Run(A, states', labels') && |labels'| == |labels| + 2
    ensures var s := states'[|labels'|]; Ready(s) && Unlocked(s) && s.cache == None && PhaseOf(s, 1) == Resolving
  {
    states', labels' := Extend(A, states, labels, Enter(1));
    states', labels' := Extend(A, states', labels', FastMiss(1));
  }

  lemma Resolves(states: seq<State>, labels: seq<Label>) returns (states': seq<State>, labels': seq<Label>)
    requires Run(A, states, labels)
    requires var s := states[|labels|]; Ready(s) && Unlocked(s) && s.cache == None && PhaseOf(s, 1) == Resolving
    ensures Run(A, states', labels') && |labels'| == |labels| + 2
    ensures
      var s := states'[|labels'|];
      Ready(s) && Unlocked(s) && s.cache == None && PhaseOf(s, 1) == Resolved(Endpoint(T, 1))
  {
    CanRegisterA();
    states', labels' := Extend(A, states, labels, LookUp(1));
    states', labels' := Extend(A, states', labels', ReadVersion(1));
  }

  lemma DecidesToWrite(states: seq<State>, labels: seq<Label>) returns (states': seq<State>, labels': seq<Label>)
    requires Run(A, states, labels)
    requires
      var s := states[|labels|];
      Ready(s) && Unlocked(s) && s.cache == None && PhaseOf(s, 1) == Resolved(Endpoint(T, 1))
    ensures Run(A, states', labels') && |labels'| == |labels| + 2
    ensures
      var s := states'[|labels'|];
      Ready(s) && s.readers == {} && s.upgrader == Some(1) && s.writer == None && s.cache == None
      && PhaseOf(s, 1) == Upgrading(Endpoint(T, 1))
  {
    states', labels' := Extend(A, states, labels, LockUpgradable(1));
    states', labels' := Extend(A, states', labels', SecondMiss(1));
  }

  lemma Stores(states: seq<State>, labels: seq<Label>) returns (states': seq<State>, labels': seq<Label>)
    requires Run(A, states, labels)
    requires
      var s := states[|labels|];
      Ready(s) && s.readers == {} && s.upgrader == Some(1) && s.writer == None && s.cache == None
      && PhaseOf(s, 1) == Upgrading(Endpoint(T, 1))
    ensures Run(A, states', labels') && |labels'| == |labels| + 2
    ensures var s := states'[|labels'|]; Ready(s) && Quiet(s) && s.cache == Some(Endpoint(T, 1))
  {
    states', labels' := Extend(A, states, labels, Upgrade(1));
    states', labels' := Extend(A, states', labels', Store(1));
  }

  /**
    The hot path is taken: after a registration, a first call resolves and stores the target, and a
    second call is answered from the cache without a lookup.
   */
  lemma SecondCallHits() returns (states: seq<State>, labels: seq<Label>)
    ensures Run(A, states, labels) && |labels| == 17
    ensures labels[14..] == [Enter(1), CheckVersion(1), FastHit(1)]
    ensures Returns(states[16], labels[16], 1) == Some(Endpoint(T, 1))
  {
    states, labels := Registers();
    states, labels := MissesFirst(states, labels);
    states, labels := Resolves(states, labels);
    states, labels := DecidesToWrite(states, labels);
    states, labels := Stores(states, labels);
    states, labels := Extend(A, states, labels, Enter(1));
    states, labels := Extend(A, states, labels, CheckVersion(1));
    states, labels := Extend(A, states, labels, FastHit(1));
  }
}
