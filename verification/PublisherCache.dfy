/**
  The publisher's endpoint cache, on top of the concurrent registry, under any number of callers:
  a shared read, a resolution outside the lock, an upgradable read, and a write. A validity check
  takes two steps, first the version, then the closed flag. Every label is one atomic step.
 */
module PublisherCache {
  import opened Segments
  import opened Wrappers
  import opened Patterns
  import opened RoutingTable
  import opened Operations
  import Broker = Concurrency

  /** A routing target with the version it had when it was resolved. */
  datatype Endpoint = Endpoint(target: Target, version: nat)

  /** `current` once the version of the cached endpoint has been found unchanged in this check. */
  datatype Phase =
    | Out
    | Reading(current: bool)
    | Resolving
    | Looked(target: Target)
    | Resolved(ep: Endpoint)
    | Upgradable(ep: Endpoint, current: bool)
    | Upgrading(ep: Endpoint)
    | Writing(ep: Endpoint, current: bool)

  /** `joined` holds the groups that have request senders of consumers. */
  datatype State = State(
    address: Bytes,
    broker: Broker.State,
    joined: set<nat>,
    groupBumps: map<nat, nat>,
    cache: Option<Endpoint>,
    callers: map<nat, Phase>,
    readers: set<nat>,
    upgrader: Option<nat>,
    writer: Option<nat>)

  datatype Label =
    | Elsewhere(step: Broker.Label)
    | Join(group: nat)
    | Leave(group: nat)
    | BumpGroup(group: nat)
    | Enter(caller: nat)
    | CheckVersion(caller: nat)
    | FastHit(caller: nat)
    | FastMiss(caller: nat)
    | LookUp(caller: nat)
    | LookupFails(caller: nat)
    | ReadVersion(caller: nat)
    | LockUpgradable(caller: nat)
    | SecondHit(caller: nat)
    | SecondMiss(caller: nat)
    | Upgrade(caller: nat)
    | ThirdHit(caller: nat)
    | Store(caller: nat)
    | Invalidate

  function Init(address: Bytes): State {
    State(address, Broker.Init, {}, map[], None, map[], {}, None, None)
  }

  function PhaseOf(s: State, c: nat): Phase {
    if c in s.callers then s.callers[c] else Out
  }

  function VersionOf(s: State, target: Target): nat {
    match target
    case Single(slot) => Broker.VersionOf(s.broker, slot)
    case LoadBalanced(group, _) => 1 + if group in s.groupBumps then s.groupBumps[group] else 0
  }

  /** A slot is closed for good; a group is closed while no consumer holds a request sender. */
  predicate Closed(s: State, target: Target) {
    match target
    case Single(slot) => Broker.Closed(s.broker, slot)
    case LoadBalanced(group, _) => group !in s.joined
  }

  predicate CacheIsCurrent(s: State) {
    s.cache.Some? && VersionOf(s, s.cache.value.target) == s.cache.value.version
  }

  predicate Checks(p: Phase) {
    p.Reading? || p.Upgradable? || p.Writing?
  }

  /** The closed half of the check passes; the version half did before. */
  predicate Hits(s: State, p: Phase) {
    Checks(p) && p.current && s.cache.Some? && !Closed(s, s.cache.value.target)
  }

  predicate Misses(s: State, p: Phase) {
    Checks(p) && (s.cache.None? || if p.current then Closed(s, s.cache.value.target) else !CacheIsCurrent(s))
  }

  ghost predicate Enabled(s: State, l: Label) {
    match l
    case Elsewhere(step) => Broker.Enabled(s.broker, step)
    case Join(_) => true
    case Leave(_) => true
    case BumpGroup(_) => true
    case Enter(c) => PhaseOf(s, c).Out? && s.writer == None
    case CheckVersion(c) => Checks(PhaseOf(s, c)) && !PhaseOf(s, c).current && CacheIsCurrent(s)
    case FastHit(c) => PhaseOf(s, c).Reading? && Hits(s, PhaseOf(s, c))
    case FastMiss(c) => PhaseOf(s, c).Reading? && Misses(s, PhaseOf(s, c))
    case LookUp(c) => PhaseOf(s, c).Resolving? && Lookup(s.broker.published, s.address).Some?
    case LookupFails(c) => PhaseOf(s, c).Resolving? && Lookup(s.broker.published, s.address) == None
    case ReadVersion(c) => PhaseOf(s, c).Looked?
    case LockUpgradable(c) => PhaseOf(s, c).Resolved? && s.upgrader == None && s.writer == None
    case SecondHit(c) => PhaseOf(s, c).Upgradable? && Hits(s, PhaseOf(s, c))
    case SecondMiss(c) => PhaseOf(s, c).Upgradable? && Misses(s, PhaseOf(s, c))
    case Upgrade(c) => PhaseOf(s, c).Upgrading? && s.readers == {}
    case ThirdHit(c) => PhaseOf(s, c).Writing? && Hits(s, PhaseOf(s, c))
    case Store(c) => PhaseOf(s, c).Writing? && Misses(s, PhaseOf(s, c))
    case Invalidate => s.readers == {} && s.upgrader == None && s.writer == None
  }

  function Move(s: State, c: nat, p: Phase): State {
    s.(callers := s.callers[c := p])
  }

  ghost function Next(s: State, l: Label): State
    requires Enabled(s, l)
  {
    match l
    case Elsewhere(step) => s.(broker := Broker.Next(s.broker, step))
    case Join(group) => s.(joined := s.joined + {group})
    case Leave(group) => s.(joined := s.joined - {group})
    case BumpGroup(group) =>
      s.(groupBumps := s.groupBumps[group := 1 + if group in s.groupBumps then s.groupBumps[group] else 0])
    case Enter(c) => Move(s, c, Reading(false)).(readers := s.readers + {c})
    case CheckVersion(c) => Move(s, c, PhaseOf(s, c).(current := true))
    case FastHit(c) => Move(s, c, Out).(readers := s.readers - {c})
    case FastMiss(c) => Move(s, c, Resolving).(readers := s.readers - {c})
    case LookUp(c) => Move(s, c, Looked(Lookup(s.broker.published, s.address).value))
    case LookupFails(c) => Move(s, c, Out)
    case ReadVersion(c) => Move(s, c, Resolved(Endpoint(PhaseOf(s, c).target, VersionOf(s, PhaseOf(s, c).target))))
    case LockUpgradable(c) => Move(s, c, Upgradable(PhaseOf(s, c).ep, false)).(upgrader := Some(c))
    case SecondHit(c) => Move(s, c, Out).(upgrader := None)
    case SecondMiss(c) => Move(s, c, Upgrading(PhaseOf(s, c).ep))
    case Upgrade(c) => Move(s, c, Writing(PhaseOf(s, c).ep, false)).(upgrader := None, writer := Some(c))
    case ThirdHit(c) => Move(s, c, Out).(writer := None)
    case Store(c) => Move(s, c, Out).(cache := Some(PhaseOf(s, c).ep), writer := None)
    case Invalidate => s.(cache := None)
  }

  /** What the step returns from the caller's call. */
  function Returns(s: State, l: Label, c: nat): Option<Endpoint> {
    if l == Store(c) && HasEndpoint(PhaseOf(s, c)) then Some(PhaseOf(s, c).ep)
    else if l == FastHit(c) || l == SecondHit(c) || l == ThirdHit(c) then s.cache
    else None
  }

  /** Label `i` leads from state `i` to the next. */
  ghost predicate StepAt(states: seq<State>, labels: seq<Label>, i: nat)
    requires i < |labels| && |states| == |labels| + 1
  {
    Enabled(states[i], labels[i]) && states[i + 1] == Next(states[i], labels[i])
  }

  ghost predicate Run(address: Bytes, states: seq<State>, labels: seq<Label>) {
    && |states| == |labels| + 1
    && states[0] == Init(address)
    && forall i :: 0 <= i < |labels| ==> StepAt(states, labels, i)
  }

  // --------------------------------------------------------------- invariant

  predicate HasEndpoint(p: Phase) {
    p.Resolved? || p.Upgradable? || p.Upgrading? || p.Writing?
  }

  ghost predicate LockInv(s: State) {
    && (forall c: nat :: s.upgrader == Some(c) <==> PhaseOf(s, c).Upgradable? || PhaseOf(s, c).Upgrading?)
    && (forall c: nat :: s.writer == Some(c) <==> PhaseOf(s, c).Writing?)
    && (forall c: nat :: c in s.readers <==> PhaseOf(s, c).Reading?)
    && (s.writer.Some? ==> s.upgrader.None? && s.readers == {})
  }

  /** The entry that routed the publisher's address to this slot is there, or the slot lost its sender. */
  ghost predicate Traced(s: State, target: Target) {
    target.Single? && StarFree(s.address) ==> Broker.Rooted(s.broker, s.address, target)
  }

  /** Versions only grow after an endpoint was made. */
  ghost predicate Sound(s: State, ep: Endpoint) {
    Traced(s, ep.target) && ep.version <= VersionOf(s, ep.target)
  }

  ghost predicate PhaseInv(s: State, p: Phase) {
    && (p.Looked? ==> Traced(s, p.target))
    && (HasEndpoint(p) ==> Sound(s, p.ep))
  }

  ghost predicate Inv(s: State) {
    && Broker.Inv(s.broker)
    && LockInv(s)
    && (s.cache.Some? ==> Sound(s, s.cache.value))
    && forall c: nat :: PhaseInv(s, PhaseOf(s, c))
  }

  /** The caller that takes a step, if a caller does. */
  predicate Acts(l: Label, c: nat) {
    !l.Elsewhere? && !l.Join? && !l.Leave? && !l.BumpGroup? && !l.Invalidate? && l.caller == c
  }

  lemma OthersStay(s: State, l: Label, c: nat)
    requires Enabled(s, l) && !Acts(l, c)
    ensures PhaseOf(Next(s, l), c) == PhaseOf(s, c)
  {
  }

  lemma StepKeepsLocks(s: State, l: Label)
    requires LockInv(s) && Enabled(s, l)
    ensures LockInv(Next(s, l))
  {
    forall c: nat | !Acts(l, c) ensures PhaseOf(Next(s, l), c) == PhaseOf(s, c) {
      OthersStay(s, l, c);
    }
  }

  /** No version ever goes down, and a slot once closed stays closed. */
  lemma TargetsAge(s: State, l: Label, target: Target)
    requires Enabled(s, l)
    ensures VersionOf(s, target) <= VersionOf(Next(s, l), target)
    ensures target.Single? && Closed(s, target) ==> Closed(Next(s, l), target)
  {
    if l.Elsewhere? {
      Broker.SlotsAge(s.broker, l.step, target.slot);
    } else {
      assert Next(s, l).broker == s.broker;
    }
  }

  lemma TracedStays(s: State, l: Label, target: Target)
    requires Broker.Inv(s.broker) && Enabled(s, l) && Traced(s, target)
    ensures Traced(Next(s, l), target)
  {
    if l.Elsewhere? && target.Single? && StarFree(s.address) {
      Broker.RootedStays(s.broker, l.step, s.address, target);
    }
  }

  lemma SoundStays(s: State, l: Label, ep: Endpoint)
    requires Broker.Inv(s.broker) && Enabled(s, l) && Sound(s, ep)
    ensures Sound(Next(s, l), ep)
  {
    TracedStays(s, l, ep.target);
    TargetsAge(s, l, ep.target);
  }

  lemma PhaseStays(s: State, l: Label, p: Phase)
    requires Broker.Inv(s.broker) && Enabled(s, l) && PhaseInv(s, p)
    ensures PhaseInv(Next(s, l), p)
  {
    if p.Looked? {
      TracedStays(s, l, p.target);
    }
    if HasEndpoint(p) {
      SoundStays(s, l, p.ep);
    }
  }

  lemma LookupIsTraced(s: State, target: Target)
    requires Broker.Inv(s.broker) && Lookup(s.broker.published, s.address) == Some(target)
    ensures Traced(s, target)
  {
    if StarFree(s.address) {
      Broker.RootedIsLookup(s.broker, s.address, target);
    }
  }

  /** The phase a caller moves to is already in order in the state it leaves. */
  lemma ActorIsSound(s: State, l: Label, c: nat)
    requires Broker.Inv(s.broker) && PhaseInv(s, PhaseOf(s, c)) && Enabled(s, l) && Acts(l, c)
    ensures PhaseInv(s, PhaseOf(Next(s, l), c))
  {
    if l.LookUp? {
      LookupIsTraced(s, Lookup(s.broker.published, s.address).value);
    }
  }

  lemma StepKeepsPhases(s: State, l: Label, c: nat)
    requires Inv(s) && Enabled(s, l)
    ensures PhaseInv(Next(s, l), PhaseOf(Next(s, l), c))
  {
    if Acts(l, c) {
      ActorIsSound(s, l, c);
    } else {
      OthersStay(s, l, c);
    }
    PhaseStays(s, l, PhaseOf(Next(s, l), c));
  }

  lemma StepKeepsCache(s: State, l: Label)
    requires Inv(s) && Enabled(s, l) && Next(s, l).cache.Some?
    ensures Sound(Next(s, l), Next(s, l).cache.value)
  {
    if l.Store? {
      assert PhaseInv(s, PhaseOf(s, l.caller));
    }
    SoundStays(s, l, Next(s, l).cache.value);
  }

  lemma StepKeepsBroker(s: State, l: Label)
    requires Inv(s) && Enabled(s, l)
    ensures Broker.Inv(Next(s, l).broker) && Next(s, l).address == s.address
  {
    if l.Elsewhere? {
      Broker.StepKeepsInv(s.broker, l.step);
    }
  }

  lemma StepKeepsInv(s: State, l: Label)
    requires Inv(s) && Enabled(s, l)
    ensures Inv(Next(s, l)) && Next(s, l).address == s.address
  {
    StepKeepsBroker(s, l);
    StepKeepsLocks(s, l);
    if Next(s, l).cache.Some? {
      StepKeepsCache(s, l);
    }
    forall c: nat ensures PhaseInv(Next(s, l), PhaseOf(Next(s, l), c)) {
      StepKeepsPhases(s, l, c);
    }
  }

  lemma {:induction false} RunKeepsInv(address: Bytes, states: seq<State>, labels: seq<Label>, i: nat)
    requires Run(address, states, labels) && i < |states|
    ensures Inv(states[i]) && states[i].address == address
  {
    if i > 0 {
      RunKeepsInv(address, states, labels, i - 1);
      InvStaysAt(address, states, labels, i - 1);
    }
  }

  lemma InvStaysAt(address: Bytes, states: seq<State>, labels: seq<Label>, i: nat)
    requires Run(address, states, labels) && i < |labels| && Inv(states[i])
    ensures Inv(states[i + 1]) && states[i + 1].address == states[i].address
  {
    assert StepAt(states, labels, i);
    StepKeepsInv(states[i], labels[i]);
  }

  // ----------------------------------------------------------- fresh answers

  /**
    The hot path has the recipient of the cold path: when a cached endpoint of an exclusive target
    is returned, a lookup of the publisher's address at that very instant gives the same target.
   */
  lemma HitIsFresh(address: Bytes, states: seq<State>, labels: seq<Label>, i: nat, c: nat)
    requires Run(address, states, labels) && i < |labels| && StarFree(address)
    requires labels[i] in {FastHit(c), SecondHit(c), ThirdHit(c)}
    requires Returns(states[i], labels[i], c).Some? && Returns(states[i], labels[i], c).value.target.Single?
    ensures Lookup(states[i].broker.published, address) == Some(Returns(states[i], labels[i], c).value.target)
  {
    var s := states[i];
    RunKeepsInv(address, states, labels, i);
    assert StepAt(states, labels, i);
    assert Sound(s, s.cache.value);
    Broker.RootedIsLookup(s.broker, address, s.cache.value.target);
  }

  // ------------------------------------------------------------ within a call

  /** The caller's call that began with step `a` is still going on in state `i`. */
  ghost predicate InCall(states: seq<State>, labels: seq<Label>, a: nat, i: nat, c: nat) {
    && a < i < |states| && a < |labels|
    && labels[a] == Enter(c)
    && forall k :: a < k <= i ==> !PhaseOf(states[k], c).Out?
  }

  lemma {:induction false} CallBegan(address: Bytes, states: seq<State>, labels: seq<Label>, i: nat, c: nat) returns (a: nat)
    requires Run(address, states, labels) && i < |states| && !PhaseOf(states[i], c).Out?
    ensures InCall(states, labels, a, i, c)
  {
    assert StepAt(states, labels, i - 1);
    if PhaseOf(states[i - 1], c).Out? {
      OnlyEnterBegins(states[i - 1], labels[i - 1], c);
      a := i - 1;
    } else {
      a := CallBegan(address, states, labels, i - 1, c);
    }
  }

  lemma OnlyEnterBegins(s: State, l: Label, c: nat)
    requires Enabled(s, l) && PhaseOf(s, c).Out? && !PhaseOf(Next(s, l), c).Out?
    ensures l == Enter(c)
  {
    if !Acts(l, c) {
      OthersStay(s, l, c);
    }
  }

  /** A step of the caller in step `k`, since when the caller has been in its call, lies within that call. */
  lemma WithinCall(address: Bytes, states: seq<State>, labels: seq<Label>, a: nat, k: nat, i: nat, c: nat)
    requires Run(address, states, labels) && InCall(states, labels, a, i, c) && k < i
    requires labels[k] != Enter(c) && forall n :: k < n <= i ==> !PhaseOf(states[n], c).Out?
    ensures a < k
  {
    assert StepAt(states, labels, a);
  }

  /** Whoever holds a lock on the cache sees it unchanged. */
  lemma CacheIsFrozen(s: State, l: Label, c: nat)
    requires LockInv(s) && Enabled(s, l) && !Acts(l, c)
    requires Checks(PhaseOf(s, c)) || PhaseOf(s, c).Upgrading?
    ensures Next(s, l).cache == s.cache
  {
    assert s.writer == Some(c) || s.upgrader == Some(c) || c in s.readers;
  }

  lemma OthersChangeNothing(address: Bytes, states: seq<State>, labels: seq<Label>, i: nat, c: nat)
    requires Run(address, states, labels) && i < |labels| && !Acts(labels[i], c)
    ensures PhaseOf(states[i + 1], c) == PhaseOf(states[i], c)
    ensures Checks(PhaseOf(states[i], c)) || PhaseOf(states[i], c).Upgrading? ==> states[i + 1].cache == states[i].cache
  {
    assert StepAt(states, labels, i);
    OthersStay(states[i], labels[i], c);
    RunKeepsInv(address, states, labels, i);
    if Checks(PhaseOf(states[i], c)) || PhaseOf(states[i], c).Upgrading? {
      CacheIsFrozen(states[i], labels[i], c);
    }
  }

  /** In step `v` the caller found the version of what is still cached in state `i` unchanged. */
  ghost predicate CurrentAt(states: seq<State>, labels: seq<Label>, v: nat, i: nat, c: nat) {
    && v < i < |states| && v < |labels|
    && labels[v] == CheckVersion(c) && CacheIsCurrent(states[v])
    && states[v].cache == states[i].cache
    && forall k :: v < k <= i ==> PhaseOf(states[k], c) == PhaseOf(states[i], c)
  }

  lemma BecomesCurrent(s: State, l: Label, c: nat)
    requires Enabled(s, l) && Acts(l, c) && Checks(PhaseOf(Next(s, l), c)) && PhaseOf(Next(s, l), c).current
    ensures l == CheckVersion(c) && CacheIsCurrent(s) && Next(s, l).cache == s.cache
  {
  }

  lemma {:induction false} VersionWasCurrent(address: Bytes, states: seq<State>, labels: seq<Label>, i: nat, c: nat)
    returns (v: nat)
    requires Run(address, states, labels) && i < |states|
    requires Checks(PhaseOf(states[i], c)) && PhaseOf(states[i], c).current
    ensures CurrentAt(states, labels, v, i, c)
  {
    assert StepAt(states, labels, i - 1);
    if Acts(labels[i - 1], c) {
      BecomesCurrent(states[i - 1], labels[i - 1], c);
      v := i - 1;
    } else {
      OthersChangeNothing(address, states, labels, i - 1, c);
      v := VersionWasCurrent(address, states, labels, i - 1, c);
    }
  }

  /** The endpoint came from a lookup of the address in step `r` and got its version in step `w`. */
  ghost predicate ResolvedAt(states: seq<State>, labels: seq<Label>, r: nat, w: nat, c: nat, ep: Endpoint) {
    && r < w < |labels| && w < |states|
    && labels[r] == LookUp(c) && Lookup(states[r].broker.published, states[r].address) == Some(ep.target)
    && labels[w] == ReadVersion(c) && VersionOf(states[w], ep.target) == ep.version
  }

  ghost predicate LookedAt(states: seq<State>, labels: seq<Label>, r: nat, i: nat, c: nat) {
    && r < i < |states| && r < |labels| && PhaseOf(states[i], c).Looked?
    && labels[r] == LookUp(c) && Lookup(states[r].broker.published, states[r].address) == Some(PhaseOf(states[i], c).target)
    && forall k :: r < k <= i ==> !PhaseOf(states[k], c).Out?
  }

  lemma BecomesLooked(s: State, l: Label, c: nat)
    requires Enabled(s, l) && Acts(l, c) && PhaseOf(Next(s, l), c).Looked?
    ensures l == LookUp(c) && Lookup(s.broker.published, s.address) == Some(PhaseOf(Next(s, l), c).target)
  {
  }

  lemma {:induction false} WasLookedUp(address: Bytes, states: seq<State>, labels: seq<Label>, i: nat, c: nat)
    returns (r: nat)
    requires Run(address, states, labels) && i < |states| && PhaseOf(states[i], c).Looked?
    ensures LookedAt(states, labels, r, i, c)
  {
    assert StepAt(states, labels, i - 1);
    if Acts(labels[i - 1], c) {
      BecomesLooked(states[i - 1], labels[i - 1], c);
      r := i - 1;
    } else {
      OthersStay(states[i - 1], labels[i - 1], c);
      r := WasLookedUp(address, states, labels, i - 1, c);
    }
  }

  lemma BecomesResolved(s: State, l: Label, c: nat)
    requires Enabled(s, l) && Acts(l, c) && HasEndpoint(PhaseOf(Next(s, l), c))
    ensures
      var ep := PhaseOf(Next(s, l), c).ep;
      if HasEndpoint(PhaseOf(s, c)) then PhaseOf(s, c).ep == ep
      else l == ReadVersion(c) && PhaseOf(s, c) == Looked(ep.target) && VersionOf(s, ep.target) == ep.version
  {
  }

  /** An endpoint is kept, or just made from a target and its version. */
  lemma EndpointFrom(address: Bytes, states: seq<State>, labels: seq<Label>, i: nat, c: nat)
    requires Run(address, states, labels) && i < |labels| && HasEndpoint(PhaseOf(states[i + 1], c))
    ensures
      var p, ep := PhaseOf(states[i], c), PhaseOf(states[i + 1], c).ep;
      if HasEndpoint(p) then p.ep == ep
      else labels[i] == ReadVersion(c) && p == Looked(ep.target) && VersionOf(states[i], ep.target) == ep.version
  {
    assert StepAt(states, labels, i);
    if Acts(labels[i], c) {
      BecomesResolved(states[i], labels[i], c);
    } else {
      OthersStay(states[i], labels[i], c);
    }
  }

  lemma {:induction false} WasResolved(address: Bytes, states: seq<State>, labels: seq<Label>, i: nat, c: nat)
    returns (r: nat, w: nat)
    requires Run(address, states, labels) && i < |states| && HasEndpoint(PhaseOf(states[i], c))
    ensures ResolvedAt(states, labels, r, w, c, PhaseOf(states[i], c).ep) && w < i
    ensures forall k :: r < k <= i ==> !PhaseOf(states[k], c).Out?
  {
    assert i > 0;
    EndpointFrom(address, states, labels, i - 1, c);
    if HasEndpoint(PhaseOf(states[i - 1], c)) {
      r, w := WasResolved(address, states, labels, i - 1, c);
    } else {
      w := i - 1;
      r := WasLookedUp(address, states, labels, i - 1, c);
    }
  }

  /** From step `a` to step `i` the caller looked the endpoint's target up and then read its version. */
  ghost predicate ResolvedBetween(states: seq<State>, labels: seq<Label>, a: nat, i: nat, c: nat, ep: Endpoint) {
    exists r: nat, w: nat :: a < r && w < i && ResolvedAt(states, labels, r, w, c, ep)
  }

  /** From step `a` on the caller found the version unchanged, and in step `i` the target open. */
  ghost predicate ValidBetween(states: seq<State>, labels: seq<Label>, a: nat, i: nat, c: nat, ep: Endpoint)
    requires i < |states| && i <= |labels|
  {
    && !Closed(states[i], ep.target)
    && exists v: nat :: a < v < i && labels[v] == CheckVersion(c) && VersionOf(states[v], ep.target) == ep.version
  }

  /**
    In every run, an endpoint that a call returns was resolved by that very call, or it was found
    valid by it: its version was unchanged at one instant of the call, and at the last it was open.
   */
  lemma ReturnedWasSeen(address: Bytes, states: seq<State>, labels: seq<Label>, i: nat, c: nat) returns (a: nat)
    requires Run(address, states, labels) && i < |labels| && Returns(states[i], labels[i], c).Some?
    ensures InCall(states, labels, a, i, c)
    ensures
      var ep := Returns(states[i], labels[i], c).value;
      if labels[i] == Store(c) then ResolvedBetween(states, labels, a, i, c, ep) else ValidBetween(states, labels, a, i, c, ep)
  {
    assert StepAt(states, labels, i);
    a := CallBegan(address, states, labels, i, c);
    if labels[i] == Store(c) {
      var r, w := WasResolved(address, states, labels, i, c);
      WithinCall(address, states, labels, a, r, i, c);
    } else {
      var v := VersionWasCurrent(address, states, labels, i, c);
      WithinCall(address, states, labels, a, v, i, c);
    }
  }

  /** The cache only ever holds what a lookup of the publisher's own address gave earlier. */
  lemma {:induction false} CacheIsOwn(address: Bytes, states: seq<State>, labels: seq<Label>, i: nat)
    returns (r: nat, w: nat, c: nat)
    requires Run(address, states, labels) && i < |states| && states[i].cache.Some?
    ensures w < i && ResolvedAt(states, labels, r, w, c, states[i].cache.value) && states[r].address == address
  {
    assert StepAt(states, labels, i - 1);
    if labels[i - 1].Store? {
      c := labels[i - 1].caller;
      r, w := WasResolved(address, states, labels, i - 1, c);
      AddressStays(address, states, labels, r);
    } else {
      OnlyStoreFills(states[i - 1], labels[i - 1]);
      r, w, c := CacheIsOwn(address, states, labels, i - 1);
    }
  }

  lemma AddressStays(address: Bytes, states: seq<State>, labels: seq<Label>, i: nat)
    requires Run(address, states, labels) && i < |states|
    ensures states[i].address == address
  {
    RunKeepsInv(address, states, labels, i);
  }

  lemma OnlyStoreFills(s: State, l: Label)
    requires Enabled(s, l) && !l.Store? && Next(s, l).cache.Some?
    ensures s.cache == Next(s, l).cache
  {
  }

  // ---------------------------------------------------------- the third check

  predicate Waits(p: Phase) {
    p.Upgrading? || p.Writing?
  }

  /** Since it missed in step `b`, the caller has been waiting to write, and the cache is as it was then. */
  ghost predicate WaitsSince(states: seq<State>, labels: seq<Label>, b: nat, i: nat, c: nat) {
    && b < i < |states| && b < |labels|
    && labels[b] == SecondMiss(c) && states[b].cache == states[i].cache
    && forall k :: b < k <= i ==> Waits(PhaseOf(states[k], c))
  }

  lemma BeginsToWait(s: State, l: Label, c: nat)
    requires Enabled(s, l) && Acts(l, c) && Waits(PhaseOf(Next(s, l), c))
    ensures l == SecondMiss(c) || Waits(PhaseOf(s, c))
    ensures Next(s, l).cache == s.cache
  {
  }

  lemma {:induction false} MissedBefore(address: Bytes, states: seq<State>, labels: seq<Label>, i: nat, c: nat)
    returns (b: nat)
    requires Run(address, states, labels) && i < |states| && Waits(PhaseOf(states[i], c))
    ensures WaitsSince(states, labels, b, i, c)
  {
    assert StepAt(states, labels, i - 1);
    if Acts(labels[i - 1], c) {
      BeginsToWait(states[i - 1], labels[i - 1], c);
    } else {
      OthersChangeNothing(address, states, labels, i - 1, c);
    }
    if labels[i - 1] == SecondMiss(c) {
      b := i - 1;
    } else {
      b := MissedBefore(address, states, labels, i - 1, c);
    }
  }

  lemma {:induction false} TargetsAgeInRun(address: Bytes, states: seq<State>, labels: seq<Label>, i: nat, j: nat, target: Target)
    requires Run(address, states, labels) && i <= j < |states|
    ensures VersionOf(states[i], target) <= VersionOf(states[j], target)
    ensures target.Single? && Closed(states[i], target) ==> Closed(states[j], target)
    decreases j
  {
    if i < j {
      TargetsAgeInRun(address, states, labels, i, j - 1, target);
      assert StepAt(states, labels, j - 1);
      TargetsAge(states[j - 1], labels[j - 1], target);
    }
  }

  lemma OnlyJoinOpens(s: State, l: Label, group: nat)
    requires Enabled(s, l) && group !in s.joined && group in Next(s, l).joined
    ensures l == Join(group)
  {
  }

  lemma {:induction false} JoinedBetween(address: Bytes, states: seq<State>, labels: seq<Label>, b: nat, i: nat, group: nat)
    returns (k: nat)
    requires Run(address, states, labels) && b <= i < |states|
    requires group !in states[b].joined && group in states[i].joined
    ensures b <= k < i && labels[k] == Join(group)
    decreases i
  {
    assert StepAt(states, labels, i - 1);
    if group in states[i - 1].joined {
      k := JoinedBetween(address, states, labels, b, i - 1, group);
    } else {
      OnlyJoinOpens(states[i - 1], labels[i - 1], group);
      k := i - 1;
    }
  }

  /** The second check missed an endpoint whose version is found unchanged later: it missed because the target was closed. */
  lemma MissedBecauseClosed(address: Bytes, states: seq<State>, labels: seq<Label>, b: nat, v: nat, c: nat)
    requires Run(address, states, labels) && b < v < |labels| && labels[b] == SecondMiss(c)
    requires states[b].cache == states[v].cache && CacheIsCurrent(states[v])
    ensures Closed(states[b], states[b].cache.value.target)
  {
    assert StepAt(states, labels, b);
    RunKeepsInv(address, states, labels, b);
    TargetsAgeInRun(address, states, labels, b, v, states[b].cache.value.target);
  }

  /**
    The re-check under the write lock hits only a group that had no request sender when this caller
    made its second check and was joined between that check and this one.
   */
  lemma ThirdHitNeedsJoin(address: Bytes, states: seq<State>, labels: seq<Label>, i: nat, c: nat) returns (b: nat, k: nat)
    requires Run(address, states, labels) && i < |labels| && labels[i] == ThirdHit(c)
    ensures states[i].cache.Some? && states[i].cache.value.target.LoadBalanced?
    ensures b < k < i && WaitsSince(states, labels, b, i, c) && Closed(states[b], states[i].cache.value.target)
    ensures labels[k] == Join(states[i].cache.value.target.group)
  {
    assert StepAt(states, labels, i);
    var target := states[i].cache.value.target;
    b := MissedBefore(address, states, labels, i, c);
    var v := VersionWasCurrent(address, states, labels, i, c);
    SecondMissPrecedes(address, states, labels, b, v, i, c);
    MissedBecauseClosed(address, states, labels, b, v, c);
    TargetsAgeInRun(address, states, labels, b, i, target);
    k := JoinedBetween(address, states, labels, b, i, target.group);
  }

  lemma SecondMissPrecedes(address: Bytes, states: seq<State>, labels: seq<Label>, b: nat, v: nat, i: nat, c: nat)
    requires Run(address, states, labels) && WaitsSince(states, labels, b, i, c) && CurrentAt(states, labels, v, i, c)
    requires PhaseOf(states[i], c).Writing?
    ensures b < v
  {
    assert StepAt(states, labels, b);
  }
}
