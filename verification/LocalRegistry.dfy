/** The registry, its slots and groups, and the handles and endpoints that refer to them, as mutable objects. */
module LocalRegistry {
  import opened Segments
  import opened Patterns
  import opened Wrappers
  import opened RoutingTable
  import opened ConflictCheck
  import opened RegistryLaws
  import opened Protocol

  datatype RegistryError =
    | AddressAlreadyOccupied(address: Bytes)
    | WildcardConflict(address: Bytes, existing: Bytes)
    | ConflictsWithWildcard(address: Bytes, existing: Bytes)
    | InvalidWildcardFormat(fault: Fault)
    | PolicyMismatch(address: Bytes)
    | FactoryError

  datatype Outcome<+T> = Success(value: T) | Failure(error: RegistryError)

  /** A message queue; `closed` once its receiver is gone. A send that would wait for room is taken as completed. */
  class Channel {
    var queue: seq<Message>
    var closed: bool

    constructor ()
      ensures queue == [] && !closed
    {
      queue, closed := [], false;
    }

    method Send(m: Message) returns (ok: bool)
      modifies this
      ensures ok == !old(closed) && closed == old(closed)
      ensures queue == if ok then old(queue) + [m] else old(queue)
    {
      ok := !closed;
      if ok {
        queue := queue + [m];
      }
    }
  }

  class SubscriptionSlot {
    var sender: Option<Channel>
    var version: nat

    constructor (channel: Channel)
      ensures sender == Some(channel) && version == 1
    {
      sender, version := Some(channel), 1;
    }

    method MarkRemoved()
      modifies this
      ensures sender == None && version == old(version) + 1
    {
      sender := None;
      version := version + 1;
    }

    predicate IsClosed()
      reads this, if sender.Some? then {sender.value} else {}
    {
      sender.None? || sender.value.closed
    }
  }

  /** The slot as it is made: first version, and an open channel with nothing in it. */
  predicate Untouched(slot: SubscriptionSlot)
    reads slot, if slot.sender.Some? then {slot.sender.value} else {}
  {
    slot.version == 1 && slot.sender.Some? && !slot.sender.value.closed && slot.sender.value.queue == []
  }

  const USIZE: nat := 0x1_0000_0000_0000_0000

  /**
    `dispatching` while the dispatcher task is held, `requestSenders` the strong count of the
    request channel. Both counters wrap like the machine integers they are.
   */
  class LoadBalancedGroup {
    const slot: SubscriptionSlot
    var dispatching: bool
    var version: nat
    var requestSenders: nat
    var activeConsumers: nat

    constructor (slot: SubscriptionSlot)
      ensures this.slot == slot && dispatching && version == 1 && requestSenders == 1 && activeConsumers == 0
    {
      this.slot := slot;
      dispatching, version, requestSenders, activeConsumers := true, 1, 1, 0;
    }

    method Subscribe()
      modifies this
      ensures activeConsumers == (old(activeConsumers) + 1) % USIZE && requestSenders == old(requestSenders) + 1
      ensures dispatching == old(dispatching) && version == old(version)
    {
      activeConsumers := (activeConsumers + 1) % USIZE;
      requestSenders := requestSenders + 1;
    }

    /** The last consumer to leave shuts the group down; a registry entry for it is not touched. */
    method RemoveConsumer()
      modifies this, slot
      ensures activeConsumers == (old(activeConsumers) + USIZE - 1) % USIZE
      ensures old(activeConsumers) == 1 ==>
        !dispatching && slot.sender == None && slot.version == old(slot.version) + 1 && version == old(version) + 1
      ensures old(activeConsumers) != 1 ==> dispatching == old(dispatching) && version == old(version) && unchanged(slot)
      ensures requestSenders == old(requestSenders)
    {
      var previous := activeConsumers;
      activeConsumers := (activeConsumers + USIZE - 1) % USIZE;
      if previous == 1 {
        Shutdown();
      }
    }

    predicate IsEmpty()
      reads this
    {
      requestSenders == 1
    }

    method Shutdown()
      modifies this, slot
      ensures !dispatching && version == old(version) + 1
      ensures slot.sender == None && slot.version == old(slot.version) + 1
      ensures activeConsumers == old(activeConsumers) && requestSenders == old(requestSenders)
    {
      dispatching := false;
      slot.MarkRemoved();
      version := version + 1;
    }
  }

  datatype RouteTarget = Single(single: SubscriptionSlot) | LoadBalanced(group: LoadBalancedGroup) {
    function Slot(): SubscriptionSlot {
      match this
      case Single(slot) => slot
      case LoadBalanced(g) => g.slot
    }

    /** The objects that removal of this target may change. */
    ghost function Footprint(): set<object> {
      match this
      case Single(slot) => {slot}
      case LoadBalanced(g) => {g, g.slot}
    }

    function Version(): nat
      reads Footprint()
    {
      match this
      case Single(slot) => slot.version
      case LoadBalanced(g) => g.version
    }

    predicate IsClosed()
      reads Footprint(), if Slot().sender.Some? then {Slot().sender.value} else {}
    {
      match this
      case Single(slot) => slot.IsClosed()
      case LoadBalanced(g) => g.IsEmpty()
    }

    /** Puts the message in the queue behind the slot, if there still is one and it has a receiver. */
    method Send(m: Message) returns (ok: bool)
      modifies if Slot().sender.Some? then {Slot().sender.value} else {}
      ensures ok <==> old(Slot().sender.Some? && !Slot().sender.value.closed)
      ensures ok ==> var channel := old(Slot().sender.value); channel.queue == old(channel.queue) + [m]
      ensures !ok && old(Slot().sender.Some?) ==>
        var channel := old(Slot().sender.value); channel.queue == old(channel.queue) && channel.closed == old(channel.closed)
    {
      match Slot().sender
      case Some(channel) => ok := channel.Send(m);
      case None => ok := false;
    }

    /** Silences the target if it holds this very slot. */
    method RemoveSlot(slot: SubscriptionSlot) returns (removed: bool)
      modifies Footprint()
      ensures removed <==> Slot() == slot
      ensures removed ==> slot.sender == None && slot.version == old(slot.version) + 1
      ensures removed && LoadBalanced? ==> !group.dispatching && group.version == old(group.version) + 1
      ensures !removed ==> unchanged(Footprint())
    {
      if Slot() != slot {
        return false;
      }
      match this {
        case Single(existing) => existing.MarkRemoved();
        case LoadBalanced(g) => g.Shutdown();
      }
      return true;
    }
  }

  /** What the caller's closure does: it fails, makes a group with its dispatcher, or hands over any other target. */
  datatype Recipe = Fails | NewGroup | Hands(target: RouteTarget)

  /** The closure given to `get_existing_or_register`; `calls` counts how often it ran. */
  class Factory {
    const recipe: Recipe
    var calls: nat

    constructor (recipe: Recipe)
      ensures this.recipe == recipe && calls == 0
    {
      this.recipe := recipe;
      calls := 0;
    }

    /** The target is what the recipe says; a new group consists of new objects and has no consumer yet. */
    ghost predicate Follows(target: RouteTarget)
      reads if target.LoadBalanced? then {target.group} else {}
    {
      match recipe
      case Fails => false
      case NewGroup =>
        target.LoadBalanced? && target.group.activeConsumers == 0 && target.group.requestSenders == 1 && target.group.dispatching
        && target.group.version == 1
      case Hands(given) => target == given
    }

    method Run() returns (r: Option<RouteTarget>)
      modifies this
      ensures calls == old(calls) + 1
      ensures r.None? <==> recipe.Fails?
      ensures r.Some? ==> Follows(r.value)
      ensures r.Some? && recipe.NewGroup? ==> fresh(r.value.Footprint()) && Untouched(r.value.group.slot)
      ensures r.Some? && recipe.NewGroup? ==> fresh(r.value.group.slot.sender.value)
    {
      calls := calls + 1;
      match recipe
      case Fails => return None;
      case Hands(target) => return Some(target);
      case NewGroup =>
        var channel := new Channel();
        var slot := new SubscriptionSlot(channel);
        var group := new LoadBalancedGroup(slot);
        return Some(LoadBalanced(group));
    }
  }

  datatype RegisterResult = Registered(target: RouteTarget) | AlreadyExists(target: RouteTarget)

  class LocalRegistry {
    var inner: Table<RouteTarget>

    ghost predicate Valid()
      reads this
    {
      RoutingTable.Valid(inner)
    }

    constructor ()
      ensures Valid() && inner == EmptyTable()
    {
      inner := EmptyTable();
    }

    /** Validation and conflict check, as both registration methods begin. */
    method Check(address: Bytes) returns (f: Outcome<Finding<RouteTarget>>)
      ensures f.Success? ==> (IsWildcard(address) ==> ValidPattern(address)) && Reports(inner, address, f.value)
      ensures f.Failure? ==>
        IsWildcard(address) && !ValidPattern(address) && f.error.InvalidWildcardFormat? && Shows(address, f.error.fault)
    {
      if IsWildcard(address) {
        var validation := ValidatePattern(address);
        if validation.Rejected? {
          return Failure(InvalidWildcardFormat(validation.fault));
        }
        var found := GetWildcard(inner, address);
        return Success(found);
      }
      var found := GetExact(inner, address);
      return Success(found);
    }

    /** Registers a target; a refusal changes nothing and says why. */
    method Register(address: Bytes, target: RouteTarget) returns (r: Outcome<()>)
      requires Valid()
      modifies this
      ensures Valid()
      ensures r.Success? <==> CanRegister(old(inner), address)
      ensures inner == if r.Success? then Insert(old(inner), address, target) else old(inner)
      ensures r.Failure? ==> Explains(old(inner), address, r.error)
      ensures r.Failure? ==> !r.error.FactoryError?
    {
      var f := Check(address);
      if f.Failure? {
        return Failure(f.error);
      }
      match f.value
      case Duplicate(_) =>
        return Failure(AddressAlreadyOccupied(address));
      case Conflict(key) =>
        return Failure(if IsWildcard(address) then WildcardConflict(address, key) else ConflictsWithWildcard(address, key));
      case NotFound =>
        InsertKeepsValid(inner, address, target);
        inner := Insert(inner, address, target);
        return Success(());
    }

    /** What an error says about the table that refused `address`. */
    ghost static predicate Explains(table: Table<RouteTarget>, address: Bytes, error: RegistryError) {
      match error
      case AddressAlreadyOccupied(a) => a == address && OwnEntry(table, address).Some?
      case WildcardConflict(a, key) =>
        a == address && IsWildcard(address) && OwnEntry(table, address) == None && ConflictsWith(table, address, key)
      case ConflictsWithWildcard(a, key) =>
        a == address && !IsWildcard(address) && OwnEntry(table, address) == None && ConflictsWith(table, address, key)
      case InvalidWildcardFormat(fault) => IsWildcard(address) && !ValidPattern(address) && Shows(address, fault)
      case PolicyMismatch(_) => false
      case FactoryError => CanRegister(table, address)
    }

    /** Returns the entry of `address`, or registers what the factory makes; the factory runs only for a free address. */
    method GetExistingOrRegister(address: Bytes, factory: Factory) returns (r: Outcome<RegisterResult>)
      requires Valid()
      modifies this, factory
      ensures Valid()
      ensures factory.calls == old(factory.calls) + if CanRegister(old(inner), address) then 1 else 0
      ensures r.Success? && r.value.Registered? <==> CanRegister(old(inner), address) && !factory.recipe.Fails?
      ensures r.Success? && r.value.Registered? ==>
        && inner == Insert(old(inner), address, r.value.target)
        && factory.Follows(r.value.target)
        && (factory.recipe.NewGroup? ==>
              && fresh(r.value.target.Footprint()) && Untouched(r.value.target.group.slot)
              && fresh(r.value.target.group.slot.sender.value))
      ensures r.Success? && r.value.AlreadyExists? ==>
        inner == old(inner) && OwnEntry(inner, address) == Some(r.value.target)
      ensures r.Failure? ==> inner == old(inner) && Explains(inner, address, r.error) && !r.error.AddressAlreadyOccupied?
      ensures r.Failure? && r.error.FactoryError? ==> factory.recipe.Fails?
    {
      var f := Check(address);
      if f.Failure? {
        return Failure(f.error);
      }
      match f.value
      case Duplicate(target) =>
        return Success(AlreadyExists(target));
      case Conflict(key) =>
        return Failure(if IsWildcard(address) then WildcardConflict(address, key) else ConflictsWithWildcard(address, key));
      case NotFound =>
        var made := factory.Run();
        if made.None? {
          return Failure(FactoryError);
        }
        InsertKeepsValid(inner, address, made.value);
        inner := Insert(inner, address, made.value);
        return Success(Registered(made.value));
    }

    /** The entry for `address` holds this very slot. */
    predicate Owns(address: Bytes, slot: SubscriptionSlot)
      reads this
    {
      OwnEntry(inner, address).Some? && OwnEntry(inner, address).value.Slot() == slot
    }

    ghost function EntryFootprint(address: Bytes): set<object>
      reads this
    {
      match OwnEntry(inner, address)
      case Some(target) => target.Footprint()
      case None => {}
    }

    /** Removes the entry of `address` if it holds this very slot, which is silenced first; otherwise does nothing. */
    method Unregister(address: Bytes, slot: SubscriptionSlot)
      requires Valid()
      modifies this, EntryFootprint(address)
      ensures Valid()
      ensures inner == if old(Owns(address, slot)) then Remove(old(inner), address) else old(inner)
      ensures old(Owns(address, slot)) ==> slot.sender == None && slot.version == old(slot.version) + 1
      ensures !old(Owns(address, slot)) ==> unchanged(old(EntryFootprint(address)))
    {
      var own := OwnEntry(inner, address);
      if own.Some? {
        var removed := own.value.RemoveSlot(slot);
        if removed {
          RemoveKeepsValid(inner, address);
          inner := Remove(inner, address);
        }
      }
    }

    method FindRoute(address: Bytes) returns (r: Option<RouteTarget>)
      ensures r == Lookup(inner, address)
    {
      r := LookupIn(inner, address);
    }
  }

  /** A cached target with the version it had when cached. */
  class InMemoryEndpoint {
    const target: RouteTarget
    const cachedVersion: nat

    constructor (target: RouteTarget)
      ensures this.target == target && cachedVersion == target.Version()
    {
      this.target := target;
      cachedVersion := target.Version();
    }

    predicate IsValid()
      reads target.Footprint(), if target.Slot().sender.Some? then {target.Slot().sender.value} else {}
    {
      target.Version() == cachedVersion && !target.IsClosed()
    }
  }

  datatype Cleanup = Exclusive(slot: SubscriptionSlot, registry: LocalRegistry) | Shared(group: LoadBalancedGroup)

  /** The guard of a subscription; dropping it runs the cleanup of its kind. */
  class SubscriptionHandle {
    const address: Bytes
    const cleanup: Cleanup

    constructor (address: Bytes, cleanup: Cleanup)
      ensures this.address == address && this.cleanup == cleanup
    {
      this.address, this.cleanup := address, cleanup;
    }

    /** Only an exclusive handle touches the registry, and only if the entry is still its own. */
    method Drop()
      requires cleanup.Exclusive? ==> cleanup.registry.Valid()
      modifies
        match cleanup
        case Exclusive(slot, registry) => {registry} + registry.EntryFootprint(address)
        case Shared(group) => {group, group.slot}
      ensures cleanup.Exclusive? ==>
        var registry := cleanup.registry;
        && registry.Valid()
        && registry.inner ==
          if old(registry.Owns(address, cleanup.slot)) then Remove(old(registry.inner), address) else old(registry.inner)
      ensures cleanup.Exclusive? ==>
        if old(cleanup.registry.Owns(address, cleanup.slot))
        then cleanup.slot.sender == None && cleanup.slot.version == old(cleanup.slot.version) + 1
        else unchanged(old(cleanup.registry.EntryFootprint(address)))
      ensures cleanup.Shared? ==>
        && cleanup.group.activeConsumers == (old(cleanup.group.activeConsumers) + USIZE - 1) % USIZE
        && (if old(cleanup.group.activeConsumers) == 1
            then (!cleanup.group.dispatching && cleanup.group.slot.sender == None
                  && cleanup.group.version == old(cleanup.group.version) + 1)
            else (cleanup.group.dispatching == old(cleanup.group.dispatching)
                  && cleanup.group.version == old(cleanup.group.version) && unchanged(cleanup.group.slot)))
    {
      match cleanup
      case Exclusive(slot, registry) => registry.Unregister(address, slot);
      case Shared(group) => group.RemoveConsumer();
    }
  }

  /** A group with its first consumer: its dispatcher runs, and there is one request sender besides its own. */
  predicate IsNewGroup(group: LoadBalancedGroup)
    reads group, group.slot, if group.slot.sender.Some? then {group.slot.sender.value} else {}
  {
    && group.activeConsumers == 1 && group.requestSenders == 2 && group.dispatching && group.version == 1
    && Untouched(group.slot)
  }

  /** One more consumer with a request sender, and nothing else. */
  twostate predicate JoinedOnce(group: LoadBalancedGroup)
    reads group, group.slot
  {
    && group.activeConsumers == (old(group.activeConsumers) + 1) % USIZE
    && group.requestSenders == old(group.requestSenders) + 1
    && group.dispatching == old(group.dispatching) && group.version == old(group.version)
    && unchanged(group.slot)
  }

  datatype RoutingPolicy = ExclusivePolicy | LoadBalancedPolicy

  /** An exclusive subscription registers a fresh slot with an open, empty channel. */
  method SubscribeExclusively(registry: LocalRegistry, address: Bytes) returns (r: Outcome<SubscriptionHandle>)
    requires registry.Valid()
    modifies registry
    ensures registry.Valid()
    ensures r.Success? <==> CanRegister(old(registry.inner), address)
    ensures r.Failure? ==> registry.inner == old(registry.inner) && !r.error.PolicyMismatch?
    ensures r.Success? ==>
      && r.value.address == address && fresh(r.value)
      && r.value.cleanup.Exclusive? && r.value.cleanup.registry == registry && fresh(r.value.cleanup.slot)
      && registry.inner == Insert(old(registry.inner), address, Single(r.value.cleanup.slot))
      && Untouched(r.value.cleanup.slot) && fresh(r.value.cleanup.slot.sender.value)
  {
    var channel := new Channel();
    var slot := new SubscriptionSlot(channel);
    var done := registry.Register(address, Single(slot));
    if done.Failure? {
      return Failure(done.error);
    }
    var handle := new SubscriptionHandle(address, Exclusive(slot, registry));
    return Success(handle);
  }

  /** The address holds a group that may be joined. */
  ghost predicate HoldsGroup(table: Table<RouteTarget>, address: Bytes) {
    && (IsWildcard(address) ==> ValidPattern(address))
    && OwnEntry(table, address).Some? && OwnEntry(table, address).value.LoadBalanced?
  }

  /** The address holds an exclusive subscription. */
  ghost predicate HoldsSlot(table: Table<RouteTarget>, address: Bytes) {
    && (IsWildcard(address) ==> ValidPattern(address))
    && OwnEntry(table, address).Some? && OwnEntry(table, address).value.Single?
  }

  /** A load-balanced subscription joins the group of the address, and makes it first if the address is free. */
  method JoinGroup(registry: LocalRegistry, address: Bytes) returns (r: Outcome<SubscriptionHandle>)
    requires registry.Valid()
    modifies registry, registry.EntryFootprint(address)
    ensures registry.Valid()
    ensures r.Success? <==> CanRegister(old(registry.inner), address) || HoldsGroup(old(registry.inner), address)
    ensures r.Failure? ==> registry.inner == old(registry.inner) && unchanged(old(registry.EntryFootprint(address)))
    ensures r.Failure? && r.error.PolicyMismatch? <==> HoldsSlot(old(registry.inner), address)
    ensures r.Success? ==> r.value.address == address && fresh(r.value) && r.value.cleanup.Shared?
    ensures CanRegister(old(registry.inner), address) ==>
      var group := r.value.cleanup.group;
      && registry.inner == Insert(old(registry.inner), address, LoadBalanced(group))
      && fresh(group) && fresh(group.slot) && IsNewGroup(group) && fresh(group.slot.sender.value)
    ensures HoldsGroup(old(registry.inner), address) ==>
      && registry.inner == old(registry.inner)
      && OwnEntry(registry.inner, address) == Some(LoadBalanced(r.value.cleanup.group))
      && JoinedOnce(r.value.cleanup.group)
  {
    var factory := new Factory(NewGroup);
    var result := registry.GetExistingOrRegister(address, factory);
    if result.Failure? {
      return Failure(result.error);
    }
    var target := result.value.target;
    if target.Single? {
      return Failure(PolicyMismatch(address));
    }
    target.group.Subscribe();
    var handle := new SubscriptionHandle(address, Shared(target.group));
    return Success(handle);
  }

  /** `subscribe`: as the routing policy says, exclusively or by joining a group. */
  method Subscribe(registry: LocalRegistry, address: Bytes, policy: RoutingPolicy) returns (r: Outcome<SubscriptionHandle>)
    requires registry.Valid()
    modifies registry, registry.EntryFootprint(address)
    ensures registry.Valid()
    ensures r.Failure? ==> registry.inner == old(registry.inner) && unchanged(old(registry.EntryFootprint(address)))
    ensures r.Success? ==> r.value.address == address && fresh(r.value)
    ensures r.Success? <==>
      || CanRegister(old(registry.inner), address)
      || (policy.LoadBalancedPolicy? && HoldsGroup(old(registry.inner), address))
    ensures r.Failure? && r.error.PolicyMismatch? <==>
      policy.LoadBalancedPolicy? && HoldsSlot(old(registry.inner), address)
    ensures policy.ExclusivePolicy? && r.Success? ==>
      && r.value.cleanup.Exclusive? && r.value.cleanup.registry == registry && fresh(r.value.cleanup.slot)
      && registry.inner == Insert(old(registry.inner), address, Single(r.value.cleanup.slot))
      && Untouched(r.value.cleanup.slot) && fresh(r.value.cleanup.slot.sender.value)
    ensures policy.LoadBalancedPolicy? && r.Success? ==> r.value.cleanup.Shared?
    ensures policy.LoadBalancedPolicy? && CanRegister(old(registry.inner), address) ==>
      var group := r.value.cleanup.group;
      && registry.inner == Insert(old(registry.inner), address, LoadBalanced(group))
      && fresh(group) && fresh(group.slot) && IsNewGroup(group) && fresh(group.slot.sender.value)
    ensures policy.LoadBalancedPolicy? && HoldsGroup(old(registry.inner), address) ==>
      && registry.inner == old(registry.inner)
      && OwnEntry(registry.inner, address) == Some(LoadBalanced(r.value.cleanup.group))
      && JoinedOnce(r.value.cleanup.group)
  {
    match policy
    case ExclusivePolicy => r := SubscribeExclusively(registry, address);
    case LoadBalancedPolicy => r := JoinGroup(registry, address);
  }
}
