/** Subscriptions, publishers and sends put together: what a message does after subscribing, dropping and subscribing again. */
module Scenarios {
  import opened Segments
  import opened Wrappers
  import opened Patterns
  import opened RoutingTable
  import opened RegistryLaws
  import opened Protocol
  import Registry = LocalRegistry
  import opened Client

  lemma NewIsFound<T>(table: Table<T>, address: Bytes, target: T)
    requires StarFree(address)
    ensures Lookup(Insert(table, address, target), address) == Some(target)
  {
  }

  /** The slot that a subscription's messages go through. */
  function SlotOf(handle: Registry.SubscriptionHandle): Registry.SubscriptionSlot {
    match handle.cleanup
    case Exclusive(slot, _) => slot
    case Shared(group) => group.slot
  }

  /** A message sent to a new subscription's own address is in that subscription's queue, whatever its policy. */
  method SendToNew(registry: Registry.LocalRegistry, address: Bytes, policy: Registry.RoutingPolicy, m: Message)
    returns (handle: Registry.SubscriptionHandle)
    requires registry.Valid() && CanRegister(registry.inner, address)
    requires StarFree(address) && Utf8(address) && m.address == address
    modifies registry
    ensures handle.address == address && fresh(SlotOf(handle))
    ensures SlotOf(handle).sender.Some? && SlotOf(handle).sender.value.queue == [m]
  {
    ghost var table := registry.inner;
    var subscribed := Registry.Subscribe(registry, address, policy);
    handle := subscribed.value;
    NewIsFound(table, address, OwnTarget(handle));
    var sent := SendUncached(registry, m);
  }

  function OwnTarget(handle: Registry.SubscriptionHandle): Registry.RouteTarget {
    match handle.cleanup
    case Exclusive(slot, _) => Registry.Single(slot)
    case Shared(group) => Registry.LoadBalanced(group)
  }

  /** The publisher has cached its address's only subscription. */
  ghost predicate Serves(publisher: Publisher, registry: Registry.LocalRegistry, slot: Registry.SubscriptionSlot)
    reads publisher, slot
  {
    && publisher.registry == registry
    && publisher.cached.Some? && publisher.cached.value.target == Registry.Single(slot)
    && publisher.cached.value.cachedVersion == slot.version
  }

  /** A first message through a new publisher is in the queue of the exclusive subscription made before it. */
  method SendFirst(registry: Registry.LocalRegistry, address: Bytes, m: Message)
    returns (publisher: Publisher, handle: Registry.SubscriptionHandle, channel: Registry.Channel)
    requires registry.Valid() && CanRegister(registry.inner, address) && StarFree(address)
    modifies registry
    ensures registry.Valid() && fresh(handle) && fresh(channel) && fresh(publisher)
    ensures handle.address == address && handle.cleanup.Exclusive? && handle.cleanup.registry == registry
    ensures fresh(handle.cleanup.slot)
    ensures registry.inner == Insert(old(registry.inner), address, Registry.Single(handle.cleanup.slot))
    ensures publisher.address == address && Serves(publisher, registry, handle.cleanup.slot)
    ensures handle.cleanup.slot.sender == Some(channel) && channel.queue == [m]
  {
    publisher := new Publisher(address, registry);
    var subscribed := Registry.SubscribeExclusively(registry, address);
    handle := subscribed.value;
    channel := handle.cleanup.slot.sender.value;
    NewIsFound(old(registry.inner), address, Registry.Single(handle.cleanup.slot));
    var sent := publisher.Send(m);
  }

  /** Dropping an exclusive handle whose entry was the last registered puts the registry back and silences the slot. */
  method DropLast(registry: Registry.LocalRegistry, handle: Registry.SubscriptionHandle, ghost table: Table<Registry.RouteTarget>)
    requires registry.Valid() && handle.cleanup.Exclusive? && handle.cleanup.registry == registry
    requires OwnEntry(table, handle.address) == None
    requires registry.inner == Insert(table, handle.address, Registry.Single(handle.cleanup.slot))
    modifies registry, handle.cleanup.slot
    ensures registry.Valid() && registry.inner == table
    ensures handle.cleanup.slot.sender == None
  {
    OwnEntryOfInsert(table, handle.address, Registry.Single(handle.cleanup.slot), handle.address);
    RemoveUndoesInsert(table, handle.address, Registry.Single(handle.cleanup.slot));
    handle.Drop();
  }

  /**
    A publisher whose cached subscription is gone sends its next message to whoever has the address
    now: it is in the queue of the subscription made since, and not in the old one.
   */
  method SendAfterResubscription(
    publisher: Publisher, registry: Registry.LocalRegistry, gone: Registry.SubscriptionSlot, m: Message)
    returns (handle: Registry.SubscriptionHandle)
    requires registry.Valid() && CanRegister(registry.inner, publisher.address) && StarFree(publisher.address)
    requires publisher.registry == registry && gone.sender == None
    requires publisher.cached.Some? && publisher.cached.value.target == Registry.Single(gone)
    modifies registry, publisher
    ensures handle.cleanup.Exclusive? && fresh(handle.cleanup.slot) && handle.cleanup.slot.sender.Some?
    ensures handle.cleanup.slot.sender.value.queue == [m] && fresh(handle.cleanup.slot.sender.value)
    ensures publisher.cached.Some? && publisher.cached.value.target == Registry.Single(handle.cleanup.slot)
  {
    var subscribed := Registry.SubscribeExclusively(registry, publisher.address);
    handle := subscribed.value;
    NewIsFound(old(registry.inner), publisher.address, Registry.Single(handle.cleanup.slot));
    assert !publisher.HasUsable();
    var sent := publisher.Send(m);
  }

  /**
    Put together: subscribe, send, drop, subscribe again, send again. The first message is in the
    queue of the first subscription and the second in the queue of the second.
   */
  method FollowsItsRecipient(registry: Registry.LocalRegistry, address: Bytes, first: Message, second: Message)
    returns (before: Registry.Channel, handle: Registry.SubscriptionHandle)
    requires registry.Valid() && CanRegister(registry.inner, address) && StarFree(address)
    modifies registry
    ensures before.queue == [first]
    ensures handle.cleanup.Exclusive? && handle.cleanup.slot.sender.Some? && handle.cleanup.slot.sender.value != before
    ensures handle.cleanup.slot.sender.value.queue == [second]
  {
    var publisher, earlier, channel := SendFirst(registry, address, first);
    DropLast(registry, earlier, old(registry.inner));
    handle := SendAfterResubscription(publisher, registry, earlier.cleanup.slot, second);
    before := channel;
  }

  /**
    When the only consumer of a group leaves, the group is shut down but its entry stays: the
    address remains taken, and nobody receives what is sent to it.
   */
  method LeftGroupStays(registry: Registry.LocalRegistry, address: Bytes, m: Message)
    returns (refused: Registry.Outcome<Registry.SubscriptionHandle>, sent: SendResult<()>)
    requires registry.Valid() && CanRegister(registry.inner, address)
    requires StarFree(address) && Utf8(address) && m.address == address
    modifies registry
    ensures OwnEntry(registry.inner, address).Some?
    ensures refused.Failure? && sent == Failed(ConnectionClosed)
  {
    ghost var table := registry.inner;
    var joined := Registry.JoinGroup(registry, address);
    var group := joined.value.cleanup.group;
    NewIsFound(table, address, Registry.LoadBalanced(group));
    OwnEntryOfInsert(table, address, Registry.LoadBalanced(group), address);
    joined.value.Drop();
    refused := Registry.SubscribeExclusively(registry, address);
    sent := SendUncached(registry, m);
  }
}
