/** Sending: the caching publisher, and requests that register their waiter before they go out. */
module Client {
  import opened Segments
  import opened Wrappers
  import opened RoutingTable
  import opened Protocol
  import Codec
  import Registry = LocalRegistry
  import Waiting = ReplyDispatcher

  datatype TransportError = ConnectionClosed | RecipientNotFound | InvalidUtf8Address | WaiterAlreadyExists

  datatype SendResult<+T> = Sent(value: T) | Failed(error: TransportError)

  /** The channel a target's messages go to, as a frame. */
  function ChannelOf(target: Option<Registry.RouteTarget>): set<Registry.Channel>
    reads if target.Some? then {target.value.Slot()} else {}
  {
    if target.Some? && target.value.Slot().sender.Some? then {target.value.Slot().sender.value} else {}
  }

  class Publisher {
    const address: Bytes
    const registry: Registry.LocalRegistry
    var cached: Option<Registry.InMemoryEndpoint>

    constructor (address: Bytes, registry: Registry.LocalRegistry)
      ensures this.address == address && this.registry == registry && cached == None
    {
      this.address, this.registry, cached := address, registry, None;
    }

    /** What is cached may be used without asking the registry. */
    predicate HasUsable()
      reads *
    {
      cached.Some? && Usable(cached.value)
    }

    /** Where the next message goes: the cached target while it is usable, else what the registry says. */
    function Recipient(): Option<Registry.RouteTarget>
      reads *
    {
      if HasUsable() then Some(cached.value.target) else Lookup(registry.inner, address)
    }

    /** A usable cached endpoint is used as it is; otherwise the address is resolved and the result kept. */
    method GetOrResolve() returns (r: Option<Registry.InMemoryEndpoint>)
      modifies this
      ensures old(HasUsable()) ==> r == cached == old(cached)
      ensures !old(HasUsable()) && old(Lookup(registry.inner, address)).None? ==> r == None && cached == old(cached)
      ensures !old(HasUsable()) && old(Lookup(registry.inner, address)).Some? ==>
        && r.Some? && r == cached && fresh(r.value)
        && Some(r.value.target) == old(Lookup(registry.inner, address))
        && r.value.cachedVersion == VersionNow(r.value.target)
    {
      if cached.Some? && cached.value.IsValid() {
        return cached;
      }
      var target := registry.FindRoute(address);
      if target.None? {
        return None;
      }
      var endpoint := new Registry.InMemoryEndpoint(target.value);
      cached := Some(endpoint);
      return cached;
    }

    /** A message goes to the recipient or nowhere; a closed connection empties the cache. */
    method Send(m: Message) returns (r: SendResult<()>)
      modifies this, ChannelOf(Recipient())
      ensures r.Failed? ==>
        r.error == if old(Recipient()).None? then RecipientNotFound else ConnectionClosed
      ensures r.Sent? <==> old(Recipient().Some? && OpenSlot(Recipient().value))
      ensures r.Sent? ==>
        var channel := old(Recipient().value.Slot().sender.value);
        channel.queue == old(channel.queue) + [m]
      ensures r.Failed? ==> forall c <- old(ChannelOf(Recipient())) :: c.queue == old(c.queue)
      ensures KeepsCache(r.Failed? && r.error == RecipientNotFound, r.Failed? && r.error == ConnectionClosed)
    {
      ghost var recipient := Recipient();
      ghost var slots: set<Registry.SubscriptionSlot> := if recipient.Some? then {recipient.value.Slot()} else {};
      var endpoint := GetOrResolve();
      if endpoint.None? {
        return Failed(RecipientNotFound);
      }
      assert unchanged(slots);
      var ok := endpoint.value.target.Send(m);
      if !ok {
        InvalidateCache();
        return Failed(ConnectionClosed);
      }
      return Sent(());
    }

    /**
      The cache after a call: as before if nobody was found, empty if the connection was closed, and
      otherwise the usable endpoint of before or a new one for the recipient.
     */
    twostate predicate KeepsCache(nobody: bool, closed: bool)
      reads *
    {
      if nobody then cached == old(cached)
      else if closed then cached == None
      else if old(HasUsable()) then cached == old(cached)
      else (cached.Some? && fresh(cached.value) && Some(cached.value.target) == old(Recipient())
            && cached.value.cachedVersion == old(VersionNow(Recipient().value)))
    }

    method InvalidateCache()
      modifies this
      ensures cached == None
    {
      cached := None;
    }

    /**
      The sending half of the publisher's own `request`: it resolves first, then registers the
      waiter, then sends to the publisher's address, whatever address the message carries.
     */
    method SendRequest(replies: Waiting.Dispatcher, replyAddress: Bytes, message: Message)
      returns (r: SendResult<(Waiting.WaiterGuard, Waiting.OneShot)>)
      requires replies.Valid()
      modifies this, replies, ChannelOf(Recipient())
      ensures replies.Valid()
      ensures r.Failed? ==>
        r.error == if old(Recipient()).None? then RecipientNotFound
                   else if message.header.messageId in old(replies.waiters) then WaiterAlreadyExists
                   else ConnectionClosed
      ensures r.Failed? ==> replies.waiters == old(replies.waiters)
      ensures r.Sent? <==>
        && message.header.messageId !in old(replies.waiters)
        && old(Recipient().Some? && OpenSlot(Recipient().value))
      ensures r.Sent? ==>
        && Waits(r.value, replies, message.header.messageId) && fresh(r.value.1)
        && replies.waiters == old(replies.waiters)[message.header.messageId := r.value.1]
      ensures r.Sent? ==>
        var channel := old(Recipient().value.Slot().sender.value);
        RequestAppended(old(channel.queue), channel.queue, message, replyAddress)
      ensures r.Failed? ==> forall c <- old(ChannelOf(Recipient())) :: c.queue == old(c.queue)
      ensures KeepsCache(r.Failed? && r.error == RecipientNotFound, r.Failed? && r.error == ConnectionClosed)
    {
      ghost var recipient := Recipient();
      ghost var slots: set<Registry.SubscriptionSlot> := if recipient.Some? then {recipient.value.Slot()} else {};
      var endpoint := GetOrResolve();
      if endpoint.None? {
        return Failed(RecipientNotFound);
      }
      assert unchanged(slots);
      Codec.AsRequestPreserves(message, replyAddress);
      r := RegisterAndSend(replies, endpoint.value.target, Codec.AsRequest(message, replyAddress));
      if r == Failed(ConnectionClosed) {
        InvalidateCache();
      }
    }
  }

  /** The version that endpoints of this target are compared with. */
  function VersionNow(target: Registry.RouteTarget): nat
    reads target.Footprint()
  {
    match target
    case Single(slot) => slot.version
    case LoadBalanced(group) => group.version
  }

  /**
    A cached endpoint whose target has the version it was cached with and is open: for a subscription,
    its sender is there with a receiver; for a group, a request sender besides the group's own.
   */
  predicate Usable(ep: Registry.InMemoryEndpoint)
    reads *
  {
    && ep.cachedVersion == VersionNow(ep.target)
    && match ep.target
       case Single(slot) => slot.sender.Some? && !slot.sender.value.closed
       case LoadBalanced(group) => group.requestSenders != 1
  }

  /** The target's slot has a sender, and its channel a receiver. */
  predicate OpenSlot(target: Registry.RouteTarget)
    reads target.Slot(), if target.Slot().sender.Some? then {target.Slot().sender.value} else {}
  {
    target.Slot().sender.Some? && !target.Slot().sender.value.closed
  }

  /** The queue has gained the message as a request, at its end. */
  predicate RequestAppended(before: seq<Message>, after: seq<Message>, m: Message, replyAddress: Bytes) {
    |after| == |before| + 1 && after[..|before|] == before && Codec.IsRequestOf(after[|before|], m, replyAddress)
  }

  /** The guard of the wait for this id, and its channel, on which nothing has happened yet. */
  predicate Waits(wait: (Waiting.WaiterGuard, Waiting.OneShot), replies: Waiting.Dispatcher, id: Bytes)
    reads wait.1
  {
    && wait.0.dispatcher == replies && wait.0.id == id
    && wait.1.value == None && !wait.1.senderGone && !wait.1.receiverGone
  }

  /** Registers the request's waiter and sends; if that fails, the guard takes the waiter out again. */
  method RegisterAndSend(replies: Waiting.Dispatcher, target: Registry.RouteTarget, request: Message)
    returns (r: SendResult<(Waiting.WaiterGuard, Waiting.OneShot)>)
    requires replies.Valid()
    modifies replies, ChannelOf(Some(target))
    ensures replies.Valid()
    ensures r.Failed? ==> replies.waiters == old(replies.waiters)
    ensures r.Failed? ==> forall c <- old(ChannelOf(Some(target))) :: c.queue == old(c.queue)
    ensures r.Failed? ==>
      r.error == if request.header.messageId in old(replies.waiters) then WaiterAlreadyExists else ConnectionClosed
    ensures r.Sent? <==> request.header.messageId !in old(replies.waiters) && old(OpenSlot(target))
    ensures r.Sent? ==>
      && replies.waiters == old(replies.waiters)[request.header.messageId := r.value.1]
      && Waits(r.value, replies, request.header.messageId) && fresh(r.value.1)
      && var channel := old(target.Slot().sender.value);
         channel.queue == old(channel.queue) + [request]
  {
    var waiter := replies.RegisterWaiter(request.header.messageId);
    if waiter.None? {
      return Failed(WaiterAlreadyExists);
    }
    var (guard, receiver) := waiter.value;
    var ok := target.Send(request);
    if !ok {
      guard.Drop();
      return Failed(ConnectionClosed);
    }
    return Sent((guard, receiver));
  }

  /** Where a message goes that is sent to its own address. */
  function Goal(registry: Registry.LocalRegistry, message: Message): Option<Registry.RouteTarget>
    reads registry
  {
    Lookup(registry.inner, message.address)
  }

  /** Why a message sent to its own address cannot be queued, if it cannot. */
  function Refusal(registry: Registry.LocalRegistry, message: Message): Option<TransportError>
    reads registry
    reads if Goal(registry, message).Some? then {Goal(registry, message).value.Slot()} else {}
    reads ChannelOf(Goal(registry, message))
  {
    if !Utf8(message.address) then Some(InvalidUtf8Address)
    else if Goal(registry, message).None? then Some(RecipientNotFound)
    else if !OpenSlot(Goal(registry, message).value) then Some(ConnectionClosed)
    else None
  }

  /** The client's `send`: the message's own address is looked up, and the message queued there. */
  method SendUncached(registry: Registry.LocalRegistry, message: Message) returns (r: SendResult<()>)
    modifies ChannelOf(Goal(registry, message))
    ensures r.Failed? <==> old(Refusal(registry, message)).Some?
    ensures r.Failed? ==> Some(r.error) == old(Refusal(registry, message))
    ensures r.Sent? ==>
      var channel := old(Goal(registry, message).value.Slot().sender.value);
      channel.queue == old(channel.queue) + [message]
    ensures r.Failed? ==> forall c <- old(ChannelOf(Goal(registry, message))) :: c.queue == old(c.queue)
  {
    ghost var destination := Goal(registry, message);
    ghost var slots: set<Registry.SubscriptionSlot> := if destination.Some? then {destination.value.Slot()} else {};
    if !Utf8(message.address) {
      return Failed(InvalidUtf8Address);
    }
    var target := registry.FindRoute(message.address);
    if target.None? {
      return Failed(RecipientNotFound);
    }
    assert unchanged(slots);
    var ok := target.value.Send(message);
    return if ok then Sent(()) else Failed(ConnectionClosed);
  }

  /** Sends a request whose waiter is registered; if it cannot be sent, the guard takes the waiter out. */
  method SendOrWithdraw(registry: Registry.LocalRegistry, guard: Waiting.WaiterGuard, request: Message)
    returns (r: SendResult<()>)
    requires guard.dispatcher.Valid() && guard.id in guard.dispatcher.waiters
    modifies guard.dispatcher, guard.dispatcher.waiters[guard.id], ChannelOf(Goal(registry, request))
    ensures guard.dispatcher.Valid()
    ensures guard.dispatcher.waiters ==
      if r.Sent? then old(guard.dispatcher.waiters) else old(guard.dispatcher.waiters) - {guard.id}
    ensures r.Sent? ==> unchanged(guard.dispatcher) && unchanged(old(guard.dispatcher.waiters[guard.id]))
    ensures r.Failed? <==> old(Refusal(registry, request)).Some?
    ensures r.Failed? ==> Some(r.error) == old(Refusal(registry, request))
    ensures r.Sent? ==>
      var channel := old(Goal(registry, request).value.Slot().sender.value);
      channel.queue == old(channel.queue) + [request]
    ensures r.Failed? ==> forall c <- old(ChannelOf(Goal(registry, request))) :: c.queue == old(c.queue)
  {
    ghost var channels := ChannelOf(Goal(registry, request));
    r := SendUncached(registry, request);
    if r.Failed? {
      ghost var queues := map c <- channels :: c.queue;
      guard.Drop();
      assert forall c <- channels :: c.queue == queues[c];
    }
  }

  /**
    The sending half of `request`: the message becomes a request with the client's own reply
    address, its waiter is registered, and only then it is sent. If it cannot be sent, the guard
    takes the waiter out again and the waiter map is as before.
   */
  method SendRequest(registry: Registry.LocalRegistry, replies: Waiting.Dispatcher, clientAddress: Bytes, message: Message)
    returns (r: SendResult<(Waiting.WaiterGuard, Waiting.OneShot)>)
    requires replies.Valid()
    modifies replies, ChannelOf(Goal(registry, message))
    ensures replies.Valid()
    ensures r.Failed? <==> message.header.messageId in old(replies.waiters) || old(Refusal(registry, message)).Some?
    ensures r.Failed? ==>
      Some(r.error) == if message.header.messageId in old(replies.waiters) then Some(WaiterAlreadyExists)
                       else old(Refusal(registry, message))
    ensures r.Failed? ==> replies.waiters == old(replies.waiters)
    ensures r.Failed? ==> forall c <- old(ChannelOf(Goal(registry, message))) :: c.queue == old(c.queue)
    ensures r.Sent? ==>
      && Waits(r.value, replies, message.header.messageId) && fresh(r.value.1)
      && replies.waiters == old(replies.waiters)[message.header.messageId := r.value.1]
    ensures r.Sent? ==>
      var channel := old(Goal(registry, message).value.Slot().sender.value);
      RequestAppended(old(channel.queue), channel.queue, message, clientAddress)
  {
    ghost var destination := Goal(registry, message);
    ghost var slots: set<Registry.SubscriptionSlot> := if destination.Some? then {destination.value.Slot()} else {};
    var request := Codec.AsRequest(message, clientAddress);
    Codec.AsRequestPreserves(message, clientAddress);
    var waiter := replies.RegisterWaiter(message.header.messageId);
    if waiter.None? {
      return Failed(WaiterAlreadyExists);
    }
    var (guard, receiver) := waiter.value;
    assert unchanged(slots) && Refusal(registry, request) == old(Refusal(registry, message));
    var sent := SendOrWithdraw(registry, guard, request);
    return if sent.Sent? then Sent((guard, receiver)) else Failed(sent.error);
  }
}
