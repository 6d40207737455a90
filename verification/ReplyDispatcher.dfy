/** The reply dispatcher as an object: its waiter map, the guards that clean it, and the listener loop. */
module ReplyDispatcher {
  import opened Segments
  import opened Wrappers
  import opened Protocol

  /** A one-shot channel, seen from both ends. */
  class OneShot {
    var value: Option<Message>
    var senderGone: bool
    var receiverGone: bool

    constructor ()
      ensures value == None && !senderGone && !receiverGone
    {
      value, senderGone, receiverGone := None, false, false;
    }

    /** Sending uses up the sender; it fails when the receiver is gone. */
    method Send(m: Message) returns (ok: bool)
      modifies this
      ensures ok == !old(receiverGone) && senderGone && receiverGone == old(receiverGone)
      ensures value == if ok then Some(m) else old(value)
    {
      ok := !receiverGone;
      if ok {
        value := Some(m);
      }
      senderGone := true;
    }

    method DropSender()
      modifies this
      ensures senderGone && value == old(value) && receiverGone == old(receiverGone)
    {
      senderGone := true;
    }
  }

  /** The first reply for `id` among `inbox`. */
  function FirstReply(inbox: seq<Message>, id: Bytes): Option<Message> {
    if inbox == [] then None
    else
      var earlier := FirstReply(inbox[..|inbox| - 1], id);
      var last := inbox[|inbox| - 1];
      if earlier.Some? then earlier else if last.header.messageId == id then Some(last) else None
  }

  lemma {:induction false} FirstReplyIsFirst(inbox: seq<Message>, id: Bytes)
    ensures FirstReply(inbox, id).None? <==> forall k :: 0 <= k < |inbox| ==> inbox[k].header.messageId != id
    ensures FirstReply(inbox, id).Some? ==>
      exists k :: 0 <= k < |inbox| && FirstReply(inbox, id) == Some(inbox[k]) && inbox[k].header.messageId == id
        && forall j :: 0 <= j < k ==> inbox[j].header.messageId != id
  {
    if inbox != [] {
      var n := |inbox| - 1;
      FirstReplyIsFirst(inbox[..n], id);
      assert forall k :: 0 <= k < n ==> inbox[..n][k] == inbox[k];
      if FirstReply(inbox[..n], id).None? && inbox[n].header.messageId == id {
        assert FirstReply(inbox, id) == Some(inbox[n]);
      }
    }
  }

  class Dispatcher {
    var waiters: map<Bytes, OneShot>

    /** No two ids share a channel, and every waiting channel is unused. */
    ghost predicate Valid()
      reads this, waiters.Values
    {
      && (forall i, j :: i in waiters && j in waiters && i != j ==> waiters[i] != waiters[j])
      && (forall i :: i in waiters ==> waiters[i].value == None && !waiters[i].senderGone)
    }

    constructor ()
      ensures Valid() && waiters == map[]
    {
      waiters := map[];
    }

    /** Registers a wait, unless one with this id is under way. */
    method RegisterWaiter(id: Bytes) returns (r: Option<(WaiterGuard, OneShot)>)
      requires Valid()
      modifies this
      ensures Valid()
      ensures r.None? <==> id in old(waiters)
      ensures r.None? ==> waiters == old(waiters)
      ensures r.Some? ==>
        && fresh(r.value.0) && fresh(r.value.1)
        && waiters == old(waiters)[id := r.value.1]
        && r.value.0.dispatcher == this && r.value.0.id == id
        && r.value.1.value == None && !r.value.1.senderGone && !r.value.1.receiverGone
    {
      var channel := new OneShot();
      if id in waiters {
        return None;
      }
      waiters := waiters[id := channel];
      var guard := new WaiterGuard(this, id);
      return Some((guard, channel));
    }

    /** Takes the waiter out by id; its sender is dropped unused. */
    method RemoveWaiter(id: Bytes)
      requires Valid()
      modifies this, if id in waiters then {waiters[id]} else {}
      ensures Valid()
      ensures waiters == old(waiters) - {id}
      ensures id in old(waiters) ==> old(waiters)[id].senderGone && old(waiters)[id].value == None
    {
      if id in waiters {
        waiters[id].DropSender();
      }
      waiters := waiters - {id};
    }

    /** The body of the listener loop. */
    method HandleReply(m: Message)
      requires Valid()
      modifies this, if m.header.messageId in waiters then {waiters[m.header.messageId]} else {}
      ensures Valid()
      ensures waiters == old(waiters) - {m.header.messageId}
      ensures m.header.messageId in old(waiters) ==>
        var channel := old(waiters)[m.header.messageId];
        && channel.senderGone && channel.receiverGone == old(channel.receiverGone)
        && channel.value == if old(channel.receiverGone) then None else Some(m)
    {
      var id := m.header.messageId;
      if id in waiters {
        var sender := waiters[id];
        waiters := waiters - {id};
        var _ := sender.Send(m);
      }
    }

    /** After the replies `seen`, starting from the waiters `was`; `gone` are the ids whose receivers are gone. */
    ghost predicate Progress(was: map<Bytes, OneShot>, gone: set<Bytes>, seen: seq<Message>)
      reads this, was.Values
    {
      && (forall i, j :: i in was && j in was && i != j ==> was[i] != was[j])
      && (forall id :: id in waiters <==> id in was && FirstReply(seen, id).None?)
      && (forall id :: id in waiters ==> waiters[id] == was[id] && !was[id].senderGone)
      && (forall id :: id in was ==>
            && (was[id].receiverGone <==> id in gone)
            && was[id].value == if id in gone then None else FirstReply(seen, id))
    }

    /** One turn of the listener loop. */
    method Turn(m: Message, ghost was: map<Bytes, OneShot>, ghost gone: set<Bytes>, ghost seen: seq<Message>)
      requires Progress(was, gone, seen)
      modifies this, if m.header.messageId in waiters then {waiters[m.header.messageId]} else {}
      ensures Progress(was, gone, seen + [m])
    {
      forall id ensures FirstReply(seen + [m], id) ==
        if FirstReply(seen, id).Some? then FirstReply(seen, id)
        else if m.header.messageId == id then Some(m) else None
      {
        assert (seen + [m])[..|seen|] == seen;
      }
      HandleReply(m);
    }

    /** The listener loop over an inbox that is then closed: each waiter gets the first reply with its id. */
    method Listen(inbox: seq<Message>)
      requires Valid()
      modifies this, waiters.Values
      ensures Valid()
      ensures forall id :: id in waiters <==> id in old(waiters) && FirstReply(inbox, id).None?
      ensures forall id :: id in waiters ==> waiters[id] == old(waiters)[id]
      ensures forall id :: id in old(waiters) ==>
        old(waiters)[id].value == if old(waiters[id].receiverGone) then None else FirstReply(inbox, id)
    {
      ghost var was := waiters;
      ghost var gone := set id | id in waiters && waiters[id].receiverGone;
      var k := 0;
      while k < |inbox|
        invariant k <= |inbox|
        invariant Progress(was, gone, inbox[..k])
      {
        Turn(inbox[k], was, gone, inbox[..k]);
        assert inbox[..k + 1] == inbox[..k] + [inbox[k]];
        k := k + 1;
      }
      assert inbox[..k] == inbox;
    }

    /** The end of the dispatcher drops every sender at once. */
    method Drop()
      requires Valid()
      modifies this, waiters.Values
      ensures Valid() && waiters == map[]
      ensures forall id :: id in old(waiters) ==> old(waiters)[id].senderGone && old(waiters)[id].value == None
    {
      var left := waiters;
      while left != map[]
        invariant left.Keys <= waiters.Keys && waiters == old(waiters)
        invariant forall id :: id in left ==> left[id] == waiters[id]
        invariant forall id :: id in waiters ==> waiters[id].value == None
        invariant forall id :: id in waiters && id !in left ==> waiters[id].senderGone
        decreases left.Keys
      {
        var id :| id in left;
        left[id].DropSender();
        left := left - {id};
      }
      waiters := map[];
    }
  }

  /** Removes the wait of its id when dropped, whoever waits under that id by then. */
  class WaiterGuard {
    const dispatcher: Dispatcher
    const id: Bytes

    constructor (dispatcher: Dispatcher, id: Bytes)
      ensures this.dispatcher == dispatcher && this.id == id
    {
      this.dispatcher, this.id := dispatcher, id;
    }

    method Drop()
      requires dispatcher.Valid()
      modifies dispatcher, if id in dispatcher.waiters then {dispatcher.waiters[id]} else {}
      ensures dispatcher.Valid()
      ensures dispatcher.waiters == old(dispatcher.waiters) - {id}
      ensures id in old(dispatcher.waiters) ==>
        old(dispatcher.waiters)[id].senderGone && old(dispatcher.waiters)[id].value == None
    {
      dispatcher.RemoveWaiter(id);
    }
  }
}
