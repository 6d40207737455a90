/** Where a reply goes: the address that `request` writes into a message leads back to the client. */
module ReplyRouting {
  import opened Segments
  import opened Patterns
  import opened Wrappers
  import opened RoutingTable
  import opened Operations
  import opened Concurrency
  import Protocol
  import Codec

  lemma ValidAddressIsStarFree(a: Bytes)
    requires Protocol.ValidAddress(a)
    ensures StarFree(a)
  {
    assert forall i :: 0 <= i < |a| ==> Protocol.AddressChar(a[i]);
  }

  /** A client lives from the step that publishes its registration, if nobody is already removing it. */
  lemma ClientIsBorn(states: seq<State>, labels: seq<Label>, i: nat, address: Bytes, slot: nat)
    requires Run(states, labels) && i < |labels| && StepAt(states, labels, i) && labels[i].Publish? && Protocol.ValidAddress(address)
    requires PhaseOf(states[i], labels[i].thread).op == Register(address, Single(slot))
    requires forall t :: PhaseOf(states[i], t).Idle? || PhaseOf(states[i], t).op != Unregister(address, slot)
    ensures ClientLives(states[i + 1], address, slot)
  {
    var s, s' := states[i], states[i + 1];
    RunKeepsInv(states, labels, i);
    assert PhaseInv(s, labels[i].thread, PhaseOf(s, labels[i].thread));
    ValidAddressIsStarFree(address);
    forall t ensures PhaseOf(s', t).Idle? || PhaseOf(s', t).op != Unregister(address, slot) {
      assert PhaseOf(s, t).Idle? || PhaseOf(s, t).op != Unregister(address, slot);
    }
  }

  /**
    The reply address of a request, read off the wire by whoever decodes it, is looked up to the
    requesting client's own slot for as long as the client lives, whatever others register or drop.
   */
  lemma ReplyToLeadsBack(states: seq<State>, labels: seq<Label>, i: nat, j: nat, m: Protocol.Message, address: Bytes,
                         slot: nat, rest: Bytes)
    requires Run(states, labels) && i <= j < |states| && ClientLives(states[i], address, slot)
    requires forall k :: i <= k < j ==> !(labels[k].Begin? && labels[k].op == Unregister(address, slot))
    requires Codec.WellFormed(m) && Protocol.ValidAddress(address) && |address| <= Protocol.MAX_ADDRESS_LEN
    ensures
      var received := Codec.Decode(Codec.Encode(Codec.AsRequest(m, address)) + rest);
      received.Ok? && Lookup(states[j].published, received.value.0.replyTo) == Some(Single(slot))
  {
    Codec.RequestRoundTrip(m, address, rest);
    RepliesReachTheClient(states, labels, i, j, address, slot);
  }
}
