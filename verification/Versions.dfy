/** Slot versions over whole runs: what raises them, and what the version half of a validity check detects. */
module Versions {
  import opened Operations
  import opened Concurrency

  /** The step raises the version of this slot: a removal of it, or a shutdown of its group. */
  predicate Raises(s: State, l: Label, slot: nat) {
    || l == Shutdown(slot)
    || (l.Bump? && PhaseOf(s, l.thread).Silenced? && PhaseOf(s, l.thread).op.Unregister? && PhaseOf(s, l.thread).op.slot == slot)
  }

  lemma VersionStep(s: State, l: Label, slot: nat)
    requires Enabled(s, l)
    ensures VersionOf(Next(s, l), slot) == VersionOf(s, slot) + if Raises(s, l, slot) then 1 else 0
  {
  }

  /** The number of steps from `i` to `j` that raise the slot's version. */
  function CountRaises(states: seq<State>, labels: seq<Label>, i: nat, j: nat, slot: nat): nat
    requires j <= |labels| && j <= |states|
  {
    if j <= i then 0
    else CountRaises(states, labels, i, j - 1, slot) + if Raises(states[j - 1], labels[j - 1], slot) then 1 else 0
  }

  /** A version counts the removals and shutdowns of its slot. */
  lemma {:induction false} VersionCounts(states: seq<State>, labels: seq<Label>, i: nat, j: nat, slot: nat)
    requires Run(states, labels) && i <= j < |states|
    ensures VersionOf(states[j], slot) == VersionOf(states[i], slot) + CountRaises(states, labels, i, j, slot)
    decreases j
  {
    if i < j {
      VersionCounts(states, labels, i, j - 1, slot);
      assert StepAt(states, labels, j - 1);
      VersionStep(states[j - 1], labels[j - 1], slot);
    }
  }

  /** The endpoint was made with this version. */
  predicate MadeWith(s: State, e: nat, target: Target, version: nat) {
    e in s.endpoints && !s.endpoints[e].Looked? && s.endpoints[e].target == target && s.endpoints[e].version == version
  }

  lemma EndpointStays(s: State, l: Label, e: nat, target: Target, version: nat)
    requires Enabled(s, l) && MadeWith(s, e, target, version)
    ensures MadeWith(Next(s, l), e, target, version)
  {
  }

  lemma ReadVersionMakes(s: State, e: nat)
    requires Enabled(s, ReadVersion(e))
    ensures
      var target := s.endpoints[e].target;
      MadeWith(Next(s, ReadVersion(e)), e, target, VersionOf(s, target.slot))
  {
  }

  lemma {:induction false} EndpointKeeps(states: seq<State>, labels: seq<Label>, i: nat, j: nat, e: nat)
    requires Run(states, labels) && i < j < |states| && labels[i] == ReadVersion(e) && e in states[i].endpoints
    ensures
      var target := states[i].endpoints[e].target;
      MadeWith(states[j], e, target, VersionOf(states[i], target.slot))
    decreases j
  {
    var target := states[i].endpoints[e].target;
    assert StepAt(states, labels, j - 1);
    if j == i + 1 {
      ReadVersionMakes(states[i], e);
    } else {
      EndpointKeeps(states, labels, i, j - 1, e);
      EndpointStays(states[j - 1], labels[j - 1], e, target, VersionOf(states[i], target.slot));
    }
  }

  /**
    The version check detects exactly the removals: it can pass if and only if no removal or shutdown
    of the target's slot has raised its version since the endpoint was made.
   */
  lemma CheckDetectsRemoval(states: seq<State>, labels: seq<Label>, i: nat, j: nat, e: nat)
    requires Run(states, labels) && i < j < |states| && labels[i] == ReadVersion(e) && e in states[i].endpoints
    requires e in states[j].endpoints && states[j].endpoints[e].Cached?
    ensures Enabled(states[j], CheckVersion(e)) <==>
      CountRaises(states, labels, i, j, states[i].endpoints[e].target.slot) == 0
  {
    EndpointKeeps(states, labels, i, j, e);
    VersionCounts(states, labels, i, j, states[i].endpoints[e].target.slot);
  }

  /** The step takes the slot's sender away, or its receiver. */
  predicate Closes(s: State, l: Label, slot: nat) {
    || l == Shutdown(slot) || l == HangUp(slot)
    || (l.Silence? && PhaseOf(s, l.thread).Loaded? && PhaseOf(s, l.thread).op.Unregister? && PhaseOf(s, l.thread).op.slot == slot)
  }

  lemma ClosedStep(s: State, l: Label, slot: nat)
    requires Enabled(s, l)
    ensures Closed(Next(s, l), slot) <==> Closed(s, slot) || Closes(s, l, slot)
  {
  }

  /** A slot is closed exactly when its removal has begun, its group was shut down, or its receiver went away. */
  lemma {:induction false} ClosedExactly(states: seq<State>, labels: seq<Label>, i: nat, slot: nat)
    requires Run(states, labels) && i < |states|
    ensures Closed(states[i], slot) <==> exists k :: 0 <= k < i && Closes(states[k], labels[k], slot)
  {
    if i > 0 {
      ClosedExactly(states, labels, i - 1, slot);
      assert StepAt(states, labels, i - 1);
      ClosedStep(states[i - 1], labels[i - 1], slot);
    }
  }

  lemma BecomesReady(s: State, l: Label, t: nat)
    requires Inv(s) && Enabled(s, l) && PhaseOf(Next(s, l), t).Ready? && PhaseOf(Next(s, l), t).op.Unregister?
    ensures
      var op := PhaseOf(Next(s, l), t).op;
      || (l == Bump(t) && Raises(s, l, op.slot) && op.slot in s.silenced)
      || PhaseOf(s, t) == PhaseOf(Next(s, l), t)
  {
    assert PhaseInv(s, t, PhaseOf(s, t));
  }

  lemma ReadyFrom(states: seq<State>, labels: seq<Label>, i: nat, t: nat)
    requires Run(states, labels) && i < |labels|
    requires PhaseOf(states[i + 1], t).Ready? && PhaseOf(states[i + 1], t).op.Unregister?
    ensures
      var op := PhaseOf(states[i + 1], t).op;
      || (labels[i] == Bump(t) && Raises(states[i], labels[i], op.slot) && op.slot in states[i].silenced)
      || PhaseOf(states[i], t) == PhaseOf(states[i + 1], t)
  {
    assert StepAt(states, labels, i);
    RunKeepsInv(states, labels, i);
    BecomesReady(states[i], labels[i], t);
  }

  lemma NothingReadyAtFirst(t: nat)
    ensures !PhaseOf(Init, t).Ready?
  {
  }

  /** A removal is published only after the slot lost its sender and, after that, its version was raised. */
  lemma {:induction false} RaisedBeforePublished(states: seq<State>, labels: seq<Label>, i: nat, t: nat) returns (k: nat)
    requires Run(states, labels) && i < |states|
    requires PhaseOf(states[i], t).Ready? && PhaseOf(states[i], t).op.Unregister?
    ensures k < i && labels[k] == Bump(t) && Raises(states[k], labels[k], PhaseOf(states[i], t).op.slot)
    ensures PhaseOf(states[i], t).op.slot in states[k].silenced
    ensures forall n :: k < n <= i ==> PhaseOf(states[n], t) == PhaseOf(states[i], t)
  {
    NothingReadyAtFirst(t);
    ReadyFrom(states, labels, i - 1, t);
    if PhaseOf(states[i - 1], t) == PhaseOf(states[i], t) {
      k := RaisedBeforePublished(states, labels, i - 1, t);
    } else {
      k := i - 1;
    }
  }
}
