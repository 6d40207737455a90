/** Operations on the registry finish: nobody waits for ever on the mutex, and no step sets another thread back. */
module Progress {
  import opened Patterns
  import opened Wrappers
  import opened RoutingTable
  import opened Operations
  import opened Concurrency

  /** An operation that changes nothing can always be refused with some result. */
  lemma RefusalExists(table: Routes, op: Op) returns (r: Result)
    requires Declined(table, op)
    ensures Outcome(table, op, r)
  {
    if op.Unregister? {
      r := Done;
    } else if IsWildcard(op.address) && !ValidPattern(op.address) {
      r := Malformed;
    } else if OwnEntry(table, op.address).Some? {
      r := if op.Register? then Occupied else AlreadyExists(OwnEntry(table, op.address).value);
    } else {
      var key :| ConflictsWith(table, op.address, key);
      r := Conflicting(key);
    }
  }

  /** Whoever is in the critical section can go on. */
  lemma HolderMoves(s: State, t: nat) returns (l: Label)
    requires Inv(s) && InCriticalSection(PhaseOf(s, t))
    ensures Acts(l, t) && Enabled(s, l)
  {
    var p := PhaseOf(s, t);
    assert PhaseInv(s, t, p);
    match p
    case Entered(_) => l := Load(t);
    case Loaded(op, snapshot) =>
      if Declined(snapshot, op) {
        var r := RefusalExists(snapshot, op);
        l := Refuse(t, r);
      } else {
        l := match op
          case Unregister(_, _) => Silence(t)
          case Register(_, _) => Build(t)
          case GetOrRegister(_, _, _) => RunFactory(t);
      }
    case FactoryRan(op, _) => l := if op.factoryOk then Build(t) else FailFactory(t);
    case Silenced(_, _) => l := Bump(t);
    case Ready(_, _, _) => l := Publish(t);
    case Leaving(_, _) => l := Release(t);
  }

  /** No deadlock: as long as a thread has an operation under way, it can step, or the thread that holds the mutex can. */
  lemma NobodyIsStuck(states: seq<State>, labels: seq<Label>, i: nat, t: nat) returns (l: Label)
    requires Run(states, labels) && i < |states| && !PhaseOf(states[i], t).Idle?
    ensures Enabled(states[i], l)
    ensures Acts(l, t) || (states[i].mutex.Some? && Acts(l, states[i].mutex.value))
  {
    var s := states[i];
    RunKeepsInv(states, labels, i);
    assert InCriticalSection(PhaseOf(s, t)) <==> s.mutex == Some(t);
    if InCriticalSection(PhaseOf(s, t)) {
      l := HolderMoves(s, t);
    } else if s.mutex.None? {
      l := Acquire(t);
    } else {
      assert InCriticalSection(PhaseOf(s, s.mutex.value)) <==> s.mutex == Some(s.mutex.value);
      l := HolderMoves(s, s.mutex.value);
    }
  }

  function StepsLeft(p: Phase): nat {
    match p
    case Idle => 0
    case Leaving(_, _) => 1
    case Ready(_, _, _) => 2
    case FactoryRan(_, _) => 3
    case Silenced(_, _) => 3
    case Loaded(_, _) => 4
    case Entered(_) => 5
    case Waiting(_) => 6
  }

  /** An operation takes at most seven steps: each brings its thread nearer to the end, and nobody sets it back. */
  lemma StepsRunOut(s: State, l: Label, t: nat)
    requires Enabled(s, l)
    ensures !Acts(l, t) ==> PhaseOf(Next(s, l), t) == PhaseOf(s, t)
    ensures Acts(l, t) && !l.Begin? ==> StepsLeft(PhaseOf(Next(s, l), t)) < StepsLeft(PhaseOf(s, t))
  {
  }
}
