/** The registry's operations one after another, and histories of them. */
module Operations {
  import opened Segments
  import opened Patterns
  import opened Wrappers
  import opened RoutingTable

  /** A routing target, told apart by the identity of its slot (and group). */
  datatype Target = Single(slot: nat) | LoadBalanced(group: nat, slot: nat)

  type Routes = Table<Target>

  datatype Op =
    | Register(address: Bytes, target: Target)
    | GetOrRegister(address: Bytes, target: Target, factoryOk: bool)
    | Unregister(address: Bytes, slot: nat)

  datatype Result =
    | Done
    | Registered(target: Target)
    | AlreadyExists(target: Target)
    | Occupied
    | Conflicting(key: Bytes)
    | Malformed
    | FactoryFailed

  /** The entry for `address` holds this very slot. */
  predicate Owns(table: Routes, address: Bytes, slot: nat) {
    OwnEntry(table, address).Some? && OwnEntry(table, address).value.slot == slot
  }

  ghost function Apply(table: Routes, op: Op): Routes {
    match op
    case Register(address, target) =>
      if CanRegister(table, address) then Insert(table, address, target) else table
    case GetOrRegister(address, target, factoryOk) =>
      if CanRegister(table, address) && factoryOk then Insert(table, address, target) else table
    case Unregister(address, slot) =>
      if Owns(table, address, slot) then Remove(table, address) else table
  }

  /** `r` is a result the operation may give; only the entry named by a conflict is left open. */
  ghost predicate Outcome(table: Routes, op: Op, r: Result) {
    if op.Unregister? then
      r == Done
    else if IsWildcard(op.address) && !ValidPattern(op.address) then
      r == Malformed
    else if OwnEntry(table, op.address).Some? then
      r == if op.Register? then Occupied else AlreadyExists(OwnEntry(table, op.address).value)
    else if !CanRegister(table, op.address) then
      r.Conflicting? && ConflictsWith(table, op.address, r.key)
    else if op.Register? then
      r == Done
    else
      r == if op.factoryOk then Registered(op.target) else FactoryFailed
  }

  datatype Event = Event(thread: nat, op: Op, result: Result)

  ghost function Replay(log: seq<Event>): Routes {
    if log == [] then EmptyTable() else Apply(Replay(log[..|log| - 1]), log[|log| - 1].op)
  }

  /** Every logged result is the one the operation gives on the table left by the events before it. */
  ghost predicate Legal(log: seq<Event>) {
    forall i :: 0 <= i < |log| ==> Outcome(Replay(log[..i]), log[i].op, log[i].result)
  }

  lemma ApplyKeepsValid(table: Routes, op: Op)
    requires Valid(table)
    ensures Valid(Apply(table, op))
  {
    match op
    case Register(address, target) =>
      if CanRegister(table, address) {
        InsertKeepsValid(table, address, target);
      }
    case GetOrRegister(address, target, _) =>
      if CanRegister(table, address) {
        InsertKeepsValid(table, address, target);
      }
    case Unregister(address, _) =>
      RemoveKeepsValid(table, address);
  }

  /** Every history of operations leaves a valid table. */
  lemma {:induction false} ReplayValid(log: seq<Event>)
    ensures Valid(Replay(log))
  {
    if log != [] {
      ReplayValid(log[..|log| - 1]);
      ApplyKeepsValid(Replay(log[..|log| - 1]), log[|log| - 1].op);
    }
  }

  lemma LegalSnoc(log: seq<Event>, e: Event)
    requires Legal(log) && Outcome(Replay(log), e.op, e.result)
    ensures Legal(log + [e])
    ensures Replay(log + [e]) == Apply(Replay(log), e.op)
  {
    var log' := log + [e];
    assert log'[..|log|] == log;
    assert forall i :: 0 <= i < |log| ==> log'[..i] == log[..i];
  }

  // --------------------------------------------- registrations and removals

  lemma {:induction false} FindSingleOfRemove<T>(singles: seq<(Bytes, T)>, key: Bytes, k: Bytes)
    requires k != key
    ensures FindSingle(RemoveSingle(singles, key), k) == FindSingle(singles, k)
  {
    if singles != [] && singles[0].0 != key {
      FindSingleOfRemove(singles[1..], key, k);
    }
  }

  lemma {:induction false} FindSingleOfAppend<T>(singles: seq<(Bytes, T)>, more: seq<(Bytes, T)>, k: Bytes)
    requires FindSingle(singles, k).Some?
    ensures FindSingle(singles + more, k) == FindSingle(singles, k)
  {
    if singles[0].0 != k {
      FindSingleOfAppend(singles[1..], more, k);
      assert (singles + more)[1..] == singles[1..] + more;
    }
  }

  /** The removal of `address`'s own entry. */
  predicate Removes(table: Routes, op: Op, address: Bytes) {
    op.Unregister? && op.address == address && Owns(table, address, op.slot)
  }

  /** Only its removal takes an entry away; nothing replaces it. */
  lemma EntryPersists(table: Routes, op: Op, address: Bytes)
    requires OwnEntry(table, address).Some? && !Removes(table, op, address)
    ensures OwnEntry(Apply(table, op), address) == OwnEntry(table, address)
  {
    if op.Unregister? {
      if op.address != address {
        FindSingleOfRemove(table.singles, op.address, address);
      }
    } else if Apply(table, op) != table {
      if IsWildcard(address) && !EndsWithAny(address) {
        FindSingleOfAppend(table.singles, [(op.address, op.target)], address);
      }
    }
  }

  /** The event is a registration of `address` that went through. */
  predicate Takes(e: Event, address: Bytes) {
    && !e.op.Unregister?
    && e.op.address == address
    && (e.result.Registered? || (e.op.Register? && e.result == Done))
  }

  lemma ReplayStep(log: seq<Event>, j: nat)
    requires 0 < j <= |log|
    ensures Replay(log[..j]) == Apply(Replay(log[..j - 1]), log[j - 1].op)
  {
    assert log[..j][..j - 1] == log[..j - 1];
  }

  lemma {:induction false} EntryUntilRemoval(log: seq<Event>, i: nat, j: nat, address: Bytes)
    requires Legal(log) && i < j <= |log| && Takes(log[i], address)
    requires forall k :: i < k < j ==> !Removes(Replay(log[..k]), log[k].op, address)
    ensures OwnEntry(Replay(log[..j]), address).Some?
    decreases j
  {
    ReplayStep(log, j);
    if j == i + 1 {
      TakenIsOwned(Replay(log[..i]), log[i], address);
    } else {
      EntryUntilRemoval(log, i, j - 1, address);
      EntryPersists(Replay(log[..j - 1]), log[j - 1].op, address);
    }
  }

  lemma TakenIsOwned(table: Routes, e: Event, address: Bytes)
    requires Outcome(table, e.op, e.result) && Takes(e, address)
    ensures CanRegister(table, address) && OwnEntry(Apply(table, e.op), address).Some?
  {
    var table' := Apply(table, e.op);
    if IsWildcard(address) && !EndsWithAny(address) {
      assert table'.singles[|table.singles|].0 == address;
    }
  }

  /** Event `k` removes the entry of `address`. */
  ghost predicate RemovesAt(log: seq<Event>, k: nat, address: Bytes)
    requires k < |log|
  {
    Removes(Replay(log[..k]), log[k].op, address)
  }

  /** Before event `n` the entry of `address` is `target`. */
  ghost predicate Holds(log: seq<Event>, n: nat, address: Bytes, target: Target)
    requires n <= |log|
  {
    OwnEntry(Replay(log[..n]), address) == Some(target)
  }

  /** Event `j` registered `address`, and until event `n` nothing has removed it. */
  ghost predicate StandsSince(log: seq<Event>, j: nat, n: nat, address: Bytes)
    requires n <= |log|
  {
    && j < n && Takes(log[j], address)
    && forall k :: j < k < n ==> !RemovesAt(log, k, address)
  }

  lemma {:induction false} RemovedIsGone<T>(singles: seq<(Bytes, T)>, key: Bytes)
    requires forall i, j :: 0 <= i < j < |singles| ==> singles[i].0 != singles[j].0
    ensures FindSingle(RemoveSingle(singles, key), key) == None
  {
    if singles != [] && singles[0].0 != key {
      RemovedIsGone(singles[1..], key);
    }
  }

  lemma RemovalEmpties(table: Routes, address: Bytes)
    requires Valid(table)
    ensures OwnEntry(Remove(table, address), address) == None
  {
    if IsWildcard(address) && !EndsWithAny(address) {
      forall i, j | 0 <= i < j < |table.singles| ensures table.singles[i].0 != table.singles[j].0 {
        OverlapSelf(table.singles[i].0);
      }
      RemovedIsGone(table.singles, address);
    }
  }

  /** An entry of the table after an operation was there before, or the operation has just put it there. */
  lemma EntryFrom(table: Routes, e: Event, address: Bytes)
    requires Valid(table) && Outcome(table, e.op, e.result) && OwnEntry(Apply(table, e.op), address).Some?
    ensures
      var target := OwnEntry(Apply(table, e.op), address).value;
      || (Takes(e, address) && e.op.target == target)
      || (OwnEntry(table, address) == Some(target) && !Removes(table, e.op, address))
  {
    if OwnEntry(table, address).Some? {
      if Removes(table, e.op, address) {
        RemovalEmpties(table, address);
      } else {
        EntryPersists(table, e.op, address);
      }
    } else if e.op.Unregister? {
      if e.op.address != address {
        FindSingleOfRemove(table.singles, e.op.address, address);
      } else {
        RemovalEmpties(table, address);
      }
    } else {
      RegisteredHere(table, e.op.address, e.op.target, address);
    }
  }

  lemma RegisteredHere(table: Routes, key: Bytes, target: Target, address: Bytes)
    requires OwnEntry(table, address) == None && OwnEntry(Insert(table, key, target), address).Some?
    ensures key == address && OwnEntry(Insert(table, key, target), address) == Some(target)
  {
    if IsWildcard(key) && !EndsWithAny(key) {
      FindSingleAfter(table.singles, key, target, address);
    }
  }

  lemma {:induction false} FindSingleAfter<T>(singles: seq<(Bytes, T)>, key: Bytes, target: T, k: Bytes)
    requires FindSingle(singles, k) == None
    ensures FindSingle(singles + [(key, target)], k) == if k == key then Some(target) else None
  {
    if singles != [] {
      FindSingleAfter(singles[1..], key, target, k);
      assert (singles + [(key, target)])[1..] == singles[1..] + [(key, target)];
    }
  }

  /** If `target` is held after event `i`, the event put it there, or it was held before and the event left it. */
  ghost predicate Sourced(log: seq<Event>, i: nat, address: Bytes, target: Target)
    requires i < |log|
  {
    Holds(log, i + 1, address, target) ==>
      || (Takes(log[i], address) && log[i].op.target == target)
      || (Holds(log, i, address, target) && !RemovesAt(log, i, address))
  }

  lemma EventIsSourced(log: seq<Event>, i: nat, address: Bytes, target: Target)
    requires Legal(log) && i < |log|
    ensures Sourced(log, i, address, target)
  {
    if Holds(log, i + 1, address, target) {
      ReplayStep(log, i + 1);
      ReplayValid(log[..i]);
      EntryFrom(Replay(log[..i]), log[i], address);
    }
  }

  /** What holds at `n`, and holds after a step only if put there or held before and not cleared, was put there last at some `j`. */
  lemma {:induction false} LatestPut(held: nat -> bool, put: nat -> bool, cleared: nat -> bool, n: nat) returns (j: nat)
    requires held(n) && !held(0)
    requires forall i: nat :: i < n && held(i + 1) ==> put(i) || (held(i) && !cleared(i))
    ensures j < n && put(j) && forall k :: j < k < n ==> !cleared(k)
  {
    if put(n - 1) {
      j := n - 1;
    } else {
      j := LatestPut(held, put, cleared, n - 1);
    }
  }

  /** Every entry was put there by a registration that has not been removed since. */
  lemma EntryHasOrigin(log: seq<Event>, n: nat, address: Bytes, target: Target) returns (j: nat)
    requires Legal(log) && n <= |log| && Holds(log, n, address, target)
    ensures StandsSince(log, j, n, address) && log[j].op.target == target
  {
    var held := (i: nat) => i <= n && Holds(log, i, address, target);
    var put := (i: nat) => i < n && Takes(log[i], address) && log[i].op.target == target;
    var cleared := (i: nat) => i < n && RemovesAt(log, i, address);
    forall i: nat | i < n && held(i + 1) ensures put(i) || (held(i) && !cleared(i)) {
      EventIsSourced(log, i, address, target);
    }
    NothingHeldAtFirst(log, address, target);
    j := LatestPut(held, put, cleared, n);
    assert forall k :: j < k < n ==> !cleared(k) ==> !RemovesAt(log, k, address);
  }

  lemma NothingHeldAtFirst(log: seq<Event>, address: Bytes, target: Target)
    ensures !Holds(log, 0, address, target)
  {
  }

  /** What get-or-register finds is the target of the registration that stands: the callers share it. */
  lemma ExistingWasRegistered(log: seq<Event>, i: nat) returns (j: nat)
    requires Legal(log) && i < |log| && log[i].result.AlreadyExists?
    ensures StandsSince(log, j, i, log[i].op.address) && log[i].result.target == log[j].op.target
  {
    assert Outcome(Replay(log[..i]), log[i].op, log[i].result);
    j := EntryHasOrigin(log, i, log[i].op.address, log[i].result.target);
  }

  /** Two successful registrations of one address are separated by its removal. */
  lemma RegistrationsSeparated(log: seq<Event>, i: nat, j: nat, address: Bytes)
    requires Legal(log) && i < j < |log| && Takes(log[i], address) && Takes(log[j], address)
    ensures exists k :: i < k < j && Removes(Replay(log[..k]), log[k].op, address)
  {
    if forall k :: i < k < j ==> !Removes(Replay(log[..k]), log[k].op, address) {
      EntryUntilRemoval(log, i, j, address);
      TakenIsOwned(Replay(log[..j]), log[j], address);
    }
  }
}
