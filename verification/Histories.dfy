/** The table laws for every history of registrations and removals. */
module Histories {
  import opened Segments
  import opened Patterns
  import opened Scans
  import opened Wrappers
  import opened RoutingTable
  import opened RegistryLaws
  import opened Operations

  /** After any history, a concrete address is matched by at most one exact address or `*` pattern. */
  lemma ExclusiveAfterAnyHistory(log: seq<Event>, a: Bytes, k1: Bytes, t1: Target, k2: Bytes, t2: Target)
    requires StarFree(a)
    requires Route(Replay(log), k1, t1) && Covers(k1, a)
    requires Route(Replay(log), k2, t2) && Covers(k2, a)
    ensures k1 == k2 && t1 == t2
  {
    ReplayValid(log);
    ExclusiveBinding(Replay(log), a, k1, t1, k2, t2);
  }

  /** After any history, `lookup` finds a target exactly when an exact address or `*` pattern bound to it matches. */
  lemma LookupAfterAnyHistory(log: seq<Event>, a: Bytes, target: Target)
    requires StarFree(a)
    ensures Lookup(Replay(log), a) == Some(target) <==> exists k :: Route(Replay(log), k, target) && Covers(k, a)
  {
    ReplayValid(log);
    LookupRefines(Replay(log), a, target);
  }

  /** A refusal in any history names an entry that is there at that moment and shares an address with the newcomer. */
  lemma RefusalsNameRealConflicts(log: seq<Event>, i: nat)
    requires Legal(log) && i < |log| && log[i].result.Conflicting?
    ensures Present(Replay(log[..i]), log[i].result.key) && Overlap(log[i].op.address, log[i].result.key)
  {
    ReplayValid(log[..i]);
    assert Outcome(Replay(log[..i]), log[i].op, log[i].result);
    NoFalseConflicts(Replay(log[..i]), log[i].op.address, log[i].result.key);
  }

  /** The `**` patterns that the history asks to register have only literal segments before `**`. */
  ghost predicate AsksLiterally(log: seq<Event>) {
    forall i :: 0 <= i < |log| && !log[i].op.Unregister? && IsPrefixKey(log[i].op.address) ==>
      FirstStar(Split(log[i].op.address)) == |Split(log[i].op.address)| - 1
  }

  lemma {:induction false} LiteralHistory(log: seq<Event>)
    requires AsksLiterally(log)
    ensures LiteralPrefixes(Replay(log))
  {
    if log != [] {
      var n := |log| - 1;
      assert forall i :: 0 <= i < n ==> log[..n][i] == log[i];
      LiteralHistory(log[..n]);
      LiteralStep(Replay(log[..n]), log[n].op);
    }
  }

  lemma LiteralStep(table: Routes, op: Op)
    requires LiteralPrefixes(table)
    requires !op.Unregister? && IsPrefixKey(op.address) ==> FirstStar(Split(op.address)) == |Split(op.address)| - 1
    ensures LiteralPrefixes(Apply(table, op))
  {
  }

  /** After any history that asks for literal `**` patterns only, no concrete address matches two wildcards. */
  lemma WildcardsAfterLiteralHistory(log: seq<Event>, p: Bytes, q: Bytes, a: Bytes)
    requires AsksLiterally(log)
    requires Wild(Replay(log), p) && Wild(Replay(log), q) && SharedAddress(p, q, a)
    ensures p == q
  {
    ReplayValid(log);
    LiteralHistory(log);
    WildcardExclusivity(Replay(log), p, q, a);
  }

  // -------------------------------------- the documented law over histories

  /** Event `i` registered an address although a stored entry that the check overlooks shares one with it. */
  ghost predicate OverlooksAt(log: seq<Event>, i: nat)
    requires i < |log|
  {
    var table, op := Replay(log[..i]), log[i].op;
    Apply(table, op) != table && !op.Unregister? && Overlooks(table, op.address)
  }

  ghost predicate NeverOverlooks(log: seq<Event>) {
    forall i :: 0 <= i < |log| ==> !OverlooksAt(log, i)
  }

  lemma OverlooksAtPrefix(log: seq<Event>, n: nat, i: nat)
    requires i < n <= |log|
    ensures OverlooksAt(log[..n], i) <==> OverlooksAt(log, i)
  {
    assert log[..n][..i] == log[..i];
  }

  lemma NeverOverlooksSnoc(log: seq<Event>)
    requires log != []
    ensures NeverOverlooks(log) <==> NeverOverlooks(log[..|log| - 1]) && !OverlooksAt(log, |log| - 1)
  {
    var n := |log| - 1;
    forall i: nat | i < n ensures OverlooksAt(log[..n], i) <==> OverlooksAt(log, i) {
      OverlooksAtPrefix(log, n, i);
    }
  }

  /** A removal keeps the documented law. */
  lemma RemovalKeepsLaw(table: Routes, op: Op)
    requires FullyExclusive(table) && op.Unregister?
    ensures FullyExclusive(Apply(table, op))
  {
    forall k | Present(Apply(table, op), k) ensures Present(table, k) {
      if k == op.address {
        assert Present(table, k);
      } else {
        FindSingleOfRemove(table.singles, op.address, k);
      }
    }
  }

  /** A registration keeps the law exactly when it is refused or overlooks nothing. */
  lemma RegistrationKeepsLaw(table: Routes, op: Op)
    requires Valid(table) && FullyExclusive(table) && !op.Unregister?
    ensures FullyExclusive(Apply(table, op)) <==> Apply(table, op) == table || !Overlooks(table, op.address)
  {
    if Apply(table, op) != table {
      RegistrationExact(table, op.address, op.target);
    }
  }

  /** A registration never mends the law, since every entry stays. */
  lemma RegistrationNeverMends(table: Routes, op: Op)
    requires !FullyExclusive(table) && !op.Unregister?
    ensures !FullyExclusive(Apply(table, op))
  {
    var p, q :| Present(table, p) && Present(table, q) && p != q && Overlap(p, q);
    EntryPersists(table, op, p);
    EntryPersists(table, op, q);
    assert Present(Apply(table, op), p) && Present(Apply(table, op), q);
  }

  /** As long as no accepted registration overlooks an entry, no address is ever covered by two entries of any kind. */
  lemma {:induction false} LawAfterCarefulHistory(log: seq<Event>)
    requires NeverOverlooks(log)
    ensures FullyExclusive(Replay(log))
  {
    if log != [] {
      var n := |log| - 1;
      NeverOverlooksSnoc(log);
      LawAfterCarefulHistory(log[..n]);
      ReplayValid(log[..n]);
      if log[n].op.Unregister? {
        RemovalKeepsLaw(Replay(log[..n]), log[n].op);
      } else {
        RegistrationKeepsLaw(Replay(log[..n]), log[n].op);
      }
    }
  }

  /** After registrations alone the documented law holds if and only if none of them overlooked an entry. */
  lemma {:induction false} LawAfterRegistrations(log: seq<Event>)
    requires forall i :: 0 <= i < |log| ==> !log[i].op.Unregister?
    ensures FullyExclusive(Replay(log)) <==> NeverOverlooks(log)
  {
    if log != [] {
      var n := |log| - 1;
      assert forall i :: 0 <= i < n ==> log[..n][i] == log[i];
      NeverOverlooksSnoc(log);
      LawAfterRegistrations(log[..n]);
      ReplayValid(log[..n]);
      if NeverOverlooks(log[..n]) {
        RegistrationKeepsLaw(Replay(log[..n]), log[n].op);
      } else {
        RegistrationNeverMends(Replay(log[..n]), log[n].op);
      }
    }
  }

  // ------------------------------------------------------------------- removal

  /** Unregistering changes lookups only if the entry holds that very slot, and then only where its key matched. */
  lemma StaleHandlesAreHarmless(table: Routes, address: Bytes, slot: nat, a: Bytes)
    requires Valid(table) && StarFree(a)
    ensures Lookup(Apply(table, Unregister(address, slot)), a) ==
      if OwnEntry(table, address).Some? && OwnEntry(table, address).value.slot == slot
         && (exists t :: Route(table, address, t)) && Covers(address, a)
      then None else Lookup(table, a)
  {
    RemoveIsLocal(table, address, a);
  }

  /** A registration followed by its own removal leaves the table as it was, so every lookup is restored. */
  lemma UnregisterUndoesRegister(table: Routes, address: Bytes, target: Target)
    requires CanRegister(table, address)
    ensures Apply(Apply(table, Register(address, target)), Unregister(address, target.slot)) == table
  {
    OwnEntryOfInsert(table, address, target, address);
    RemoveUndoesInsert(table, address, target);
  }
}
