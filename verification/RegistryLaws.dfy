/** What the routing table promises about addresses, whatever was registered and removed before. */
module RegistryLaws {
  import opened Segments
  import opened Patterns
  import opened Scans
  import opened Wrappers
  import opened RoutingTable

  // ------------------------------------------------------- exclusive binding

  /** `key` is an exact address or a `*` pattern of the table, bound to `target`. */
  ghost predicate Route<T>(table: Table<T>, key: Bytes, target: T) {
    || (key in table.exact && table.exact[key] == target)
    || (exists i :: 0 <= i < |table.singles| && table.singles[i] == (key, target))
  }

  /** Every concrete address is matched by at most one exact address or `*` pattern. */
  lemma ExclusiveBinding<T>(table: Table<T>, a: Bytes, k1: Bytes, t1: T, k2: Bytes, t2: T)
    requires Valid(table) && StarFree(a)
    requires Route(table, k1, t1) && Covers(k1, a)
    requires Route(table, k2, t2) && Covers(k2, a)
    ensures k1 == k2 && t1 == t2
  {
    if k1 in table.exact && table.exact[k1] == t1 {
      StarFreeCovers(k1, a);
    }
    if k2 in table.exact && table.exact[k2] == t2 {
      StarFreeCovers(k2, a);
    }
    assert SharedAddress(k1, k2, a) && SharedAddress(k2, k1, a);
  }

  // ------------------------------------------------------------------ lookup

  /** No wildcard key is the start of a concrete address. */
  lemma {:induction false} NoAncestor<T>(prefix: map<Bytes, T>, a: Bytes, n: nat)
    requires (forall q :: q in prefix ==> IsWildcard(q)) && StarFree(a) && n <= |a|
    ensures LongestPrefix(prefix, a, n) == None
  {
    assert STAR !in a[..n];
    if n > 0 {
      NoAncestor(prefix, a, n - 1);
    }
  }

  lemma {:induction false} FirstCoveringIs<T>(singles: seq<(Bytes, T)>, a: Bytes)
    requires (forall i :: 0 <= i < |singles| ==> ValidPattern(singles[i].0)) && StarFree(a)
    ensures FirstCovering(singles, a).None? <==> forall i :: 0 <= i < |singles| ==> !Covers(singles[i].0, a)
    ensures FirstCovering(singles, a).Some? ==>
      exists i :: 0 <= i < |singles| && Covers(singles[i].0, a) && FirstCovering(singles, a) == Some(singles[i].1)
  {
    if singles != [] {
      OneSidedExact(singles[0].0, a);
      FirstCoveringIs(singles[1..], a);
      assert forall i :: 0 < i < |singles| ==> singles[i] == singles[1..][i - 1];
    }
  }

  /** `lookup` finds exactly the one exact or `*` entry that matches, and nothing when there is none. */
  lemma LookupRefines<T>(table: Table<T>, a: Bytes, target: T)
    requires Valid(table) && StarFree(a)
    ensures Lookup(table, a) == Some(target) <==> exists k :: Route(table, k, target) && Covers(k, a)
  {
    NoAncestor(table.prefix, a, |a|);
    FirstCoveringIs(table.singles, a);
    StarFreeCovers(a, a);
    if Lookup(table, a) == Some(target) {
      if a in table.exact {
        assert Route(table, a, target) && Covers(a, a);
      } else {
        var i :| 0 <= i < |table.singles| && Covers(table.singles[i].0, a) && Some(target) == Some(table.singles[i].1);
        assert Route(table, table.singles[i].0, target);
      }
    }
    if k :| Route(table, k, target) && Covers(k, a) {
      LookupFindsRoute(table, a, k, target);
    }
  }

  lemma LookupFindsRoute<T>(table: Table<T>, a: Bytes, k: Bytes, target: T)
    requires Valid(table) && StarFree(a) && Route(table, k, target) && Covers(k, a)
    ensures Lookup(table, a) == Some(target)
  {
    NoAncestor(table.prefix, a, |a|);
    FirstCoveringIs(table.singles, a);
    if a in table.exact {
      StarFreeCovers(a, a);
      ExclusiveBinding(table, a, k, target, a, table.exact[a]);
    } else {
      assert k !in table.exact by {
        if k in table.exact {
          StarFreeCovers(k, a);
        }
      }
      var i :| 0 <= i < |table.singles| && Covers(table.singles[i].0, a)
        && FirstCovering(table.singles, a) == Some(table.singles[i].1);
      assert Route(table, table.singles[i].0, table.singles[i].1);
      ExclusiveBinding(table, a, k, target, table.singles[i].0, table.singles[i].1);
    }
  }

  /** The order of the `*` list does not matter to any concrete address. */
  lemma LookupIgnoresOrder<T>(t1: Table<T>, t2: Table<T>, a: Bytes)
    requires Valid(t1) && Valid(t2) && StarFree(a)
    requires t1.exact == t2.exact && multiset(t1.singles) == multiset(t2.singles)
    ensures Lookup(t1, a) == Lookup(t2, a)
  {
    forall k, t ensures Route(t1, k, t) <==> Route(t2, k, t) {
      assert (k, t) in multiset(t1.singles) <==> (k, t) in t1.singles;
      assert (k, t) in multiset(t2.singles) <==> (k, t) in t2.singles;
    }
    if Lookup(t1, a).Some? {
      LookupRefines(t1, a, Lookup(t1, a).value);
      LookupRefines(t2, a, Lookup(t1, a).value);
    } else if Lookup(t2, a).Some? {
      LookupRefines(t1, a, Lookup(t2, a).value);
      LookupRefines(t2, a, Lookup(t2, a).value);
    }
  }

  // --------------------------------------------------------------- conflicts

  ghost predicate Present<T>(table: Table<T>, key: Bytes) {
    OwnEntry(table, key).Some?
  }

  /** A refusal names an entry that is there, and that shares a concrete address with the newcomer. */
  lemma NoFalseConflicts<T>(table: Table<T>, address: Bytes, key: Bytes)
    requires Valid(table) && (IsWildcard(address) ==> ValidPattern(address)) && ConflictsWith(table, address, key)
    ensures Present(table, key) && Overlap(address, key)
  {
    if IsWildcard(address) {
      if key in table.prefix && Found(address, key) {
        EndsWithAnyIsOpen(key);
        PrefixScanExact(address, key);
      } else if key in table.exact && StaticPrefix(address) <= key && Compare(Split(address), Split(key), false) {
        ExactScanExact(address, key);
        StarFreeCovers(key, key);
        assert SharedAddress(address, key, key);
      } else {
        TwoSidedExact(key, address);
        OverlapSymmetric(key, address);
      }
    } else {
      assert key <= address ==> StarFree(key);
      OneSidedExact(key, address);
      StarFreeCovers(address, address);
      assert SharedAddress(address, key, address);
    }
  }

  // ------------------------------------------------------ wildcard exclusivity

  /** A stored `*` or `**` pattern. */
  ghost predicate Wild<T>(table: Table<T>, p: Bytes) {
    p in table.prefix || exists i :: 0 <= i < |table.singles| && table.singles[i].0 == p
  }

  /** Two stored wildcards share an address only when one is a `**` pattern with an earlier single `*`. */
  lemma SharedOnlyWhenBlind<T>(table: Table<T>, p: Bytes, q: Bytes)
    requires Valid(table) && Wild(table, p) && Wild(table, q) && p != q && Overlap(p, q)
    ensures (q in table.prefix && Blind(p, q)) || (p in table.prefix && Blind(q, p))
  {
    OverlapSymmetric(p, q);
  }

  /** Every `**` pattern of the table has only literal segments before `**`. */
  ghost predicate LiteralPrefixes<T>(table: Table<T>) {
    forall q :: q in table.prefix ==> FirstStar(Split(q)) == |Split(q)| - 1
  }

  /** With literal segments before every `**`, no concrete address matches two stored wildcards. */
  lemma WildcardExclusivity<T>(table: Table<T>, p: Bytes, q: Bytes, a: Bytes)
    requires Valid(table) && LiteralPrefixes(table)
    requires Wild(table, p) && Wild(table, q) && SharedAddress(p, q, a)
    ensures p == q
  {
    if p != q {
      SharedOnlyWhenBlind(table, p, q);
      if p in table.prefix {
        LiteralIsSeen(q, p);
      }
      if q in table.prefix {
        LiteralIsSeen(p, q);
      }
    }
  }

  lemma LiteralIsSeen(p: Bytes, q: Bytes)
    requires IsPrefixKey(q) && FirstStar(Split(q)) == |Split(q)| - 1
    ensures !Blind(p, q)
  {
    EndsWithAnyIsOpen(q);
  }

  // -------------------------------------- the documented law, and when it holds

  /** The documented binding model: no concrete address is matched by two entries of any kind. */
  ghost predicate FullyExclusive<T>(table: Table<T>) {
    forall p, q :: Present(table, p) && Present(table, q) && p != q ==> !Overlap(p, q)
  }

  /** Entries that registration of `key` does not look at although they share an address with it. */
  ghost predicate Overlooks<T>(table: Table<T>, key: Bytes) {
    if IsWildcard(key) then
      || (exists q :: q in table.prefix && Blind(key, q) && Overlap(key, q))
      || (exists k :: k in table.exact && IsStem(k, key))
    else
      exists q :: q in table.prefix && Covers(q, key)
  }

  lemma OwnEntryOfInsert<T>(table: Table<T>, key: Bytes, target: T, k: Bytes)
    requires OwnEntry(table, key) == None
    ensures OwnEntry(Insert(table, key, target), k) == if k == key then Some(target) else OwnEntry(table, k)
  {
    if IsWildcard(key) && !EndsWithAny(key) {
      FindSingleSnoc(table.singles, key, target, k);
    }
  }

  lemma {:induction false} FindSingleSnoc<T>(singles: seq<(Bytes, T)>, key: Bytes, target: T, k: Bytes)
    ensures FindSingle(singles + [(key, target)], k) ==
      if FindSingle(singles, k).Some? then FindSingle(singles, k) else if k == key then Some(target) else None
  {
    if singles != [] {
      FindSingleSnoc(singles[1..], key, target, k);
      assert (singles + [(key, target)])[1..] == singles[1..] + [(key, target)];
    }
  }

  lemma StemIsCovered(k: Bytes, p: Bytes)
    requires StarFree(k) && IsStem(k, p)
    ensures Overlap(p, k)
  {
    StemSegments(k, p);
    StarFreeCovers(k, k);
    assert SharedAddress(p, k, k);
  }

  /** An accepted newcomer shares an address with a stored entry exactly when it overlooks one. */
  lemma AcceptedOverlap<T>(table: Table<T>, key: Bytes)
    requires Valid(table) && CanRegister(table, key)
    ensures (exists q :: Present(table, q) && Overlap(key, q)) <==> Overlooks(table, key)
  {
    if q :| Present(table, q) && Overlap(key, q) {
      AcceptedOverlapIsOverlooked(table, key, q);
    }
    if Overlooks(table, key) {
      if !IsWildcard(key) {
        var q :| q in table.prefix && Covers(q, key);
        StarFreeCovers(key, key);
        assert SharedAddress(key, q, key) && Present(table, q);
      } else if q :| q in table.prefix && Blind(key, q) && Overlap(key, q) {
        assert Present(table, q);
      } else {
        var k :| k in table.exact && IsStem(k, key);
        StemIsCovered(k, key);
        assert Present(table, k);
      }
    }
  }

  lemma AcceptedOverlapIsOverlooked<T>(table: Table<T>, key: Bytes, q: Bytes)
    requires Valid(table) && CanRegister(table, key) && Present(table, q) && Overlap(key, q)
    ensures Overlooks(table, key)
  {
    assert !ConflictsWith(table, key, q);
    var a :| SharedAddress(key, q, a);
    if !IsWildcard(key) {
      StarFreeCovers(key, a);
      if !IsWildcard(q) {
        StarFreeCovers(q, a);
      } else if !EndsWithAny(q) {
        NewExactIsApart(table, key);
      }
    } else if !IsWildcard(q) {
      StarFreeCovers(q, a);
      ExactScanExact(key, q);
    } else if EndsWithAny(q) {
      NewWildcardMeetsPrefixes(table, key);
    } else {
      NewWildcardMeetsSingles(table, key);
      OverlapSymmetric(key, q);
    }
  }

  /** Registration keeps the documented law exactly when it overlooks nothing. */
  lemma RegistrationExact<T>(table: Table<T>, key: Bytes, target: T)
    requires Valid(table) && FullyExclusive(table) && CanRegister(table, key)
    ensures FullyExclusive(Insert(table, key, target)) <==> !Overlooks(table, key)
  {
    var table' := Insert(table, key, target);
    AcceptedOverlap(table, key);
    forall k ensures Present(table', k) <==> k == key || Present(table, k) {
      OwnEntryOfInsert(table, key, target, k);
    }
    if Overlooks(table, key) {
      var q :| Present(table, q) && Overlap(key, q);
      assert Present(table', q) && Present(table', key) && q != key;
    } else {
      forall p, q | Present(table', p) && Present(table', q) && p != q ensures !Overlap(p, q) {
        if Overlap(p, q) {
          OverlapSymmetric(p, q);
        }
      }
    }
  }

  // ------------------------------------------------------------------- removal

  /** Removing a registration puts back the very table that was there before it. */
  lemma RemoveUndoesInsert<T>(table: Table<T>, key: Bytes, target: T)
    requires OwnEntry(table, key) == None
    ensures Remove(Insert(table, key, target), key) == table
  {
    if IsWildcard(key) && !EndsWithAny(key) {
      RemoveLast(table.singles, key, target);
    }
  }

  lemma {:induction false} RemoveLast<T>(singles: seq<(Bytes, T)>, key: Bytes, target: T)
    requires FindSingle(singles, key) == None
    ensures RemoveSingle(singles + [(key, target)], key) == singles
  {
    if singles != [] {
      RemoveLast(singles[1..], key, target);
      assert (singles + [(key, target)])[1..] == singles[1..] + [(key, target)];
    }
  }

  /** Removal silences exactly the addresses its key routed; every other address keeps its target. */
  lemma RemoveIsLocal<T>(table: Table<T>, key: Bytes, a: Bytes)
    requires Valid(table) && StarFree(a)
    ensures Lookup(Remove(table, key), a) ==
      if (exists t :: Route(table, key, t)) && Covers(key, a) then None else Lookup(table, a)
  {
    var table' := Remove(table, key);
    RemoveKeepsValid(table, key);
    forall k, t ensures Route(table', k, t) <==> Route(table, k, t) && k != key {
      RouteOfRemove(table, key, k, t);
    }
    if Lookup(table', a).Some? {
      var t := Lookup(table', a).value;
      LookupRefines(table', a, t);
      var k :| Route(table', k, t) && Covers(k, a);
      LookupFindsRoute(table, a, k, t);
      if u :| Route(table, key, u) && Covers(key, a) {
        ExclusiveBinding(table, a, k, t, key, u);
      }
    } else if Lookup(table, a).Some? {
      var t := Lookup(table, a).value;
      LookupRefines(table, a, t);
      LookupRefines(table', a, t);
    }
  }

  lemma RouteOfRemove<T>(table: Table<T>, key: Bytes, k: Bytes, t: T)
    requires Valid(table)
    ensures Route(Remove(table, key), k, t) <==> Route(table, k, t) && k != key
  {
    if IsWildcard(key) && !EndsWithAny(key) {
      var i := RemoveSingleIs(table.singles, key);
      if i < |table.singles| {
        forall n | 0 <= n < |table.singles| && n != i ensures table.singles[n].0 != key {
          if table.singles[n].0 == key {
            OverlapSelf(key);
          }
        }
        DropOneMember(table.singles, RemoveSingle(table.singles, key), i, (k, t));
      }
    }
  }

  lemma DropOneMember<S>(xs: seq<S>, ys: seq<S>, i: nat, x: S)
    requires i < |xs| && ys == xs[..i] + xs[i + 1..]
    requires forall n :: 0 <= n < |xs| && n != i ==> xs[n] != xs[i]
    ensures (exists n :: 0 <= n < |ys| && ys[n] == x) <==> x != xs[i] && exists n :: 0 <= n < |xs| && xs[n] == x
  {
    assert forall n :: 0 <= n < |ys| ==> ys[n] == xs[if n < i then n else n + 1];
    if n :| 0 <= n < |xs| && xs[n] == x && n != i {
      assert ys[if n < i then n else n - 1] == x;
    }
  }
}
