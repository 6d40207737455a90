/** The registry's searches as loops over its stores. Walks visit their keys in any order. */
module ConflictCheck {
  import opened Segments
  import opened Patterns
  import opened Scans
  import opened Wrappers
  import opened RoutingTable

  datatype Finding<+T> = Duplicate(target: T) | Conflict(key: Bytes) | NotFound

  /** What a finding says about the table. */
  ghost predicate Reports<T>(table: Table<T>, address: Bytes, f: Finding<T>) {
    match f
    case Duplicate(target) => OwnEntry(table, address) == Some(target)
    case Conflict(key) => OwnEntry(table, address) == None && ConflictsWith(table, address, key)
    case NotFound => OwnEntry(table, address) == None && Unopposed(table, address)
  }

  /** Some `*` pattern of the list matches `address`; with `both`, shares an address with it. */
  method FindMatchingSingle<T>(singles: seq<(Bytes, T)>, address: Bytes, both: bool) returns (i: nat)
    ensures i <= |singles|
    ensures i < |singles| ==> Compare(Split(singles[i].0), Split(address), both)
    ensures forall k :: 0 <= k < i ==> !Compare(Split(singles[k].0), Split(address), both)
  {
    i := 0;
    while i < |singles|
      invariant i <= |singles|
      invariant forall k :: 0 <= k < i ==> !Compare(Split(singles[k].0), Split(address), both)
    {
      var hit := CompareSegments(singles[i].0, address, both);
      if hit {
        return;
      }
      i := i + 1;
    }
  }

  method GetExact<T>(table: Table<T>, address: Bytes) returns (f: Finding<T>)
    requires !IsWildcard(address)
    ensures Reports(table, address, f)
  {
    if address in table.exact {
      return Duplicate(table.exact[address]);
    }
    var ancestors := set q | q in table.prefix && q <= address;
    if ancestors != {} {
      var q :| q in ancestors;
      return Conflict(q);
    }
    var i := FindMatchingSingle(table.singles, address, false);
    if i < |table.singles| {
      return Conflict(table.singles[i].0);
    }
    assert forall q :: q in table.prefix && q <= address ==> q in ancestors;
    return NotFound;
  }

  lemma {:induction false} JoinSnoc(segs: seq<Bytes>, i: nat)
    requires 1 <= i < |segs|
    ensures Join(segs[..i + 1]) == Join(segs[..i]) + [COLON] + segs[i]
  {
    assert segs[..i + 1] == segs[..i] + [segs[i]];
    JoinAround(segs[..i], [segs[i]]);
  }

  /** Probes `a:**`, `a:b:**`, ... for the segments before `**`. */
  method ProbeCandidates<T>(prefix: map<Bytes, T>, pattern: Bytes) returns (r: Option<Bytes>)
    requires ValidPattern(pattern)
    ensures r.Some? ==> r.value in prefix && Candidate(pattern, r.value)
    ensures r.None? ==> forall q :: q in prefix ==> !Candidate(pattern, q)
  {
    var segs := Split(pattern);
    var candidate: Bytes := [];
    var i := 0;
    while i < |segs| && segs[i] != ANY
      invariant i <= BodyLen(segs)
      invariant i == 0 ==> candidate == []
      invariant i > 0 ==> candidate == Join(segs[..i]) && candidate != []
      invariant forall k :: 1 <= k <= i ==> Join(segs[..k]) + [COLON] + ANY !in prefix
    {
      if candidate != [] {
        JoinSnoc(segs, i);
        candidate := candidate + [COLON];
      }
      candidate := candidate + segs[i];
      i := i + 1;
      assert GoodSegment(segs[i - 1]);
      var probe := candidate + [COLON] + ANY;
      if probe in prefix {
        return Some(probe);
      }
    }
    return None;
  }

  /** Finds a stored `**` pattern in the way of `pattern`, by candidates and then below its static prefix. */
  method CheckPrefixConflicts<T>(prefix: map<Bytes, T>, pattern: Bytes) returns (r: Option<Bytes>)
    requires ValidPattern(pattern)
    ensures r.Some? ==> r.value in prefix && Found(pattern, r.value)
    ensures r.None? ==> forall q :: q in prefix ==> !Found(pattern, q)
  {
    if prefix == map[] {
      return None;
    }
    r := ProbeCandidates(prefix, pattern);
    if r.Some? {
      return;
    }
    var keys := set q | q in prefix && StaticPrefix(pattern) <= q;
    ghost var all := keys;
    while keys != {}
      invariant keys <= all
      invariant forall q :: q in all && q !in keys ==> !Found(pattern, q)
      decreases keys
    {
      var q :| q in keys;
      keys := keys - {q};
      if q != pattern {
        var hit := CompareSegments(pattern, q, true);
        if hit {
          return Some(q);
        }
      }
    }
    assert forall q :: q in prefix && StaticPrefix(pattern) <= q ==> q in all;
    return None;
  }

  /** Scans the exact addresses below the static prefix of `pattern` for one that it matches. */
  method ScanExact<T>(exact: map<Bytes, T>, pattern: Bytes) returns (r: Option<Bytes>)
    ensures r.Some? ==>
      r.value in exact && StaticPrefix(pattern) <= r.value && Compare(Split(pattern), Split(r.value), false)
    ensures r.None? ==>
      forall k :: k in exact && StaticPrefix(pattern) <= k ==> !Compare(Split(pattern), Split(k), false)
  {
    var keys := set k | k in exact && StaticPrefix(pattern) <= k;
    ghost var all := keys;
    while keys != {}
      invariant keys <= all
      invariant forall k :: k in all && k !in keys ==> !Compare(Split(pattern), Split(k), false)
      decreases keys
    {
      var k :| k in keys;
      keys := keys - {k};
      var hit := CompareSegments(pattern, k, false);
      if hit {
        return Some(k);
      }
    }
    assert forall k :: k in exact && StaticPrefix(pattern) <= k ==> k in all;
    return None;
  }

  method GetWildcard<T>(table: Table<T>, pattern: Bytes) returns (f: Finding<T>)
    requires IsWildcard(pattern) && ValidPattern(pattern)
    ensures Reports(table, pattern, f)
  {
    var own := OwnEntry(table, pattern);
    if own.Some? {
      return Duplicate(own.value);
    }
    var existing := CheckPrefixConflicts(table.prefix, pattern);
    if existing.Some? {
      return Conflict(existing.value);
    }
    var i := FindMatchingSingle(table.singles, pattern, true);
    if i < |table.singles| {
      return Conflict(table.singles[i].0);
    }
    existing := ScanExact(table.exact, pattern);
    if existing.Some? {
      return Conflict(existing.value);
    }
    return NotFound;
  }

  lemma {:induction false} FirstCoveringAt<T>(singles: seq<(Bytes, T)>, address: Bytes, i: nat)
    requires i <= |singles|
    requires forall k :: 0 <= k < i ==> !Compare(Split(singles[k].0), Split(address), false)
    requires i < |singles| ==> Compare(Split(singles[i].0), Split(address), false)
    ensures FirstCovering(singles, address) == if i < |singles| then Some(singles[i].1) else None
  {
    if i > 0 {
      FirstCoveringAt(singles[1..], address, i - 1);
    }
  }

  /** `lookup` on a snapshot: exact, then the longest `**` key the address starts with, then the `*` list. */
  method LookupIn<T>(table: Table<T>, address: Bytes) returns (r: Option<T>)
    ensures r == Lookup(table, address)
  {
    if address in table.exact {
      return Some(table.exact[address]);
    }
    r := LongestPrefix(table.prefix, address, |address|);
    if r.Some? {
      return;
    }
    var i := FindMatchingSingle(table.singles, address, false);
    FirstCoveringAt(table.singles, address, i);
    if i < |table.singles| {
      return Some(table.singles[i].1);
    }
    return None;
  }
}
