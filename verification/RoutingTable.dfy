/**
  The three stores of the registry as one value: exact addresses, `**` patterns and the list of
  `*` patterns. Radix trees are maps: `get` is exact, `walk_prefix` gives the keys that start
  with a string, `walk_path` and `get_ancestor` give keys that the string starts with.
 */
module RoutingTable {
  import opened Segments
  import opened Patterns
  import opened Scans
  import opened Wrappers

  datatype Table<T> = Table(exact: map<Bytes, T>, prefix: map<Bytes, T>, singles: seq<(Bytes, T)>)

  function EmptyTable<T>(): Table<T> {
    Table(map[], map[], [])
  }

  predicate EndsWithAny(a: Bytes) {
    |a| >= 2 && a[|a| - 2] == STAR && a[|a| - 1] == STAR
  }

  function FindSingle<T>(singles: seq<(Bytes, T)>, key: Bytes): (r: Option<T>)
    ensures r == None <==> forall i :: 0 <= i < |singles| ==> singles[i].0 != key
    ensures r.Some? ==> exists i :: 0 <= i < |singles| && singles[i] == (key, r.value)
  {
    if singles == [] then None
    else if singles[0].0 == key then
      assert singles[0] == (key, singles[0].1);
      Some(singles[0].1)
    else
      var r := FindSingle(singles[1..], key);
      assert forall i :: 0 < i < |singles| ==> singles[i] == singles[1..][i - 1];
      r
  }

  /** The entry stored under exactly this address or pattern. */
  function OwnEntry<T>(table: Table<T>, key: Bytes): Option<T> {
    if !IsWildcard(key) then
      if key in table.exact then Some(table.exact[key]) else None
    else if EndsWithAny(key) then
      if key in table.prefix then Some(table.prefix[key]) else None
    else
      FindSingle(table.singles, key)
  }

  function Insert<T>(table: Table<T>, key: Bytes, target: T): Table<T> {
    if !IsWildcard(key) then table.(exact := table.exact[key := target])
    else if EndsWithAny(key) then table.(prefix := table.prefix[key := target])
    else table.(singles := table.singles + [(key, target)])
  }

  function RemoveSingle<T>(singles: seq<(Bytes, T)>, key: Bytes): seq<(Bytes, T)> {
    if singles == [] then []
    else if singles[0].0 == key then singles[1..]
    else [singles[0]] + RemoveSingle(singles[1..], key)
  }

  function Remove<T>(table: Table<T>, key: Bytes): Table<T> {
    if !IsWildcard(key) then table.(exact := table.exact - {key})
    else if EndsWithAny(key) then table.(prefix := table.prefix - {key})
    else table.(singles := RemoveSingle(table.singles, key))
  }

  // ----------------------------------------------------------- conflict check

  ghost predicate ExactConflict<T>(table: Table<T>, address: Bytes, key: Bytes) {
    || (key in table.prefix && key <= address)
    || (exists i :: 0 <= i < |table.singles| && table.singles[i].0 == key && Compare(Split(key), Split(address), false))
  }

  ghost predicate WildcardConflict<T>(table: Table<T>, pattern: Bytes, key: Bytes) {
    || (key in table.prefix && Found(pattern, key))
    || (exists i :: 0 <= i < |table.singles| && table.singles[i].0 == key && Compare(Split(key), Split(pattern), true))
    || (key in table.exact && StaticPrefix(pattern) <= key && Compare(Split(pattern), Split(key), false))
  }

  /** The check for `address` may name `key` as the entry in its way. */
  ghost predicate ConflictsWith<T>(table: Table<T>, address: Bytes, key: Bytes) {
    if IsWildcard(address) then WildcardConflict(table, address, key) else ExactConflict(table, address, key)
  }

  ghost predicate Unopposed<T>(table: Table<T>, address: Bytes) {
    forall key :: !ConflictsWith(table, address, key)
  }

  /** Registration of `address` goes through. */
  ghost predicate CanRegister<T>(table: Table<T>, address: Bytes) {
    && (IsWildcard(address) ==> ValidPattern(address))
    && OwnEntry(table, address) == None
    && Unopposed(table, address)
  }

  // ------------------------------------------------------------------ lookup

  /** The entry under the longest key that `address` starts with. */
  function LongestPrefix<T>(prefix: map<Bytes, T>, address: Bytes, n: nat): (r: Option<T>)
    requires n <= |address|
    ensures r.Some? ==> exists k :: k in prefix && k <= address && prefix[k] == r.value
  {
    if address[..n] in prefix then Some(prefix[address[..n]])
    else if n == 0 then None
    else LongestPrefix(prefix, address, n - 1)
  }

  /** It is the entry of the longest stored key that the address starts with, and `None` only when there is no such key. */
  lemma {:induction false} LongestPrefixIs<T>(prefix: map<Bytes, T>, address: Bytes, n: nat)
    requires n <= |address|
    ensures LongestPrefix(prefix, address, n).None? ==> forall k :: 0 <= k <= n ==> address[..k] !in prefix
    ensures LongestPrefix(prefix, address, n).Some? ==>
      exists k :: 0 <= k <= n && address[..k] in prefix && LongestPrefix(prefix, address, n) == Some(prefix[address[..k]])
        && forall j :: k < j <= n ==> address[..j] !in prefix
  {
    if n > 0 && address[..n] !in prefix {
      LongestPrefixIs(prefix, address, n - 1);
    }
  }

  function FirstCovering<T>(singles: seq<(Bytes, T)>, address: Bytes): Option<T> {
    if singles == [] then None
    else if Compare(Split(singles[0].0), Split(address), false) then Some(singles[0].1)
    else FirstCovering(singles[1..], address)
  }

  function Lookup<T>(table: Table<T>, address: Bytes): Option<T> {
    if address in table.exact then Some(table.exact[address])
    else
      var ancestor := LongestPrefix(table.prefix, address, |address|);
      if ancestor.Some? then ancestor else FirstCovering(table.singles, address)
  }

  // --------------------------------------------------------------- invariant

  predicate IsPrefixKey(p: Bytes) {
    ValidPattern(p) && IsWildcard(p) && EndsWithAny(p)
  }

  predicate IsSingleKey(p: Bytes) {
    ValidPattern(p) && IsWildcard(p) && !EndsWithAny(p)
  }

  ghost predicate WellKeyed<T>(table: Table<T>) {
    && (forall k :: k in table.exact ==> StarFree(k))
    && (forall q :: q in table.prefix ==> IsPrefixKey(q))
    && (forall i :: 0 <= i < |table.singles| ==> IsSingleKey(table.singles[i].0))
  }

  /** No concrete address is claimed twice among exact addresses and `*` patterns. */
  ghost predicate Exclusive<T>(table: Table<T>) {
    && (forall i, j :: 0 <= i < j < |table.singles| ==> !Overlap(table.singles[i].0, table.singles[j].0))
    && (forall i, k :: 0 <= i < |table.singles| && k in table.exact ==> !Covers(table.singles[i].0, k))
  }

  /** Wherever a `**` pattern shares an address with another wildcard, the check was blind to one of the two. */
  ghost predicate OnlyBlindOverlaps<T>(table: Table<T>) {
    && (forall i, q :: 0 <= i < |table.singles| && q in table.prefix && Overlap(table.singles[i].0, q) ==>
          Blind(table.singles[i].0, q))
    && (forall p, q :: p in table.prefix && q in table.prefix && p != q && Overlap(p, q) ==> Blind(p, q) || Blind(q, p))
  }

  ghost predicate Valid<T>(table: Table<T>) {
    WellKeyed(table) && Exclusive(table) && OnlyBlindOverlaps(table)
  }

  lemma EndsWithAnyIsOpen(p: Bytes)
    requires ValidPattern(p)
    ensures EndsWithAny(p) <==> Open(Split(p))
  {
    var ps := Split(p);
    var last := ps[|ps| - 1];
    JoinSplit(p);
    if |ps| > 1 {
      assert ps == ps[..|ps| - 1] + [last];
      JoinAround(ps[..|ps| - 1], [last]);
      assert p == Join(ps[..|ps| - 1]) + [COLON] + last;
      assert GoodSegment(last);
      LastBytes(p, Join(ps[..|ps| - 1]), last);
    } else {
      assert p == ps[0];
    }
  }

  lemma LastBytes(p: Bytes, head: Bytes, last: Bytes)
    requires p == head + [COLON] + last && GoodSegment(last)
    ensures EndsWithAny(p) <==> last == ANY
  {
    assert p[|p| - 1] == last[|last| - 1];
    assert p[|p| - 2] == if |last| == 1 then COLON else last[|last| - 2];
  }

  // ------------------------------------------------- what the check guarantees

  /** A `*` pattern's scan of the exact addresses misses nothing. */
  lemma SingleIsNoStem(p: Bytes, k: Bytes)
    requires IsSingleKey(p)
    ensures !IsStem(k, p)
  {
  }

  lemma NewSingleIsApart<T>(table: Table<T>, p: Bytes)
    requires WellKeyed(table) && IsSingleKey(p) && Unopposed(table, p)
    ensures forall i :: 0 <= i < |table.singles| ==> !Overlap(table.singles[i].0, p)
    ensures forall k :: k in table.exact ==> !Covers(p, k)
    ensures forall q :: q in table.prefix && Overlap(p, q) ==> Blind(p, q)
  {
    NewWildcardMeetsSingles(table, p);
    NewWildcardMeetsPrefixes(table, p);
    forall k | k in table.exact ensures !Covers(p, k) {
      assert !ConflictsWith(table, p, k);
      ExactScanExact(p, k);
      SingleIsNoStem(p, k);
    }
  }

  lemma NewWildcardMeetsSingles<T>(table: Table<T>, p: Bytes)
    requires WellKeyed(table) && IsWildcard(p) && ValidPattern(p) && Unopposed(table, p)
    ensures forall i :: 0 <= i < |table.singles| ==> !Overlap(table.singles[i].0, p)
  {
    forall i | 0 <= i < |table.singles| ensures !Overlap(table.singles[i].0, p) {
      assert !ConflictsWith(table, p, table.singles[i].0);
      TwoSidedExact(table.singles[i].0, p);
    }
  }

  lemma NewWildcardMeetsPrefixes<T>(table: Table<T>, p: Bytes)
    requires WellKeyed(table) && IsWildcard(p) && ValidPattern(p) && Unopposed(table, p)
    ensures forall q :: q in table.prefix && Overlap(p, q) ==> Blind(p, q)
  {
    forall q | q in table.prefix && Overlap(p, q) ensures Blind(p, q) {
      assert !ConflictsWith(table, p, q);
      EndsWithAnyIsOpen(q);
      PrefixScanExact(p, q);
    }
  }

  lemma NewExactIsApart<T>(table: Table<T>, a: Bytes)
    requires WellKeyed(table) && StarFree(a) && Unopposed(table, a)
    ensures forall i :: 0 <= i < |table.singles| ==> !Covers(table.singles[i].0, a)
  {
    forall i | 0 <= i < |table.singles| ensures !Covers(table.singles[i].0, a) {
      assert !ConflictsWith(table, a, table.singles[i].0);
      OneSidedExact(table.singles[i].0, a);
    }
  }

  lemma OverlapSymmetric(p: Bytes, q: Bytes)
    requires Overlap(p, q)
    ensures Overlap(q, p)
  {
    var a :| SharedAddress(p, q, a);
    assert SharedAddress(q, p, a);
  }

  lemma InsertPrefixKeepsValid<T>(table: Table<T>, key: Bytes, target: T)
    requires Valid(table) && CanRegister(table, key) && IsPrefixKey(key)
    ensures Valid(Insert(table, key, target))
  {
    NewWildcardMeetsSingles(table, key);
    NewWildcardMeetsPrefixes(table, key);
    var prefix' := Insert(table, key, target).prefix;
    forall p, q | p in prefix' && q in prefix' && p != q && Overlap(p, q) ensures Blind(p, q) || Blind(q, p) {
      OverlapSymmetric(p, q);
    }
  }

  lemma InsertSingleKeepsValid<T>(table: Table<T>, key: Bytes, target: T)
    requires Valid(table) && CanRegister(table, key) && IsSingleKey(key)
    ensures Valid(Insert(table, key, target))
  {
    NewSingleIsApart(table, key);
    var table' := Insert(table, key, target);
    var n := |table.singles|;
    assert table'.singles[n] == (key, target);
    assert forall i :: 0 <= i < n ==> table'.singles[i] == table.singles[i];
    assert WellKeyed(table');
    assert Exclusive(table');
    assert OnlyBlindOverlaps(table');
  }

  lemma InsertExactKeepsValid<T>(table: Table<T>, key: Bytes, target: T)
    requires Valid(table) && CanRegister(table, key) && StarFree(key)
    ensures Valid(Insert(table, key, target))
  {
    NewExactIsApart(table, key);
  }

  lemma InsertKeepsValid<T>(table: Table<T>, key: Bytes, target: T)
    requires Valid(table) && CanRegister(table, key)
    ensures Valid(Insert(table, key, target))
  {
    if !IsWildcard(key) {
      InsertExactKeepsValid(table, key, target);
    } else if EndsWithAny(key) {
      InsertPrefixKeepsValid(table, key, target);
    } else {
      InsertSingleKeepsValid(table, key, target);
    }
  }

  lemma {:induction false} FirstWithKey<T>(singles: seq<(Bytes, T)>, key: Bytes) returns (i: nat)
    ensures i <= |singles|
    ensures FindSingle(singles, key).Some? <==> i < |singles|
    ensures i < |singles| ==> singles[i].0 == key && FindSingle(singles, key) == Some(singles[i].1)
    ensures forall k :: 0 <= k < i ==> singles[k].0 != key
  {
    if singles == [] || singles[0].0 == key {
      i := 0;
    } else {
      var j := FirstWithKey(singles[1..], key);
      i := j + 1;
      assert forall k :: 0 < k < |singles| ==> singles[k] == singles[1..][k - 1];
    }
  }

  /** The list without entry `i`, if there is one. */
  function Without<A>(xs: seq<A>, i: nat): seq<A>
    requires i <= |xs|
  {
    if i < |xs| then xs[..i] + xs[i + 1..] else xs
  }

  lemma WithoutCons<A>(xs: seq<A>, j: nat)
    requires xs != [] && j <= |xs| - 1
    ensures [xs[0]] + Without(xs[1..], j) == Without(xs, j + 1)
  {
  }

  lemma {:induction false} RemoveFirst<T>(singles: seq<(Bytes, T)>, key: Bytes, i: nat)
    requires i <= |singles| && (i < |singles| ==> singles[i].0 == key)
    requires forall k :: 0 <= k < i ==> singles[k].0 != key
    ensures RemoveSingle(singles, key) == Without(singles, i)
  {
    if singles != [] && i > 0 {
      assert forall k :: 0 < k < |singles| ==> singles[k] == singles[1..][k - 1];
      RemoveFirst(singles[1..], key, i - 1);
      WithoutCons(singles, i - 1);
    }
  }

  lemma RemoveSingleIs<T>(singles: seq<(Bytes, T)>, key: Bytes) returns (i: nat)
    ensures i <= |singles|
    ensures FindSingle(singles, key).Some? <==> i < |singles|
    ensures i < |singles| ==> singles[i].0 == key && FindSingle(singles, key) == Some(singles[i].1)
    ensures i < |singles| ==> RemoveSingle(singles, key) == singles[..i] + singles[i + 1..]
    ensures i == |singles| ==> RemoveSingle(singles, key) == singles
    ensures forall k :: 0 <= k < i ==> singles[k].0 != key
  {
    i := FirstWithKey(singles, key);
    RemoveFirst(singles, key, i);
  }

  /** Dropping one list entry keeps every claim about single entries and about pairs of them. */
  lemma DropKeepsValid<T>(table: Table<T>, table': Table<T>, i: nat)
    requires Valid(table) && i < |table.singles|
    requires table'.exact == table.exact && table'.prefix == table.prefix
    requires |table'.singles| == |table.singles| - 1
    requires forall k :: 0 <= k < |table'.singles| ==> table'.singles[k] == table.singles[if k < i then k else k + 1]
    ensures Valid(table')
  {
    forall m, n | 0 <= m < n < |table'.singles| ensures !Overlap(table'.singles[m].0, table'.singles[n].0) {
      var m', n' := if m < i then m else m + 1, if n < i then n else n + 1;
      assert !Overlap(table.singles[m'].0, table.singles[n'].0);
    }
    assert WellKeyed(table') && Exclusive(table');
  }

  lemma RemoveSingleKeepsValid<T>(table: Table<T>, key: Bytes)
    requires Valid(table)
    ensures Valid(table.(singles := RemoveSingle(table.singles, key)))
  {
    var i := RemoveSingleIs(table.singles, key);
    if i < |table.singles| {
      DropKeepsValid(table, table.(singles := RemoveSingle(table.singles, key)), i);
    }
  }

  lemma RemoveKeepsValid<T>(table: Table<T>, key: Bytes)
    requires Valid(table)
    ensures Valid(Remove(table, key))
  {
    if IsWildcard(key) && !EndsWithAny(key) {
      RemoveSingleKeepsValid(table, key);
    }
  }
}
