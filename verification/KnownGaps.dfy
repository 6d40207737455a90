/**
  Concrete registrations that the conflict check lets through although an address is then bound
  twice. RegistryLaws.RegistrationExact says for every table when this happens.
 */
module KnownGaps {
  import opened Segments
  import opened Patterns
  import opened Scans
  import opened Wrappers
  import opened RoutingTable
  import opened RegistryLaws

  const A: Bytes := [97]
  const B: Bytes := [98]

  lemma Spelled(segs: seq<Bytes>)
    requires ValidSegments(segs) && NoColons(segs)
    ensures Split(Join(segs)) == segs && ValidPattern(Join(segs))
    ensures IsWildcard(Join(segs)) <==> !StarFreeSegments(segs)
    ensures EndsWithAny(Join(segs)) <==> Open(segs)
  {
    SplitJoin(segs);
    StarFreeSplit(Join(segs));
    EndsWithAnyIsOpen(Join(segs));
  }

  /** The patterns below as bytes: 'a' is 97, 'b' 98, ':' 58 and '*' 42. */
  lemma SpelledInBytes()
    ensures Join([A, ONE, ANY]) == [97, 58, 42, 58, 42, 42] && Join([A, B, ONE]) == [97, 58, 98, 58, 42]
    ensures Join([A, ANY]) == [97, 58, 42, 42] && Join([A, B]) == [97, 58, 98]
  {
    JoinOfThree(A, ONE, ANY);
    JoinOfThree(A, B, ONE);
    JoinOfTwo(A, ANY);
    JoinOfTwo(A, B);
  }

  lemma JoinOfTwo(x: Bytes, y: Bytes)
    ensures Join([x, y]) == x + [COLON] + y
  {
    JoinCons(x, [y]);
    assert [x] + [y] == [x, y];
  }

  lemma JoinOfThree(x: Bytes, y: Bytes, z: Bytes)
    ensures Join([x, y, z]) == x + [COLON] + (y + [COLON] + z)
  {
    JoinOfTwo(y, z);
    JoinCons(x, [y, z]);
    assert [x] + [y, z] == [x, y, z];
  }

  lemma AloneIsAccepted<T>(key: Bytes)
    requires IsWildcard(key) ==> ValidPattern(key)
    ensures CanRegister(EmptyTable<T>(), key)
  {
  }

  /** `a:*:**` is stored; `a:b:*` is then accepted, and both match `a:b:x`. */
  lemma StarBeforeAny<T>(t: T)
    ensures
      var first, second := [97, 58, 42, 58, 42, 42], [97, 58, 98, 58, 42];
      && CanRegister(EmptyTable<T>(), first)
      && CanRegister(Insert(EmptyTable(), first, t), second)
      && Overlap(first, second)
  {
    var first, second := Join([A, ONE, ANY]), Join([A, B, ONE]);
    SpelledInBytes();
    BlindPair();
    AloneIsAccepted<T>(first);
    BlindIsAccepted(first, second, t);
  }

  lemma BlindIsAccepted<T>(q: Bytes, p: Bytes, t: T)
    requires IsPrefixKey(q) && Open(Split(q)) && IsSingleKey(p) && Blind(p, q)
    ensures CanRegister(Insert(EmptyTable(), q, t), p)
  {
    PrefixScanExact(p, q);
  }

  lemma BlindPair()
    ensures
      var first, second := Join([A, ONE, ANY]), Join([A, B, ONE]);
      && IsPrefixKey(first) && Open(Split(first)) && IsSingleKey(second)
      && Overlap(first, second) && Blind(second, first)
  {
    var ps, qs := [A, B, ONE], [A, ONE, ANY];
    Spelled(ps);
    Spelled(qs);
    FirstStars();
    assert STAR in ps[2] && STAR in qs[1];
    assert Agree(qs, ps);
    OverlapIsAgree(Join(qs), Join(ps));
  }

  lemma FirstStars()
    ensures FirstStar([A, B, ONE]) == 2 && FirstStar([A, ONE, ANY]) == 1
  {
    assert STAR in [A, B, ONE][2] && STAR in [A, ONE, ANY][1];
  }

  /** The address `a` is stored; `a:**` is then accepted, and matches `a`. */
  lemma StemOfAny<T>(t: T)
    ensures
      var first, second := [97], [97, 58, 42, 42];
      && CanRegister(EmptyTable<T>(), first)
      && CanRegister(Insert(EmptyTable(), first, t), second)
      && Overlap(second, first)
  {
    SpelledInBytes();
    var second := Join([A, ANY]);
    Spelled([A, ANY]);
    assert STAR in [A, ANY][1];
    AloneIsAccepted<T>(A);
    assert IsStem(A, second);
    StemIsCovered(A, second);
    ExactScanExact(second, A);
  }

  lemma BelowIsAccepted<T>(q: Bytes, k: Bytes, t: T)
    requires IsPrefixKey(q) && StarFree(k)
    ensures CanRegister(Insert(EmptyTable(), q, t), k) && Lookup(Insert(EmptyTable<T>(), q, t), k) == None
  {
    assert q <= k ==> StarFree(q);
    NoAncestor(Insert(EmptyTable<T>(), q, t).prefix, k, |k|);
  }

  lemma BelowPair()
    ensures
      var first, second := Join([A, ANY]), Join([A, B]);
      IsPrefixKey(first) && StarFree(second) && Overlap(second, first)
  {
    Spelled([A, ANY]);
    Spelled([A, B]);
    assert STAR in [A, ANY][1];
    assert Agree([A, B], [A, ANY]);
    OverlapIsAgree(Join([A, B]), Join([A, ANY]));
  }

  /** `a:**` is stored; the address `a:b` is then accepted, although the pattern matches it. */
  lemma AddressBelowAny<T>(t: T)
    ensures
      var first, second := [97, 58, 42, 42], [97, 58, 98];
      && CanRegister(EmptyTable<T>(), first)
      && CanRegister(Insert(EmptyTable(), first, t), second)
      && Overlap(second, first)
      && Lookup(Insert(EmptyTable<T>(), first, t), second) == None
  {
    SpelledInBytes();
    BelowPair();
    AloneIsAccepted<T>(Join([A, ANY]));
    BelowIsAccepted(Join([A, ANY]), Join([A, B]), t);
  }
}
