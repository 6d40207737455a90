/**
  The restricted searches of the conflict check: exact addresses are scanned only below the
  static prefix of a pattern, and `**` patterns are found by candidate keys and the same scan.
  Both are compared with the unrestricted question they stand for.
 */
module Scans {
  import opened Segments
  import opened Patterns

  /** The bytes before the first star. */
  function StaticPrefix(p: Bytes): Bytes {
    p[..FirstIndex(p, STAR)]
  }

  /** The index of the first wildcard segment, or the number of segments. */
  function FirstStar(ps: seq<Bytes>): (j: nat)
    ensures j <= |ps|
    ensures forall i :: 0 <= i < j ==> STAR !in ps[i]
    ensures j < |ps| ==> STAR in ps[j]
  {
    if ps == [] || STAR in ps[0] then 0 else
      var j := FirstStar(ps[1..]);
      assert forall i :: 0 < i <= j ==> ps[i] == ps[1..][i - 1];
      j + 1
  }

  lemma FirstIndexIs(s: Bytes, b: Byte, i: nat)
    requires i <= |s| && b !in s[..i] && (i < |s| ==> s[i] == b)
    ensures FirstIndex(s, b) == i
  {
  }

  lemma FirstStarBounds(p: Bytes)
    requires ValidPattern(p)
    ensures 1 <= FirstStar(Split(p)) <= |Split(p)|
    ensures FirstStar(Split(p)) < |Split(p)| <==> IsWildcard(p)
    ensures IsWildcard(p) ==> FirstStar(Split(p)) <= BodyLen(Split(p))
  {
    StarFreeSplit(p);
  }

  lemma {:induction false} JoinStartsWithHead(segs: seq<Bytes>)
    requires |segs| >= 1 && segs[0] != []
    ensures Join(segs) != [] && Join(segs)[0] == segs[0][0]
  {
  }

  /** The static prefix of a wildcard is its leading literal segments, each closed by ':'. */
  lemma StaticPrefixSegments(p: Bytes)
    requires ValidPattern(p) && IsWildcard(p)
    ensures 1 <= FirstStar(Split(p)) < |Split(p)|
    ensures StaticPrefix(p) == Join(Split(p)[..FirstStar(Split(p))]) + [COLON]
  {
    FirstStarBounds(p);
    var ps := Split(p);
    var j := FirstStar(ps);
    var head, tail := Join(ps[..j]), Join(ps[j..]);
    assert ps == ps[..j] + ps[j..];
    JoinSplit(p);
    JoinAround(ps[..j], ps[j..]);
    assert p == head + [COLON] + tail;
    assert GoodSegment(ps[j]);
    JoinStartsWithHead(ps[j..]);
    SplitNoColons(p);
    SplitJoin(ps[..j]);
    StarFreeSplit(head);
    assert p[..|head| + 1] == head + [COLON];
    FirstIndexIs(p, STAR, |head| + 1);
  }

  /** Strings that start with some closed segments are those whose own segments start so, with more to come. */
  lemma ClosedPrefix(xs: seq<Bytes>, s: Bytes)
    requires |xs| >= 1 && NoColons(xs)
    ensures Join(xs) + [COLON] <= s <==> |xs| < |Split(s)| && Split(s)[..|xs|] == xs
  {
    if Join(xs) + [COLON] <= s {
      ClosedPrefixSegments(xs, s);
    }
    if |xs| < |Split(s)| && Split(s)[..|xs|] == xs {
      JoinSplit(s);
      JoinPrefix(xs, Split(s));
    }
  }

  lemma JoinPrefix(xs: seq<Bytes>, ss: seq<Bytes>)
    requires 1 <= |xs| < |ss| && ss[..|xs|] == xs
    ensures Join(xs) + [COLON] <= Join(ss)
  {
    assert ss == xs + ss[|xs|..];
    JoinAround(xs, ss[|xs|..]);
  }

  lemma ClosedPrefixSegments(xs: seq<Bytes>, s: Bytes)
    requires |xs| >= 1 && NoColons(xs) && Join(xs) + [COLON] <= s
    ensures |xs| < |Split(s)| && Split(s)[..|xs|] == xs
  {
    var rest := s[|Join(xs)| + 1..];
    assert s == Join(xs) + [COLON] + rest;
    SplitAround(Join(xs), rest);
    SplitJoin(xs);
  }

  lemma StartsWithStaticPrefix(p: Bytes, s: Bytes)
    requires ValidPattern(p) && IsWildcard(p)
    ensures
      var ps, j := Split(p), FirstStar(Split(p));
      j < |ps| && (StaticPrefix(p) <= s <==> j < |Split(s)| && Split(s)[..j] == ps[..j])
  {
    StaticPrefixSegments(p);
    SplitNoColons(p);
    ClosedPrefix(Split(p)[..FirstStar(Split(p))], s);
  }

  // -------------------------------------------------------- exact addresses

  /** `k` is the pattern without its final `:**`. */
  predicate IsStem(k: Bytes, p: Bytes) {
    p == k + [COLON] + ANY
  }

  lemma StemSegments(k: Bytes, p: Bytes)
    ensures IsStem(k, p) <==> Split(p) == Split(k) + [ANY]
  {
    SplitAround(k, ANY);
    SplitOne(ANY);
    if Split(p) == Split(k) + [ANY] {
      SplitInjective(p, k + [COLON] + ANY);
    }
  }

  /**
    The scan below the static prefix finds every concrete address a pattern matches, except
    the stem of a pattern with no star before its final `**`.
   */
  lemma ExactScanExact(p: Bytes, k: Bytes)
    requires ValidPattern(p) && StarFree(k)
    ensures StaticPrefix(p) <= k && Compare(Split(p), Split(k), false) <==> Covers(p, k) && !IsStem(k, p)
  {
    OneSidedExact(p, k);
    if IsWildcard(p) {
      WildcardScanExact(p, k);
    } else {
      StarFreeCovers(p, k);
      FirstIndexIs(p, STAR, |p|);
      assert IsStem(k, p) ==> STAR in p;
    }
  }

  lemma WildcardScanExact(p: Bytes, k: Bytes)
    requires ValidPattern(p) && IsWildcard(p) && StarFree(k)
    ensures StaticPrefix(p) <= k && Covers(p, k) <==> Covers(p, k) && !IsStem(k, p)
  {
    var ps, ks := Split(p), Split(k);
    FirstStarBounds(p);
    StartsWithStaticPrefix(p, k);
    StemSegments(k, p);
    StarFreeSplit(k);
    if Covers(p, k) {
      ScanSegments(ps, ks);
    }
  }

  lemma ScanSegments(ps: seq<Bytes>, ks: seq<Bytes>)
    requires Matches(ps, ks) && FirstStar(ps) < |ps| && StarFreeSegments(ks)
    ensures FirstStar(ps) <= |ks| && ks[..FirstStar(ps)] == ps[..FirstStar(ps)]
    ensures FirstStar(ps) < |ks| <==> ps != ks + [ANY]
  {
    MatchedHead(ps, ks);
    if FirstStar(ps) == |ks| {
      HeadIsAll(ps, ks);
    } else if ps == ks + [ANY] {
      StemFirstStar(ks);
    }
  }

  /** A pattern whose first star comes after everything it matched is that followed by `**`. */
  lemma HeadIsAll(ps: seq<Bytes>, ks: seq<Bytes>)
    requires Matches(ps, ks) && FirstStar(ps) == |ks| < |ps| && ks == ps[..|ks|]
    ensures ps == ks + [ANY]
  {
    assert Open(ps) && |ps| == |ks| + 1;
    assert ps == ps[..|ks|] + [ps[|ks|]];
  }

  lemma MatchedHead(ps: seq<Bytes>, ks: seq<Bytes>)
    requires Matches(ps, ks) && FirstStar(ps) < |ps|
    ensures FirstStar(ps) <= |ks| && ks[..FirstStar(ps)] == ps[..FirstStar(ps)]
  {
    assert forall i :: 0 <= i < FirstStar(ps) ==> SegmentMatches(ps[i], ks[i]);
  }

  lemma StemFirstStar(ks: seq<Bytes>)
    requires StarFreeSegments(ks)
    ensures FirstStar(ks + [ANY]) == |ks|
  {
    assert (ks + [ANY])[|ks|] == ANY;
  }

  // ------------------------------------------------------------ `**` patterns

  /** `q` is one of the keys `a:**`, `a:b:**`, ... probed for the pattern `p`. */
  ghost predicate Candidate(p: Bytes, q: Bytes) {
    exists i :: 1 <= i <= BodyLen(Split(p)) && q == Join(Split(p)[..i]) + [COLON] + ANY
  }

  /** The conflict check for `p` comes across the stored `**` pattern `q`. */
  ghost predicate Found(p: Bytes, q: Bytes) {
    Candidate(p, q) || (StaticPrefix(p) <= q && q != p && Compare(Split(p), Split(q), true))
  }

  /** The first star of `q` is a single `*`, and comes before every star of `p`. */
  predicate Blind(p: Bytes, q: Bytes) {
    var ps, qs := Split(p), Split(q);
    FirstStar(qs) < FirstStar(ps) && FirstStar(qs) < |qs| && qs[FirstStar(qs)] == ONE
  }

  lemma CandidateSegments(p: Bytes, q: Bytes, i: nat)
    requires 1 <= i <= BodyLen(Split(p))
    ensures q == Join(Split(p)[..i]) + [COLON] + ANY <==> Split(q) == Split(p)[..i] + [ANY]
  {
    var stem := Join(Split(p)[..i]);
    SplitNoColons(p);
    SplitJoin(Split(p)[..i]);
    StemSegments(stem, q);
  }

  lemma CandidateIsOverlap(p: Bytes, q: Bytes)
    requires ValidPattern(p) && ValidPattern(q) && Candidate(p, q)
    ensures Overlap(p, q) && !Blind(p, q)
  {
    var i :| 1 <= i <= BodyLen(Split(p)) && q == Join(Split(p)[..i]) + [COLON] + ANY;
    CandidateSegments(p, q, i);
    CandidateAgrees(Split(p), Split(q), i);
    OverlapIsAgree(p, q);
  }

  lemma CandidateAgrees(ps: seq<Bytes>, qs: seq<Bytes>, i: nat)
    requires 1 <= i <= BodyLen(ps) && qs == ps[..i] + [ANY]
    ensures Agree(ps, qs)
    ensures FirstStar(qs) < FirstStar(ps) ==> qs[FirstStar(qs)] == ANY
  {
    assert forall k :: 0 <= k < i ==> qs[k] == ps[k];
    assert STAR in qs[i];
  }

  lemma WalkIsOverlap(p: Bytes, q: Bytes)
    requires ValidPattern(p) && ValidPattern(q) && IsWildcard(p)
    requires StaticPrefix(p) <= q && Compare(Split(p), Split(q), true)
    ensures Overlap(p, q) && !Blind(p, q)
  {
    TwoSidedExact(p, q);
    StartsWithStaticPrefix(p, q);
    SharedHead(Split(p), Split(q), FirstStar(Split(p)));
  }

  lemma SharedHead(ps: seq<Bytes>, qs: seq<Bytes>, j: nat)
    requires j <= FirstStar(ps) && j <= |qs| && qs[..j] == ps[..j]
    ensures j <= FirstStar(qs)
  {
    assert forall i :: 0 <= i < j ==> qs[i] == qs[..j][i] == ps[i];
  }

  /** Segments of compatible patterns are equal before the first star of either. */
  lemma AgreeHead(ps: seq<Bytes>, qs: seq<Bytes>)
    requires ValidSegments(ps) && ValidSegments(qs) && Agree(ps, qs) && Open(qs) && FirstStar(ps) < |ps|
    ensures FirstStar(qs) < |qs| && FirstStar(qs) >= 1
    ensures FirstStar(qs) >= FirstStar(ps) ==> qs[..FirstStar(ps)] == ps[..FirstStar(ps)]
    ensures FirstStar(qs) < FirstStar(ps) && qs[FirstStar(qs)] != ONE ==> qs == ps[..FirstStar(qs)] + [ANY]
  {
    var f, j := FirstStar(qs), FirstStar(ps);
    assert STAR in qs[|qs| - 1];
    EqualBeforeStars(ps, qs);
    if f < j {
      assert GoodSegment(qs[f]);
      assert qs[f] != ONE ==> qs == qs[..f] + [ANY];
    }
  }

  lemma EqualBeforeStars(ps: seq<Bytes>, qs: seq<Bytes>)
    requires Agree(ps, qs) && Open(qs) && FirstStar(ps) < |ps| && FirstStar(qs) < |qs|
    ensures FirstStar(qs) >= FirstStar(ps) ==> qs[..FirstStar(ps)] == ps[..FirstStar(ps)]
    ensures FirstStar(qs) < FirstStar(ps) ==> qs[..FirstStar(qs)] == ps[..FirstStar(qs)]
  {
    assert forall i :: 0 <= i < FirstStar(qs) && i < FirstStar(ps) ==> qs[i] == ps[i];
  }

  lemma AgreeIsFound(p: Bytes, q: Bytes)
    requires ValidPattern(p) && ValidPattern(q) && IsWildcard(p) && Open(Split(q))
    requires Agree(Split(p), Split(q)) && !Blind(p, q)
    ensures Found(p, q)
  {
    FirstStarBounds(p);
    if FirstStar(Split(q)) < FirstStar(Split(p)) {
      EarlierIsCandidate(p, q);
    } else if q == p {
      SelfIsCandidate(p);
    } else {
      AgreeHead(Split(p), Split(q));
      IsWalked(p, q);
    }
  }

  lemma EarlierIsCandidate(p: Bytes, q: Bytes)
    requires ValidPattern(p) && ValidPattern(q) && Open(Split(q)) && Agree(Split(p), Split(q)) && !Blind(p, q)
    requires FirstStar(Split(q)) < FirstStar(Split(p)) < |Split(p)| && FirstStar(Split(p)) <= BodyLen(Split(p))
    ensures Candidate(p, q)
  {
    AgreeHead(Split(p), Split(q));
    IsCandidate(p, q, FirstStar(Split(q)));
  }

  lemma SelfIsCandidate(p: Bytes)
    requires ValidPattern(p) && Open(Split(p)) && BodyLen(Split(p)) >= 1
    ensures Candidate(p, p)
  {
    IsCandidate(p, p, BodyLen(Split(p)));
  }

  lemma IsWalked(p: Bytes, q: Bytes)
    requires ValidPattern(p) && ValidPattern(q) && IsWildcard(p) && Agree(Split(p), Split(q)) && q != p
    requires
      var ps, qs, j := Split(p), Split(q), FirstStar(Split(p));
      j < |qs| && j < |ps| && qs[..j] == ps[..j]
    ensures Found(p, q)
  {
    CompareIsAgree(Split(p), Split(q));
    StartsWithStaticPrefix(p, q);
  }

  lemma IsCandidate(p: Bytes, q: Bytes, i: nat)
    requires 1 <= i <= BodyLen(Split(p)) && Split(q) == Split(p)[..i] + [ANY]
    ensures Candidate(p, q)
  {
    CandidateSegments(p, q, i);
  }

  /**
    The check finds a stored `**` pattern exactly when it shares an address with the new
    wildcard and does not put a single `*` before every star of the new one.
   */
  lemma PrefixScanExact(p: Bytes, q: Bytes)
    requires ValidPattern(p) && ValidPattern(q) && IsWildcard(p) && Open(Split(q))
    ensures Found(p, q) <==> Overlap(p, q) && !Blind(p, q)
  {
    if Candidate(p, q) {
      CandidateIsOverlap(p, q);
    } else if Found(p, q) {
      WalkIsOverlap(p, q);
    }
    if Overlap(p, q) && !Blind(p, q) {
      OverlapIsAgree(p, q);
      AgreeIsFound(p, q);
    }
  }

  /** A `**` pattern with only literals before `**` is never missed. */
  lemma LiteralNeverMissed(p: Bytes, q: Bytes)
    requires ValidPattern(p) && ValidPattern(q) && IsWildcard(p) && Open(Split(q))
    requires FirstStar(Split(q)) == |Split(q)| - 1
    ensures Found(p, q) <==> Overlap(p, q)
  {
    PrefixScanExact(p, q);
  }
}
