/** Wildcard patterns: their syntax, what they match, and the segment comparison that decides both. */
module Patterns {
  import opened Segments

  // ------------------------------------------------------------------ syntax

  /** A segment is literal, or it is `*` or `**` and nothing else. */
  predicate GoodSegment(seg: Bytes) {
    seg != [] && (STAR in seg ==> seg == ONE || seg == ANY)
  }

  /** `**` occurs at most as the last segment. */
  predicate AnyOnlyLast(ps: seq<Bytes>) {
    forall i :: 0 <= i < |ps| - 1 ==> ps[i] != ANY
  }

  predicate ValidSegments(ps: seq<Bytes>) {
    && |ps| >= 1
    && STAR !in ps[0]
    && (forall i :: 0 <= i < |ps| ==> GoodSegment(ps[i]))
    && AnyOnlyLast(ps)
  }

  predicate ValidPattern(p: Bytes) {
    ValidSegments(Split(p))
  }

  predicate IsWildcard(a: Bytes) {
    STAR in a
  }

  predicate StarFree(a: Bytes) {
    !IsWildcard(a)
  }

  datatype Fault = EmptyPattern | GlobalAny | LeadingStar | EmptySegment | AnyNotLast | PartialWildcard
  datatype Validation = Accepted | Rejected(fault: Fault)

  /** What a rejection says about the pattern. */
  ghost predicate Shows(p: Bytes, fault: Fault) {
    var ps := Split(p);
    match fault
    case EmptyPattern => p == []
    case GlobalAny => p == ANY
    case LeadingStar => p != [] && p[0] == STAR
    case EmptySegment => [] in ps
    case AnyNotLast => !AnyOnlyLast(ps)
    case PartialWildcard => exists i :: 0 <= i < |ps| && STAR in ps[i] && ps[i] != ONE && ps[i] != ANY
  }

  method ValidatePattern(p: Bytes) returns (r: Validation)
    ensures r.Accepted? <==> ValidPattern(p)
    ensures r.Rejected? ==> Shows(p, r.fault)
  {
    if p == [] {
      return Rejected(EmptyPattern);
    }
    if p == ANY {
      SplitOne(p);
      return Rejected(GlobalAny);
    }
    var ps := Split(p);
    if p[0] == STAR {
      assert ps[0][0] == STAR;
      return Rejected(LeadingStar);
    }
    var foundAny := false;
    for i := 0 to |ps|
      invariant forall k :: 0 <= k < i ==> GoodSegment(ps[k])
      invariant foundAny <==> i > 0 && ps[i - 1] == ANY
      invariant forall k :: 0 <= k < i - 1 ==> ps[k] != ANY
    {
      var segment := ps[i];
      if segment == [] {
        assert !GoodSegment(ps[i]);
        return Rejected(EmptySegment);
      }
      if foundAny {
        assert ps[i - 1] == ANY;
        return Rejected(AnyNotLast);
      }
      if segment == ANY {
        foundAny := true;
      } else if segment != ONE && STAR in segment {
        assert !GoodSegment(ps[i]);
        return Rejected(PartialWildcard);
      }
    }
    assert ps[0] == [] || ps[0][0] == p[0];
    assert GoodSegment(ps[0]);
    r := Accepted;
  }

  // ---------------------------------------------------------------- matching

  /** An open pattern ends in `**`; its body is what comes before. */
  predicate Open(ps: seq<Bytes>) {
    |ps| >= 1 && ps[|ps| - 1] == ANY
  }

  function BodyLen(ps: seq<Bytes>): nat {
    if Open(ps) then |ps| - 1 else |ps|
  }

  predicate SegmentMatches(p: Bytes, t: Bytes) {
    p == ONE || p == t
  }

  /** `*` stands for one segment and a final `**` for any number of them, none included. */
  ghost predicate Matches(ps: seq<Bytes>, ts: seq<Bytes>) {
    && (if Open(ps) then |ts| >= BodyLen(ps) else |ts| == |ps|)
    && forall i :: 0 <= i < BodyLen(ps) ==> SegmentMatches(ps[i], ts[i])
  }

  ghost predicate Covers(p: Bytes, a: Bytes) {
    Matches(Split(p), Split(a))
  }

  ghost predicate SharedAddress(p: Bytes, q: Bytes, a: Bytes) {
    StarFree(a) && Covers(p, a) && Covers(q, a)
  }

  /** Some concrete address is matched by both. */
  ghost predicate Overlap(p: Bytes, q: Bytes) {
    exists a :: SharedAddress(p, q, a)
  }

  // -------------------------------------------------------------- comparison

  /** The comparison, one pair of segments at a time. */
  function Compare(ps: seq<Bytes>, ts: seq<Bytes>, both: bool): bool {
    if ps == [] && ts == [] then true
    else if both && ps != [] && ps[0] == ANY then true
    else if both && ts != [] && ts[0] == ANY then true
    else if ps != [] && ps[0] == ANY then |ps| == 1
    else if ps == [] || ts == [] then false
    else (ps[0] == ONE || ts[0] == ONE || ps[0] == ts[0]) && Compare(ps[1..], ts[1..], both)
  }

  method CompareSegments(pattern: Bytes, target: Bytes, both: bool) returns (r: bool)
    ensures r == Compare(Split(pattern), Split(target), both)
  {
    var ps, ts := Split(pattern), Split(target);
    var i := 0;
    while true
      invariant i <= |ps| && i <= |ts|
      invariant Compare(ps, ts, both) == Compare(ps[i..], ts[i..], both)
      decreases |ps| - i
    {
      if i == |ps| && i == |ts| {
        return true;
      } else if both && i < |ps| && ps[i] == ANY {
        return true;
      } else if both && i < |ts| && ts[i] == ANY {
        return true;
      } else if i < |ps| && ps[i] == ANY {
        return i + 1 == |ps|;
      } else if i == |ps| || i == |ts| {
        return false;
      } else if ps[i] != ONE && ts[i] != ONE && ps[i] != ts[i] {
        return false;
      }
      assert ps[i..][1..] == ps[i + 1..] && ts[i..][1..] == ts[i + 1..];
      i := i + 1;
    }
  }

  /** The two bodies are compatible position by position, and the lengths allow a common address. */
  ghost predicate Agree(ps: seq<Bytes>, qs: seq<Bytes>) {
    && (forall i :: 0 <= i < BodyLen(ps) && i < BodyLen(qs) ==> ps[i] == ONE || qs[i] == ONE || ps[i] == qs[i])
    && (!Open(ps) ==> BodyLen(qs) <= |ps|)
    && (!Open(qs) ==> BodyLen(ps) <= |qs|)
  }

  lemma {:induction false} CompareIsAgree(ps: seq<Bytes>, qs: seq<Bytes>)
    requires AnyOnlyLast(ps) && AnyOnlyLast(qs)
    ensures Compare(ps, qs, true) <==> Agree(ps, qs)
  {
    if ps != [] && qs != [] && ps[0] != ANY && qs[0] != ANY {
      var ps', qs' := ps[1..], qs[1..];
      CompareIsAgree(ps', qs');
      assert BodyLen(ps') == BodyLen(ps) - 1 && BodyLen(qs') == BodyLen(qs) - 1;
      if Agree(ps', qs') && (ps[0] == ONE || qs[0] == ONE || ps[0] == qs[0]) {
        forall i | 0 <= i < BodyLen(ps) && i < BodyLen(qs)
          ensures ps[i] == ONE || qs[i] == ONE || ps[i] == qs[i]
        {
          assert i > 0 ==> ps[i] == ps'[i - 1] && qs[i] == qs'[i - 1];
        }
      }
      if Agree(ps, qs) {
        assert forall i :: 0 <= i < |ps'| ==> ps'[i] == ps[i + 1];
        assert forall i :: 0 <= i < |qs'| ==> qs'[i] == qs[i + 1];
      }
    }
  }

  ghost predicate StarFreeSegments(ts: seq<Bytes>) {
    forall i :: 0 <= i < |ts| ==> STAR !in ts[i]
  }

  lemma StarFreeSplit(a: Bytes)
    ensures StarFree(a) <==> StarFreeSegments(Split(a))
  {
    SplitMember(a, STAR);
  }

  lemma {:induction false} CompareIsMatches(ps: seq<Bytes>, ts: seq<Bytes>)
    requires AnyOnlyLast(ps) && StarFreeSegments(ts)
    ensures Compare(ps, ts, false) <==> Matches(ps, ts)
  {
    if ps != [] && ts != [] && ps[0] != ANY {
      var ps', ts' := ps[1..], ts[1..];
      CompareIsMatches(ps', ts');
      assert BodyLen(ps') == BodyLen(ps) - 1;
      if Matches(ps', ts') && SegmentMatches(ps[0], ts[0]) {
        forall i | 0 <= i < BodyLen(ps) ensures SegmentMatches(ps[i], ts[i]) {
          assert i > 0 ==> ps[i] == ps'[i - 1] && ts[i] == ts'[i - 1];
        }
      }
      if Matches(ps, ts) {
        assert forall i :: 0 <= i < |ps'| ==> ps'[i] == ps[i + 1];
        assert forall i :: 0 <= i < |ts'| ==> ts'[i] == ts[i + 1];
      }
    }
  }

  /** The one-sided comparison decides whether a valid pattern matches a concrete address. */
  lemma OneSidedExact(p: Bytes, a: Bytes)
    requires ValidPattern(p) && StarFree(a)
    ensures Compare(Split(p), Split(a), false) <==> Covers(p, a)
  {
    StarFreeSplit(a);
    CompareIsMatches(Split(p), Split(a));
  }

  /** Segment `i` of an address that both patterns match: a literal where one has it, else "x". */
  function MergeSegment(ps: seq<Bytes>, qs: seq<Bytes>, i: nat): Bytes {
    if i < BodyLen(ps) && ps[i] != ONE then ps[i]
    else if i < BodyLen(qs) && qs[i] != ONE then qs[i]
    else [120]
  }

  function Merge(ps: seq<Bytes>, qs: seq<Bytes>): (ts: seq<Bytes>)
    ensures |ts| == if BodyLen(ps) < BodyLen(qs) then BodyLen(qs) else BodyLen(ps)
    ensures forall i :: 0 <= i < |ts| ==> ts[i] == MergeSegment(ps, qs, i)
  {
    seq(if BodyLen(ps) < BodyLen(qs) then BodyLen(qs) else BodyLen(ps), i requires 0 <= i => MergeSegment(ps, qs, i))
  }

  lemma BodyIsPlain(p: Bytes, i: nat)
    requires ValidPattern(p) && i < BodyLen(Split(p)) && Split(p)[i] != ONE
    ensures STAR !in Split(p)[i] && COLON !in Split(p)[i]
  {
    SplitNoColons(p);
    assert GoodSegment(Split(p)[i]);
  }

  /** Compatible patterns share the address spelled by their merge. */
  lemma MergeIsShared(p: Bytes, q: Bytes)
    requires ValidPattern(p) && ValidPattern(q) && Agree(Split(p), Split(q))
    ensures |Merge(Split(p), Split(q))| >= 1 && SharedAddress(p, q, Join(Merge(Split(p), Split(q))))
  {
    var ps, qs := Split(p), Split(q);
    var ts := Merge(ps, qs);
    forall i | 0 <= i < |ts| ensures STAR !in ts[i] && COLON !in ts[i] {
      MergedIsPlain(p, q, i);
    }
    SplitJoin(ts);
    StarFreeSplit(Join(ts));
    MergeMatches(ps, qs);
  }

  lemma MergedIsPlain(p: Bytes, q: Bytes, i: nat)
    requires ValidPattern(p) && ValidPattern(q)
    ensures STAR !in MergeSegment(Split(p), Split(q), i) && COLON !in MergeSegment(Split(p), Split(q), i)
  {
    if i < BodyLen(Split(p)) && Split(p)[i] != ONE {
      BodyIsPlain(p, i);
    } else if i < BodyLen(Split(q)) && Split(q)[i] != ONE {
      BodyIsPlain(q, i);
    }
  }

  lemma MergeMatches(ps: seq<Bytes>, qs: seq<Bytes>)
    requires Agree(ps, qs)
    ensures Matches(ps, Merge(ps, qs)) && Matches(qs, Merge(ps, qs))
  {
  }

  lemma SharedAgrees(p: Bytes, q: Bytes, a: Bytes)
    requires SharedAddress(p, q, a)
    ensures Agree(Split(p), Split(q))
  {
    var ps, qs, ts := Split(p), Split(q), Split(a);
    forall i | 0 <= i < BodyLen(ps) && i < BodyLen(qs) ensures ps[i] == ONE || qs[i] == ONE || ps[i] == qs[i] {
      assert SegmentMatches(ps[i], ts[i]) && SegmentMatches(qs[i], ts[i]);
    }
  }

  lemma OverlapIsAgree(p: Bytes, q: Bytes)
    requires ValidPattern(p) && ValidPattern(q)
    ensures Overlap(p, q) <==> Agree(Split(p), Split(q))
  {
    if Agree(Split(p), Split(q)) {
      MergeIsShared(p, q);
    }
    if Overlap(p, q) {
      var a :| SharedAddress(p, q, a);
      SharedAgrees(p, q, a);
    }
  }

  /** The two-sided comparison decides whether two valid patterns have a common address. */
  lemma TwoSidedExact(p: Bytes, q: Bytes)
    requires ValidPattern(p) && ValidPattern(q)
    ensures Compare(Split(p), Split(q), true) <==> Overlap(p, q)
  {
    CompareIsAgree(Split(p), Split(q));
    OverlapIsAgree(p, q);
  }

  /** Among concrete addresses, only the address itself is matched. */
  lemma StarFreeCovers(k: Bytes, a: Bytes)
    requires StarFree(k)
    ensures Covers(k, a) <==> k == a
  {
    StarFreeSplit(k);
    var ks := Split(k);
    assert !Open(ks);
    if Covers(k, a) {
      forall i | 0 <= i < |ks| ensures ks[i] == Split(a)[i] {
        assert SegmentMatches(ks[i], Split(a)[i]);
      }
      assert ks == Split(a);
      SplitInjective(k, a);
    }
  }

  lemma OverlapSelf(p: Bytes)
    requires ValidPattern(p)
    ensures Overlap(p, p)
  {
    OverlapIsAgree(p, p);
  }
}
