/** Byte strings, and their division into segments at ':'. */
module Segments {

  type Byte = b: int | 0 <= b < 256
  type Bytes = seq<Byte>

  const COLON: Byte := 58
  const STAR: Byte := 42

  /** The two wildcard segments, `*` and `**`. */
  const ONE: Bytes := [STAR]
  const ANY: Bytes := [STAR, STAR]

  /** The position of the first `b` in `s`, or the length of `s`. */
  function FirstIndex(s: Bytes, b: Byte): (i: nat)
    ensures i <= |s|
    ensures b !in s[..i]
    ensures i < |s| ==> s[i] == b
  {
    if s == [] || s[0] == b then 0 else
      var j := FirstIndex(s[1..], b);
      assert s[..j + 1] == [s[0]] + s[1..][..j];
      j + 1
  }

  /** Puts `c` before segmented text: a ':' opens a new segment, any other byte extends the first. */
  function Prepend(c: Byte, segs: seq<Bytes>): (r: seq<Bytes>)
    requires |segs| >= 1
    ensures |r| >= 1
  {
    if c == COLON then [[]] + segs else [[c] + segs[0]] + segs[1..]
  }

  /** The segments of `s`; never empty, since the empty string has one empty segment. */
  function Split(s: Bytes): (segs: seq<Bytes>)
    ensures |segs| >= 1
  {
    if s == [] then [[]] else Prepend(s[0], Split(s[1..]))
  }

  function Join(segs: seq<Bytes>): Bytes
    requires |segs| >= 1
  {
    if |segs| == 1 then segs[0] else segs[0] + [COLON] + Join(segs[1..])
  }

  ghost predicate NoColons(segs: seq<Bytes>) {
    forall i :: 0 <= i < |segs| ==> COLON !in segs[i]
  }

  lemma {:induction false} SplitNoColons(s: Bytes)
    ensures NoColons(Split(s))
  {
    if s != [] {
      SplitNoColons(s[1..]);
    }
  }

  lemma Regroup<A>(x: seq<A>, y: seq<A>, z: seq<A>)
    ensures x + (y + z) == x + y + z
  {
  }

  lemma JoinCons(seg: Bytes, segs: seq<Bytes>)
    requires |segs| >= 1
    ensures Join([seg] + segs) == seg + [COLON] + Join(segs)
  {
    assert ([seg] + segs)[1..] == segs;
  }

  lemma JoinExtend(c: Byte, x: Bytes, rest: seq<Bytes>)
    ensures Join([[c] + x] + rest) == [c] + Join([x] + rest)
  {
    if |rest| >= 1 {
      var tail := Join(rest);
      JoinCons([c] + x, rest);
      JoinCons(x, rest);
      Regroup([c], x, [COLON]);
      Regroup([c], x + [COLON], tail);
    }
  }

  lemma HeadAndTail<A>(xs: seq<A>)
    requires xs != []
    ensures [xs[0]] + xs[1..] == xs
  {
  }

  lemma JoinPrepend(c: Byte, segs: seq<Bytes>)
    requires |segs| >= 1
    ensures Join(Prepend(c, segs)) == [c] + Join(segs)
  {
    if c == COLON {
      JoinCons([], segs);
      assert [] + [COLON] == [COLON];
    } else {
      HeadAndTail(segs);
      JoinExtend(c, segs[0], segs[1..]);
    }
  }

  lemma {:induction false} JoinSplit(s: Bytes)
    ensures Join(Split(s)) == s
  {
    if s != [] {
      JoinSplit(s[1..]);
      JoinPrepend(s[0], Split(s[1..]));
    }
  }

  lemma PrependAppend(c: Byte, x: seq<Bytes>, y: seq<Bytes>)
    requires |x| >= 1
    ensures Prepend(c, x + y) == Prepend(c, x) + y
  {
  }

  /** Splitting distributes over a separator. */
  lemma {:induction false} SplitAround(a: Bytes, b: Bytes)
    ensures Split(a + [COLON] + b) == Split(a) + Split(b)
  {
    var s := a + [COLON] + b;
    if a == [] {
      assert s[1..] == b;
    } else {
      SplitAround(a[1..], b);
      assert s[1..] == a[1..] + [COLON] + b;
      PrependAppend(a[0], Split(a[1..]), Split(b));
      assert Split(s) == Prepend(s[0], Split(s[1..]));
    }
  }

  lemma {:induction false} SplitOne(s: Bytes)
    requires COLON !in s
    ensures Split(s) == [s]
  {
    if s != [] {
      SplitOne(s[1..]);
      assert s == [s[0]] + s[1..];
    }
  }

  lemma {:induction false} SplitJoin(segs: seq<Bytes>)
    requires |segs| >= 1 && NoColons(segs)
    ensures Split(Join(segs)) == segs
  {
    SplitOne(segs[0]);
    if |segs| > 1 {
      SplitJoin(segs[1..]);
      SplitAround(segs[0], Join(segs[1..]));
    }
  }

  lemma {:induction false} JoinAround(a: seq<Bytes>, b: seq<Bytes>)
    requires |a| >= 1 && |b| >= 1
    ensures Join(a + b) == Join(a) + [COLON] + Join(b)
  {
    if |a| == 1 {
      assert (a + b)[1..] == b;
    } else {
      JoinAround(a[1..], b);
      assert (a + b)[1..] == a[1..] + b;
      assert Join(a + b) == a[0] + [COLON] + (Join(a[1..]) + [COLON] + Join(b));
    }
  }

  /** Two strings with the same segments are the same string. */
  lemma SplitInjective(a: Bytes, b: Bytes)
    requires Split(a) == Split(b)
    ensures a == b
  {
    JoinSplit(a);
    JoinSplit(b);
  }

  /** Some segment holds the byte `b`. */
  ghost predicate Holds(segs: seq<Bytes>, b: Byte) {
    exists i :: 0 <= i < |segs| && b in segs[i]
  }

  /** A byte other than ':' occurs in a string exactly when it occurs in one of its segments. */
  lemma {:induction false} SplitMember(s: Bytes, b: Byte)
    requires b != COLON
    ensures b in s <==> Holds(Split(s), b)
  {
    if s != [] {
      var segs, rest := Split(s), Split(s[1..]);
      SplitMember(s[1..], b);
      assert s == [s[0]] + s[1..];
      if s[0] == COLON {
        assert forall i :: 0 <= i < |rest| ==> segs[i + 1] == rest[i];
      } else {
        assert segs[0] == [s[0]] + rest[0];
        assert forall i :: 1 <= i < |rest| ==> segs[i] == rest[i];
      }
    }
  }
}
