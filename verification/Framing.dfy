/** Cutting a byte stream at a delimiter: what both socket protocols do with their
    receive buffers, independently of how the stream is split into chunks. */
module Framing {
  import opened Sequences

  /** d occurs in s at position i. */
  predicate OccursAt<T(==)>(s: seq<T>, d: seq<T>, i: nat) {
    i + |d| <= |s| && s[i..i + |d|] == d
  }

  predicate Contains<T(==)>(s: seq<T>, d: seq<T>) {
    exists i: nat | i <= |s| :: OccursAt(s, d, i)
  }

  /** indexOf: the first occurrence of d in s, or -1. */
  method IndexOf<T(==)>(s: seq<T>, d: seq<T>) returns (pos: int)
    ensures pos >= 0 ==> IsFirst(s, d, pos)
    ensures pos < 0 ==> !Contains(s, d)
  {
    for i := 0 to |s| + 1
      invariant forall j: nat | j < i :: !OccursAt(s, d, j)
    {
      if OccursAt(s, d, i) {
        return i;
      }
    }
    pos := -1;
  }

  predicate IsFirst<T(==)>(s: seq<T>, d: seq<T>, i: nat) {
    OccursAt(s, d, i) && forall j: nat | j < i :: !OccursAt(s, d, j)
  }

  /** The piece before the first delimiter of s, at or after position i. */
  function FirstFrom<T(==)>(s: seq<T>, d: seq<T>, i: nat): (pos: nat)
    requires exists k: nat | k <= |s| :: k >= i && OccursAt(s, d, k)
    requires forall j: nat | j < i :: !OccursAt(s, d, j)
    ensures IsFirst(s, d, pos)
    decreases |s| - i
  {
    if OccursAt(s, d, i) then i else FirstFrom(s, d, i + 1)
  }

  /** The pieces of s that end in a delimiter, and what follows the last of them. */
  function Split<T(==)>(s: seq<T>, d: seq<T>): (r: (seq<seq<T>>, seq<T>))
    requires d != []
    decreases |s|
  {
    if Contains(s, d) then
      var i := FirstFrom(s, d, 0);
      var (ps, rest) := Split(s[i + |d|..], d);
      ([s[..i]] + ps, rest)
    else ([], s)
  }

  function Join<T>(ps: seq<seq<T>>, d: seq<T>): seq<T> {
    if ps == [] then [] else ps[0] + d + Join(ps[1..], d)
  }

  lemma SplitAtFirst<T>(s: seq<T>, d: seq<T>, i: nat)
    requires d != [] && IsFirst(s, d, i)
    ensures var (ps, rest) := Split(s[i + |d|..], d); Split(s, d) == ([s[..i]] + ps, rest)
  {
    assert Contains(s, d);
    var j := FirstFrom(s, d, 0);
    assert IsFirst(s, d, j);
  }

  lemma OccursInPrefix<T>(a: seq<T>, b: seq<T>, d: seq<T>, i: nat)
    requires i + |d| <= |a|
    ensures OccursAt(a + b, d, i) <==> OccursAt(a, d, i)
  {
    assert (a + b)[i..i + |d|] == a[i..i + |d|];
  }

  lemma FirstInPrefix<T>(a: seq<T>, b: seq<T>, d: seq<T>, i: nat)
    requires i + |d| <= |a|
    ensures IsFirst(a + b, d, i) <==> IsFirst(a, d, i)
  {
    forall j: nat | j <= i ensures OccursAt(a + b, d, j) == OccursAt(a, d, j) {
      OccursInPrefix(a, b, d, j);
    }
    if IsFirst(a + b, d, i) {
      forall j: nat | j < i ensures !OccursAt(a, d, j) {
        assert !OccursAt(a + b, d, j);
      }
    }
    if IsFirst(a, d, i) {
      forall j: nat | j < i ensures !OccursAt(a + b, d, j) {
        assert !OccursAt(a, d, j);
      }
    }
  }

  /** A text that, sent with the delimiter after it, ends at that delimiter. */
  predicate IsPiece<T(==)>(p: seq<T>, d: seq<T>) {
    IsFirst(p + d, d, |p|)
  }

  lemma SplitCons<T>(p: seq<T>, tail: seq<T>, d: seq<T>)
    requires d != [] && IsPiece(p, d)
    ensures Split(p + d + tail, d) == ([p] + Split(tail, d).0, Split(tail, d).1)
  {
    var s := p + d + tail;
    FirstInPrefix(p + d, tail, d, |p|);
    SplitAtFirst(s, d, |p|);
    assert s[|p| + |d|..] == tail && s[..|p|] == p;
  }

  lemma Cut<T>(s: seq<T>, d: seq<T>) returns (p: seq<T>, tail: seq<T>)
    requires d != [] && Contains(s, d)
    ensures s == p + d + tail && IsPiece(p, d) && |tail| < |s|
  {
    var i := FirstFrom(s, d, 0);
    p, tail := s[..i], s[i + |d|..];
    assert s == (p + d) + tail;
    FirstInPrefix(p + d, tail, d, i);
  }

  /** Splitting a stream that arrives in two parts: the rest of the first part, which may
      end in the middle of a delimiter, is prepended to the second. */
  lemma {:induction false} SplitAppend<T>(a: seq<T>, b: seq<T>, d: seq<T>)
    requires d != []
    ensures Split(a + b, d).0 == Split(a, d).0 + Split(Split(a, d).1 + b, d).0
    ensures Split(a + b, d).1 == Split(Split(a, d).1 + b, d).1
    decreases |a|
  {
    if Contains(a, d) {
      var p, tail := Cut(a, d);
      SplitAppend(tail, b, d);
      SplitCons(p, tail, d);
      SplitCons(p, tail + b, d);
      Regroup(p + d, tail, b);
      Regroup([p], Split(tail, d).0, Split(Split(tail, d).1 + b, d).0);
    }
  }

  /** Nothing is lost and nothing is invented. */
  lemma {:induction false} SplitConserves<T>(s: seq<T>, d: seq<T>)
    requires d != []
    ensures Join(Split(s, d).0, d) + Split(s, d).1 == s
    ensures !Contains(Split(s, d).1, d)
    ensures forall p | p in Split(s, d).0 :: IsPiece(p, d)
    decreases |s|
  {
    if Contains(s, d) {
      var p, tail := Cut(s, d);
      SplitCons(p, tail, d);
      SplitConserves(tail, d);
      var ps, rest := Split(tail, d).0, Split(tail, d).1;
      assert ([p] + ps)[1..] == ps;
      assert Join([p] + ps, d) + rest == p + d + (Join(ps, d) + rest);
    }
  }

  lemma {:induction false} JoinAppend<T>(a: seq<seq<T>>, b: seq<seq<T>>, d: seq<T>)
    ensures Join(a + b, d) == Join(a, d) + Join(b, d)
  {
    if a == [] {
      assert a + b == b;
    } else {
      JoinAppend(a[1..], b, d);
      assert (a + b)[1..] == a[1..] + b;
      Regroup(a[0] + d, Join(a[1..], d), Join(b, d));
    }
  }

  lemma JoinOne<T>(p: seq<T>, d: seq<T>)
    ensures Join([p], d) == p + d
  {
    var none: seq<seq<T>> := [];
    assert [p][1..] == none;
    assert Join([p], d) == p + d + Join(none, d);
  }

  /** Reading back what was joined. */
  lemma {:induction false} SplitJoin<T>(ps: seq<seq<T>>, rest: seq<T>, d: seq<T>)
    requires d != [] && !Contains(rest, d) && forall p | p in ps :: IsPiece(p, d)
    ensures Split(Join(ps, d) + rest, d) == (ps, rest)
    decreases |ps|
  {
    if ps == [] {
      assert Join(ps, d) + rest == rest;
    } else {
      var p, tail := ps[0], Join(ps[1..], d) + rest;
      assert Join(ps, d) + rest == p + d + tail;
      SplitCons(p, tail, d);
      SplitJoin(ps[1..], rest, d);
      assert [p] + ps[1..] == ps;
    }
  }

  /** With a delimiter of one character the texts without that character are the pieces. */
  lemma PieceOfOne<T>(p: seq<T>, c: T)
    ensures IsPiece(p, [c]) <==> c !in p
  {
    forall j: nat | j < |p| ensures OccursAt(p + [c], [c], j) <==> p[j] == c {
      assert (p + [c])[j..j + 1] == [p[j]];
    }
    assert (p + [c])[|p|..|p| + 1] == [c];
  }

  // ----- skipping empty pieces

  function NonEmpty<T(==)>(ps: seq<seq<T>>): seq<seq<T>> {
    if ps == [] then [] else (if ps[0] == [] then [] else [ps[0]]) + NonEmpty(ps[1..])
  }

  lemma {:induction false} NonEmptyAppend<T>(a: seq<seq<T>>, b: seq<seq<T>>)
    ensures NonEmpty(a + b) == NonEmpty(a) + NonEmpty(b)
  {
    if a == [] {
      assert a + b == b;
    } else {
      NonEmptyAppend(a[1..], b);
      assert (a + b)[1..] == a[1..] + b;
      Regroup(if a[0] == [] then [] else [a[0]], NonEmpty(a[1..]), NonEmpty(b));
    }
  }

  lemma {:induction false} NonEmptySame<T>(ps: seq<seq<T>>)
    ensures [] !in ps ==> NonEmpty(ps) == ps
    ensures [] !in NonEmpty(ps)
  {
    if ps != [] {
      NonEmptySame(ps[1..]);
      assert [ps[0]] + ps[1..] == ps;
    }
  }
}
