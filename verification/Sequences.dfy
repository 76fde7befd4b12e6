module Sequences {
  lemma Regroup<T>(x: seq<T>, y: seq<T>, z: seq<T>)
    ensures (x + y) + z == x + (y + z)
  {}

  /** Chunks, one behind the other. */
  function Concat<T>(chunks: seq<seq<T>>): seq<T> {
    if chunks == [] then [] else Concat(chunks[..|chunks| - 1]) + chunks[|chunks| - 1]
  }

  lemma ConcatNext<T>(chunks: seq<seq<T>>, chunk: seq<T>)
    ensures Concat(chunks + [chunk]) == Concat(chunks) + chunk
  {
    assert (chunks + [chunk])[..|chunks|] == chunks;
  }

  /** The same sequence cut at two places. */
  lemma TwoCuts<T>(a: seq<T>, b: seq<T>, c: seq<T>, d: seq<T>)
    requires a + b == c + d && |b| <= |d|
    ensures var k := |d| - |b|; d == d[..k] + b && a == c + d[..k]
  {
    var k := |d| - |b|;
    assert (a + b)[|a|..] == b && (c + d)[|a|..] == d[k..];
    assert (a + b)[..|a|] == a && (c + d)[..|a|] == c + d[..k];
  }
}
