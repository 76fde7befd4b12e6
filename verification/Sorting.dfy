/** std::sort with a comparison: of the result the callers know only that it is an ordered
    rearrangement, for elements that compare equal in no particular order. */
module Sorting {
  /** order lists each index below n once. */
  ghost predicate IsOrder(order: seq<nat>, n: nat) {
    && |order| == n
    && (forall i | 0 <= i < n :: order[i] < n)
    && (forall i, j | 0 <= i < j < n :: order[i] != order[j])
    && (forall k | 0 <= k < n :: k in order)
  }

  ghost predicate Rearranged<T>(r: seq<T>, s: seq<T>, order: seq<nat>) {
    && IsOrder(order, |s|)
    && |r| == |s|
    && forall i | 0 <= i < |r| :: r[i] == s[order[i]]
  }

  ghost predicate Sorted<T>(r: seq<T>, less: (T, T) -> bool) {
    forall i, j | 0 <= i < j < |r| :: !less(r[j], r[i])
  }

  /** What std::sort demands of the comparison, on the elements of s. */
  ghost predicate StrictWeakOrder<T>(s: seq<T>, less: (T, T) -> bool) {
    && (forall a, b | a in s && b in s :: less(a, b) ==> !less(b, a))
    && (forall a, b, c | a in s && b in s && c in s :: !less(a, b) && !less(b, c) ==> !less(a, c))
  }

  method Sort<T>(s: seq<T>, less: (T, T) -> bool) returns (r: seq<T>, ghost order: seq<nat>)
    requires StrictWeakOrder(s, less)
    ensures Rearranged(r, s, order) && Sorted(r, less)
  {
    r, order := [], [];
    for n := 0 to |s|
      invariant Rearranged(r, s[..n], order) && Sorted(r, less)
    {
      var at := |r|;
      while at > 0 && less(s[n], r[at - 1])
        invariant 0 <= at <= |r|
        invariant forall j | at <= j < |r| :: less(s[n], r[j])
      {
        at := at - 1;
      }
      Inserted(r, s[..n], order, s[n], at, less, s);
      assert s[..n] + [s[n]] == s[..n + 1];
      r, order := r[..at] + [s[n]] + r[at..], order[..at] + [n] + order[at..];
    }
    assert s[..|s|] == s;
  }

  lemma Inserted<T>(r: seq<T>, s: seq<T>, order: seq<nat>, x: T, at: nat, less: (T, T) -> bool, all: seq<T>)
    requires Rearranged(r, s, order) && Sorted(r, less) && at <= |r|
    requires StrictWeakOrder(all, less) && x in all && forall y | y in s :: y in all
    requires at > 0 ==> !less(x, r[at - 1])
    requires forall j | at <= j < |r| :: less(x, r[j])
    ensures Rearranged(r[..at] + [x] + r[at..], s + [x], order[..at] + [|s|] + order[at..])
    ensures Sorted(r[..at] + [x] + r[at..], less)
  {
    OrderInserted(order, |s|, at);
    forall y | y in r ensures y in all {
      var i :| 0 <= i < |r| && r[i] == y;
      assert s[order[i]] in s;
    }
    SortedInserted(r, x, at, less, all);
  }

  lemma SortedInserted<T>(r: seq<T>, x: T, at: nat, less: (T, T) -> bool, all: seq<T>)
    requires Sorted(r, less) && at <= |r|
    requires StrictWeakOrder(all, less) && x in all && forall y | y in r :: y in all
    requires at > 0 ==> !less(x, r[at - 1])
    requires forall j | at <= j < |r| :: less(x, r[j])
    ensures Sorted(r[..at] + [x] + r[at..], less)
  {
    forall i | 0 <= i < at ensures !less(x, r[i]) {
      assert r[i] in r && r[at - 1] in r;
      assert i == at - 1 || !less(r[at - 1], r[i]);
    }
  }

  lemma OrderInserted(order: seq<nat>, n: nat, at: nat)
    requires IsOrder(order, n) && at <= n
    ensures IsOrder(order[..at] + [n] + order[at..], n + 1)
  {
    var o := order[..at] + [n] + order[at..];
    forall k | 0 <= k <= n ensures k in o {
      if k < n {
        assert k in order;
        var i :| 0 <= i < |order| && order[i] == k;
        assert o[if i < at then i else i + 1] == k;
      } else {
        assert o[at] == k;
      }
    }
  }
}
