/**
  The variadic `sortAll` helper of tests/TestHelpers.h: every container it is
  given is sorted ascending, each on its own. The argument pack is modelled
  as a non-empty sequence of containers and the per-container `std::sort` as
  an insertion sort; since a sorted permutation is unique, any sorting
  algorithm gives the same containers.
 */
module Sorting {

  predicate Sorted(s: seq<int>)
  {
    forall i, j :: 0 <= i < j < |s| ==> s[i] <= s[j]
  }

  /** `s` with `x` inserted before the first element not smaller than it. */
  function Insert(x: int, s: seq<int>): (r: seq<int>)
    requires Sorted(s)
    ensures |r| == |s| + 1
    ensures r[0] == x || (|s| > 0 && r[0] == s[0])
    ensures Sorted(r)
    ensures multiset(r) == multiset(s) + multiset{x}
  {
    if |s| == 0 then [x]
    else if x <= s[0] then [x] + s
    else
      var rest := Insert(x, s[1..]);
      assert s[0] <= rest[0];
      assert s == [s[0]] + s[1..];
      [s[0]] + rest
  }

  /** One container sorted ascending. */
  function Sort(s: seq<int>): (r: seq<int>)
    ensures Sorted(r)
    ensures multiset(r) == multiset(s)
  {
    if |s| == 0 then []
    else
      assert s == [s[0]] + s[1..];
      Insert(s[0], Sort(s[1..]))
  }

  /**
    The containers after `sortAll(c0, c1, ...)`: the first one is sorted,
    then the rest are handled by the recursive call, down to the
    one-container overload.
   */
  function SortAll(containers: seq<seq<int>>): (r: seq<seq<int>>)
    requires |containers| >= 1
    ensures |r| == |containers|
    ensures forall i :: 0 <= i < |r| ==>
              Sorted(r[i]) && multiset(r[i]) == multiset(containers[i])
    decreases |containers|
  {
    if |containers| == 1 then [Sort(containers[0])]
    else [Sort(containers[0])] + SortAll(containers[1..])
  }

  lemma SortedTail(s: seq<int>)
    requires Sorted(s) && |s| > 0
    ensures Sorted(s[1..])
  {
  }

  /** The least element of a sorted non-empty sequence is its first one. */
  lemma SortedHeadIsMin(s: seq<int>, x: int)
    requires Sorted(s) && x in multiset(s)
    ensures s[0] <= x
  {
  }

  /**
    Two sorted sequences holding the same elements are equal: the sorted
    result does not depend on how the container was sorted.
   */
  lemma {:induction false} SortedPermutationUnique(a: seq<int>, b: seq<int>)
    requires Sorted(a) && Sorted(b)
    requires multiset(a) == multiset(b)
    ensures a == b
    decreases |a|
  {
    if |a| != 0 {
      assert |b| == |multiset(b)| == |multiset(a)| == |a|;
      var x, y := a[0], b[0];
      assert x in multiset(b) by { assert x in a; }
      assert y in multiset(a) by { assert y in b; }
      SortedHeadIsMin(b, x);
      SortedHeadIsMin(a, y);
      assert x == y;
      var a', b' := a[1..], b[1..];
      assert a == [x] + a';
      assert b == [x] + b';
      assert multiset(a') == multiset(b') by {
        assert multiset(a) == multiset{x} + multiset(a');
        assert multiset(b) == multiset{x} + multiset(b');
        assert multiset(a') == multiset(a) - multiset{x};
        assert multiset(b') == multiset(b) - multiset{x};
      }
      SortedTail(a);
      SortedTail(b);
      SortedPermutationUnique(a', b');
    }
  }

  /** Sorting a container that is already sorted leaves it as it is. */
  lemma SortIdempotent(s: seq<int>)
    ensures Sort(Sort(s)) == Sort(s)
  {
    SortedPermutationUnique(Sort(Sort(s)), Sort(s));
  }

  /** Any sorted rearrangement of a container is the one `Sort` produces. */
  lemma SortIsTheSortedPermutation(s: seq<int>, t: seq<int>)
    requires Sorted(t) && multiset(t) == multiset(s)
    ensures Sort(s) == t
  {
    SortedPermutationUnique(Sort(s), t);
  }

  /**
    No container affects another: each result depends only on the container
    at the same position, and it is that container sorted.
   */
  lemma SortAllIndependent(cs: seq<seq<int>>, ds: seq<seq<int>>, i: nat)
    requires 1 <= |cs| == |ds| && i < |cs|
    requires multiset(cs[i]) == multiset(ds[i])
    ensures SortAll(cs)[i] == SortAll(ds)[i] == Sort(cs[i])
  {
    SortedPermutationUnique(SortAll(cs)[i], SortAll(ds)[i]);
    SortedPermutationUnique(SortAll(cs)[i], Sort(cs[i]));
  }
}
