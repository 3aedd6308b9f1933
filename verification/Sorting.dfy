/**
 The library sort: any method that returns a sorted permutation.
 Callers rely on this contract alone, so nothing here depends on how ties are broken.

 - `TotalPreorder` is what a comparison has to be, `SortedBy` what a sorted list is.
 - `Sort` inserts one member after the other.
 - Permutations have the same members and keep distinct members distinct.
 - Without ties there is only one sorted arrangement.
 */
module Sorting {

  ghost predicate TotalPreorder<T(!new)>(leq: (T, T) -> bool) {
    && (forall x, y :: leq(x, y) || leq(y, x))
    && (forall x, y, z :: leq(x, y) && leq(y, z) ==> leq(x, z))
  }

  ghost predicate SortedBy<T>(leq: (T, T) -> bool, xs: seq<T>) {
    forall i, j :: 0 <= i < j < |xs| ==> leq(xs[i], xs[j])
  }

  /** Where `x` goes in the sorted `xs`: after everything that may stand before it. */
  method Position<T(!new)>(leq: (T, T) -> bool, x: T, xs: seq<T>) returns (p: nat)
    requires TotalPreorder(leq) && SortedBy(leq, xs)
    ensures p <= |xs|
    ensures forall i :: 0 <= i < p ==> leq(xs[i], x)
    ensures forall i :: p <= i < |xs| ==> leq(x, xs[i])
  {
    p := 0;
    while p < |xs| && leq(xs[p], x)
      invariant p <= |xs|
      invariant forall i :: 0 <= i < p ==> leq(xs[i], x)
    {
      p := p + 1;
    }
  }

  /** Putting a member where it belongs keeps the list sorted. */
  lemma Placed<T>(leq: (T, T) -> bool, x: T, xs: seq<T>, p: nat)
    requires SortedBy(leq, xs) && p <= |xs|
    requires forall i :: 0 <= i < p ==> leq(xs[i], x)
    requires forall i :: p <= i < |xs| ==> leq(x, xs[i])
    ensures SortedBy(leq, xs[..p] + [x] + xs[p..])
    ensures multiset(xs[..p] + [x] + xs[p..]) == multiset(xs) + multiset{x}
  {
    assert xs == xs[..p] + xs[p..];
  }

  method Sort<T(!new)>(leq: (T, T) -> bool, xs: seq<T>) returns (r: seq<T>)
    requires TotalPreorder(leq)
    ensures SortedBy(leq, r)
    ensures multiset(r) == multiset(xs)
    ensures |r| == |xs|
  {
    hide SortedBy, TotalPreorder;
    r := [];
    NothingToSort(leq);
    for n := 0 to |xs|
      invariant SortedBy(leq, r)
      invariant |r| == n
      invariant multiset(r) == multiset(xs[..n])
    {
      var p := Position(leq, xs[n], r);
      assert xs[..n + 1] == xs[..n] + [xs[n]];
      Placed(leq, xs[n], r, p);
      r := r[..p] + [xs[n]] + r[p..];
    }
    assert xs[..|xs|] == xs;
  }

  lemma NothingToSort<T>(leq: (T, T) -> bool)
    ensures SortedBy(leq, [])
  {
  }

  /** Permutations have the same members. */
  lemma SameMembers<T>(xs: seq<T>, ys: seq<T>)
    requires multiset(xs) == multiset(ys)
    ensures forall x :: x in xs <==> x in ys
  {
    forall x ensures x in xs <==> x in ys {
      assert x in xs <==> x in multiset(xs);
      assert x in ys <==> x in multiset(ys);
    }
  }

  /** The head of a sorted list without ties is the head of any sorted arrangement of it. */
  lemma SameHead<T>(leq: (T, T) -> bool, xs: seq<T>, ys: seq<T>)
    requires SortedBy(leq, xs) && SortedBy(leq, ys)
    requires forall i, j :: 0 <= i < j < |xs| ==> !leq(xs[j], xs[i])
    requires multiset(xs) == multiset(ys) && xs != [] && ys != []
    ensures xs[0] == ys[0]
  {
    SameMembers(xs, ys);
    assert xs[0] in ys && ys[0] in xs;
    var j :| 0 <= j < |ys| && ys[j] == xs[0];
    var i :| 0 <= i < |xs| && xs[i] == ys[0];
    assert j == 0 || leq(ys[0], ys[j]);
  }

  lemma TailMultiset<T>(xs: seq<T>)
    requires xs != []
    ensures multiset(xs[1..]) == multiset(xs) - multiset{xs[0]}
  {
    assert xs == [xs[0]] + xs[1..];
  }

  lemma TailSorted<T>(leq: (T, T) -> bool, xs: seq<T>)
    requires SortedBy(leq, xs) && xs != []
    ensures SortedBy(leq, xs[1..])
  {
  }

  /** When no two members tie, they have only one sorted arrangement. */
  lemma {:induction false} SortedUnique<T>(leq: (T, T) -> bool, xs: seq<T>, ys: seq<T>)
    requires SortedBy(leq, xs) && SortedBy(leq, ys)
    requires forall i, j :: 0 <= i < j < |xs| ==> !leq(xs[j], xs[i])
    requires multiset(xs) == multiset(ys)
    ensures xs == ys
  {
    hide SortedBy;
    assert |xs| == |multiset(xs)| == |multiset(ys)| == |ys|;
    if xs != [] {
      SameHead(leq, xs, ys);
      TailMultiset(xs);
      TailMultiset(ys);
      TailSorted(leq, xs);
      TailSorted(leq, ys);
      SortedUnique(leq, xs[1..], ys[1..]);
      assert xs == [xs[0]] + xs[1..] && ys == [ys[0]] + ys[1..];
    }
  }

  /** Sorting does not introduce repetitions. */
  lemma DistinctStaysDistinct<T>(xs: seq<T>, ys: seq<T>)
    requires forall j, k :: 0 <= j < k < |xs| ==> xs[j] != xs[k]
    requires multiset(xs) == multiset(ys)
    ensures forall j, k :: 0 <= j < k < |ys| ==> ys[j] != ys[k]
  {
    DistinctCountsOne(xs);
    SameMembers(xs, ys);
    forall j, k | 0 <= j < k < |ys| ensures ys[j] != ys[k] {
      assert ys[j] in ys;
      if ys[j] == ys[k] {
        RepeatedCountsTwo(ys, j, k);
      }
    }
  }

  lemma RepeatedCountsTwo<T>(ys: seq<T>, j: nat, k: nat)
    requires j < k < |ys| && ys[j] == ys[k]
    ensures multiset(ys)[ys[j]] >= 2
  {
    assert ys == ys[..j] + [ys[j]] + ys[j + 1..k] + [ys[k]] + ys[k + 1..];
  }

  lemma {:induction false} DistinctCountsOne<T>(xs: seq<T>)
    requires forall j, k :: 0 <= j < k < |xs| ==> xs[j] != xs[k]
    ensures forall x :: x in xs ==> multiset(xs)[x] == 1
  {
    if xs != [] {
      DistinctCountsOne(xs[1..]);
      assert xs == [xs[0]] + xs[1..];
    }
  }
}
