/**
 What every ranking obtained by sorting with a comparator has in common: an
 element's place is the number of elements before it, two elements stand in
 the same order whatever else is ranked with them, and replacing a candidate
 by one that no more of the others beat does not move it back. All of it asks
 for a comparator under which no two elements compare equal.
 */
module Rankings {
  import opened Sequences
  import opened Sorting

  function Count<T>(xs: seq<T>, p: T -> bool): nat {
    |Filter(xs, p)|
  }

  lemma CountPermutation<T>(xs: seq<T>, ys: seq<T>, p: T -> bool)
    requires Permutation(xs, ys)
    ensures Count(xs, p) == Count(ys, p)
  {
    FilterPermutation(xs, ys, p);
    SameElements(Filter(xs, p), Filter(ys, p));
  }

  lemma {:induction false} CountPrefix<T>(xs: seq<T>, p: T -> bool, n: nat)
    requires n <= |xs| && forall i :: 0 <= i < |xs| ==> (p(xs[i]) <==> i < n)
    ensures Count(xs, p) == n
  {
    if xs != [] {
      CountPrefix(xs[..|xs| - 1], p, if n == |xs| then n - 1 else n);
    }
  }

  lemma {:induction false} CountMonotone<T>(xs: seq<T>, p: T -> bool, q: T -> bool)
    requires forall i :: 0 <= i < |xs| && p(xs[i]) ==> q(xs[i])
    ensures Count(xs, p) <= Count(xs, q)
  {
    if xs != [] {
      CountMonotone(xs[..|xs| - 1], p, q);
    }
  }

  lemma PlacesDecide<T(!new)>(s: seq<T>, before: (T, T) -> bool, i: nat, j: nat)
    requires WeakOrder(before) && Sorted(s, before) && Distinct(s) && NoTies(s, before) && i < |s| && j < |s|
    ensures i < j <==> before(s[i], s[j])
  {
    assert s[i] in s && s[j] in s;
  }

  /** In a ranking without ties an earlier place means that the comparator says so. */
  lemma EarlierIsBefore<T(!new)>(xs: seq<T>, before: (T, T) -> bool, i: nat, j: nat)
    requires WeakOrder(before) && Distinct(xs) && NoTies(xs, before)
    requires i < |Sort(xs, before)| && j < |Sort(xs, before)|
    ensures i < j <==> before(Sort(xs, before)[i], Sort(xs, before)[j])
  {
    var s := Sort(xs, before);
    SortIsSorted(xs, before);
    SameElements(s, xs);
    DistinctPermutation(s, xs);
    assert NoTies(s, before);
    PlacesDecide(s, before, i, j);
  }

  /** The place of an element is the number of elements before it. */
  lemma PlaceIsCount<T(!new)>(xs: seq<T>, before: (T, T) -> bool, i: nat, p: T -> bool)
    requires WeakOrder(before) && Distinct(xs) && NoTies(xs, before) && i < |Sort(xs, before)|
    requires forall y :: p(y) <==> before(y, Sort(xs, before)[i])
    ensures Count(xs, p) == i
  {
    var s := Sort(xs, before);
    SortIsSorted(xs, before);
    forall k | 0 <= k < |s| ensures p(s[k]) <==> k < i {
      EarlierIsBefore(xs, before, k, i);
    }
    CountPrefix(s, p, i);
    CountPermutation(s, xs, p);
  }

  /** Two elements stand in the same order whatever else is ranked with them. */
  lemma OthersDoNotSwap<T(!new)>(xs: seq<T>, ys: seq<T>, before: (T, T) -> bool, i: nat, j: nat, k: nat, l: nat)
    requires WeakOrder(before) && Distinct(xs) && NoTies(xs, before) && Distinct(ys) && NoTies(ys, before)
    requires i < |Sort(xs, before)| && j < |Sort(xs, before)| && k < |Sort(ys, before)| && l < |Sort(ys, before)|
    requires Sort(xs, before)[i] == Sort(ys, before)[k] && Sort(xs, before)[j] == Sort(ys, before)[l]
    ensures i < j <==> k < l
  {
    EarlierIsBefore(xs, before, i, j);
    EarlierIsBefore(ys, before, k, l);
  }

  /** Replacing one candidate by one that is beaten by no more of the others does not worsen its place. */
  lemma ImprovementKeepsPlace<T(!new)>(others: seq<T>, c: T, d: T, before: (T, T) -> bool, i: nat, j: nat)
    requires WeakOrder(before)
    requires Distinct(others + [c]) && NoTies(others + [c], before) && Distinct(others + [d]) && NoTies(others + [d], before)
    requires i < |Sort(others + [c], before)| && Sort(others + [c], before)[i] == c
    requires j < |Sort(others + [d], before)| && Sort(others + [d], before)[j] == d
    requires forall y :: y in others && before(y, d) ==> before(y, c)
    ensures j <= i
  {
    PlaceIsCount(others + [c], before, i, y => before(y, c));
    PlaceIsCount(others + [d], before, j, y => before(y, d));
    FilterAppend(others, c, y => before(y, c));
    FilterAppend(others, d, y => before(y, d));
    CountMonotone(others, y => before(y, d), y => before(y, c));
  }

  /** Listing the names of the elements that satisfy p lists exactly their names, when names are distinct. */
  lemma ListedIffChosen<T, N>(xs: seq<T>, p: T -> bool, name: T -> N, j: nat)
    requires j < |xs| && forall a, b :: a in xs && b in xs && name(a) == name(b) ==> a == b
    ensures name(xs[j]) in Map(Filter(xs, p), name) <==> p(xs[j])
  {
    var chosen := Filter(xs, p);
    if p(xs[j]) {
      FilterCounts(xs, p, xs[j]);
      assert xs[j] in multiset(xs) && xs[j] in multiset(chosen);
      var m :| 0 <= m < |chosen| && chosen[m] == xs[j];
      assert Map(chosen, name)[m] == name(xs[j]);
    }
  }
}
