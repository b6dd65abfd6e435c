/**
 Sorting a fresh copy with a comparator. before(a, b) says that the comparator
 is negative on (a, b); elements for which it answers zero keep their order.
 The result is a sorted permutation, and the only one when no two elements
 compare equal, so it does not depend on the order of the input; and mapping
 elements to their keys commutes with sorting.
 */
module Sorting {
  import opened Sequences

  /** A comparator whose zero answers form an equivalence: what a sort needs to be well defined. */
  ghost predicate WeakOrder<T(!new)>(before: (T, T) -> bool) {
    && (forall a, b :: before(a, b) ==> !before(b, a))
    && (forall a, b, c :: before(a, c) ==> before(a, b) || before(b, c))
  }

  ghost predicate Sorted<T>(xs: seq<T>, before: (T, T) -> bool) {
    forall i, j :: 0 <= i < j < |xs| ==> !before(xs[j], xs[i])
  }

  /** Among these elements, only equal ones tie. */
  ghost predicate NoTies<T>(xs: seq<T>, before: (T, T) -> bool) {
    forall a, b :: a in xs && b in xs && !before(a, b) && !before(b, a) ==> a == b
  }

  /** x inserted behind everything that does not come after it. */
  function Insert<T>(xs: seq<T>, x: T, before: (T, T) -> bool): (ys: seq<T>)
    ensures |ys| == |xs| + 1
  {
    if xs == [] || !before(x, xs[|xs| - 1]) then xs + [x]
    else Insert(xs[..|xs| - 1], x, before) + [xs[|xs| - 1]]
  }

  function Sort<T>(xs: seq<T>, before: (T, T) -> bool): (ys: seq<T>)
    ensures |ys| == |xs|
  {
    if xs == [] then [] else Insert(Sort(xs[..|xs| - 1], before), xs[|xs| - 1], before)
  }

  lemma {:induction false} InsertPermutes<T>(xs: seq<T>, x: T, before: (T, T) -> bool)
    ensures Permutation(Insert(xs, x, before), xs + [x])
  {
    if xs != [] && before(x, xs[|xs| - 1]) {
      var init, last := xs[..|xs| - 1], xs[|xs| - 1];
      InsertPermutes(init, x, before);
      var r := Insert(init, x, before);
      assert xs + [x] == init + [last] + [x];
      assert multiset(r + [last]) == multiset(r) + multiset{last};
      assert multiset(init + [x]) == multiset(init) + multiset{x};
      assert multiset(init + [last] + [x]) == multiset(init) + multiset{last} + multiset{x};
    }
  }

  lemma SortedAppend<T>(xs: seq<T>, x: T, before: (T, T) -> bool)
    requires Sorted(xs, before) && forall i :: 0 <= i < |xs| ==> !before(x, xs[i])
    ensures Sorted(xs + [x], before)
  {}

  /** Nothing in a sorted list comes after its last element. */
  lemma LastIsLast<T(!new)>(xs: seq<T>, before: (T, T) -> bool, y: T)
    requires WeakOrder(before) && Sorted(xs, before) && xs != [] && y in xs
    ensures !before(xs[|xs| - 1], y)
  {
    var j :| 0 <= j < |xs| && xs[j] == y;
    if j == |xs| - 1 {
      assert before(y, y) ==> !before(y, y);
    }
  }

  lemma NotBeforeChains<T(!new)>(before: (T, T) -> bool, x: T, y: T, z: T)
    requires WeakOrder(before) && !before(x, y) && !before(y, z)
    ensures !before(x, z)
  {}

  lemma {:induction false} InsertIsSorted<T(!new)>(xs: seq<T>, x: T, before: (T, T) -> bool)
    requires WeakOrder(before) && Sorted(xs, before)
    ensures Sorted(Insert(xs, x, before), before) && Permutation(Insert(xs, x, before), xs + [x])
  {
    InsertPermutes(xs, x, before);
    hide Permutation;
    if xs == [] {
    } else if before(x, xs[|xs| - 1]) {
      var init, last := xs[..|xs| - 1], xs[|xs| - 1];
      InsertIsSorted(init, x, before);
      var r := Insert(init, x, before);
      SameElements(r, init + [x]);
      AsInserted(xs, x, before);
      forall i | 0 <= i < |r| ensures !before(last, r[i]) {
        assert r[i] in init + [x];
        if r[i] in xs {
          LastIsLast(xs, before, r[i]);
        } else {
          assert r[i] == x;
        }
      }
      SortedAppend(r, last, before);
    } else {
      forall i | 0 <= i < |xs| ensures !before(x, xs[i]) {
        LastIsLast(xs, before, xs[i]);
        NotBeforeChains(before, x, xs[|xs| - 1], xs[i]);
      }
      SortedAppend(xs, x, before);
    }
  }

  lemma AsInserted<T>(xs: seq<T>, x: T, before: (T, T) -> bool)
    requires xs != [] && before(x, xs[|xs| - 1])
    ensures Insert(xs, x, before) == Insert(xs[..|xs| - 1], x, before) + [xs[|xs| - 1]]
  {}

  lemma {:induction false} SortIsSorted<T(!new)>(xs: seq<T>, before: (T, T) -> bool)
    requires WeakOrder(before)
    ensures Sorted(Sort(xs, before), before) && Permutation(Sort(xs, before), xs)
  {
    if xs != [] {
      var init, last := xs[..|xs| - 1], xs[|xs| - 1];
      SortIsSorted(init, before);
      InsertIsSorted(Sort(init, before), last, before);
      assert xs == init + [last];
    }
  }

  /** Without ties there is only one sorted order. */
  lemma {:induction false} SortedIsUnique<T>(xs: seq<T>, ys: seq<T>, before: (T, T) -> bool)
    requires Sorted(xs, before) && Sorted(ys, before) && Permutation(xs, ys) && NoTies(xs, before)
    ensures xs == ys
  {
    SameElements(xs, ys);
    if xs != [] {
      var n := |xs| - 1;
      SameLast(xs, ys, before);
      DropLast(xs, ys);
      forall a, b | a in xs[..n] && b in xs[..n] && !before(a, b) && !before(b, a) ensures a == b {
        assert a in xs && b in xs;
      }
      SortedIsUnique(xs[..n], ys[..n], before);
      assert xs == xs[..n] + [xs[n]] && ys == ys[..n] + [ys[n]];
    }
  }

  lemma DropLast<T>(xs: seq<T>, ys: seq<T>)
    requires Permutation(xs, ys) && |xs| == |ys| > 0 && xs[|xs| - 1] == ys[|ys| - 1]
    ensures Permutation(xs[..|xs| - 1], ys[..|ys| - 1])
  {
    var n := |xs| - 1;
    SplitAt(xs, n);
    SplitAt(ys, n);
    InTheMiddle(xs[..n], xs[n], []);
    InTheMiddle(ys[..n], ys[n], []);
    assert xs[n + 1..] == [] && ys[n + 1..] == [] && xs[..n] + [] == xs[..n] && ys[..n] + [] == ys[..n];
    CancelOne(multiset(xs[..n]), multiset(ys[..n]), xs[n]);
  }

  lemma SameLast<T>(xs: seq<T>, ys: seq<T>, before: (T, T) -> bool)
    requires Sorted(xs, before) && Sorted(ys, before) && NoTies(xs, before)
    requires |xs| == |ys| > 0 && forall x :: x in xs <==> x in ys
    ensures xs[|xs| - 1] == ys[|ys| - 1]
  {
    var n := |xs| - 1;
    assert ys[n] in xs && xs[n] in ys;
    var i :| 0 <= i < |ys| && ys[i] == xs[n];
    var j :| 0 <= j < |xs| && xs[j] == ys[n];
    assert i < n ==> !before(ys[n], ys[i]);
    assert j < n ==> !before(xs[n], xs[j]);
  }

  /** The result does not depend on the order the elements arrive in. */
  lemma SortPermutation<T(!new)>(xs: seq<T>, ys: seq<T>, before: (T, T) -> bool)
    requires WeakOrder(before) && Permutation(xs, ys) && NoTies(xs, before)
    ensures Sort(xs, before) == Sort(ys, before)
  {
    SortIsSorted(xs, before);
    SortIsSorted(ys, before);
    SameElements(Sort(xs, before), xs);
    SortedIsUnique(Sort(xs, before), Sort(ys, before), before);
  }

  lemma SortOfSorted<T(!new)>(xs: seq<T>, before: (T, T) -> bool)
    requires WeakOrder(before) && Sorted(xs, before) && NoTies(xs, before)
    ensures Sort(xs, before) == xs
  {
    SortIsSorted(xs, before);
    SortedIsUnique(xs, Sort(xs, before), before);
  }

  // ----- sorting and mapping -----

  lemma {:induction false} InsertMap<T, U>(xs: seq<T>, x: T, before: (T, T) -> bool, f: T -> U, before': (U, U) -> bool)
    requires forall a, b :: before'(f(a), f(b)) == before(a, b)
    ensures Map(Insert(xs, x, before), f) == Insert(Map(xs, f), f(x), before')
  {
    if xs == [] || !before(x, xs[|xs| - 1]) {
      MapAppend(xs, x, f);
    } else {
      var init, last := xs[..|xs| - 1], xs[|xs| - 1];
      InsertMap(init, x, before, f, before');
      MapAppend(Insert(init, x, before), last, f);
      assert Map(xs, f)[..|xs| - 1] == Map(init, f);
    }
  }

  /** A map that keeps the comparator's answers can be applied before or after the sort. */
  lemma {:induction false} SortMap<T, U>(xs: seq<T>, before: (T, T) -> bool, f: T -> U, before': (U, U) -> bool)
    requires forall a, b :: before'(f(a), f(b)) == before(a, b)
    ensures Map(Sort(xs, before), f) == Sort(Map(xs, f), before')
  {
    if xs != [] {
      var init, last := xs[..|xs| - 1], xs[|xs| - 1];
      SortMap(init, before, f, before');
      InsertMap(Sort(init, before), last, before, f, before');
      assert Map(xs, f)[..|xs| - 1] == Map(init, f);
    }
  }
}
