/**
 Facts about sequences shared by the other modules: elements and their
 distinctness, mapping, filtering and summing, and permutations, which are
 stated as equality of multisets and kept by mapping, filtering and summing.
 Recursive functions take off the last element, as loops that run from the
 front do.
 */
module Sequences {

  ghost predicate Distinct<T>(xs: seq<T>) {
    forall i, j :: 0 <= i < j < |xs| ==> xs[i] != xs[j]
  }

  function Elements<T(==)>(xs: seq<T>): set<T> {
    set x | x in xs
  }

  lemma {:induction false} ElementsSize<T>(xs: seq<T>)
    ensures |Elements(xs)| <= |xs|
    ensures |Elements(xs)| == |xs| <==> Distinct(xs)
  {
    if xs != [] {
      var init, x := xs[..|xs| - 1], xs[|xs| - 1];
      ElementsSize(init);
      assert xs == init + [x];
      if x in init {
        assert Elements(xs) == Elements(init);
        var i :| 0 <= i < |init| && init[i] == x;
        assert xs[i] == xs[|xs| - 1];
      } else {
        assert Elements(xs) == Elements(init) + {x};
        assert forall i, j :: 0 <= i < j < |init| ==> (xs[i] == xs[j] <==> init[i] == init[j]);
      }
    }
  }

  lemma DistinctAppend<T>(xs: seq<T>, x: T)
    ensures Distinct(xs + [x]) <==> Distinct(xs) && x !in xs
  {
    var ys := xs + [x];
    if Distinct(xs) && x !in xs {
    } else if Distinct(ys) {
      forall i, j | 0 <= i < j < |xs| ensures xs[i] != xs[j] {
        assert ys[i] != ys[j];
      }
      forall i | 0 <= i < |xs| ensures xs[i] != x {
        assert ys[i] != ys[|xs|];
      }
    }
  }

  // ----- map, filter, sum -----

  function Map<T, U>(xs: seq<T>, f: T -> U): (ys: seq<U>)
    ensures |ys| == |xs| && forall i :: 0 <= i < |xs| ==> ys[i] == f(xs[i])
  {
    if xs == [] then [] else Map(xs[..|xs| - 1], f) + [f(xs[|xs| - 1])]
  }

  function Filter<T>(xs: seq<T>, p: T -> bool): (ys: seq<T>)
    ensures forall i :: 0 <= i < |ys| ==> p(ys[i]) && ys[i] in xs
  {
    if xs == [] then []
    else Filter(xs[..|xs| - 1], p) + (if p(xs[|xs| - 1]) then [xs[|xs| - 1]] else [])
  }

  function Sum(xs: seq<int>): int {
    if xs == [] then 0 else Sum(xs[..|xs| - 1]) + xs[|xs| - 1]
  }

  lemma SumAppend(xs: seq<int>, x: int)
    ensures Sum(xs + [x]) == Sum(xs) + x
  {
    assert (xs + [x])[..|xs|] == xs;
  }

  lemma {:induction false} SumConcat(xs: seq<int>, ys: seq<int>)
    ensures Sum(xs + ys) == Sum(xs) + Sum(ys)
  {
    if ys == [] {
      assert xs + ys == xs;
    } else {
      var init, y := ys[..|ys| - 1], ys[|ys| - 1];
      SumConcat(xs, init);
      assert xs + ys == (xs + init) + [y];
      SumAppend(xs + init, y);
    }
  }

  lemma MapAppend<T, U>(xs: seq<T>, x: T, f: T -> U)
    ensures Map(xs + [x], f) == Map(xs, f) + [f(x)]
  {}

  lemma SumMapAppend<T>(xs: seq<T>, x: T, f: T -> int)
    ensures Sum(Map(xs + [x], f)) == Sum(Map(xs, f)) + f(x)
  {
    MapAppend(xs, x, f);
    SumAppend(Map(xs, f), f(x));
  }

  lemma FilterAppend<T>(xs: seq<T>, x: T, p: T -> bool)
    ensures Filter(xs + [x], p) == Filter(xs, p) + (if p(x) then [x] else [])
  {
    assert (xs + [x])[..|xs|] == xs;
  }

  lemma {:induction false} FilterIsNoLonger<T>(xs: seq<T>, p: T -> bool)
    ensures |Filter(xs, p)| <= |xs|
  {
    if xs != [] {
      FilterIsNoLonger(xs[..|xs| - 1], p);
    }
  }

  // ----- permutations -----

  ghost predicate Permutation<T>(xs: seq<T>, ys: seq<T>) {
    multiset(xs) == multiset(ys)
  }

  lemma CancelOne<T>(a: multiset<T>, b: multiset<T>, x: T)
    requires a + multiset{x} == b + multiset{x}
    ensures a == b
  {
    assert a == (a + multiset{x}) - multiset{x};
    assert b == (b + multiset{x}) - multiset{x};
  }

  lemma InTheMiddle<T>(before: seq<T>, x: T, after: seq<T>)
    ensures multiset(before + [x] + after) == multiset(before + after) + multiset{x}
  {}

  lemma SplitAt<T>(xs: seq<T>, i: nat)
    requires i < |xs|
    ensures xs == xs[..i] + [xs[i]] + xs[i + 1..]
  {}

  /** A permutation of xs + [x] has x somewhere, and without that occurrence it is a permutation of xs. */
  lemma TakeOut<T>(xs: seq<T>, x: T, ys: seq<T>) returns (before: seq<T>, after: seq<T>)
    requires Permutation(xs + [x], ys)
    ensures ys == before + [x] + after && Permutation(xs, before + after)
  {
    assert x in xs + [x];
    SameElements(xs + [x], ys);
    var i :| 0 <= i < |ys| && ys[i] == x;
    before, after := ys[..i], ys[i + 1..];
    SplitAt(ys, i);
    InTheMiddle(before, x, after);
    InTheMiddle(xs, x, []);
    assert xs + [x] + [] == xs + [x] && xs + [] == xs;
    CancelOne(multiset(xs), multiset(before + after), x);
  }

  lemma {:induction false} SumPermutation(xs: seq<int>, ys: seq<int>)
    requires Permutation(xs, ys)
    ensures Sum(xs) == Sum(ys)
  {
    if xs == [] {
      assert |multiset(ys)| == 0;
    } else {
      var init, x := xs[..|xs| - 1], xs[|xs| - 1];
      assert xs == init + [x];
      var before, after := TakeOut(init, x, ys);
      SumPermutation(init, before + after);
      SumConcat(before, after);
      SumConcat(before + [x], after);
      SumAppend(before, x);
    }
  }

  lemma {:induction false} MapPermutation<T, U>(xs: seq<T>, ys: seq<T>, f: T -> U)
    requires Permutation(xs, ys)
    ensures Permutation(Map(xs, f), Map(ys, f))
  {
    if xs == [] {
      assert |multiset(ys)| == 0;
    } else {
      var init, x := xs[..|xs| - 1], xs[|xs| - 1];
      assert xs == init + [x];
      var before, after := TakeOut(init, x, ys);
      MapPermutation(init, before + after, f);
      MapAround(before, x, after, f);
    }
  }

  lemma MapConcat<T, U>(xs: seq<T>, ys: seq<T>, f: T -> U)
    ensures Map(xs + ys, f) == Map(xs, f) + Map(ys, f)
  {}

  lemma MapAround<T, U>(before: seq<T>, x: T, after: seq<T>, f: T -> U)
    ensures multiset(Map(before + [x] + after, f)) == multiset(Map(before + after, f)) + multiset{f(x)}
  {
    MapConcat(before, after, f);
    MapConcat(before + [x], after, f);
    MapConcat(before, [x], f);
    var m, n := Map(before, f), Map(after, f);
    assert Map([x], f) == [f(x)];
    assert multiset(m + [f(x)] + n) == multiset(m + n) + multiset{f(x)};
  }

  lemma {:induction false} FilterCounts<T>(xs: seq<T>, p: T -> bool, x: T)
    ensures multiset(Filter(xs, p))[x] == if p(x) then multiset(xs)[x] else 0
  {
    if xs != [] {
      var init, last := xs[..|xs| - 1], xs[|xs| - 1];
      assert xs == init + [last];
      FilterCounts(init, p, x);
      FilterAppend(init, last, p);
      hide Filter;
      CountAppend(init, last, x);
      CountAppend(Filter(init, p), last, x);
      assert Filter(init, p) + [] == Filter(init, p);
    }
  }

  lemma CountAppend<T>(xs: seq<T>, y: T, x: T)
    ensures multiset(xs + [y])[x] == multiset(xs)[x] + (if x == y then 1 else 0)
  {}

  lemma FilterPermutation<T>(xs: seq<T>, ys: seq<T>, p: T -> bool)
    requires Permutation(xs, ys)
    ensures Permutation(Filter(xs, p), Filter(ys, p))
  {
    forall x ensures multiset(Filter(xs, p))[x] == multiset(Filter(ys, p))[x] {
      FilterCounts(xs, p, x);
      FilterCounts(ys, p, x);
    }
  }

  /** Two complementary filters rearrange a list. */
  lemma PartitionPermutes<T>(xs: seq<T>, p: T -> bool, q: T -> bool)
    requires forall x :: p(x) <==> !q(x)
    ensures Permutation(Filter(xs, p) + Filter(xs, q), xs)
  {
    forall x ensures multiset(Filter(xs, p) + Filter(xs, q))[x] == multiset(xs)[x] {
      FilterCounts(xs, p, x);
      FilterCounts(xs, q, x);
      hide Filter;
      assert multiset(Filter(xs, p) + Filter(xs, q)) == multiset(Filter(xs, p)) + multiset(Filter(xs, q));
    }
  }

  lemma SameElements<T>(xs: seq<T>, ys: seq<T>)
    requires Permutation(xs, ys)
    ensures |xs| == |ys| && forall x :: x in xs <==> x in ys
  {
    assert |multiset(xs)| == |multiset(ys)|;
    assert forall x :: x in xs <==> x in multiset(xs);
    assert forall x :: x in ys <==> x in multiset(ys);
  }

  lemma DistinctPermutation<T>(xs: seq<T>, ys: seq<T>)
    requires Permutation(xs, ys)
    ensures Distinct(xs) <==> Distinct(ys)
  {
    SameElements(xs, ys);
    ElementsSize(xs);
    ElementsSize(ys);
    assert Elements(xs) == Elements(ys);
  }

  lemma {:induction false} DistinctCounts<T>(xs: seq<T>, x: T)
    requires Distinct(xs)
    ensures multiset(xs)[x] == if x in xs then 1 else 0
  {
    if xs != [] {
      var init, last := xs[..|xs| - 1], xs[|xs| - 1];
      assert xs == init + [last];
      assert forall i, j :: 0 <= i < j < |init| ==> init[i] == xs[i] && init[j] == xs[j];
      DistinctCounts(init, x);
      assert last !in init;
    }
  }

  /** Equally long lists without repetition, one contained in the other, are permutations. */
  lemma ContainedIsPermutation<T>(xs: seq<T>, ys: seq<T>)
    requires Distinct(xs) && Distinct(ys) && |xs| == |ys|
    requires forall i :: 0 <= i < |xs| ==> xs[i] in ys
    ensures Permutation(xs, ys)
  {
    ElementsSize(xs);
    ElementsSize(ys);
    assert Elements(xs) <= Elements(ys);
    SameSizeSubset(Elements(xs), Elements(ys));
    forall x ensures multiset(xs)[x] == multiset(ys)[x] {
      DistinctCounts(xs, x);
      DistinctCounts(ys, x);
      assert x in Elements(xs) <==> x in Elements(ys);
    }
  }

  lemma SameSizeSubset<T>(a: set<T>, b: set<T>)
    requires a <= b && |a| == |b|
    ensures a == b
  {
    assert b == a + (b - a);
  }
}
