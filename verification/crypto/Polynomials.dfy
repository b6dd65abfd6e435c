/** Polynomials over a field of characteristic two. */
module Polynomials {
  // A polynomial is its list of coefficients, the constant term first. The two results secret sharing rests on are that
  // one with as many distinct roots as coefficients is zero, and that Lagrange's formula gives the polynomial through any
  // points with distinct x-coordinates.

  import opened Sequences
  import opened Fields

  function Eval<T(!new)>(F: Field<T>, p: seq<T>, x: T): T {
    if p == [] then F.zero else F.add(p[0], F.mul(x, Eval(F, p[1..], x)))
  }

  function Power<T(!new)>(F: Field<T>, x: T, n: nat): T {
    if n == 0 then F.one else F.mul(Power(F, x, n - 1), x)
  }

  ghost predicate AllZero<T(!new)>(F: Field<T>, p: seq<T>) {
    forall i :: 0 <= i < |p| ==> p[i] == F.zero
  }

  // ----- evaluation -----

  lemma {:induction false} EvalAllZero<T(!new)>(F: Field<T>, p: seq<T>, x: T)
    requires F.Valid() && AllZero(F, p)
    ensures Eval(F, p, x) == F.zero
  {
    if p != [] {
      EvalAllZero(F, p[1..], x);
      F.MulZero(x);
      F.AddZero(F.zero);
    }
  }

  lemma EvalAtZero<T(!new)>(F: Field<T>, p: seq<T>)
    requires F.Valid() && p != []
    ensures Eval(F, p, F.zero) == p[0]
  {
    F.MulZero(Eval(F, p[1..], F.zero));
    F.AddZero(p[0]);
  }

  lemma {:induction false} EvalAppend<T(!new)>(F: Field<T>, p: seq<T>, a: T, x: T)
    requires F.Valid()
    ensures Eval(F, p + [a], x) == F.add(Eval(F, p, x), F.mul(a, Power(F, x, |p|)))
  {
    if p == [] {
      assert ([a] + [])[1..] == [];
      assert p + [a] == [a];
      assert Eval(F, [a], x) == F.add(a, F.mul(x, F.zero));
      F.MulZero(x);
      F.MulOne(a);
      F.AddComm(a, F.zero);
    } else {
      assert (p + [a])[1..] == p[1..] + [a];
      var e, w := Eval(F, p[1..], x), F.mul(a, Power(F, x, |p| - 1));
      EvalAppend(F, p[1..], a, x);
      F.Distribute(x, e, w);
      F.MulLeftSwap(x, a, Power(F, x, |p| - 1));
      F.MulComm(x, Power(F, x, |p| - 1));
      F.AddAssoc(p[0], F.mul(x, e), F.mul(x, w));
    }
  }

  // ----- sum, multiple, product with a linear factor -----

  function Sum<T(!new)>(F: Field<T>, p: seq<T>, q: seq<T>): (r: seq<T>)
    ensures |r| == if |p| < |q| then |q| else |p|
  {
    if p == [] then q
    else if q == [] then p
    else [F.add(p[0], q[0])] + Sum(F, p[1..], q[1..])
  }

  lemma {:induction false} EvalSum<T(!new)>(F: Field<T>, p: seq<T>, q: seq<T>, x: T)
    requires F.Valid()
    ensures Eval(F, Sum(F, p, q), x) == F.add(Eval(F, p, x), Eval(F, q, x))
  {
    if p == [] {
      F.AddZero(Eval(F, q, x));
    } else if q == [] {
      F.AddZero(Eval(F, p, x));
    } else {
      var u, v := Eval(F, p[1..], x), Eval(F, q[1..], x);
      EvalSum(F, p[1..], q[1..], x);
      F.Distribute(x, u, v);
      F.AddSwap(p[0], q[0], F.mul(x, u), F.mul(x, v));
    }
  }

  function Multiple<T(!new)>(F: Field<T>, c: T, p: seq<T>): (r: seq<T>)
    ensures |r| == |p|
  {
    if p == [] then [] else [F.mul(c, p[0])] + Multiple(F, c, p[1..])
  }

  lemma {:induction false} EvalMultiple<T(!new)>(F: Field<T>, c: T, p: seq<T>, x: T)
    requires F.Valid()
    ensures Eval(F, Multiple(F, c, p), x) == F.mul(c, Eval(F, p, x))
  {
    if p == [] {
      F.MulZero(c);
    } else {
      var e := Eval(F, p[1..], x);
      EvalMultiple(F, c, p[1..], x);
      F.Distribute(c, p[0], F.mul(x, e));
      F.MulLeftSwap(c, x, e);
    }
  }

  /** p(x) * (x + r) */
  function TimesLinear<T(!new)>(F: Field<T>, p: seq<T>, r: T): (q: seq<T>)
    ensures |q| == |p| + 1
  {
    Sum(F, [F.zero] + p, Multiple(F, r, p))
  }

  lemma EvalTimesLinear<T(!new)>(F: Field<T>, p: seq<T>, r: T, x: T)
    requires F.Valid()
    ensures Eval(F, TimesLinear(F, p, r), x) == F.mul(Eval(F, p, x), F.add(r, x))
  {
    var e := Eval(F, p, x);
    EvalSum(F, [F.zero] + p, Multiple(F, r, p), x);
    EvalMultiple(F, r, p, x);
    assert ([F.zero] + p)[1..] == p;
    F.AddZero(F.mul(x, e));
    F.Distribute(e, x, r);
    F.MulComm(x, e);
    F.MulComm(r, e);
    F.AddComm(x, r);
  }

  // ----- division by a linear factor, and root counting -----

  /** The quotient of p by (x + r): synthetic division. */
  function Quotient<T(!new)>(F: Field<T>, p: seq<T>, r: T): (q: seq<T>)
    ensures |q| == if p == [] then 0 else |p| - 1
  {
    if |p| <= 1 then [] else [Eval(F, p[1..], r)] + Quotient(F, p[1..], r)
  }

  lemma {:induction false} DivideByLinear<T(!new)>(F: Field<T>, p: seq<T>, r: T, x: T)
    requires F.Valid()
    ensures Eval(F, p, x) == F.add(Eval(F, p, r), F.mul(F.add(x, r), Eval(F, Quotient(F, p, r), x)))
  {
    var d := F.add(x, r);
    if |p| <= 1 {
      F.MulZero(d);
      F.AddZero(Eval(F, p, r));
      if |p| == 1 {
        F.MulZero(x);
        F.MulZero(r);
      }
    } else {
      // with p(x) = a + x*P(x), P(x) = P(r) + d*Q(x), the claim is a + x*P(x) = (a + r*P(r)) + d*(P(r) + x*Q(x))
      var a, P, q := p[0], Eval(F, p[1..], r), Eval(F, Quotient(F, p[1..], r), x);
      DivideByLinear(F, p[1..], r, x);
      F.Distribute(x, P, F.mul(d, q));
      F.MulLeftSwap(x, d, q);
      F.Distribute(d, P, F.mul(x, q));
      F.Distribute(P, x, r);
      var rP, xP, w := F.mul(r, P), F.mul(x, P), F.mul(d, F.mul(x, q));
      assert Eval(F, p, x) == F.add(a, F.add(xP, w));
      calc {
        F.add(F.add(a, rP), F.add(F.add(xP, rP), w));
        { F.AddComm(xP, rP); F.AddAssoc(rP, xP, w); }
        F.add(F.add(a, rP), F.add(rP, F.add(xP, w)));
        { F.AddAssoc(a, rP, F.add(rP, F.add(xP, w))); F.AddAssoc(rP, rP, F.add(xP, w)); }
        F.add(a, F.add(F.add(rP, rP), F.add(xP, w)));
        { F.AddSelf(rP); F.AddZero(F.add(xP, w)); }
        F.add(a, F.add(xP, w));
      }
    }
  }

  /** A root with a vanishing quotient leaves nothing. */
  lemma {:induction false} ZeroQuotient<T(!new)>(F: Field<T>, p: seq<T>, r: T)
    requires F.Valid() && Eval(F, p, r) == F.zero && AllZero(F, Quotient(F, p, r))
    ensures AllZero(F, p)
  {
    if p != [] {
      var rest := p[1..];
      if |p| > 1 {
        assert Quotient(F, p, r)[0] == Eval(F, rest, r);
        assert Quotient(F, p, r)[1..] == Quotient(F, rest, r);
        forall i | 0 <= i < |Quotient(F, rest, r)| ensures Quotient(F, rest, r)[i] == F.zero {
          assert Quotient(F, rest, r)[i] == Quotient(F, p, r)[i + 1];
        }
        ZeroQuotient(F, rest, r);
      }
      F.MulZero(r);
      F.AddZero(p[0]);
      assert forall i :: 1 <= i < |p| ==> p[i] == rest[i - 1];
    }
  }

  /** A polynomial with at least as many distinct roots as coefficients is zero. */
  lemma {:induction false} RootCount<T(!new)>(F: Field<T>, p: seq<T>, xs: seq<T>)
    requires F.Valid() && Distinct(xs) && |p| <= |xs|
    requires forall i :: 0 <= i < |xs| ==> Eval(F, p, xs[i]) == F.zero
    ensures AllZero(F, p)
    decreases |p|
  {
    if p != [] {
      var r, q := xs[0], Quotient(F, p, xs[0]);
      forall i | 0 <= i < |xs[1..]| ensures Eval(F, q, xs[1..][i]) == F.zero {
        var x := xs[i + 1];
        DivideByLinear(F, p, r, x);
        F.AddZero(F.mul(F.add(x, r), Eval(F, q, x)));
        F.AddIsZero(x, r);
        F.MulIsZero(F.add(x, r), Eval(F, q, x));
      }
      RootCount(F, q, xs[1..]);
      ZeroQuotient(F, p, r);
    }
  }

  /** Two polynomials that agree on enough distinct points agree everywhere. */
  lemma AgreeEverywhere<T(!new)>(F: Field<T>, p: seq<T>, q: seq<T>, xs: seq<T>, x: T)
    requires F.Valid() && Distinct(xs) && |p| <= |xs| && |q| <= |xs|
    requires forall i :: 0 <= i < |xs| ==> Eval(F, p, xs[i]) == Eval(F, q, xs[i])
    ensures Eval(F, p, x) == Eval(F, q, x)
  {
    SumVanishes(F, p, q, xs);
    EvalAllZero(F, Sum(F, p, q), x);
    EvalSum(F, p, q, x);
    F.AddIsZero(Eval(F, p, x), Eval(F, q, x));
  }

  /** Coefficients are determined by the values at as many distinct points. */
  lemma SameCoefficients<T(!new)>(F: Field<T>, p: seq<T>, q: seq<T>, xs: seq<T>)
    requires F.Valid() && Distinct(xs) && |p| == |q| <= |xs|
    requires forall i :: 0 <= i < |xs| ==> Eval(F, p, xs[i]) == Eval(F, q, xs[i])
    ensures p == q
  {
    SumVanishes(F, p, q, xs);
    forall i | 0 <= i < |p| ensures p[i] == q[i] {
      SumAt(F, p, q, i);
      F.AddIsZero(p[i], q[i]);
    }
  }

  lemma SumVanishes<T(!new)>(F: Field<T>, p: seq<T>, q: seq<T>, xs: seq<T>)
    requires F.Valid() && Distinct(xs) && |p| <= |xs| && |q| <= |xs|
    requires forall i :: 0 <= i < |xs| ==> Eval(F, p, xs[i]) == Eval(F, q, xs[i])
    ensures AllZero(F, Sum(F, p, q))
  {
    forall i | 0 <= i < |xs| ensures Eval(F, Sum(F, p, q), xs[i]) == F.zero {
      EvalSum(F, p, q, xs[i]);
      F.AddSelf(Eval(F, p, xs[i]));
    }
    RootCount(F, Sum(F, p, q), xs);
  }

  lemma {:induction false} SumAt<T(!new)>(F: Field<T>, p: seq<T>, q: seq<T>, i: nat)
    requires i < |p| == |q|
    ensures Sum(F, p, q)[i] == F.add(p[i], q[i])
  {
    if i > 0 {
      SumAt(F, p[1..], q[1..], i - 1);
    }
  }

  // ----- Lagrange interpolation -----

  /** (zs[0] + x) * (zs[1] + x) * ... , multiplied from left to right. */
  function Factors<T(!new)>(F: Field<T>, zs: seq<T>, x: T): T {
    if zs == [] then F.one
    else F.mul(Factors(F, zs[..|zs| - 1], x), F.add(zs[|zs| - 1], x))
  }

  lemma {:induction false} FactorsAreNonZero<T(!new)>(F: Field<T>, zs: seq<T>, x: T)
    requires F.Valid()
    ensures Factors(F, zs, x) == F.zero <==> x in zs
  {
    if zs != [] {
      var init, z := zs[..|zs| - 1], zs[|zs| - 1];
      FactorsAreNonZero(F, init, x);
      F.AddIsZero(z, x);
      F.MulIsZero(Factors(F, init, x), F.add(z, x));
      assert zs == init + [z];
    }
  }

  function FactorsPolynomial<T(!new)>(F: Field<T>, zs: seq<T>): (p: seq<T>)
    ensures |p| == |zs| + 1
  {
    if zs == [] then [F.one]
    else TimesLinear(F, FactorsPolynomial(F, zs[..|zs| - 1]), zs[|zs| - 1])
  }

  lemma {:induction false} EvalFactors<T(!new)>(F: Field<T>, zs: seq<T>, x: T)
    requires F.Valid()
    ensures Eval(F, FactorsPolynomial(F, zs), x) == Factors(F, zs, x)
  {
    if zs == [] {
      assert Eval(F, [F.one], x) == F.add(F.one, F.mul(x, F.zero));
      F.MulZero(x);
      F.AddZero(F.one);
    } else {
      var init, z := zs[..|zs| - 1], zs[|zs| - 1];
      EvalFactors(F, init, x);
      EvalTimesLinear(F, FactorsPolynomial(F, init), z, x);
    }
  }

  function Others<T(!new)>(xs: seq<T>, i: nat): (zs: seq<T>)
    requires i < |xs|
    ensures |zs| == |xs| - 1
  {
    xs[..i] + xs[i + 1..]
  }

  lemma InOthers<T(!new)>(xs: seq<T>, i: nat, m: nat)
    requires Distinct(xs) && i < |xs| && m < |xs|
    ensures xs[m] in Others(xs, i) <==> m != i
  {
    if m < i {
      assert Others(xs, i)[m] == xs[m];
    } else if m > i {
      assert Others(xs, i)[m - 1] == xs[m];
    }
  }

  /** The i-th Lagrange weight at x. */
  function Weight<T(!new)>(F: Field<T>, xs: seq<T>, i: nat, x: T): T
    requires i < |xs|
  {
    F.Div(Factors(F, Others(xs, i), x), Factors(F, Others(xs, i), xs[i]))
  }

  /** The first k terms of Lagrange's formula for the value at x. */
  function Lagrange<T(!new)>(F: Field<T>, xs: seq<T>, ys: seq<T>, k: nat, x: T): T
    requires k <= |xs| == |ys|
  {
    if k == 0 then F.zero
    else F.add(Lagrange(F, xs, ys, k - 1, x), F.mul(ys[k - 1], Weight(F, xs, k - 1, x)))
  }

  /** The same k terms as a polynomial. */
  function Interpolant<T(!new)>(F: Field<T>, xs: seq<T>, ys: seq<T>, k: nat): (p: seq<T>)
    requires k <= |xs| == |ys|
    ensures |p| == if k == 0 then 0 else |xs|
  {
    if k == 0 then []
    else
      var c := F.Div(ys[k - 1], Factors(F, Others(xs, k - 1), xs[k - 1]));
      Sum(F, Interpolant(F, xs, ys, k - 1), Multiple(F, c, FactorsPolynomial(F, Others(xs, k - 1))))
  }

  lemma {:induction false} EvalInterpolant<T(!new)>(F: Field<T>, xs: seq<T>, ys: seq<T>, k: nat, x: T)
    requires F.Valid() && k <= |xs| == |ys|
    ensures Eval(F, Interpolant(F, xs, ys, k), x) == Lagrange(F, xs, ys, k, x)
  {
    if k > 0 {
      var y, zs := ys[k - 1], Others(xs, k - 1);
      var c := F.Div(y, Factors(F, zs, xs[k - 1]));
      EvalInterpolant(F, xs, ys, k - 1, x);
      EvalSum(F, Interpolant(F, xs, ys, k - 1), Multiple(F, c, FactorsPolynomial(F, zs)), x);
      EvalMultiple(F, c, FactorsPolynomial(F, zs), x);
      EvalFactors(F, zs, x);
      F.MulAssoc(y, F.inv(Factors(F, zs, xs[k - 1])), Factors(F, zs, x));
      F.MulComm(F.inv(Factors(F, zs, xs[k - 1])), Factors(F, zs, x));
    }
  }

  /** At a node every weight is zero but that node's own, which is one. */
  lemma WeightAtNode<T(!new)>(F: Field<T>, xs: seq<T>, i: nat, m: nat)
    requires F.Valid() && Distinct(xs) && i < |xs| && m < |xs|
    ensures Weight(F, xs, i, xs[m]) == if i == m then F.one else F.zero
  {
    var zs := Others(xs, i);
    InOthers(xs, i, i);
    InOthers(xs, i, m);
    FactorsAreNonZero(F, zs, xs[i]);
    FactorsAreNonZero(F, zs, xs[m]);
    F.MulInverse(Factors(F, zs, xs[i]));
    F.MulZero(F.inv(Factors(F, zs, xs[i])));
  }

  lemma {:induction false} LagrangeAtNode<T(!new)>(F: Field<T>, xs: seq<T>, ys: seq<T>, k: nat, m: nat)
    requires F.Valid() && Distinct(xs) && k <= |xs| == |ys| && m < |xs|
    ensures Lagrange(F, xs, ys, k, xs[m]) == if m < k then ys[m] else F.zero
  {
    if k > 0 {
      LagrangeAtNode(F, xs, ys, k - 1, m);
      WeightAtNode(F, xs, k - 1, m);
      F.MulOne(ys[k - 1]);
      F.MulZero(ys[k - 1]);
      F.AddZero(Lagrange(F, xs, ys, k - 1, xs[m]));
      F.AddZero(ys[k - 1]);
    }
  }

  /** There is a polynomial with |xs| coefficients through any |xs| points with distinct x-coordinates. */
  lemma InterpolantPasses<T(!new)>(F: Field<T>, xs: seq<T>, ys: seq<T>, m: nat)
    requires F.Valid() && Distinct(xs) && m < |xs| == |ys|
    ensures Eval(F, Interpolant(F, xs, ys, |xs|), xs[m]) == ys[m]
  {
    EvalInterpolant(F, xs, ys, |xs|, xs[m]);
    LagrangeAtNode(F, xs, ys, |xs|, m);
  }

  /** Lagrange's formula recovers any polynomial of low enough degree, at every x. */
  lemma LagrangeRecovers<T(!new)>(F: Field<T>, p: seq<T>, xs: seq<T>, ys: seq<T>, x: T)
    requires F.Valid() && Distinct(xs) && |p| <= |xs| == |ys|
    requires forall i :: 0 <= i < |xs| ==> ys[i] == Eval(F, p, xs[i])
    ensures Lagrange(F, xs, ys, |xs|, x) == Eval(F, p, x)
  {
    var q := Interpolant(F, xs, ys, |xs|);
    forall i | 0 <= i < |xs| ensures Eval(F, p, xs[i]) == Eval(F, q, xs[i]) {
      InterpolantPasses(F, xs, ys, i);
    }
    AgreeEverywhere(F, p, q, xs, x);
    EvalInterpolant(F, xs, ys, |xs|, x);
  }
}
