/** The splitting and combining loops, writing share and secret buffers in place. */
module ShamirBuffers {
  import opened Results
  import opened Sequences
  import opened Fields
  import opened Polynomials
  import opened Gf256Tables
  import opened Shamir

  class ShamirShare {
    const index: nat
    const ys: array<bv8>

    constructor (index: nat, secretLength: nat)
      ensures this.index == index && fresh(ys) && ys.Length == secretLength
    {
      this.index := index;
      ys := new bv8[secretLength](_ => 0);
    }

    constructor Holding(index: nat, ys: seq<bv8>)
      ensures fresh(this.ys) && Value() == ShareValue(index, ys)
    {
      this.index := index;
      this.ys := new bv8[|ys|](i requires 0 <= i < |ys| => ys[i]);
    }

    ghost function Value(): ShareValue
      reads ys
    {
      ShareValue(index, ys[..])
    }
  }

  function Buffers(shares: seq<ShamirShare>): set<array<bv8>> {
    set share | share in shares :: share.ys
  }

  ghost function Values(shares: seq<ShamirShare>): (vs: seq<ShareValue>)
    reads Buffers(shares)
    ensures |vs| == |shares| && forall i :: 0 <= i < |shares| ==> vs[i] == shares[i].Value()
  {
    if shares == [] then [] else [shares[0].Value()] + Values(shares[1..])
  }

  // ----- splitting -----

  /** The value of one byte's polynomial at a share's index, by running powers. */
  method EvaluateAt(tables: Tables, secretByte: bv8, coeffs: seq<bv8>, x: bv8) returns (y: bv8)
    requires tables.Valid()
    ensures y == Eval(tables.F, BytePolynomial(secretByte, coeffs), x)
  {
    Start(tables, secretByte, x);
    hide Tables.GfAdd, Tables.GfMul, Tables.Valid, Eval, Power, IsByteField;
    ghost var F := tables.F;
    y := secretByte;
    var xPow: bv8 := 1;
    assert BytePolynomial(secretByte, coeffs[..0]) == [secretByte];
    for c := 0 to |coeffs|
      invariant xPow == Power(F, x, c)
      invariant y == Eval(F, BytePolynomial(secretByte, coeffs[..c]), x)
    {
      NextPower(F, x, c);
      xPow := tables.GfMul(xPow, x);
      y := tables.GfAdd(y, tables.GfMul(coeffs[c], xPow));
      assert BytePolynomial(secretByte, coeffs[..c + 1]) == BytePolynomial(secretByte, coeffs[..c]) + [coeffs[c]];
      NextTerm(tables, BytePolynomial(secretByte, coeffs[..c]), coeffs[c], x);
    }
    assert coeffs[..|coeffs|] == coeffs;
  }

  lemma Start(tables: Tables, secretByte: bv8, x: bv8)
    requires tables.Valid()
    ensures Power(tables.F, x, 0) == 1 && Eval(tables.F, [secretByte], x) == secretByte
  {
    tables.F.MulZero(x);
    tables.F.AddZero(secretByte);
    assert [secretByte][1..] == [];
  }

  lemma NextPower(F: Field<bv8>, x: bv8, n: nat)
    ensures Power(F, x, n + 1) == F.mul(Power(F, x, n), x)
  {}

  lemma NextTerm(tables: Tables, p: seq<bv8>, c: bv8, x: bv8)
    requires tables.Valid() && p != []
    ensures Eval(tables.F, p + [c], x) == tables.F.add(Eval(tables.F, p, x), tables.F.mul(c, Power(tables.F, x, |p|)))
  {
    EvalAppend(tables.F, p, c, x);
  }

  /** Shares 1..n in order, each with its own buffer of the secret's length. */
  ghost predicate Numbered(shares: seq<ShamirShare>, n: nat, length: nat) {
    && |shares| == n <= 255
    && (forall i :: 0 <= i < n ==> shares[i].index == i + 1 && shares[i].ys.Length == length)
    && (forall i, j :: 0 <= i < j < n ==> shares[i].ys != shares[j].ys)
  }

  /** Byte b of a share is what the scheme prescribes. */
  ghost predicate Filled(F: Field<bv8>, share: ShamirShare, secret: seq<bv8>, random: seq<seq<bv8>>, b: nat)
    requires b < |secret| == |random| == share.ys.Length && share.index < 256
    reads share.ys
  {
    share.ys[b] == YAt(F, secret, random, share.index, b)
  }

  lemma FilledShare(F: Field<bv8>, share: ShamirShare, secret: seq<bv8>, random: seq<seq<bv8>>)
    requires |secret| == |random| == share.ys.Length && share.index < 256
    requires forall b :: 0 <= b < |secret| ==> Filled(F, share, secret, random, b)
    ensures share.Value() == ShareAt(F, secret, random, share.index)
  {
    hide YAt;
    var ys := ShareAt(F, secret, random, share.index).ys;
    forall b | 0 <= b < |secret| ensures share.ys[b] == ys[b] {
      assert Filled(F, share, secret, random, b);
    }
    assert share.ys[..] == ys;
  }

  method SplitSecret(tables: Tables, secret: seq<bv8>, threshold: int, n: int, random: seq<seq<bv8>>)
    returns (r: Result<seq<ShamirShare>, SplitError>)
    requires tables.Valid() && IsRandomFor(random, secret, threshold)
    ensures r.Failure? ==> SplitProblem(secret, threshold, n) == Some(r.error)
    ensures r.Success? <==> 2 <= threshold <= n <= 255 && secret != []
    ensures r.Success? ==> |r.value| == n && forall i :: 0 <= i < n ==> r.value[i].Value() == ShareAt(tables.F, secret, random, i + 1)
  {
    if threshold < 2 {
      return Failure(ThresholdBelowTwo);
    }
    if n < threshold {
      return Failure(FewerSharesThanThreshold);
    }
    if n > 255 {
      return Failure(MoreThan255Shares);
    }
    if |secret| == 0 {
      return Failure(EmptySecret);
    }

    var shares: seq<ShamirShare> := [];
    for shareIdx := 1 to n + 1
      invariant Numbered(shares, shareIdx - 1, |secret|)
      invariant forall i :: 0 <= i < |shares| ==> fresh(shares[i].ys)
    {
      var share := new ShamirShare(shareIdx, |secret|);
      shares := shares + [share];
    }

    for byteIdx := 0 to |secret|
      invariant forall i, b :: 0 <= i < n && 0 <= b < byteIdx ==> Filled(tables.F, shares[i], secret, random, b)
    {
      FillByte(tables, shares, secret, random, byteIdx);
    }
    forall i | 0 <= i < n ensures shares[i].Value() == ShareAt(tables.F, secret, random, i + 1) {
      FilledShare(tables.F, shares[i], secret, random);
    }
    return Success(shares);
  }

  /** One pass of the byte loop: writes byte b of every share, and nothing else. */
  method FillByte(tables: Tables, shares: seq<ShamirShare>, secret: seq<bv8>, random: seq<seq<bv8>>, b: nat)
    requires tables.Valid()
    requires Numbered(shares, |shares|, |secret|) && b < |secret| == |random|
    modifies set i | 0 <= i < |shares| :: shares[i].ys
    ensures forall i :: 0 <= i < |shares| ==> Filled(tables.F, shares[i], secret, random, b)
    ensures forall i, c :: 0 <= i < |shares| && 0 <= c < |secret| && c != b ==> shares[i].ys[c] == old(shares[i].ys[c])
    ensures forall i, c ::
      0 <= i < |shares| && 0 <= c < |secret| && c != b && old(Filled(tables.F, shares[i], secret, random, c))
      ==> Filled(tables.F, shares[i], secret, random, c)
  {
    for i := 0 to |shares|
      invariant forall j :: 0 <= j < i ==> Filled(tables.F, shares[j], secret, random, b)
      invariant forall j, c :: 0 <= j < |shares| && 0 <= c < |secret| && c != b ==> shares[j].ys[c] == old(shares[j].ys[c])
    {
      var y := EvaluateAt(tables, secret[b], random[b], ToByte(shares[i].index));
      shares[i].ys[b] := y;
    }
  }

  // ----- combining -----

  method CheckShares(shares: seq<ShamirShare>) returns (v: Option<CombineError>)
    ensures v == CombineProblem(Values(shares))
  {
    if |shares| < 2 {
      return Some(FewerThanTwoShares);
    }
    ghost var vs := Values(shares);
    var secretLength := shares[0].ys.Length;
    for i := 0 to |shares|
      invariant FirstOffence(vs, secretLength) == FirstOffence(vs[i..], secretLength)
    {
      if shares[i].ys.Length != secretLength {
        return Some(SecretLengthsDiffer);
      }
      if shares[i].index == 0 || shares[i].index > 255 {
        return Some(IndexOutOfRange);
      }
    }
    var indexes := seq(|shares|, i requires 0 <= i < |shares| => shares[i].index);
    assert indexes == Indexes(vs);
    ElementsSize(indexes);
    if |Elements(indexes)| != |indexes| {
      return Some(DuplicateIndex);
    }
    return None;
  }

  /** The nodes before position j, leaving out node i. */
  function Skipping(xs: seq<bv8>, i: nat, j: nat): seq<bv8>
    requires i < |xs| && j <= |xs|
  {
    if j <= i then xs[..j] else xs[..i] + xs[i + 1..j]
  }

  lemma NothingSkipped(tables: Tables, xs: seq<bv8>, i: nat, x: bv8)
    requires tables.Valid() && i < |xs|
    ensures Factors(tables.F, Skipping(xs, i, 0), x) == 1
    ensures Skipping(xs, i, i + 1) == Skipping(xs, i, i) && Skipping(xs, i, |xs|) == Others(xs, i)
  {}

  lemma DenominatorIsNonZero(tables: Tables, xs: seq<bv8>, i: nat)
    requires tables.Valid() && Distinct(xs) && i < |xs|
    ensures Factors(tables.F, Others(xs, i), xs[i]) != 0
  {
    InOthers(xs, i, i);
    FactorsAreNonZero(tables.F, Others(xs, i), xs[i]);
  }

  lemma DifferenceFromZero(tables: Tables, x: bv8)
    requires tables.Valid()
    ensures tables.F.add(x, 0) == x
  {
    tables.F.AddZero(x);
  }

  lemma SkippingNext(F: Field<bv8>, xs: seq<bv8>, i: nat, j: nat, x: bv8)
    requires i < |xs| && j < |xs| && i != j
    ensures Factors(F, Skipping(xs, i, j + 1), x) == F.mul(Factors(F, Skipping(xs, i, j), x), F.add(xs[j], x))
  {
    assert Skipping(xs, i, j + 1) == Skipping(xs, i, j) + [xs[j]];
    var zs := Skipping(xs, i, j + 1);
    assert zs[..|zs| - 1] == Skipping(xs, i, j);
  }

  /** The Lagrange weight of node i at zero; its denominator is never zero, so the division cannot fail. */
  method WeightAtZero(tables: Tables, xs: seq<bv8>, i: nat) returns (li0: bv8)
    requires tables.Valid() && Distinct(xs) && i < |xs|
    ensures li0 == Weight(tables.F, xs, i, 0)
  {
    hide Tables.GfAdd, Tables.GfMul, Tables.GfDiv, Tables.Valid, Factors, Skipping, Others, Distinct;
    ghost var F := tables.F;
    var xi := xs[i];
    var num: bv8, den: bv8 := 1, 1;
    NothingSkipped(tables, xs, i, 0);
    NothingSkipped(tables, xs, i, xi);
    for j := 0 to |xs|
      invariant num == Factors(F, Skipping(xs, i, j), 0)
      invariant den == Factors(F, Skipping(xs, i, j), xi)
    {
      if j != i {
        var xj := xs[j];
        SkippingNext(F, xs, i, j, 0);
        SkippingNext(F, xs, i, j, xi);
        DifferenceFromZero(tables, xj);
        num := tables.GfMul(num, xj);
        den := tables.GfMul(den, tables.GfAdd(xj, xi));
      }
    }
    DenominatorIsNonZero(tables, xs, i);
    li0 := tables.GfDiv(num, den).value;
  }

  method CombineColumn(tables: Tables, xs: seq<bv8>, ys: seq<bv8>) returns (acc: bv8)
    requires tables.Valid() && Distinct(xs) && |xs| == |ys|
    ensures acc == Lagrange(tables.F, xs, ys, |xs|, 0)
  {
    hide Tables.GfAdd, Tables.GfMul;
    acc := 0;
    for i := 0 to |xs|
      invariant acc == Lagrange(tables.F, xs, ys, i, 0)
    {
      var li0 := WeightAtZero(tables, xs, i);
      acc := tables.GfAdd(acc, tables.GfMul(ys[i], li0));
    }
  }

  method CombineByte(tables: Tables, shares: seq<ShamirShare>, ghost vs: seq<ShareValue>, b: nat) returns (acc: bv8)
    requires tables.Valid() && vs == Values(shares) && CombineProblem(vs) == None && b < |vs[0].ys|
    ensures acc == CombinedByte(tables.F, vs, b)
  {
    hide Lagrange, ToByte, Tables.Valid;
    CombinableShares(vs);
    assert forall i :: 0 <= i < |shares| ==> vs[i] == shares[i].Value();
    var xs := seq(|shares|, i requires 0 <= i < |shares| => ToByte(shares[i].index));
    var ys := GatherColumn(shares, b);
    assert xs == Nodes(vs) && ys == Column(vs, b);
    acc := CombineColumn(tables, xs, ys);
  }

  method GatherColumn(shares: seq<ShamirShare>, b: nat) returns (ys: seq<bv8>)
    requires forall i :: 0 <= i < |shares| ==> b < shares[i].ys.Length
    ensures |ys| == |shares| && forall i :: 0 <= i < |shares| ==> ys[i] == shares[i].ys[b]
  {
    ys := [];
    for i := 0 to |shares|
      invariant |ys| == i && forall j :: 0 <= j < i ==> ys[j] == shares[j].ys[b]
    {
      ys := ys + [shares[i].ys[b]];
    }
  }

  method CombineShares(tables: Tables, shares: seq<ShamirShare>) returns (r: Result<array<bv8>, CombineError>)
    requires tables.Valid()
    ensures r.Failure? ==> CombineProblem(Values(shares)) == Some(r.error)
    ensures r.Success? ==> CombineProblem(Values(shares)) == None
    ensures r.Success? ==> fresh(r.value) && r.value[..] == CombinedSecret(tables.F, Values(shares))
  {
    hide CombineProblem, CombinedByte, Tables.Valid, Values;
    var v := CheckShares(shares);
    if v.Some? {
      return Failure(v.value);
    }
    ghost var vs := Values(shares);
    CombinableShares(vs);
    var secret := CombineAllBytes(tables, shares, vs);
    assert Values(shares) == vs;
    return Success(secret);
  }

  /** The outer loop: a fresh buffer, filled byte by byte. */
  method CombineAllBytes(tables: Tables, shares: seq<ShamirShare>, ghost vs: seq<ShareValue>) returns (secret: array<bv8>)
    requires tables.Valid() && vs == Values(shares) && |vs| > 0 && CombineProblem(vs) == None
    ensures fresh(secret) && secret[..] == CombinedSecret(tables.F, vs)
  {
    hide CombineProblem, CombinedByte, Tables.Valid, Values;
    var secretLength := shares[0].ys.Length;
    assert secretLength == |vs[0].ys|;
    secret := new bv8[secretLength](_ => 0);
    for byteIdx := 0 to secretLength
      invariant forall b :: 0 <= b < byteIdx ==> secret[b] == CombinedByte(tables.F, vs, b)
      invariant Values(shares) == vs
    {
      var acc := CombineByte(tables, shares, vs, byteIdx);
      secret[byteIdx] := acc;
    }
    assert secret[..] == CombinedSecret(tables.F, vs);
  }
}
