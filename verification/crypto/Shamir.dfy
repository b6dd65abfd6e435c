/** Threshold secret sharing, on values. */
module Shamir {
  // One random polynomial per secret byte, recombined by Lagrange interpolation at zero, for any field of bytes. The
  // methods of ShamirBuffers work on the byte buffers in place and are proved equal to what is stated here.

  import opened Results
  import opened Sequences
  import opened Fields
  import opened Polynomials
  import opened Gf256Tables

  datatype SplitError = ThresholdBelowTwo | FewerSharesThanThreshold | MoreThan255Shares | EmptySecret

  datatype CombineError = FewerThanTwoShares | SecretLengthsDiffer | IndexOutOfRange | DuplicateIndex

  /** What a share holds: its x-coordinate and one y-value per secret byte. */
  datatype ShareValue = ShareValue(index: nat, ys: seq<bv8>)

  /** The byte with a given number, counted up from zero. */
  function ToByte(index: nat): (b: bv8)
    requires index < 256
    ensures b as int == index
  {
    if index == 0 then 0 else ToByte(index - 1) + 1
  }

  /** The polynomial behind one secret byte: the byte itself, then the random coefficients. */
  function BytePolynomial(secretByte: bv8, coeffs: seq<bv8>): seq<bv8> {
    [secretByte] + coeffs
  }

  // ----- splitting, on values -----

  function YAt(F: Field<bv8>, secret: seq<bv8>, random: seq<seq<bv8>>, index: nat, b: nat): bv8
    requires b < |secret| == |random| && index < 256
  {
    Eval(F, BytePolynomial(secret[b], random[b]), ToByte(index))
  }

  function ShareAt(F: Field<bv8>, secret: seq<bv8>, random: seq<seq<bv8>>, index: nat): ShareValue
    requires |secret| == |random| && index < 256
  {
    ShareValue(index, seq(|secret|, b requires 0 <= b < |secret| => YAt(F, secret, random, index, b)))
  }

  function SplitProblem(secret: seq<bv8>, threshold: int, n: int): Option<SplitError> {
    if threshold < 2 then Some(ThresholdBelowTwo)
    else if n < threshold then Some(FewerSharesThanThreshold)
    else if n > 255 then Some(MoreThan255Shares)
    else if secret == [] then Some(EmptySecret)
    else None
  }

  /** random[b] is what the random source returned for byte b: threshold - 1 coefficients. */
  ghost predicate IsRandomFor(random: seq<seq<bv8>>, secret: seq<bv8>, threshold: int) {
    |random| == |secret| && forall b :: 0 <= b < |random| ==> |random[b]| == if threshold < 1 then 0 else threshold - 1
  }

  // ----- combining, on values -----

  /** What is wrong with one share on its own; a wrong length is noticed before a bad index. */
  function Offence(share: ShareValue, length: nat): Option<CombineError> {
    if |share.ys| != length then Some(SecretLengthsDiffer)
    else if share.index == 0 || share.index > 255 then Some(IndexOutOfRange)
    else None
  }

  /** The offence of the first share that has one. */
  function FirstOffence(shares: seq<ShareValue>, length: nat): (offence: Option<CombineError>)
    ensures offence == None <==> forall i :: 0 <= i < |shares| ==> Offence(shares[i], length) == None
  {
    if shares == [] then None
    else if Offence(shares[0], length) != None then Offence(shares[0], length)
    else
      var rest := FirstOffence(shares[1..], length);
      assert rest == None ==> forall i :: 1 <= i < |shares| ==> Offence(shares[i], length) == Offence(shares[1..][i - 1], length) == None;
      rest
  }

  function Indexes(shares: seq<ShareValue>): (xs: seq<nat>)
    ensures |xs| == |shares|
  {
    seq(|shares|, i requires 0 <= i < |shares| => shares[i].index)
  }

  /** The verdict of the structural checks, which run before any interpolation. */
  ghost function CombineProblem(shares: seq<ShareValue>): Option<CombineError> {
    if |shares| < 2 then Some(FewerThanTwoShares)
    else
      var offence := FirstOffence(shares, |shares[0].ys|);
      if offence != None then offence
      else if !Distinct(Indexes(shares)) then Some(DuplicateIndex)
      else None
  }

  function Nodes(shares: seq<ShareValue>): (xs: seq<bv8>)
    requires forall i :: 0 <= i < |shares| ==> shares[i].index < 256
    ensures |xs| == |shares|
  {
    seq(|shares|, i requires 0 <= i < |shares| => ToByte(shares[i].index))
  }

  /** Byte b of every share. */
  function Column(shares: seq<ShareValue>, b: nat): (ys: seq<bv8>)
    requires forall i :: 0 <= i < |shares| ==> b < |shares[i].ys|
    ensures |ys| == |shares|
  {
    seq(|shares|, i requires 0 <= i < |shares| => shares[i].ys[b])
  }

  lemma CombinableShares(shares: seq<ShareValue>)
    requires CombineProblem(shares) == None
    ensures |shares| >= 2
    ensures forall i :: 0 <= i < |shares| ==> |shares[i].ys| == |shares[0].ys| && 1 <= shares[i].index <= 255
    ensures Distinct(Nodes(shares)) && 0 !in Nodes(shares)
  {
    assert forall i :: 0 <= i < |shares| ==> Offence(shares[i], |shares[0].ys|) == None;
    hide ToByte;
    var xs := Nodes(shares);
    forall i, j | 0 <= i < j < |xs| ensures xs[i] != xs[j] {
      assert Indexes(shares)[i] != Indexes(shares)[j];
      assert xs[i] as int == shares[i].index && xs[j] as int == shares[j].index;
    }
    forall i | 0 <= i < |xs| ensures xs[i] != 0 {
      assert xs[i] as int == shares[i].index;
    }
  }

  /** Lagrange's formula at zero for byte b. */
  ghost function CombinedByte(F: Field<bv8>, shares: seq<ShareValue>, b: nat): bv8
    requires CombineProblem(shares) == None && b < |shares[0].ys|
  {
    CombinableShares(shares);
    Lagrange(F, Nodes(shares), Column(shares, b), |shares|, 0)
  }

  ghost function CombinedSecret(F: Field<bv8>, shares: seq<ShareValue>): (secret: seq<bv8>)
    requires CombineProblem(shares) == None
    ensures |secret| == |shares[0].ys|
  {
    seq(|shares[0].ys|, b requires 0 <= b < |shares[0].ys| => CombinedByte(F, shares, b))
  }

  // ----- the two laws of the scheme -----

  /** Any shares of one byte, at least as many as the polynomial has coefficients, recover the byte. */
  lemma SharesRecoverByte(F: Field<bv8>, secretByte: bv8, coeffs: seq<bv8>, xs: seq<bv8>, ys: seq<bv8>)
    requires F.Valid() && Distinct(xs) && |coeffs| < |xs| == |ys|
    requires forall i :: 0 <= i < |xs| ==> ys[i] == Eval(F, BytePolynomial(secretByte, coeffs), xs[i])
    ensures Lagrange(F, xs, ys, |xs|, F.zero) == secretByte
  {
    LagrangeRecovers(F, BytePolynomial(secretByte, coeffs), xs, ys, F.zero);
    EvalAtZero(F, BytePolynomial(secretByte, coeffs));
  }

  /**
   The round trip: any shares of a split, at least the threshold many, with different indexes and in any order,
   pass the structural checks and combine to exactly the secret.
   */
  lemma SharesRecoverSecret(
      F: Field<bv8>, secret: seq<bv8>, threshold: int, n: int, random: seq<seq<bv8>>, indexes: seq<nat>, shares: seq<ShareValue>)
    requires IsByteField(F) && 2 <= threshold <= n <= 255 && secret != []
    requires |random| == |secret| && forall b :: 0 <= b < |random| ==> |random[b]| == threshold - 1
    requires threshold <= |indexes| && Distinct(indexes) && forall k :: 0 <= k < |indexes| ==> 1 <= indexes[k] <= n
    requires |shares| == |indexes|
    requires forall k :: 0 <= k < |shares| ==> shares[k] == ShareAt(F, secret, random, indexes[k])
    ensures CombineProblem(shares) == None && CombinedSecret(F, shares) == secret
  {
    assert Indexes(shares) == indexes;
    CombinableShares(shares);
    forall b | 0 <= b < |secret| ensures CombinedByte(F, shares, b) == secret[b] {
      hide ToByte;
      SharesRecoverByte(F, secret[b], random[b], Nodes(shares), Column(shares, b));
    }
  }

  ghost predicate Explains(F: Field<bv8>, secretByte: bv8, coeffs: seq<bv8>, xs: seq<bv8>, ys: seq<bv8>)
    requires |xs| == |ys|
  {
    forall i :: 0 <= i < |xs| ==> Eval(F, BytePolynomial(secretByte, coeffs), xs[i]) == ys[i]
  }

  /**
   Perfect secrecy: whatever one share fewer than the threshold show, every secret byte explains them with
   exactly one choice of the random coefficients.
   */
  lemma PerfectSecrecy(F: Field<bv8>, secretByte: bv8, xs: seq<bv8>, ys: seq<bv8>)
    requires F.Valid() && Distinct(xs) && F.zero !in xs && |xs| == |ys|
    ensures exists coeffs :: |coeffs| == |xs| && Explains(F, secretByte, coeffs, xs, ys)
    ensures forall c, d :: |c| == |d| == |xs| && Explains(F, secretByte, c, xs, ys) && Explains(F, secretByte, d, xs, ys) ==> c == d
  {
    var coeffs := ExplainingCoefficients(F, secretByte, xs, ys);
    forall c, d | |c| == |d| == |xs| && Explains(F, secretByte, c, xs, ys) && Explains(F, secretByte, d, xs, ys)
      ensures c == d
    {
      ExplanationIsUnique(F, secretByte, c, d, xs, ys);
    }
  }

  lemma ExplainingCoefficients(F: Field<bv8>, secretByte: bv8, xs: seq<bv8>, ys: seq<bv8>) returns (coeffs: seq<bv8>)
    requires F.Valid() && Distinct(xs) && F.zero !in xs && |xs| == |ys|
    ensures |coeffs| == |xs| && Explains(F, secretByte, coeffs, xs, ys)
  {
    hide Interpolant, Eval, Field.Valid;
    var xs', ys' := [F.zero] + xs, [secretByte] + ys;
    var p := Interpolant(F, xs', ys', |xs'|);
    InterpolantPasses(F, xs', ys', 0);
    EvalAtZero(F, p);
    coeffs := p[1..];
    assert BytePolynomial(secretByte, coeffs) == p;
    forall i | 0 <= i < |xs| ensures Eval(F, p, xs[i]) == ys[i] {
      InterpolantPasses(F, xs', ys', i + 1);
    }
  }

  lemma ExplanationIsUnique(F: Field<bv8>, secretByte: bv8, c: seq<bv8>, d: seq<bv8>, xs: seq<bv8>, ys: seq<bv8>)
    requires F.Valid() && Distinct(xs) && F.zero !in xs && |c| == |d| == |xs| == |ys|
    requires Explains(F, secretByte, c, xs, ys) && Explains(F, secretByte, d, xs, ys)
    ensures c == d
  {
    var p, q, xs' := BytePolynomial(secretByte, c), BytePolynomial(secretByte, d), [F.zero] + xs;
    forall i | 0 <= i < |xs'| ensures Eval(F, p, xs'[i]) == Eval(F, q, xs'[i]) {
      if i == 0 {
        EvalAtZero(F, p);
        EvalAtZero(F, q);
      } else {
        assert xs'[i] == xs[i - 1];
      }
    }
    SameCoefficients(F, p, q, xs');
    assert c == p[1..] && d == q[1..];
  }

  /**
   Hence one share fewer than the threshold fit every other secret of the same length as well: there are coefficients,
   just as many, with which splitting it gives the very same shares.
   */
  lemma FewerSharesFitEverySecret(
      F: Field<bv8>, secret: seq<bv8>, threshold: int, random: seq<seq<bv8>>, indexes: seq<nat>, other: seq<bv8>)
      returns (random': seq<seq<bv8>>)
    requires IsByteField(F) && threshold >= 2 && |other| == |secret| == |random|
    requires forall b :: 0 <= b < |random| ==> |random[b]| == threshold - 1
    requires |indexes| == threshold - 1 && Distinct(indexes) && forall k :: 0 <= k < |indexes| ==> 1 <= indexes[k] <= 255
    ensures |random'| == |other| && forall b :: 0 <= b < |random'| ==> |random'[b]| == threshold - 1
    ensures forall k :: 0 <= k < |indexes| ==> ShareAt(F, other, random', indexes[k]) == ShareAt(F, secret, random, indexes[k])
  {
    var xs := seq(|indexes|, k requires 0 <= k < |indexes| => ToByte(indexes[k]));
    NodesOf(indexes, xs);
    hide ToByte;
    random' := [];
    for b := 0 to |secret|
      invariant |random'| == b && forall c :: 0 <= c < b ==> |random'[c]| == threshold - 1
      invariant forall c, k :: 0 <= c < b && 0 <= k < |indexes| ==>
        Eval(F, BytePolynomial(other[c], random'[c]), xs[k]) == YAt(F, secret, random, indexes[k], c)
    {
      var ys := seq(|xs|, k requires 0 <= k < |xs| => YAt(F, secret, random, indexes[k], b));
      var coeffs := ExplainingCoefficients(F, other[b], xs, ys);
      assert forall k :: 0 <= k < |xs| ==> Eval(F, BytePolynomial(other[b], coeffs), xs[k]) == ys[k];
      random' := random' + [coeffs];
    }
  }

  lemma NodesOf(indexes: seq<nat>, xs: seq<bv8>)
    requires |xs| == |indexes| && Distinct(indexes)
    requires forall k :: 0 <= k < |indexes| ==> 1 <= indexes[k] <= 255 && xs[k] == ToByte(indexes[k])
    ensures Distinct(xs) && 0 !in xs
  {
    forall i, j | 0 <= i < j < |xs| ensures xs[i] != xs[j] {
      assert xs[i] as int == indexes[i] && xs[j] as int == indexes[j];
    }
    forall i | 0 <= i < |xs| ensures xs[i] != 0 {
      assert xs[i] as int == indexes[i];
    }
  }
}
