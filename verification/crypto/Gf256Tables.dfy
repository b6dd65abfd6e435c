/** The log and exp tables of GF(2^8). */
module Gf256Tables {
  // Everything outside the constructor is proved for tables that describe some field of bytes whose addition is XOR; the
  // constructor proves that the tables it fills describe the field of Gf256.

  import opened Results
  import opened Fields
  import opened Polynomials
  import Gf256

  datatype ArithmeticError = DivisionByZero

  function Xtime(x: bv8): bv8 {
    var shifted := (x as bv16) << 1;
    if x & 0x80 != 0 then ((shifted ^ 0x11b) & 0xff) as bv8 else (shifted & 0xff) as bv8
  }

  /** Clearing bit 8 with the nine-bit polynomial is the same as replacing x^8 by its low byte. */
  lemma XtimeIsTimesX(x: bv8)
    ensures Xtime(x) == Gf256.TimesX(x)
  {}

  // ----- powers in any field -----

  lemma {:induction false} PowerAdds<T(!new)>(F: Field<T>, g: T, i: nat, j: nat)
    requires F.Valid()
    ensures F.mul(Power(F, g, i), Power(F, g, j)) == Power(F, g, i + j)
  {
    if j == 0 {
      F.MulOne(Power(F, g, i));
    } else {
      PowerAdds(F, g, i, j - 1);
      F.MulAssoc(Power(F, g, i), Power(F, g, j - 1), g);
    }
  }

  /** Exponents wrap round at the number of non-zero elements. */
  lemma PowerWraps<T(!new)>(F: Field<T>, g: T, order: nat, i: nat)
    requires F.Valid() && Power(F, g, order) == F.one && order <= i
    ensures Power(F, g, i) == Power(F, g, i - order)
  {
    PowerAdds(F, g, order, i - order);
    F.MulOne(Power(F, g, i - order));
  }

  /** The quotient by a non-zero b is the one number whose product with b is a. */
  lemma QuotientIsDiv<T(!new)>(F: Field<T>, q: T, a: T, b: T)
    requires F.Valid() && b != F.zero
    ensures F.mul(q, b) == a <==> q == F.Div(a, b)
  {
    F.MulInverse(b);
    F.MulAssoc(q, b, F.inv(b));
    F.MulOne(q);
    F.MulAssoc(a, F.inv(b), b);
    F.MulOne(a);
  }

  const ORDER: nat := 255

  ghost predicate IsByteField(F: Field<bv8>) {
    && F.Valid() && F.zero == 0 && F.one == 1
    && forall a, b :: F.add(a, b) == a ^ b
  }

  lemma Gf256IsByteField()
    ensures IsByteField(Gf256.FIELD)
  {
    Gf256.BytesFormAField();
    hide Gf256.Product, Gf256.Inverse;
  }

  lemma {:induction false} PowerIsExp(i: nat)
    ensures Power(Gf256.FIELD, Gf256.GENERATOR, i) == Gf256.Exp(i)
  {
    if i > 0 {
      PowerIsExp(i - 1);
      TimesThreeIsTimesGenerator(Gf256.Exp(i - 1));
      hide Gf256.Product, Gf256.TimesGenerator;
    }
  }

  lemma TimesThreeIsTimesGenerator(a: bv8)
    ensures Gf256.Product(a, 3) == Gf256.TimesGenerator(a)
  {
    Gf256.MixedProducts();
    Gf256.ProductCommutes(a, 3);
    Gf256.ProductTimesGenerator(1, a);
    Gf256.ProductOneLeft(a);
    hide Gf256.Product, Gf256.TimesGenerator;
  }

  /** 3x = 2x + x */
  function TimesThree(x: bv8): bv8 {
    Xtime(x) ^ x
  }

  lemma ExpStep(i: nat)
    ensures Gf256.Exp(i + 1) == TimesThree(Gf256.Exp(i))
  {
    XtimeIsTimesX(Gf256.Exp(i));
  }

  lemma NumberOfPower(i: nat)
    ensures Gf256.Exp(i) as int == Gf256.ExpNumber(i) && Gf256.Exp(0) == 1
  {
    hide Gf256.TimesGenerator;
  }

  ghost predicate Filled(exp: seq<bv8>, log: seq<int>, n: nat)
    requires |exp| == |log| == 256 && n <= 255
  {
    forall j :: 0 <= j < n ==> exp[j] == Gf256.Exp(j) && log[Gf256.ExpNumber(j)] == j
  }

  lemma NumbersDiffer(i: nat)
    requires i < 255
    ensures forall j :: 0 <= j < i ==> Gf256.ExpNumber(j) != Gf256.ExpNumber(i)
  {
    forall j | 0 <= j < i ensures Gf256.ExpNumber(j) != Gf256.ExpNumber(i) {
      Gf256.ExpNumberInjective(j, i);
    }
  }

  method BuildTables(exp: array<bv8>, log: array<int>)
    requires exp.Length == log.Length == 256 && exp as object != log as object
    modifies exp, log
    ensures Filled(exp[..], log[..], 255)
    ensures exp[255] == old(exp[255])
  {
    NumberOfPower(0);
    hide Gf256.TimesGenerator, TimesThree, Gf256.Exp, Gf256.ExpNumber;
    var x: bv8 := 1;
    for i := 0 to 255
      invariant x == Gf256.Exp(i) && exp[255] == old(exp[255])
      invariant forall j :: 0 <= j < i ==> exp[j] == Gf256.Exp(j)
      invariant forall j :: 0 <= j < i ==> log[Gf256.ExpNumber(j)] == j
    {
      NumberOfPower(i);
      NumbersDiffer(i);
      exp[i] := x;
      log[x as int] := i;
      ExpStep(i);
      x := TimesThree(x);
    }
  }

  /** The filled tables; once built they are only read. */
  class Tables {
    const exp: seq<bv8>
    const log: seq<int>
    ghost const F: Field<bv8>
    ghost const generator: bv8

    ghost predicate InverseAt(a: bv8)
      requires |exp| == |log| == 256
    {
      0 <= log[a as int] < ORDER && exp[log[a as int]] == a
    }

    /** exp lists the powers of the generator and log is its exact inverse; nothing is asked of exp[255]. */
    ghost predicate Valid() {
      && IsByteField(F)
      && |exp| == |log| == 256
      && Power(F, generator, ORDER) == 1
      && (forall i :: 0 <= i < ORDER ==> exp[i] == Power(F, generator, i) && exp[i] != 0 && log[exp[i] as int] == i)
      && (forall a: bv8 :: a != 0 ==> InverseAt(a))
    }

    constructor ()
      ensures Valid() && F == Gf256.FIELD && generator == Gf256.GENERATOR
      ensures exp[255] == 0
    {
      var expTable := new bv8[256](_ => 0);
      var logTable := new int[256](_ => 0);
      BuildTables(expTable, logTable);
      exp := expTable[..];
      log := logTable[..];
      F := Gf256.FIELD;
      generator := Gf256.GENERATOR;
      new;
      FilledTablesAreValid();
    }

    lemma FilledTablesAreValid()
      requires F == Gf256.FIELD && generator == Gf256.GENERATOR
      requires |exp| == |log| == 256 && Filled(exp, log, ORDER)
      ensures Valid()
    {
      hide Gf256.FIELD, Gf256.TimesGenerator;
      Gf256IsByteField();
      hide IsByteField;
      forall a: bv8 | a != 0 ensures InverseAt(a) {
        Gf256.EveryByteIsAPower(a);
        var i :| 0 <= i < 255 && Gf256.Exp(i) == a;
        NumberOfPower(i);
      }
      forall i | 0 <= i < ORDER ensures exp[i] == Power(F, generator, i) && exp[i] != 0 && log[exp[i] as int] == i {
        PowerIsExp(i);
        Gf256.ExpIsNonZero(i);
        NumberOfPower(i);
      }
      PowerIsExp(ORDER);
      Gf256.ExpHasPeriod255(0);
    }

    function GfAdd(a: bv8, b: bv8): (r: bv8)
      requires Valid()
      ensures r == F.add(a, b)
    {
      (a ^ b) & 0xff
    }

    function GfMul(a: bv8, b: bv8): (r: bv8)
      requires Valid()
      ensures r == F.mul(a, b)
    {
      MulByTables(a, b);
      if a == 0 || b == 0 then 0
      else
        assert InverseAt(a) && InverseAt(b);
        exp[(log[a as int] + log[b as int]) % 255]
    }

    lemma MulByTables(a: bv8, b: bv8)
      requires Valid()
      ensures a == 0 || b == 0 ==> F.mul(a, b) == 0
      ensures a != 0 && b != 0 ==>
        InverseAt(a) && InverseAt(b) && exp[(log[a as int] + log[b as int]) % ORDER] == F.mul(a, b)
    {
      F.MulZero(a);
      F.MulZero(b);
      if a != 0 && b != 0 {
        assert InverseAt(a) && InverseAt(b);
        var i, j := log[a as int], log[b as int];
        PowerAdds(F, generator, i, j);
        if i + j >= ORDER {
          PowerWraps(F, generator, ORDER, i + j);
        }
      }
    }
    
    /** Division fails exactly on a zero divisor; otherwise it undoes multiplication. */
    function GfDiv(a: bv8, b: bv8): (r: Result<bv8, ArithmeticError>)
      requires Valid()
      ensures r.Failure? <==> b == 0
      ensures r.Success? ==> r.value == F.Div(a, b) && F.mul(r.value, b) == a
    {
      DivByTables(a, b);
      if b == 0 then Failure(DivisionByZero)
      else if a == 0 then Success(0)
      else
        assert InverseAt(a) && InverseAt(b);
        Success(exp[(log[a as int] - log[b as int] + 255) % 255])
    }

    lemma DivByTables(a: bv8, b: bv8)
      requires Valid()
      ensures b != 0 ==> F.mul(F.Div(a, b), b) == a && (a == 0 ==> F.Div(a, b) == 0)
      ensures a != 0 && b != 0 ==>
        InverseAt(a) && InverseAt(b) && exp[(log[a as int] - log[b as int] + ORDER) % ORDER] == F.Div(a, b)
    {
      if b != 0 {
        F.MulZero(F.inv(b));
        QuotientIsDiv(F, F.Div(a, b), a, b);
        if a != 0 {
          assert InverseAt(a) && InverseAt(b);
          var i, j := log[a as int], log[b as int];
          var d := if i < j then i - j + ORDER else i - j;
          assert (i - j + ORDER) % ORDER == d;
          PowerAdds(F, generator, d, j);
          if i < j {
            PowerWraps(F, generator, ORDER, d + j);
          }
          QuotientIsDiv(F, exp[d], a, b);
        }
      }
    }
  }
}
