/** The field GF(2^8), defined without tables. */
module Gf256 {
  // The reduction polynomial is x^8 + x^4 + x^3 + x + 1 (section 4.2 of FIPS 197). Addition is XOR and the product is
  // computed by shifting and adding.

  import opened Sequences
  import opened Fields

  const GENERATOR: bv8 := 3

  function Add(a: bv8, b: bv8): bv8 {
    a ^ b
  }

  /** a * x: shift left and, when x^8 appears, replace it by x^4 + x^3 + x + 1. */
  function TimesX(a: bv8): bv8 {
    if a & 0x80 == 0 then a << 1 else (a << 1) ^ 0x1b
  }

  /** a when the constant coefficient of b is set, else zero. */
  function Low(a: bv8, b: bv8): bv8 {
    if b & 1 == 0 then 0 else a
  }

  /** a times the n lowest coefficients of b. */
  function ShiftAndAdd(a: bv8, b: bv8, n: nat): bv8
    decreases n
  {
    if n == 0 then 0 else Add(Low(a, b), ShiftAndAdd(TimesX(a), b >> 1, n - 1))
  }

  function Product(a: bv8, b: bv8): bv8 {
    ShiftAndAdd(a, b, 8)
  }

  function TimesGenerator(a: bv8): bv8 {
    Add(TimesX(a), a)
  }

  function Exp(i: nat): bv8 {
    if i == 0 then 1 else TimesGenerator(Exp(i - 1))
  }

  // ----- XOR -----

  lemma XorLaws(a: bv8, b: bv8, c: bv8)
    ensures (a ^ b) ^ c == a ^ (b ^ c)
    ensures a ^ b == b ^ a
    ensures a ^ 0 == a
    ensures a ^ a == 0
  {}

  lemma AddLaws(a: bv8, b: bv8, c: bv8)
    ensures Add(Add(a, b), c) == Add(a, Add(b, c))
    ensures Add(a, b) == Add(b, a)
    ensures Add(a, 0) == a
    ensures Add(a, a) == 0
  {
    XorLaws(a, b, c);
  }

  lemma AddSwap(a: bv8, b: bv8, c: bv8, d: bv8)
    ensures Add(Add(a, b), Add(c, d)) == Add(Add(a, c), Add(b, d))
  {
    hide Add;
    AddLaws(a, b, Add(c, d));
    AddLaws(b, c, d);
    AddLaws(c, b, d);
    AddLaws(a, c, Add(b, d));
  }

  // ----- the product is linear in its first argument -----

  lemma ShiftXor(a: bv8, b: bv8)
    ensures (a ^ b) << 1 == (a << 1) ^ (b << 1)
    ensures ((a ^ b) & 0x80 == 0) == ((a & 0x80 == 0) == (b & 0x80 == 0))
  {}

  lemma ReduceXor(a: bv8, b: bv8, c: bv8)
    ensures (a ^ c) ^ (b ^ c) == a ^ b
    ensures (a ^ c) ^ b == (a ^ b) ^ c
    ensures a ^ (b ^ c) == (a ^ b) ^ c
  {}

  lemma TimesXAdds(a: bv8, b: bv8)
    ensures TimesX(Add(a, b)) == Add(TimesX(a), TimesX(b))
  {
    ShiftXor(a, b);
    ReduceXor(a << 1, b << 1, 0x1b);
  }

  lemma LowAdds(a: bv8, b: bv8, c: bv8)
    ensures Low(Add(a, b), c) == Add(Low(a, c), Low(b, c))
  {
    XorLaws(0, 0, 0);
  }

  lemma LowTimesX(a: bv8, c: bv8)
    ensures Low(TimesX(a), c) == TimesX(Low(a, c))
  {}

  lemma {:induction false} ShiftAndAddAdds(a: bv8, b: bv8, c: bv8, n: nat)
    ensures ShiftAndAdd(Add(a, b), c, n) == Add(ShiftAndAdd(a, c, n), ShiftAndAdd(b, c, n))
    decreases n
  {
    hide Add, TimesX, Low;
    if n == 0 {
      AddLaws(0, 0, 0);
    } else {
      TimesXAdds(a, b);
      LowAdds(a, b, c);
      ShiftAndAddAdds(TimesX(a), TimesX(b), c >> 1, n - 1);
      AddSwap(Low(a, c), Low(b, c), ShiftAndAdd(TimesX(a), c >> 1, n - 1), ShiftAndAdd(TimesX(b), c >> 1, n - 1));
    }
  }

  lemma {:induction false} ShiftAndAddTimesX(a: bv8, b: bv8, n: nat)
    ensures ShiftAndAdd(TimesX(a), b, n) == TimesX(ShiftAndAdd(a, b, n))
    decreases n
  {
    if n == 0 {
      assert TimesX(0) == 0;
    } else {
      hide Add, TimesX, Low;
      LowTimesX(a, b);
      ShiftAndAddTimesX(TimesX(a), b >> 1, n - 1);
      TimesXAdds(Low(a, b), ShiftAndAdd(TimesX(a), b >> 1, n - 1));
    }
  }

  lemma ProductAddsLeft(a: bv8, b: bv8, c: bv8)
    ensures Product(Add(a, b), c) == Add(Product(a, c), Product(b, c))
  {
    hide Add, ShiftAndAdd;
    ShiftAndAddAdds(a, b, c, 8);
  }

  lemma ProductTimesGenerator(a: bv8, b: bv8)
    ensures Product(TimesGenerator(a), b) == TimesGenerator(Product(a, b))
  {
    hide Add, TimesX, ShiftAndAdd;
    ShiftAndAddAdds(TimesX(a), a, b, 8);
    ShiftAndAddTimesX(a, b, 8);
  }

  lemma {:induction false} ShiftAndAddZero(a: bv8, n: nat)
    ensures ShiftAndAdd(a, 0, n) == 0 && ShiftAndAdd(0, a, n) == 0
    decreases n
  {
    if n > 0 {
      assert Low(a, 0) == 0 && Low(0, a) == 0 && TimesX(0) == 0 && Add(0, 0) == 0 && 0 as bv8 >> 1 == 0;
      hide Add, TimesX, Low;
      ShiftAndAddZero(TimesX(a), n - 1);
      ShiftAndAddZero(a >> 1, n - 1);
    }
  }

  lemma ShiftsByOne(b: bv8)
    ensures b >> 1 >> 1 == b >> 2 && b >> 2 >> 1 == b >> 3 && b >> 3 >> 1 == b >> 4
    ensures b >> 4 >> 1 == b >> 5 && b >> 5 >> 1 == b >> 6 && b >> 6 >> 1 == b >> 7
    ensures TimesX(0x01) == 0x02 && TimesX(0x02) == 0x04 && TimesX(0x04) == 0x08 && TimesX(0x08) == 0x10
    ensures TimesX(0x10) == 0x20 && TimesX(0x20) == 0x40 && TimesX(0x40) == 0x80
  {}

  /** Putting the bits of b back, from the highest down. */
  lemma BitByBit(b: bv8)
    ensures Add(Low(0x80, b >> 7), 0) == b & 0x80
    ensures Add(Low(0x40, b >> 6), b & 0x80) == b & 0xc0 && Add(Low(0x20, b >> 5), b & 0xc0) == b & 0xe0
    ensures Add(Low(0x10, b >> 4), b & 0xe0) == b & 0xf0 && Add(Low(0x08, b >> 3), b & 0xf0) == b & 0xf8
    ensures Add(Low(0x04, b >> 2), b & 0xf8) == b & 0xfc && Add(Low(0x02, b >> 1), b & 0xfc) == b & 0xfe
    ensures Add(Low(0x01, b), b & 0xfe) == b
  {}

  lemma ProductOneLeft(b: bv8)
    ensures Product(1, b) == b
  {
    ShiftsByOne(b);
    BitByBit(b);
    hide TimesX, Add, Low;
    assert ShiftAndAdd(0x80, b >> 7, 1) == b & 0x80;
    assert ShiftAndAdd(0x40, b >> 6, 2) == b & 0xc0;
    assert ShiftAndAdd(0x20, b >> 5, 3) == b & 0xe0;
    assert ShiftAndAdd(0x10, b >> 4, 4) == b & 0xf0;
    assert ShiftAndAdd(0x08, b >> 3, 5) == b & 0xf8;
    assert ShiftAndAdd(0x04, b >> 2, 6) == b & 0xfc;
    assert ShiftAndAdd(0x02, b >> 1, 7) == b & 0xfe;
  }

  // ----- powers of the generator -----

  lemma TimesGeneratorInjective(a: bv8, b: bv8)
    requires TimesGenerator(a) == TimesGenerator(b)
    ensures a == b
  {
    assert TimesX(a) ^ a == TimesX(b) ^ b;
  }

  lemma {:induction false} ExpIsNonZero(i: nat)
    ensures Exp(i) != 0
  {
    if i > 0 {
      ExpIsNonZero(i - 1);
      assert TimesGenerator(0) == 0;
      hide TimesGenerator;
      if Exp(i) == 0 {
        TimesGeneratorInjective(Exp(i - 1), 0);
      }
    }
  }

  lemma {:induction false} ProductOfPowers(i: nat, j: nat)
    ensures Product(Exp(i), Exp(j)) == Exp(i + j)
  {
    if i == 0 {
      hide Product, TimesGenerator;
      ProductOneLeft(Exp(j));
    } else {
      hide Product, TimesGenerator;
      ProductOfPowers(i - 1, j);
      ProductTimesGenerator(Exp(i - 1), Exp(j));
    }
  }

  lemma Squares()
    ensures Product(0x03, 0x03) == 0x05 && Product(0x05, 0x05) == 0x11 && Product(0x11, 0x11) == 0x1a
    ensures Product(0x1a, 0x1a) == 0x5f && Product(0x5f, 0x5f) == 0xe5 && Product(0xe5, 0xe5) == 0x4c
    ensures Product(0x4c, 0x4c) == 0xfb && Product(0xfb, 0xfb) == 0x03
  {}

  lemma MixedProducts()
    ensures Product(0x05, 0x03) == 0x0f && Product(0x11, 0x03) == 0x33
    ensures Product(0xe5, 0x5f) == 0x53 && Product(0x53, 0x0f) == 0x0c
    ensures Product(0x4c, 0x5f) == 0x83 && Product(0x83, 0x33) == 0xbd
    ensures TimesGenerator(0x01) == 0x03 && TimesGenerator(0x5f) != 0x01 
  {}

  lemma SomePowers()
    ensures Exp(1) == 0x03 && Exp(3) == 0x0f && Exp(5) == 0x33 && Exp(16) == 0x5f && Exp(17) != 1
    ensures Exp(51) == 0x0c && Exp(85) == 0xbd && Exp(256) == 0x03
  {
    hide Product, TimesGenerator;
    Squares();
    MixedProducts();
    assert Exp(0) == 1;
    ProductOfPowers(1, 1);
    ProductOfPowers(2, 2);
    ProductOfPowers(4, 4);
    ProductOfPowers(8, 8);
    ProductOfPowers(16, 16);
    ProductOfPowers(32, 32);
    ProductOfPowers(64, 64);
    ProductOfPowers(128, 128);
    ProductOfPowers(2, 1);
    ProductOfPowers(4, 1);
    ProductOfPowers(32, 16);
    ProductOfPowers(48, 3);
    ProductOfPowers(64, 16);
    ProductOfPowers(80, 5);
  }

  lemma ExpHasPeriod255(i: nat)
    ensures Exp(255) == 1 && Exp(i + 255) == Exp(i)
  {
    SomePowers();
    MixedProducts();
    hide Product, TimesGenerator;
    TimesGeneratorInjective(Exp(255), 1);
    ProductOfPowers(255, i);
    ProductOneLeft(Exp(i));
  }

  lemma OneTurnLess(k: nat, d: nat)
    requires k > 0
    ensures k * d == d + (k - 1) * d && (k - 1) * d >= 0
  {}

  lemma {:induction false} ExpModPeriod(k: nat, d: nat, r: nat)
    requires Exp(d) == 1
    ensures Exp(k * d + r) == Exp(r)
  {
    if k > 0 {
      hide Product, TimesGenerator;
      ExpModPeriod(k - 1, d, r);
      OneTurnLess(k, d);
      ProductOfPowers(d, (k - 1) * d + r);
      ProductOneLeft(Exp((k - 1) * d + r));
    }
  }

  lemma DivisorsOf255(d: nat, q: nat)
    requires d * q == 255 && d < 255
    ensures d in {1, 3, 5, 15, 17, 51, 85}
  {
    if d <= 15 {
      assert d in {0, 1, 2, 3, 4, 5, 6, 7, 8, 9, 10, 11, 12, 13, 14, 15};
    } else if q <= 15 {
      assert q in {0, 1, 2, 3, 4, 5, 6, 7, 8, 9, 10, 11, 12, 13, 14, 15};
    } else {
      ProductOfLargeNumbers(d, q);
    }
  }

  lemma ProductOfLargeNumbers(d: nat, q: nat)
    requires d >= 16 && q >= 16
    ensures d * q >= 256
  {
    assert (d - 16) * (q - 16) >= 0;
  }

  lemma PowerOfRemainder(d: nat)
    requires 0 < d && Exp(d) == 1
    ensures Exp(255 % d) == 1
  {
    hide Exp;
    ExpHasPeriod255(0);
    ExpModPeriod(255 / d, d, 255 % d);
    assert 255 / d * d + 255 % d == 255;
  }

  /** The generator is primitive: its powers return to one only after 255 steps. */
  lemma {:induction false} GeneratorIsPrimitive(d: nat)
    requires 0 < d < 255
    ensures Exp(d) != 1
  {
    hide Exp;
    if Exp(d) == 1 {
      PowerOfRemainder(d);
      if 255 % d > 0 {
        GeneratorIsPrimitive(255 % d);
      } else {
        assert d * (255 / d) == 255;
        DivisorsOf255(d, 255 / d);
        DivisorPowers(d);
      }
    }
  }

  lemma DivisorPowers(d: nat)
    requires d in {1, 3, 5, 15, 17, 51, 85}
    ensures Exp(d) != 1
  {
    hide Product, TimesGenerator;
    SomePowers();
    PowerFifteen();
  }

  /** The next power, 0x5f, is not the generator. */
  lemma PowerFifteen()
    ensures Exp(15) != 1
  {
    SomePowers();
    assert Exp(16) == TimesGenerator(Exp(15));
    assert TimesGenerator(0x01) == 0x03;
  }

  lemma {:induction false} ExpInjective(i: nat, j: nat)
    requires i < j < 255
    ensures Exp(i) != Exp(j)
  {
    if i == 0 {
      GeneratorIsPrimitive(j);
    } else {
      ExpInjective(i - 1, j - 1);
      hide TimesGenerator;
      if Exp(i) == Exp(j) {
        TimesGeneratorInjective(Exp(i - 1), Exp(j - 1));
      }
    }
  }

  // ----- every non-zero byte is a power of the generator -----

  /** The i-th power, as a number. */
  function ExpNumber(i: nat): (k: nat)
    ensures k < 256
  {
    Exp(i) as int
  }

  lemma ExpNumberInjective(i: nat, j: nat)
    requires i < j < 255
    ensures ExpNumber(i) != ExpNumber(j)
  {
    ExpInjective(i, j);
    hide Exp;
    SameNumber(Exp(i), Exp(j));
  }

  lemma SameNumber(a: bv8, b: bv8)
    ensures a as int == b as int ==> a == b
  {}

  function PowersBelow(n: nat): set<nat> {
    set i | 0 <= i < n :: ExpNumber(i)
  }

  lemma {:induction false} PowersBelowSize(n: nat)
    requires n <= 255
    ensures |PowersBelow(n)| == n
  {
    hide ExpNumber;
    if n > 0 {
      PowersBelowSize(n - 1);
      var last := ExpNumber(n - 1);
      forall i | 0 <= i < n - 1 ensures ExpNumber(i) != last {
        ExpNumberInjective(i, n - 1);
      }
      assert PowersBelow(n) == PowersBelow(n - 1) + {last};
    }
  }

  function UpTo(n: nat): (s: set<nat>)
    ensures |s| == n && forall k :: k in s <==> 1 <= k <= n
  {
    if n == 0 then {} else UpTo(n - 1) + {n}
  }

  lemma EveryNumberIsAPower(n: nat)
    requires n == 255
    ensures forall k :: 1 <= k <= n ==> k in PowersBelow(n)
  {
    forall i | 0 <= i < n ensures ExpNumber(i) in UpTo(n) {
      ExpIsNonZero(i);
      NumberOf(Exp(i));
      hide Exp;
    }
    hide ExpNumber;
    PowersBelowSize(n);
    SameSizeSubset(PowersBelow(n), UpTo(n));
  }

  lemma EveryByteIsAPower(a: bv8)
    requires a != 0
    ensures exists i :: 0 <= i < 255 && Exp(i) == a
  {
    EveryNumberIsAPower(255);
    NumberOf(a);
    hide Exp;
    assert a as int in PowersBelow(255);
  }

  lemma NumberOf(a: bv8)
    requires a != 0
    ensures 1 <= a as int <= 255
  {}

  /** The discrete logarithm to base 3. */
  ghost function Log(a: bv8): (i: nat)
    requires a != 0
    ensures i < 255 && Exp(i) == a
  {
    EveryByteIsAPower(a);
    var i :| 0 <= i < 255 && Exp(i) == a;
    i
  }

  lemma LogOfExp(i: nat)
    requires i < 255
    ensures Exp(i) != 0 && Log(Exp(i)) == i
  {
    ExpIsNonZero(i);
    var j := Log(Exp(i));
    if i < j {
      ExpInjective(i, j);
    } else if j < i {
      ExpInjective(j, i);
    }
  }

  // ----- the field -----

  lemma ProductByLogs(a: bv8, b: bv8)
    ensures a == 0 || b == 0 ==> Product(a, b) == 0
    ensures a != 0 && b != 0 ==> Product(a, b) == Exp(Log(a) + Log(b))
  {
    if a == 0 {
      ShiftAndAddZero(b, 8);
    } else if b == 0 {
      ShiftAndAddZero(a, 8);
    } else {
      ProductOfPowers(Log(a), Log(b));
    }
  }

  lemma ProductIsZero(a: bv8, b: bv8)
    ensures Product(a, b) == 0 <==> a == 0 || b == 0
  {
    ProductByLogs(a, b);
    if a != 0 && b != 0 {
      ExpIsNonZero(Log(a) + Log(b));
    }
  }

  lemma ProductCommutes(a: bv8, b: bv8)
    ensures Product(a, b) == Product(b, a)
  {
    hide Product;
    ProductByLogs(a, b);
    ProductByLogs(b, a);
  }

  lemma ProductAssociates(a: bv8, b: bv8, c: bv8)
    ensures Product(Product(a, b), c) == Product(a, Product(b, c))
  {
    hide Product, TimesGenerator;
    ProductIsZero(a, b);
    ProductIsZero(b, c);
    ProductIsZero(Product(a, b), c);
    ProductIsZero(a, Product(b, c));
    if a != 0 && b != 0 && c != 0 {
      var i, j, k := Log(a), Log(b), Log(c);
      ProductOfPowers(i, j);
      ProductOfPowers(j, k);
      ProductOfPowers(i + j, k);
      ProductOfPowers(i, j + k);
    }
  }

  lemma ProductDistributes(a: bv8, b: bv8, c: bv8)
    ensures Product(a, Add(b, c)) == Add(Product(a, b), Product(a, c))
  {
    hide Product, Add;
    ProductCommutes(a, Add(b, c));
    ProductCommutes(a, b);
    ProductCommutes(a, c);
    ProductAddsLeft(b, c, a);
  }

  ghost function Inverse(a: bv8): bv8 {
    if a == 0 then 0 else Exp(255 - Log(a))
  }

  lemma ProductInverse(a: bv8)
    requires a != 0
    ensures Product(a, Inverse(a)) == 1
  {
    hide Product, TimesGenerator;
    ProductOfPowers(Log(a), 255 - Log(a));
    ExpHasPeriod255(0);
  }

  ghost const FIELD: Field<bv8> :=
    Field(0, 1, (a: bv8, b: bv8) => Add(a, b), (a: bv8, b: bv8) => Product(a, b), (a: bv8) => Inverse(a))

  lemma BytesFormAField()
    ensures FIELD.Valid()
  {
    hide Product, Add, Inverse;
    forall a: bv8, b: bv8, c: bv8 ensures FIELD.Laws(a, b, c) {
      AddLaws(a, b, c);
      ProductCommutes(a, b);
      ProductAssociates(a, b, c);
      ProductDistributes(a, b, c);
      ProductOneLeft(a);
      ProductCommutes(1, a);
      if a != 0 {
        ProductInverse(a);
      }
    }
  }
}
