/** Fields of characteristic two, as values. */
module Fields {
  // A field is its two constants and its operations. The polynomial theory behind secret sharing is proved once for any
  // such field and used for GF(2^8), where subtraction is addition is XOR.
  datatype Field<!T(!new)> = Field(
    zero: T,
    one: T,
    add: (T, T) -> T,
    mul: (T, T) -> T,
    inv: T -> T)
  {
    /** Every law about three elements, gathered under one name so that it is used only where it is mentioned. */
    ghost predicate Laws(a: T, b: T, c: T) {
      && add(a, b) == add(b, a)
      && add(add(a, b), c) == add(a, add(b, c))
      && add(a, zero) == a
      && add(a, a) == zero
      && mul(a, b) == mul(b, a)
      && mul(mul(a, b), c) == mul(a, mul(b, c))
      && mul(a, one) == a
      && mul(a, add(b, c)) == add(mul(a, b), mul(a, c))
      && (a != zero ==> mul(a, inv(a)) == one)
    }

    ghost predicate Valid() {
      && zero != one
      && forall a, b, c :: Laws(a, b, c)
    }

    function Div(a: T, b: T): T {
      mul(a, inv(b))
    }

    lemma AddZero(a: T)
      requires Valid()
      ensures add(a, zero) == a && add(zero, a) == a
    {
      assert Laws(a, zero, zero);
    }

    lemma AddComm(a: T, b: T)
      requires Valid()
      ensures add(a, b) == add(b, a)
    {
      assert Laws(a, b, zero);
    }

    lemma AddAssoc(a: T, b: T, c: T)
      requires Valid()
      ensures add(add(a, b), c) == add(a, add(b, c))
    {
      assert Laws(a, b, c);
    }

    lemma AddSelf(a: T)
      requires Valid()
      ensures add(a, a) == zero
    {
      assert Laws(a, a, a);
    }

    /** In characteristic two a sum vanishes exactly when its two terms are the same. */
    lemma AddIsZero(a: T, b: T)
      requires Valid()
      ensures add(a, b) == zero <==> a == b
    {
      AddSelf(b);
      if add(a, b) == zero {
        AddAssoc(a, b, b);
        AddZero(a);
        AddZero(b);
      }
    }

    lemma AddSwap(a: T, b: T, c: T, d: T)
      requires Valid()
      ensures add(add(a, b), add(c, d)) == add(add(a, c), add(b, d))
    {
      AddAssoc(a, b, add(c, d));
      AddAssoc(b, c, d);
      AddComm(b, c);
      AddAssoc(c, b, d);
      AddAssoc(a, c, add(b, d));
    }

    lemma MulOne(a: T)
      requires Valid()
      ensures mul(a, one) == a && mul(one, a) == a
    {
      assert Laws(a, one, a);
    }

    lemma MulComm(a: T, b: T)
      requires Valid()
      ensures mul(a, b) == mul(b, a)
    {
      assert Laws(a, b, a);
    }

    lemma MulAssoc(a: T, b: T, c: T)
      requires Valid()
      ensures mul(mul(a, b), c) == mul(a, mul(b, c))
    {
      assert Laws(a, b, c);
    }

    lemma MulLeftSwap(a: T, b: T, c: T)
      requires Valid()
      ensures mul(a, mul(b, c)) == mul(b, mul(a, c))
    {
      MulAssoc(a, b, c);
      MulComm(a, b);
      MulAssoc(b, a, c);
    }

    lemma Distribute(a: T, b: T, c: T)
      requires Valid()
      ensures mul(a, add(b, c)) == add(mul(a, b), mul(a, c))
      ensures mul(add(b, c), a) == add(mul(b, a), mul(c, a))
    {
      assert Laws(a, b, c);
      MulComm(a, add(b, c));
      MulComm(a, b);
      MulComm(a, c);
    }

    lemma MulZero(a: T)
      requires Valid()
      ensures mul(a, zero) == zero && mul(zero, a) == zero
    {
      Distribute(a, zero, zero);
      AddZero(zero);
      AddSelf(mul(a, zero));
      MulComm(a, zero);
    }

    lemma MulInverse(a: T)
      requires Valid() && a != zero
      ensures mul(a, inv(a)) == one && mul(inv(a), a) == one
    {
      assert Laws(a, a, a);
      MulComm(a, inv(a));
    }

    /** There are no zero divisors. */
    lemma MulIsZero(a: T, b: T)
      requires Valid()
      ensures mul(a, b) == zero <==> a == zero || b == zero
    {
      MulZero(a);
      MulZero(b);
      if mul(a, b) == zero && a != zero {
        MulInverse(a);
        MulAssoc(inv(a), a, b);
        MulOne(b);
        MulZero(inv(a));
      }
    }
  }
}
