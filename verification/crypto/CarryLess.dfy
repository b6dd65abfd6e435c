/**
 The product of Gf256 is the one the standard describes: the carry-less product
 of two bytes, reduced by x^8 + x^4 + x^3 + x + 1. A polynomial with bits for
 coefficients is a sixteen-bit number or the list of its bits, the constant
 term first.
 */
module CarryLessProducts {
  import opened Gf256

  const REDUCTION: bv16 := 0x11b

  function WideAdd(a: bv16, b: bv16): bv16 {
    a ^ b
  }

  function Widen(a: bv8): bv16 {
    a as bv16
  }

  function Shifted(a: bv16): bv16 {
    a << 1
  }

  /** The n lowest coefficients of b, constant term first. */
  function BitList(b: bv8, n: nat): (bits: seq<bool>)
    ensures |bits| == n
    decreases n
  {
    if n == 0 then [] else [b & 1 != 0] + BitList(b >> 1, n - 1)
  }

  /** The carry-less product of a and a list of coefficients: shifts and XORs, no reduction. */
  function CarryLess(a: bv16, bits: seq<bool>): bv16
    decreases |bits|
  {
    if bits == [] then 0 else WideAdd(if bits[0] then a else 0, CarryLess(Shifted(a), bits[1..]))
  }

  function XorBits(p: seq<bool>, q: seq<bool>): (r: seq<bool>)
    ensures |r| == if |p| < |q| then |q| else |p|
  {
    if p == [] then q else if q == [] then p else [p[0] != q[0]] + XorBits(p[1..], q[1..])
  }

  lemma WideXorLaws(a: bv16, b: bv16, c: bv16)
    ensures (a ^ b) ^ c == a ^ (b ^ c) && a ^ b == b ^ a && a ^ 0 == a && a ^ a == 0
    ensures (a ^ b) << 1 == (a << 1) ^ (b << 1)
  {}

  lemma WideAddLaws(a: bv16, b: bv16, c: bv16)
    ensures WideAdd(WideAdd(a, b), c) == WideAdd(a, WideAdd(b, c))
    ensures WideAdd(a, b) == WideAdd(b, a) && WideAdd(a, 0) == a && WideAdd(a, a) == 0
    ensures Shifted(WideAdd(a, b)) == WideAdd(Shifted(a), Shifted(b))
  {
    WideXorLaws(a, b, c);
  }

  lemma WideSwap(a: bv16, b: bv16, c: bv16, d: bv16)
    ensures WideAdd(WideAdd(a, b), WideAdd(c, d)) == WideAdd(WideAdd(a, c), WideAdd(b, d))
  {
    hide WideAdd;
    WideAddLaws(a, b, WideAdd(c, d));
    WideAddLaws(b, c, d);
    WideAddLaws(c, b, d);
    WideAddLaws(a, c, WideAdd(b, d));
  }

  lemma {:induction false} CarryLessAddsLeft(a: bv16, b: bv16, bits: seq<bool>)
    ensures CarryLess(WideAdd(a, b), bits) == WideAdd(CarryLess(a, bits), CarryLess(b, bits))
    decreases |bits|
  {
    hide WideAdd, Shifted;
    WideAddLaws(0, 0, 0);
    if bits != [] {
      WideAddLaws(a, b, 0);
      CarryLessAddsLeft(Shifted(a), Shifted(b), bits[1..]);
      WideSwap(if bits[0] then a else 0, if bits[0] then b else 0,
               CarryLess(Shifted(a), bits[1..]), CarryLess(Shifted(b), bits[1..]));
    }
  }

  lemma {:induction false} CarryLessAddsRight(a: bv16, p: seq<bool>, q: seq<bool>)
    ensures CarryLess(a, XorBits(p, q)) == WideAdd(CarryLess(a, p), CarryLess(a, q))
    decreases |p|
  {
    hide WideAdd, Shifted;
    if p == [] {
      WideAddLaws(0, CarryLess(a, q), 0);
      WideAddLaws(CarryLess(a, q), 0, 0);
    } else if q == [] {
      WideAddLaws(CarryLess(a, p), 0, 0);
    } else {
      WideAddLaws(a, a, 0);
      WideAddLaws(0, a, 0);
      WideAddLaws(0, 0, 0);
      CarryLessAddsRight(Shifted(a), p[1..], q[1..]);
      WideSwap(if p[0] then a else 0, if q[0] then a else 0,
               CarryLess(Shifted(a), p[1..]), CarryLess(Shifted(a), q[1..]));
    }
  }

  lemma WidenLaws(a: bv8, b: bv8)
    ensures Widen(Add(a, b)) == WideAdd(Widen(a), Widen(b))
    ensures Widen(Low(a, b)) == if b & 1 != 0 then Widen(a) else 0
    ensures Widen(0) == 0
  {}

  /** Where shifting overflows, one reduction step adds the reduction polynomial. */
  lemma ShiftReduces(a: bv8)
    ensures Shifted(Widen(a)) == WideAdd(Widen(TimesX(a)), if a & 0x80 == 0 then 0 else REDUCTION)
  {}

  lemma {:induction false} ShiftAndAddReduces(a: bv8, b: bv8, n: nat) returns (q: seq<bool>)
    ensures |q| <= if n == 0 then 0 else n - 1
    ensures CarryLess(Widen(a), BitList(b, n)) == WideAdd(Widen(ShiftAndAdd(a, b, n)), CarryLess(REDUCTION, q))
    decreases n
  {
    hide Add, TimesX, Low, Widen, WideAdd, Shifted;
    WidenLaws(a, b);
    WideAddLaws(0, 0, 0);
    if n == 0 {
      q := [];
    } else {
      var rest := BitList(b >> 1, n - 1);
      assert BitList(b, n)[1..] == rest;
      var q' := ShiftAndAddReduces(TimesX(a), b >> 1, n - 1);
      var low, s, m := Widen(Low(a, b)), ShiftAndAdd(TimesX(a), b >> 1, n - 1), CarryLess(REDUCTION, q');
      ShiftReduces(a);
      WidenLaws(Low(a, b), s);
      if a & 0x80 == 0 {
        q := q';
        WideAddLaws(Widen(TimesX(a)), 0, 0);
        WideAddLaws(low, Widen(s), m);
      } else {
        q := XorBits(q', rest);
        CarryLessAddsLeft(Widen(TimesX(a)), REDUCTION, rest);
        CarryLessAddsRight(REDUCTION, q', rest);
        var t := CarryLess(REDUCTION, rest);
        WideAddLaws(Widen(s), m, t);
        WideAddLaws(low, Widen(s), WideAdd(m, t));
      }
    }
  }

  /**
   The carry-less product and the field product of two bytes differ by a multiple of the reduction polynomial;
   the quotient has at most seven coefficients, so nothing is lost at sixteen bits.
   */
  lemma ProductIsReducedCarryLess(a: bv8, b: bv8)
    ensures exists q: seq<bool> ::
              && |q| <= 7
              && CarryLess(Widen(a), BitList(b, 8)) == WideAdd(Widen(Product(a, b)), CarryLess(REDUCTION, q))
  {
    hide ShiftAndAdd, BitList, CarryLess, Widen, WideAdd;
    var q := ShiftAndAddReduces(a, b, 8);
  }

  // ----- the remainder is unique -----

  function Term(bit: bool, a: bv16): bv16 {
    if bit then a else 0
  }

  /** Shifted copies of the reduction polynomial cannot cancel above bit 7 without cancelling altogether. */
  lemma SevenTerms(a: bool, b: bool, c: bool, d: bool, e: bool, f: bool, g: bool)
    ensures var sum := Term(a, 0x11b) ^ (Term(b, 0x236) ^ (Term(c, 0x46c) ^ (Term(d, 0x8d8) ^ (Term(e, 0x11b0)
      ^ (Term(f, 0x2360) ^ (Term(g, 0x46c0) ^ 0))))));
      sum & 0xff00 == 0 ==> sum == 0
  {}

  lemma CarryLessFirst(a: bv16, bits: seq<bool>)
    requires bits != []
    ensures CarryLess(a, bits) == Term(bits[0], a) ^ CarryLess(Shifted(a), bits[1..])
  {
    hide Shifted;
  }

  lemma Doubled()
    ensures Shifted(0x11b) == 0x236 && Shifted(0x236) == 0x46c && Shifted(0x46c) == 0x8d8 && Shifted(0x8d8) == 0x11b0
    ensures Shifted(0x11b0) == 0x2360 && Shifted(0x2360) == 0x46c0
  {}

  lemma MultipleOfSeven(q: seq<bool>)
    requires |q| == 7
    ensures CarryLess(REDUCTION, q) == Term(q[0], 0x11b) ^ (Term(q[1], 0x236) ^ (Term(q[2], 0x46c) ^ (Term(q[3], 0x8d8)
      ^ (Term(q[4], 0x11b0) ^ (Term(q[5], 0x2360) ^ (Term(q[6], 0x46c0) ^ 0))))))
  {
    Doubled();
    CarryLessFirst(0x11b, q);
    CarryLessFirst(0x236, q[1..]);
    CarryLessFirst(0x46c, q[2..]);
    CarryLessFirst(0x8d8, q[3..]);
    CarryLessFirst(0x11b0, q[4..]);
    CarryLessFirst(0x2360, q[5..]);
    CarryLessFirst(0x46c0, q[6..]);
    assert CarryLess(Shifted(0x46c0), q[7..]) == 0;
    hide CarryLess, Shifted, Term;
    assert q[1..][1..] == q[2..] && q[2..][1..] == q[3..] && q[3..][1..] == q[4..] && q[4..][1..] == q[5..];
    assert q[5..][1..] == q[6..] && q[6..][1..] == q[7..];
  }

  lemma NoTerms()
    ensures Term(false, 0x11b) ^ (Term(false, 0x236) ^ (Term(false, 0x46c) ^ (Term(false, 0x8d8) ^ (Term(false, 0x11b0)
      ^ (Term(false, 0x2360) ^ (Term(false, 0x46c0) ^ 0)))))) == 0
  {}

  const SEVEN_ZEROS: seq<bool> := [false, false, false, false, false, false, false]

  lemma ZeroMultiple()
    ensures CarryLess(REDUCTION, SEVEN_ZEROS) == 0
  {
    MultipleOfSeven(SEVEN_ZEROS);
    NoTerms();
    hide CarryLess, Term;
  }

  lemma SevenSmall(q: seq<bool>)
    requires |q| == 7 && CarryLess(REDUCTION, q) & 0xff00 == 0
    ensures CarryLess(REDUCTION, q) == 0
  {
    MultipleOfSeven(q);
    SevenTerms(q[0], q[1], q[2], q[3], q[4], q[5], q[6]);
    hide CarryLess, Term;
  }

  /** Only zero is a byte and a multiple of the reduction polynomial with at most seven coefficients. */
  lemma SmallMultipleIsZero(q: seq<bool>)
    requires |q| <= 7 && CarryLess(REDUCTION, q) & 0xff00 == 0
    ensures CarryLess(REDUCTION, q) == 0
  {
    hide CarryLess, XorBits, WideAdd;
    ZeroMultiple();
    CarryLessAddsRight(REDUCTION, q, SEVEN_ZEROS);
    WideAddLaws(CarryLess(REDUCTION, q), 0, 0);
    SevenSmall(XorBits(q, SEVEN_ZEROS));
  }

  lemma WidenedByte(r: bv8)
    ensures Widen(r) & 0xff00 == 0 && (Widen(r) == 0 ==> r == 0)
  {}

  lemma CancelWide(x: bv16, y: bv16, m: bv16, n: bv16)
    requires WideAdd(x, m) == WideAdd(y, n)
    ensures WideAdd(m, n) == WideAdd(x, y)
  {
    hide WideAdd;
    var s := WideAdd(x, m);
    AddTwice(x, m);
    AddTwice(y, n);
    WideSwap(x, s, y, s);
    WideAddLaws(s, s, 0);
    WideAddLaws(WideAdd(x, y), 0, 0);
  }

  lemma AddTwice(x: bv16, m: bv16)
    ensures WideAdd(x, WideAdd(x, m)) == m
  {
    hide WideAdd;
    WideAddLaws(x, x, m);
    WideAddLaws(0, m, 0);
    WideAddLaws(m, 0, 0);
  }

  lemma SameWhenSumIsZero(r: bv8, p: bv8)
    requires Add(r, p) == 0
    ensures r == p
  {}

  /**
   Reduction by the polynomial means just this: the field product of two bytes is the one byte that differs from their
   carry-less product by a multiple of the reduction polynomial with at most seven coefficients.
   */
  lemma ProductIsTheRemainder(a: bv8, b: bv8, r: bv8)
    ensures r == Product(a, b) <==>
      exists q: seq<bool> :: |q| <= 7 && CarryLess(Widen(a), BitList(b, 8)) == WideAdd(Widen(r), CarryLess(REDUCTION, q))
  {
    ProductIsReducedCarryLess(a, b);
    hide Product, CarryLess, BitList, Widen, WideAdd, Add;
    var p, whole := Product(a, b), CarryLess(Widen(a), BitList(b, 8));
    var q :| |q| <= 7 && whole == WideAdd(Widen(p), CarryLess(REDUCTION, q));
    forall q': seq<bool> | |q'| <= 7 && whole == WideAdd(Widen(r), CarryLess(REDUCTION, q')) ensures r == p {
      CarryLessAddsRight(REDUCTION, q', q);
      CancelWide(Widen(r), Widen(p), CarryLess(REDUCTION, q'), CarryLess(REDUCTION, q));
      WidenLaws(r, p);
      WidenedByte(Add(r, p));
      SmallMultipleIsZero(XorBits(q', q));
      SameWhenSumIsZero(r, p);
    }
  }
}
