/**
 How JSON.stringify writes strings and integers (section 7 of RFC 8259), and
 that each can be read back from the front of a longer text: where two texts
 begin with quoted strings and are equal, the strings are equal and so is what
 follows them, and likewise for decimal integers that no further digit follows.
 */
module JsonText {
  import opened Text
  import opened Hexadecimal

  const QUOTE: CodeUnit := 0x22
  const BACKSLASH: CodeUnit := 0x5C
  const MINUS: CodeUnit := 0x2D

  // ----- four hexadecimal digits -----

  function Hex4(u: CodeUnit): Text {
    [HexDigit(u / 0x1000), HexDigit(u / 0x100 % 16), HexDigit(u / 0x10 % 16), HexDigit(u % 16)]
  }

  /** Four base-sixteen digits make up a code unit. */
  lemma Hex4Value(u: CodeUnit)
    ensures u / 0x1000 < 16
    ensures u == u / 0x1000 * 0x1000 + u / 0x100 % 16 * 0x100 + u / 0x10 % 16 * 0x10 + u % 16
  {
    assert u / 0x10 == u / 0x10 / 16 * 16 + u / 0x10 % 16 && u / 0x10 / 16 == u / 0x100;
    assert u / 0x100 == u / 0x100 / 16 * 16 + u / 0x100 % 16 && u / 0x100 / 16 == u / 0x1000;
  }

  lemma Hex4Injective(u: CodeUnit, v: CodeUnit)
    requires Hex4(u) == Hex4(v)
    ensures u == v
  {
    Hex4Value(u);
    Hex4Value(v);
    hide HexDigit;
    var h, k := Hex4(u), Hex4(v);
    assert h[0] == k[0] && h[1] == k[1] && h[2] == k[2] && h[3] == k[3];
    HexDigitInjective(u / 0x1000, v / 0x1000);
    HexDigitInjective(u / 0x100 % 16, v / 0x100 % 16);
    HexDigitInjective(u / 0x10 % 16, v / 0x10 % 16);
    HexDigitInjective(u % 16, v % 16);
  }

  // ----- strings -----

  predicate IsHighSurrogate(u: CodeUnit) {
    0xD800 <= u < 0xDC00
  }

  predicate IsLowSurrogate(u: CodeUnit) {
    0xDC00 <= u < 0xE000
  }

  /** The letter of a two-character escape, or zero. */
  function ShortEscape(u: CodeUnit): CodeUnit {
    if u == 0x08 then 0x62       // \b
    else if u == 0x09 then 0x74  // \t
    else if u == 0x0A then 0x6E  // \n
    else if u == 0x0C then 0x66  // \f
    else if u == 0x0D then 0x72  // \r
    else if u == QUOTE || u == BACKSLASH then u
    else 0
  }

  /** A code unit that is not half of a surrogate pair: two-character escape, \uXXXX escape, or itself. */
  function EscapeUnit(u: CodeUnit): Text {
    if ShortEscape(u) != 0 then [BACKSLASH, ShortEscape(u)]
    else if u < 0x20 || IsHighSurrogate(u) || IsLowSurrogate(u) then [BACKSLASH, 0x75] + Hex4(u)
    else [u]
  }

  predicate StartsWithPair(s: Text) {
    |s| >= 2 && IsHighSurrogate(s[0]) && IsLowSurrogate(s[1])
  }

  function Escape(s: Text): Text {
    if s == [] then []
    else if StartsWithPair(s) then [s[0], s[1]] + Escape(s[2..])
    else EscapeUnit(s[0]) + Escape(s[1..])
  }

  function Quote(s: Text): Text {
    [QUOTE] + Escape(s) + [QUOTE]
  }

  /** How a single code unit is written between quotation marks. */
  lemma UnitIsWritten(u: CodeUnit)
    ensures u == 34 ==> Quote([u]) == Ascii("\"\\\"\"")
    ensures u == 92 ==> Quote([u]) == Ascii("\"\\\\\"")
    ensures u == 8 ==> Quote([u]) == Ascii("\"\\b\"")
    ensures u == 9 ==> Quote([u]) == Ascii("\"\\t\"")
    ensures u == 10 ==> Quote([u]) == Ascii("\"\\n\"")
    ensures u == 12 ==> Quote([u]) == Ascii("\"\\f\"")
    ensures u == 13 ==> Quote([u]) == Ascii("\"\\r\"")
    ensures u < 32 && u !in {8, 9, 10, 12, 13} ==> Quote([u])[..6] == Ascii("\"\\u00") + [48 + u / 16] && |Quote([u])| == 8
    ensures 0xD800 <= u < 0xE000 ==> Quote([u])[..4] == Ascii("\"\\ud") && |Quote([u])| == 8
    ensures u >= 32 && u != 34 && u != 92 && !(0xD800 <= u < 0xE000) ==> Quote([u]) == [34, u, 34]
  {
    hide Quote, Ascii;
    ShortEscapesWritten(u);
    NumericEscapesWritten(u);
    WrittenAsItself(u);
  }

  lemma ShortEscapesWritten(u: CodeUnit)
    ensures u == 34 ==> Quote([u]) == Ascii("\"\\\"\"")
    ensures u == 92 ==> Quote([u]) == Ascii("\"\\\\\"")
    ensures u == 8 ==> Quote([u]) == Ascii("\"\\b\"")
    ensures u == 9 ==> Quote([u]) == Ascii("\"\\t\"")
    ensures u == 10 ==> Quote([u]) == Ascii("\"\\n\"")
    ensures u == 12 ==> Quote([u]) == Ascii("\"\\f\"")
    ensures u == 13 ==> Quote([u]) == Ascii("\"\\r\"")
  {
    if ShortEscape(u) != 0 {
      assert Escape([u]) == EscapeUnit(u) + [];
      assert Quote([u]) == [34, 92, ShortEscape(u), 34];
      hide Quote, Escape, EscapeUnit;
    }
  }

  lemma NumericEscapesWritten(u: CodeUnit)
    ensures u < 32 && u !in {8, 9, 10, 12, 13} ==> Quote([u])[..6] == Ascii("\"\\u00") + [48 + u / 16] && |Quote([u])| == 8
    ensures 0xD800 <= u < 0xE000 ==> Quote([u])[..4] == Ascii("\"\\ud") && |Quote([u])| == 8
  {
    if |EscapeUnit(u)| == 6 {
      assert Escape([u]) == EscapeUnit(u) + [];
      var q := Quote([u]);
      assert q == [34, 92, 117] + Hex4(u) + [34];
      assert q[..6] == [34, 92, 117] + Hex4(u)[..3] && q[..4] == [34, 92, 117] + Hex4(u)[..1];
      hide Quote, Escape, EscapeUnit;
    }
  }

  lemma WrittenAsItself(u: CodeUnit)
    ensures u >= 32 && u != 34 && u != 92 && !(0xD800 <= u < 0xE000) ==> Quote([u]) == [34, u, 34]
  {
    assert Escape([u]) == EscapeUnit(u) + [];
  }

  lemma EscapeUnitReadsBack(u: CodeUnit, v: CodeUnit, x: Text, y: Text)
    requires EscapeUnit(u) + x == EscapeUnit(v) + y
    ensures u == v && x == y
  {
    var e, f := EscapeUnit(u), EscapeUnit(v);
    var t := e + x;
    assert t[0] == e[0] && t[0] == f[0];
    if e[0] == BACKSLASH {
      assert |e| >= 2 && |f| >= 2;
      assert t[1] == e[1] && t[1] == f[1];
      if e[1] == 0x75 {
        assert e == [BACKSLASH, 0x75] + Hex4(u) && f == [BACKSLASH, 0x75] + Hex4(v);
        assert t[2..6] == Hex4(u) && t[2..6] == Hex4(v);
        Hex4Injective(u, v);
      }
    }
    assert e == f;
    assert x == t[|e|..] && y == t[|f|..];
  }

  lemma EscapeStarts(s: Text)
    requires s != []
    ensures Escape(s) != [] && Escape(s)[0] != QUOTE
    ensures StartsWithPair(s) <==> IsHighSurrogate(Escape(s)[0])
  {}

  lemma Leading(e: Text, x: Text)
    requires e != []
    ensures (e + x)[0] == e[0] && (e + x)[1..] == e[1..] + x
  {}

  /** Where one string ends the other ends too. */
  lemma EndTogether(s: Text, t: Text, x: Text, y: Text)
    requires Escape(s) + ([QUOTE] + x) == Escape(t) + ([QUOTE] + y)
    ensures s == [] <==> t == []
  {
    if s != [] {
      EscapeStarts(s);
      Leading(Escape(s), [QUOTE] + x);
    }
    if t != [] {
      EscapeStarts(t);
      Leading(Escape(t), [QUOTE] + y);
    }
  }

  lemma EscapePair(s: Text, x: Text)
    requires StartsWithPair(s)
    ensures Escape(s) + x == [s[0], s[1]] + (Escape(s[2..]) + x)
  {}

  lemma EscapeSingle(s: Text, x: Text)
    requires s != [] && !StartsWithPair(s)
    ensures Escape(s) + x == EscapeUnit(s[0]) + (Escape(s[1..]) + x)
  {}

  /** Up to its closing quote an escaped string can be read in only one way. */
  lemma {:induction false} EscapeReadsBack(s: Text, t: Text, x: Text, y: Text)
    requires Escape(s) + ([QUOTE] + x) == Escape(t) + ([QUOTE] + y)
    ensures s == t && x == y
    decreases |s|
  {
    var x', y' := [QUOTE] + x, [QUOTE] + y;
    EndTogether(s, t, x, y);
    if s == [] {
      assert Escape(s) + x' == x' && Escape(t) + y' == y';
      assert x == x'[1..] && y == y'[1..];
    } else {
      EscapeStarts(s);
      EscapeStarts(t);
      Leading(Escape(s), x');
      Leading(Escape(t), y');
      assert StartsWithPair(s) <==> StartsWithPair(t);
      hide Escape, StartsWithPair;
      if StartsWithPair(s) {
        PairReadsBack(s, t, x', y');
        EscapeReadsBack(s[2..], t[2..], x, y);
      } else {
        EscapeSingle(s, x');
        EscapeSingle(t, y');
        EscapeUnitReadsBack(s[0], t[0], Escape(s[1..]) + x', Escape(t[1..]) + y');
        EscapeReadsBack(s[1..], t[1..], x, y);
        assert s == [s[0]] + s[1..] && t == [t[0]] + t[1..];
      }
    }
  }

  lemma PairReadsBack(s: Text, t: Text, x: Text, y: Text)
    requires StartsWithPair(s) && StartsWithPair(t) && Escape(s) + x == Escape(t) + y
    ensures Escape(s[2..]) + x == Escape(t[2..]) + y
    ensures s[2..] == t[2..] ==> s == t
  {
    EscapePair(s, x);
    EscapePair(t, y);
    hide Escape;
    var whole := Escape(s) + x;
    assert whole[0] == s[0] && whole[1] == s[1] && whole[0] == t[0] && whole[1] == t[1];
    assert whole[2..] == Escape(s[2..]) + x && whole[2..] == Escape(t[2..]) + y;
    assert s == [s[0], s[1]] + s[2..] && t == [t[0], t[1]] + t[2..];
  }

  lemma QuoteReadsBack(s: Text, t: Text, x: Text, y: Text)
    requires Quote(s) + x == Quote(t) + y
    ensures s == t && x == y
  {
    hide Escape;
    assert (Quote(s) + x)[1..] == Escape(s) + ([QUOTE] + x);
    assert (Quote(t) + y)[1..] == Escape(t) + ([QUOTE] + y);
    EscapeReadsBack(s, t, x, y);
  }

  // ----- integers -----

  predicate IsDigit(u: CodeUnit) {
    0x30 <= u <= 0x39
  }

  /** The text does not continue a number. */
  predicate EndsNumber(t: Text) {
    t == [] || !IsDigit(t[0])
  }

  function Digits(n: nat): (t: Text)
    ensures t != [] && forall i :: 0 <= i < |t| ==> IsDigit(t[i])
  {
    if n < 10 then [0x30 + n] else Digits(n / 10) + [0x30 + n % 10]
  }

  function IntegerText(n: int): Text {
    if n < 0 then [MINUS] + Digits(-n) else Digits(n)
  }

  lemma {:induction false} DigitsInjective(m: nat, n: nat)
    requires Digits(m) == Digits(n)
    ensures m == n
  {
    var t := Digits(m);
    assert t[|t| - 1] == 0x30 + m % 10 && t[|t| - 1] == 0x30 + n % 10;
    if m >= 10 && n >= 10 {
      assert t[..|t| - 1] == Digits(m / 10) && t[..|t| - 1] == Digits(n / 10);
      DigitsInjective(m / 10, n / 10);
    }
  }

  lemma NoShorter(d: Text, e: Text, x: Text, y: Text)
    requires d + x == e + y && EndsNumber(x) && forall i :: 0 <= i < |e| ==> IsDigit(e[i])
    ensures |d| >= |e|
  {
    assert x == (e + y)[|d|..];
  }

  lemma DigitsReadBack(m: nat, n: nat, x: Text, y: Text)
    requires Digits(m) + x == Digits(n) + y && EndsNumber(x) && EndsNumber(y)
    ensures m == n && x == y
  {
    var d, e := Digits(m), Digits(n);
    NoShorter(d, e, x, y);
    NoShorter(e, d, y, x);
    assert d == (d + x)[..|d|] && e == (e + y)[..|e|];
    assert x == (d + x)[|d|..] && y == (e + y)[|e|..];
    DigitsInjective(m, n);
  }

  lemma IntegerReadsBack(m: int, n: int, x: Text, y: Text)
    requires IntegerText(m) + x == IntegerText(n) + y && EndsNumber(x) && EndsNumber(y)
    ensures m == n && x == y
  {
    hide Digits;
    Leading(IntegerText(m), x);
    Leading(IntegerText(n), y);
    if m < 0 {
      assert IntegerText(m)[1..] == Digits(-m) && IntegerText(n)[1..] == Digits(-n);
      DigitsReadBack(-m, -n, x, y);
    } else {
      DigitsReadBack(m, n, x, y);
    }
  }
}
