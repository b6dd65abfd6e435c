/**
 Octets written as hexadecimal digits, and read back in either case. Writing and
 reading back gives the octets again; reading and writing back gives the digits
 again, in lower case. The digits of octet i stand at places 2i and 2i + 1, and
 the digits of a concatenation are the concatenation of the digits.
 */
module Hexadecimal {
  import opened Sequences
  import opened Text

  type Octet = b: int | 0 <= b < 256 witness 0

  type Octets = seq<Octet>

  /** Lower-case digit of a number below sixteen. */
  function HexDigit(d: nat): CodeUnit
    requires d < 16
  {
    if d < 10 then 0x30 + d else 0x57 + d
  }

  lemma HexDigitInjective(d: nat, e: nat)
    requires d < 16 && e < 16 && HexDigit(d) == HexDigit(e)
    ensures d == e
  {}

  predicate IsHexDigit(u: CodeUnit) {
    0x30 <= u <= 0x39 || 0x61 <= u <= 0x66 || 0x41 <= u <= 0x46
  }

  predicate IsHex(t: Text) {
    forall i :: 0 <= i < |t| ==> IsHexDigit(t[i])
  }

  function HexValue(u: CodeUnit): nat
    requires IsHexDigit(u)
  {
    if u <= 0x39 then u - 0x30 else if u >= 0x61 then u - 0x57 else u - 0x37
  }

  function LowerUnit(u: CodeUnit): CodeUnit {
    if 0x41 <= u <= 0x46 then u + 0x20 else u
  }

  function Lower(t: Text): Text {
    Map(t, LowerUnit)
  }

  function ToHex(bs: Octets): (t: Text)
    ensures |t| == 2 * |bs|
  {
    if bs == [] then [] else [HexDigit(bs[0] / 16), HexDigit(bs[0] % 16)] + ToHex(bs[1..])
  }

  function FromHex(t: Text): (bs: Octets)
    requires IsHex(t) && |t| % 2 == 0
    ensures |bs| == |t| / 2
  {
    if t == [] then [] else [HexValue(t[0]) * 16 + HexValue(t[1])] + FromHex(t[2..])
  }

  lemma HexDigitValue(u: CodeUnit)
    requires IsHexDigit(u)
    ensures HexValue(u) < 16 && HexDigit(HexValue(u)) == LowerUnit(u)
  {}

  lemma HexDigitOf(d: nat)
    requires d < 16
    ensures IsHexDigit(HexDigit(d)) && HexValue(HexDigit(d)) == d && LowerUnit(HexDigit(d)) == HexDigit(d)
  {}

  /** Writing octets in hexadecimal and reading them back. */
  lemma {:induction false} FromHexOfToHex(bs: Octets)
    ensures IsHex(ToHex(bs)) && FromHex(ToHex(bs)) == bs
  {
    if bs != [] {
      HexDigitOf(bs[0] / 16);
      HexDigitOf(bs[0] % 16);
      FromHexOfToHex(bs[1..]);
      assert ToHex(bs)[2..] == ToHex(bs[1..]);
      assert bs == [bs[0]] + bs[1..];
    }
  }

  /** Reading hexadecimal digits and writing them back only loses their case. */
  lemma {:induction false} ToHexOfFromHex(t: Text)
    requires IsHex(t) && |t| % 2 == 0
    ensures ToHex(FromHex(t)) == Lower(t)
  {
    if t != [] {
      HexDigitValue(t[0]);
      HexDigitValue(t[1]);
      ToHexOfFromHex(t[2..]);
      var b := HexValue(t[0]) * 16 + HexValue(t[1]);
      assert FromHex(t)[0] == b && FromHex(t)[1..] == FromHex(t[2..]);
      assert b / 16 == HexValue(t[0]) && b % 16 == HexValue(t[1]);
      assert Lower(t) == [LowerUnit(t[0]), LowerUnit(t[1])] + Lower(t[2..]);
    } else {
      assert Lower(t) == [];
    }
  }

  lemma LowerIsHex(t: Text)
    requires IsHex(Lower(t))
    ensures IsHex(t)
  {
    forall i | 0 <= i < |t| ensures IsHexDigit(t[i]) {
      assert IsHexDigit(Lower(t)[i]);
    }
  }

  lemma {:induction false} ToHexConcat(bs: Octets, cs: Octets)
    ensures ToHex(bs + cs) == ToHex(bs) + ToHex(cs)
  {
    if bs == [] {
      assert bs + cs == cs;
    } else {
      assert (bs + cs)[1..] == bs[1..] + cs;
      ToHexConcat(bs[1..], cs);
    }
  }

  /** The two digits of octet i stand at places 2i and 2i + 1. */
  lemma DigitsAt(bs: Octets, i: nat)
    requires i < |bs|
    ensures ToHex(bs)[..2 * i] == ToHex(bs[..i])
    ensures ToHex(bs)[2 * i] == HexDigit(bs[i] / 16) && ToHex(bs)[2 * i + 1] == HexDigit(bs[i] % 16)
  {
    assert bs == bs[..i] + bs[i..];
    ToHexConcat(bs[..i], bs[i..]);
    assert bs[i..][0] == bs[i];
  }
}
