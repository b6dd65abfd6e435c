/**
 Sortable identifiers: UUID version 7, section 5.7 of RFC 9562. The bytes are
 filled in place, written in hexadecimal and grouped; everything that went into
 an identifier can be read back, and identifiers sort by time as text.
 */
module Ids {
  import opened Text
  import opened Hexadecimal

  const TIME_RANGE := 0x1_0000_0000_0000

  // ----- pieces of the layout -----

  /** Byte number i of a 48-bit number, most significant first; higher bits are cut off. */
  function TimeByte(t: nat, i: nat): Octet
    requires i < 6
  {
    match i
    case 0 => t / 0x100_0000_0000 % 0x100
    case 1 => t / 0x1_0000_0000 % 0x100
    case 2 => t / 0x100_0000 % 0x100
    case 3 => t / 0x1_0000 % 0x100
    case 4 => t / 0x100 % 0x100
    case _ => t % 0x100
  }

  const DASH: CodeUnit := 45

  function Grouped(hex: Text): Text
    requires |hex| == 32
  {
    hex[..8] + [DASH] + hex[8..12] + [DASH] + hex[12..16] + [DASH] + hex[16..20] + [DASH] + hex[20..]
  }

  // ----- the layout -----

  /** 48 bits of time, the version, 12 random bits, the variant, 62 random bits. */
  function Layout(t: nat, rand: Octets): (bytes: Octets)
    requires |rand| == 10
    ensures |bytes| == 16
  {
    [TimeByte(t, 0), TimeByte(t, 1), TimeByte(t, 2), TimeByte(t, 3), TimeByte(t, 4), TimeByte(t, 5)]
    + [0x70 + rand[0] % 0x10, rand[1], 0x80 + rand[2] % 0x40]
    + rand[3..]
  }

  /** The text of the identifier made at an instant from ten random bytes. */
  function IdText(t: nat, rand: Octets): Text
    requires |rand| == 10
  {
    Grouped(ToHex(Layout(t, rand)))
  }

  /** Masking and setting bits, as the source writes it, is the arithmetic used here. */
  lemma MasksAreRemainders(b: bv8)
    ensures 0x70 | (b & 0x0f) == 0x70 + b % 0x10
    ensures 0x80 | (b & 0x3f) == 0x80 + b % 0x40
  {}

  // ----- the method -----

  method PutTime(bytes: array<Octet>, unixTsMs: nat)
    requires bytes.Length == 16
    modifies bytes
    ensures forall i :: 0 <= i < 6 ==> bytes[i] == TimeByte(unixTsMs, i)
  {
    bytes[0] := unixTsMs / 0x100_0000_0000 % 0x100;
    bytes[1] := unixTsMs / 0x1_0000_0000 % 0x100;
    bytes[2] := unixTsMs / 0x100_0000 % 0x100;
    bytes[3] := unixTsMs / 0x1_0000 % 0x100;
    bytes[4] := unixTsMs / 0x100 % 0x100;
    bytes[5] := unixTsMs % 0x100;
  }

  method PutRandom(bytes: array<Octet>, rand: Octets)
    requires bytes.Length == 16 && |rand| == 10
    modifies bytes
    ensures forall i :: 0 <= i < 6 ==> bytes[i] == old(bytes[i])
    ensures bytes[6] == 0x70 + rand[0] % 0x10 && bytes[7] == rand[1] && bytes[8] == 0x80 + rand[2] % 0x40
    ensures forall i :: 3 <= i < 10 ==> bytes[i + 6] == rand[i]
  {
    bytes[6] := 0x70 + rand[0] % 0x10;
    bytes[7] := rand[1];
    bytes[8] := 0x80 + rand[2] % 0x40;
    bytes[9] := rand[3];
    bytes[10] := rand[4];
    bytes[11] := rand[5];
    bytes[12] := rand[6];
    bytes[13] := rand[7];
    bytes[14] := rand[8];
    bytes[15] := rand[9];
  }

  method WriteHex(bytes: array<Octet>) returns (hex: Text)
    ensures hex == ToHex(bytes[..])
  {
    hex := [];
    for i := 0 to bytes.Length
      invariant hex == ToHex(bytes[..i])
    {
      assert bytes[..i + 1] == bytes[..i] + [bytes[i]];
      ToHexConcat(bytes[..i], [bytes[i]]);
      hex := hex + [HexDigit(bytes[i] / 16), HexDigit(bytes[i] % 16)];
    }
    assert bytes[..bytes.Length] == bytes[..];
  }

  method NewId(unixTsMs: nat, rand: Octets) returns (id: Text)
    requires |rand| == 10
    ensures id == IdText(unixTsMs, rand)
  {
    hide TimeByte, ToHex;
    var bytes := new Octet[16](_ => 0);
    PutTime(bytes, unixTsMs);
    PutRandom(bytes, rand);
    assert bytes[..] == Layout(unixTsMs, rand);
    var hex := WriteHex(bytes);
    return hex[..8] + [DASH] + hex[8..12] + [DASH] + hex[12..16] + [DASH] + hex[16..20] + [DASH] + hex[20..];
  }

  // ----- reading an identifier back -----

  function Ungrouped(id: Text): Text
    requires |id| == 36
  {
    id[..8] + id[9..13] + id[14..18] + id[19..23] + id[24..]
  }

  function Timestamp(bytes: Octets): nat
    requires |bytes| == 16
  {
    (((((bytes[0] as int) * 0x100 + bytes[1]) * 0x100 + bytes[2]) * 0x100 + bytes[3]) * 0x100 + bytes[4]) * 0x100 + bytes[5]
  }

  lemma RemainderIsUnique(t: int, d: int, k: int, r: int)
    requires t == d * k + r && 0 <= r < d
    ensures t % d == r
  {
    var q := t / d;
    MultiplesApart(d, k - q);
    assert d * (k - q) == t % d - r;
  }

  lemma MultiplesApart(d: int, n: int)
    requires d > 0
    ensures n >= 1 ==> d * n >= d
    ensures n <= -1 ==> d * n <= -d
  {}

  /** The lowest byte, and the others of a number cut off at m * 256. */
  lemma LowestByte(t: nat, m: nat)
    requires m > 0
    ensures t % (m * 0x100) == t / 0x100 % m * 0x100 + t % 0x100
  {
    var q := t / 0x100;
    assert q == m * (q / m) + q % m;
    assert t == m * 0x100 * (q / m) + (q % m * 0x100 + t % 0x100);
    RemainderIsUnique(t, m * 0x100, q / m, q % m * 0x100 + t % 0x100);
  }

  lemma ShiftsCompose(t: nat)
    ensures t / 0x100 / 0x100 == t / 0x1_0000 && t / 0x1_0000 / 0x100 == t / 0x100_0000
    ensures t / 0x100_0000 / 0x100 == t / 0x1_0000_0000 && t / 0x1_0000_0000 / 0x100 == t / 0x100_0000_0000
  {}

  /** The six bytes make up the instant, cut off at 48 bits. */
  lemma TimeSplits(t: nat)
    ensures t % TIME_RANGE == (((((TimeByte(t, 0) as int) * 0x100 + TimeByte(t, 1)) * 0x100 + TimeByte(t, 2)) * 0x100
      + TimeByte(t, 3)) * 0x100 + TimeByte(t, 4)) * 0x100 + TimeByte(t, 5)
  {
    ShiftsCompose(t);
    LowestByte(t, 0x100_0000_0000);
    LowestByte(t / 0x100, 0x1_0000_0000);
    LowestByte(t / 0x1_0000, 0x100_0000);
    LowestByte(t / 0x100_0000, 0x1_0000);
    LowestByte(t / 0x1_0000_0000, 0x100);
    BytesInPlace(t);
    hide TimeByte;
  }

  lemma BytesInPlace(t: nat)
    ensures TimeByte(t, 0) == t / 0x100_0000_0000 % 0x100 && TimeByte(t, 1) == t / 0x1_0000_0000 % 0x100
    ensures TimeByte(t, 2) == t / 0x100_0000 % 0x100 && TimeByte(t, 3) == t / 0x1_0000 % 0x100
    ensures TimeByte(t, 4) == t / 0x100 % 0x100 && TimeByte(t, 5) == t % 0x100
  {}

  lemma GroupsJoinAgain(hex: Text)
    requires |hex| == 32
    ensures |Grouped(hex)| == 36 && Ungrouped(Grouped(hex)) == hex
  {
    var g := Grouped(hex);
    assert g[..8] == hex[..8];
    assert g[9..13] == hex[8..12];
    assert g[14..18] == hex[12..16];
    assert g[19..23] == hex[16..20];
    assert g[24..] == hex[20..];
    hide Grouped;
    assert hex == hex[..8] + hex[8..12] + hex[12..16] + hex[16..20] + hex[20..];
  }

  /** Without dashes an identifier is the text of sixteen bytes, and the bytes can be read back. */
  lemma BytesReadBack(t: nat, rand: Octets)
    requires |rand| == 10
    ensures |IdText(t, rand)| == 36
    ensures IsHex(Ungrouped(IdText(t, rand))) && FromHex(Ungrouped(IdText(t, rand))) == Layout(t, rand)
  {
    hide TimeByte, ToHex, IsHex, FromHex, Grouped, Ungrouped, Layout;
    var hex := ToHex(Layout(t, rand));
    FromHexOfToHex(Layout(t, rand));
    GroupsJoinAgain(hex);
  }

  /** The instant, the version 7, the variant 10 and the 74 random bits all survive. */
  lemma FieldsReadBack(t: nat, rand: Octets)
    requires |rand| == 10
    ensures |IdText(t, rand)| == 36 && IsHex(Ungrouped(IdText(t, rand)))
    ensures var bytes := FromHex(Ungrouped(IdText(t, rand)));
      && Timestamp(bytes) == t % TIME_RANGE
      && bytes[6] / 0x10 == 7
      && bytes[8] / 0x40 == 2
      && bytes[6] % 0x10 == rand[0] % 0x10 && bytes[7] == rand[1] && bytes[8] % 0x40 == rand[2] % 0x40 && bytes[9..] == rand[3..]
  {
    hide TimeByte, ToHex, IsHex, FromHex, IdText, Ungrouped, Layout, Timestamp;
    BytesReadBack(t, rand);
    LayoutFields(t, rand);
  }

  lemma LayoutFields(t: nat, rand: Octets)
    requires |rand| == 10
    ensures var bytes := Layout(t, rand);
      && Timestamp(bytes) == t % TIME_RANGE
      && bytes[6] / 0x10 == 7
      && bytes[8] / 0x40 == 2
      && bytes[6] % 0x10 == rand[0] % 0x10 && bytes[7] == rand[1] && bytes[8] % 0x40 == rand[2] % 0x40 && bytes[9..] == rand[3..]
  {
    hide TimeByte;
    TimeSplits(t);
    var bytes := Layout(t, rand);
    assert bytes[6] == 0x70 + rand[0] % 0x10 && bytes[8] == 0x80 + rand[2] % 0x40;
    assert bytes[9..] == rand[3..];
  }

  predicate SameRandomBits(rand: Octets, other: Octets)
    requires |rand| == |other| == 10
  {
    rand[0] % 0x10 == other[0] % 0x10 && rand[1] == other[1] && rand[2] % 0x40 == other[2] % 0x40 && rand[3..] == other[3..]
  }

  lemma SameDigits(a: int, b: int, c: int, d: int, e: int, f: int, a': int, b': int, c': int, d': int, e': int, f': int)
    requires 0 <= b < 0x100 && 0 <= c < 0x100 && 0 <= d < 0x100 && 0 <= e < 0x100 && 0 <= f < 0x100
    requires 0 <= b' < 0x100 && 0 <= c' < 0x100 && 0 <= d' < 0x100 && 0 <= e' < 0x100 && 0 <= f' < 0x100
    requires ((((a * 0x100 + b) * 0x100 + c) * 0x100 + d) * 0x100 + e) * 0x100 + f
      == ((((a' * 0x100 + b') * 0x100 + c') * 0x100 + d') * 0x100 + e') * 0x100 + f'
    ensures a == a' && b == b' && c == c' && d == d' && e == e' && f == f'
  {}

  lemma SameTimeBytes(t: nat, u: nat)
    requires t % TIME_RANGE == u % TIME_RANGE
    ensures forall i :: 0 <= i < 6 ==> TimeByte(t, i) == TimeByte(u, i)
  {
    TimeSplits(t);
    TimeSplits(u);
    hide TimeByte;
    forall i | 0 <= i < 6 ensures TimeByte(t, i) == TimeByte(u, i) {
      SameDigits(TimeByte(t, 0), TimeByte(t, 1), TimeByte(t, 2), TimeByte(t, 3), TimeByte(t, 4), TimeByte(t, 5),
        TimeByte(u, 0), TimeByte(u, 1), TimeByte(u, 2), TimeByte(u, 3), TimeByte(u, 4), TimeByte(u, 5));
    }
  }

  /** Two identifiers are equal exactly when they were made at the same instant, modulo 48 bits, from the same 74 random bits. */
  lemma IdsEqualIff(t: nat, rand: Octets, u: nat, other: Octets)
    requires |rand| == |other| == 10
    ensures IdText(t, rand) == IdText(u, other) <==> t % TIME_RANGE == u % TIME_RANGE && SameRandomBits(rand, other)
  {
    hide TimeByte, ToHex, FromHex, IsHex, Ungrouped, Grouped;
    if IdText(t, rand) == IdText(u, other) {
      hide IdText, Layout;
      FieldsReadBack(t, rand);
      FieldsReadBack(u, other);
    } else if t % TIME_RANGE == u % TIME_RANGE {
      SameTimeBytes(t, u);
    }
  }

  // ----- the text -----

  /** The text has dashes in the four usual places, digits elsewhere, the version digit 7 and a variant digit from 8 to b. */
  lemma TextFormat(t: nat, rand: Octets)
    requires |rand| == 10
    ensures var id := IdText(t, rand);
      && |id| == 36
      && (forall i :: 0 <= i < 36 ==> if i == 8 || i == 13 || i == 18 || i == 23 then id[i] == 45 else 48 <= id[i] <= 57 || 97 <= id[i] <= 102)
      && id[14] == 55
      && (id[19] == 56 || id[19] == 57 || id[19] == 97 || id[19] == 98)
  {
    var bytes := Layout(t, rand);
    LayoutFields(t, rand);
    DigitsAt(bytes, 6);
    DigitsAt(bytes, 8);
    DigitsAreLower(bytes);
    VariantDigit(bytes[8]);
    hide ToHex, Layout, TimeByte, Grouped;
    GroupedFormat(ToHex(bytes));
  }

  lemma GroupedFormat(hex: Text)
    requires |hex| == 32 && hex[12] == 55 && (hex[16] == 56 || hex[16] == 57 || hex[16] == 97 || hex[16] == 98)
    requires forall i :: 0 <= i < 32 ==> 48 <= hex[i] <= 57 || 97 <= hex[i] <= 102
    ensures var id := Grouped(hex);
      && |id| == 36
      && (forall i :: 0 <= i < 36 ==> if i == 8 || i == 13 || i == 18 || i == 23 then id[i] == 45 else 48 <= id[i] <= 57 || 97 <= id[i] <= 102)
      && id[14] == 55
      && (id[19] == 56 || id[19] == 57 || id[19] == 97 || id[19] == 98)
  {}

  lemma VariantDigit(b: Octet)
    requires b / 0x40 == 2
    ensures 8 <= b / 16 <= 11
  {}

  lemma {:induction false} DigitsAreLower(bs: Octets)
    ensures forall i :: 0 <= i < |ToHex(bs)| ==> 48 <= ToHex(bs)[i] <= 57 || 97 <= ToHex(bs)[i] <= 102
  {
    if bs != [] {
      DigitsAreLower(bs[1..]);
    }
  }

  // ----- sorting by time -----

  /** The first byte in which two instants differ is smaller for the earlier one. */
  lemma FirstDifference(t: nat, u: nat) returns (i: nat)
    requires t % TIME_RANGE < u % TIME_RANGE
    ensures i < 6 && TimeByte(t, i) < TimeByte(u, i) && forall j :: 0 <= j < i ==> TimeByte(t, j) == TimeByte(u, j)
  {
    TimeSplits(t);
    TimeSplits(u);
    hide TimeByte;
    i := 0;
    while i < 5 && TimeByte(t, i) == TimeByte(u, i)
      invariant i <= 5 && forall j :: 0 <= j < i ==> TimeByte(t, j) == TimeByte(u, j)
    {
      i := i + 1;
    }
  }

  lemma {:induction false} LessAt(a: Text, b: Text, n: nat)
    requires n < |a| && n < |b| && a[..n] == b[..n] && a[n] < b[n]
    ensures Less(a, b)
  {
    if n > 0 {
      assert a[0] == a[..n][0] == b[..n][0] == b[0];
      assert a[1..][..n - 1] == a[..n][1..] && b[1..][..n - 1] == b[..n][1..];
      LessAt(a[1..], b[1..], n - 1);
    }
  }

  /** Two texts that first differ at place n of their first twelve still do so with the dashes in. */
  lemma GroupingKeepsOrder(a: Text, b: Text, n: nat)
    requires |a| == |b| == 32 && n < 12 && a[..n] == b[..n] && a[n] < b[n]
    ensures Less(Grouped(a), Grouped(b))
  {
    var p := if n < 8 then n else n + 1;
    var x, y := Grouped(a), Grouped(b);
    assert x[p] == a[n] && y[p] == b[n];
    forall j | 0 <= j < p ensures x[j] == y[j] {
      if j < 8 {
        assert x[j] == a[j] == a[..n][j] && y[j] == b[j] == b[..n][j];
      } else if j > 8 {
        assert x[j] == a[j - 1] == a[..n][j - 1] && y[j] == b[j - 1] == b[..n][j - 1];
      }
    }
    assert x[..p] == y[..p];
    LessAt(x, y, p);
  }

  /** Octets that first differ at place i differ first in the first or second digit there. */
  lemma HexKeepsOrder(bs: Octets, cs: Octets, i: nat) returns (n: nat)
    requires i < |bs| == |cs| && bs[..i] == cs[..i] && bs[i] < cs[i]
    ensures n == 2 * i || n == 2 * i + 1
    ensures ToHex(bs)[..n] == ToHex(cs)[..n] && ToHex(bs)[n] < ToHex(cs)[n]
  {
    DigitsAt(bs, i);
    DigitsAt(cs, i);
    hide ToHex;
    n := if bs[i] / 16 == cs[i] / 16 then 2 * i + 1 else 2 * i;
    var x, y := ToHex(bs), ToHex(cs);
    assert x[..2 * i + 1] == x[..2 * i] + [x[2 * i]] && y[..2 * i + 1] == y[..2 * i] + [y[2 * i]];
  }

  /** Identifiers sort by time as text, whatever their random bytes. */
  lemma IdsSortByTime(t: nat, rand: Octets, u: nat, other: Octets)
    requires |rand| == |other| == 10 && t % TIME_RANGE < u % TIME_RANGE
    ensures Less(IdText(t, rand), IdText(u, other))
  {
    hide TimeByte, ToHex, Less, Grouped;
    var i := FirstDifference(t, u);
    var bs, cs := Layout(t, rand), Layout(u, other);
    assert bs[..i] == cs[..i];
    var n := HexKeepsOrder(bs, cs, i);
    GroupingKeepsOrder(ToHex(bs), ToHex(cs), n);
  }
}
