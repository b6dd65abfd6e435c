/**
 A reader of JSON texts, written from the grammar of RFC 8259 (sections 2 to 7)
 without regard to how the texts are made. Canonical texts have no optional
 white space and no fractions or exponents, so it reads none. Strings are read
 in literal code units; numbers must be safe integers.
 */
module JsonReader {
  import opened Results
  import opened Text
  import C = CanonicalJson

  type Json = C.Json

  /** What was read from the front of a text, and the rest of the text. */
  datatype Reading<T> = Reading(value: T, rest: Text)

  // ----- strings (section 7) -----

  function ValueOfHex(u: CodeUnit): (r: Option<nat>)
    ensures r.Some? ==> r.value < 16
  {
    if 48 <= u <= 57 then Some(u - 48)
    else if 65 <= u <= 70 then Some(u - 55)
    else if 97 <= u <= 102 then Some(u - 87)
    else None
  }

  /** Four hexadecimal digits. */
  function HexUnit(t: Text): Option<CodeUnit>
    requires |t| == 4
  {
    var a, b, c, d := ValueOfHex(t[0]), ValueOfHex(t[1]), ValueOfHex(t[2]), ValueOfHex(t[3]);
    if a.None? || b.None? || c.None? || d.None? then None
    else Some(a.value * 4096 + b.value * 256 + c.value * 16 + d.value)
  }

  /** The character that a backslash and this one stand for. */
  function TwoCharacterEscape(u: CodeUnit): Option<CodeUnit> {
    if u == 34 then Some(34)        // quotation mark
    else if u == 92 then Some(92)   // reverse solidus
    else if u == 47 then Some(47)   // solidus
    else if u == 98 then Some(8)    // b: backspace
    else if u == 102 then Some(12)  // f: form feed
    else if u == 110 then Some(10)  // n: line feed
    else if u == 114 then Some(13)  // r: carriage return
    else if u == 116 then Some(9)   // t: tab
    else None
  }

  function Preceded(u: CodeUnit, r: Option<Reading<Text>>): Option<Reading<Text>> {
    if r.None? then None else Some(Reading([u] + r.value.value, r.value.rest))
  }

  /** The characters up to the closing quotation mark. */
  function ReadCharacters(t: Text): (r: Option<Reading<Text>>)
    ensures r.Some? ==> |r.value.rest| < |t|
  {
    if t == [] then None
    else if t[0] == 34 then Some(Reading([], t[1..]))
    else if t[0] < 32 then None
    else if t[0] != 92 then Preceded(t[0], ReadCharacters(t[1..]))
    else if |t| < 2 then None
    else if t[1] == 117 then
      if |t| < 6 || HexUnit(t[2..6]).None? then None
      else Preceded(HexUnit(t[2..6]).value, ReadCharacters(t[6..]))
    else if TwoCharacterEscape(t[1]).None? then None
    else Preceded(TwoCharacterEscape(t[1]).value, ReadCharacters(t[2..]))
  }

  // ----- numbers (section 6) -----

  predicate Digit(u: CodeUnit) {
    48 <= u <= 57
  }

  /** All digits at the front, after some that make up n. */
  function ReadDigits(t: Text, n: nat): (r: Reading<nat>)
    ensures |r.rest| <= |t|
  {
    if t == [] || !Digit(t[0]) then Reading(n, t) else ReadDigits(t[1..], n * 10 + (t[0] - 48))
  }

  /** A zero alone, or digits that do not begin with one. */
  function ReadNatural(t: Text): (r: Option<Reading<nat>>)
    ensures r.Some? ==> |r.value.rest| < |t|
  {
    if t == [] || !Digit(t[0]) then None
    else if t[0] == 48 then Some(Reading(0, t[1..]))
    else Some(ReadDigits(t[1..], t[0] - 48))
  }

  function Number(negative: bool, n: nat): Option<Json> {
    if n > 9007199254740991 then None
    else if !negative then Some(C.JInteger(n))
    else if n == 0 then Some(C.JNegativeZero)
    else Some(C.JInteger(0 - n as int))
  }

  function ReadNumber(t: Text): (r: Option<Reading<Json>>)
    ensures r.Some? ==> |r.value.rest| < |t|
  {
    var negative := t != [] && t[0] == 45;
    var natural := ReadNatural(if negative then t[1..] else t);
    if natural.None? || Number(negative, natural.value.value).None? then None
    else Some(Reading(Number(negative, natural.value.value).value, natural.value.rest))
  }

  // ----- values, arrays and objects (sections 3 to 5) -----

  function ReadValue(t: Text): (r: Option<Reading<Json>>)
    ensures r.Some? ==> |r.value.rest| < |t|
    decreases |t|, 0
  {
    if |t| >= 4 && t[..4] == [110, 117, 108, 108] then Some(Reading(C.JNull, t[4..]))
    else if |t| >= 4 && t[..4] == [116, 114, 117, 101] then Some(Reading(C.JBool(true), t[4..]))
    else if |t| >= 5 && t[..5] == [102, 97, 108, 115, 101] then Some(Reading(C.JBool(false), t[5..]))
    else if t == [] then None
    else if t[0] == 34 then
      var s := ReadCharacters(t[1..]);
      if s.None? then None else Some(Reading(C.JString(s.value.value), s.value.rest))
    else if t[0] == 91 then
      if |t| >= 2 && t[1] == 93 then Some(Reading(C.JArray([]), t[2..]))
      else
        var items := ReadItems(t[1..]);
        if items.None? then None else Some(Reading(C.JArray(items.value.value), items.value.rest))
    else if t[0] == 123 then
      if |t| >= 2 && t[1] == 125 then Some(Reading(C.JObject([]), t[2..]))
      else
        var members := ReadMembers(t[1..]);
        if members.None? then None else Some(Reading(C.JObject(members.value.value), members.value.rest))
    else ReadNumber(t)
  }

  /** One or more values with commas between them, up to the closing bracket. */
  function ReadItems(t: Text): (r: Option<Reading<seq<Json>>>)
    ensures r.Some? ==> |r.value.rest| < |t|
    decreases |t|, 1
  {
    var first := ReadValue(t);
    if first.None? || first.value.rest == [] then None
    else
      var v, rest := first.value.value, first.value.rest;
      if rest[0] == 93 then Some(Reading([v], rest[1..]))
      else if rest[0] != 44 then None
      else
        var others := ReadItems(rest[1..]);
        if others.None? then None else Some(Reading([v] + others.value.value, others.value.rest))
  }

  /** A quoted name, a colon and a value. */
  function ReadMember(t: Text): (r: Option<Reading<C.Member>>)
    ensures r.Some? ==> |r.value.rest| < |t|
    decreases |t|, 1
  {
    if t == [] || t[0] != 34 then None
    else
      var name := ReadCharacters(t[1..]);
      if name.None? || name.value.rest == [] || name.value.rest[0] != 58 then None
      else
        var v := ReadValue(name.value.rest[1..]);
        if v.None? then None else Some(Reading(C.Member(name.value.value, v.value.value), v.value.rest))
  }

  /** One or more members with commas between them, up to the closing brace. */
  function ReadMembers(t: Text): (r: Option<Reading<seq<C.Member>>>)
    ensures r.Some? ==> |r.value.rest| < |t|
    decreases |t|, 2
  {
    var first := ReadMember(t);
    if first.None? || first.value.rest == [] then None
    else
      var m, rest := first.value.value, first.value.rest;
      if rest[0] == 125 then Some(Reading([m], rest[1..]))
      else if rest[0] != 44 then None
      else
        var others := ReadMembers(rest[1..]);
        if others.None? then None else Some(Reading([m] + others.value.value, others.value.rest))
  }

  /** The value of a whole text. */
  function ReadText(t: Text): Option<Json> {
    var r := ReadValue(t);
    if r.Some? && r.value.rest == [] then Some(r.value.value) else None
  }
}
