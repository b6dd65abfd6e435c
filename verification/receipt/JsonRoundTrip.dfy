/** The canonical text is JSON: the reader takes every canonical text back to the value it was made from. */
module JsonRoundTrip {
  import opened Results
  import opened Sequences
  import opened Sorting
  import opened Text
  import opened Hexadecimal
  import opened JsonText
  import opened CanonicalJson
  import R = JsonReader

  // ----- strings -----

  lemma HexDigitRead(d: nat)
    requires d < 16
    ensures R.ValueOfHex(HexDigit(d)) == Some(d)
  {}

  lemma HexUnitRead(u: CodeUnit)
    ensures R.HexUnit(Hex4(u)) == Some(u)
  {
    Hex4Value(u);
    HexDigitRead(u / 0x1000);
    HexDigitRead(u / 0x100 % 16);
    HexDigitRead(u / 0x10 % 16);
    HexDigitRead(u % 16);
    hide HexDigit, R.ValueOfHex;
  }

  lemma ShortEscapeRead(u: CodeUnit, x: Text)
    requires ShortEscape(u) != 0
    ensures R.ReadCharacters([92, ShortEscape(u)] + x) == R.Preceded(u, R.ReadCharacters(x))
  {
    assert ([92, ShortEscape(u)] + x)[2..] == x;
  }

  lemma LongEscapeRead(u: CodeUnit, x: Text)
    ensures R.ReadCharacters([92, 117] + Hex4(u) + x) == R.Preceded(u, R.ReadCharacters(x))
  {
    HexUnitRead(u);
    hide R.HexUnit, R.Preceded;
    var h := Hex4(u);
    var t := [92, 117] + h + x;
    assert |h| == 4;
    hide Hex4;
    assert t[2..6] == h && t[6..] == x && t[0] == 92 && t[1] == 117;
  }

  lemma PlainRead(u: CodeUnit, x: Text)
    requires u >= 32 && u != 34 && u != 92
    ensures R.ReadCharacters([u] + x) == R.Preceded(u, R.ReadCharacters(x))
  {
    assert ([u] + x)[1..] == x;
  }

  lemma UnitRead(u: CodeUnit, x: Text)
    ensures R.ReadCharacters(EscapeUnit(u) + x) == R.Preceded(u, R.ReadCharacters(x))
  {
    hide R.ReadCharacters, R.Preceded, Hex4;
    if ShortEscape(u) != 0 {
      ShortEscapeRead(u, x);
    } else if u < 0x20 || IsHighSurrogate(u) || IsLowSurrogate(u) {
      LongEscapeRead(u, x);
    } else {
      PlainRead(u, x);
    }
  }

  lemma PrecededTwice(u: CodeUnit, v: CodeUnit, s: Text, x: Text)
    ensures R.Preceded(u, R.Preceded(v, Some(R.Reading(s, x)))) == Some(R.Reading([u, v] + s, x))
  {
    assert [u] + ([v] + s) == [u, v] + s;
  }

  /** Reading what was escaped, up to the closing quotation mark. */
  lemma {:induction false} CharactersRead(s: Text, x: Text)
    ensures R.ReadCharacters(Escape(s) + ([34] + x)) == Some(R.Reading(s, x))
    decreases |s|
  {
    if s == [] {
      assert ([34] + x)[1..] == x;
      assert Escape(s) + ([34] + x) == [34] + x;
    } else if StartsWithPair(s) {
      var rest := Escape(s[2..]) + ([34] + x);
      CharactersRead(s[2..], x);
      EscapePair(s, [34] + x);
      hide R.ReadCharacters, R.Preceded, Escape;
      PlainRead(s[1], rest);
      PlainRead(s[0], [s[1]] + rest);
      assert [s[0], s[1]] + rest == [s[0]] + ([s[1]] + rest);
      PrecededTwice(s[0], s[1], s[2..], x);
      assert [s[0], s[1]] + s[2..] == s;
    } else {
      CharactersRead(s[1..], x);
      EscapeSingle(s, [34] + x);
      hide R.ReadCharacters, Escape, EscapeUnit;
      UnitRead(s[0], Escape(s[1..]) + ([34] + x));
      assert [s[0]] + s[1..] == s;
    }
  }

  lemma QuoteRead(s: Text, x: Text)
    ensures Quote(s) != [] && (Quote(s) + x)[0] == 34
    ensures R.ReadCharacters((Quote(s) + x)[1..]) == Some(R.Reading(s, x))
  {
    CharactersRead(s, x);
    hide R.ReadCharacters, Escape;
    assert (Quote(s) + x)[1..] == Escape(s) + ([34] + x);
  }

  // ----- numbers -----

  lemma {:induction false} DigitsRead(n: nat, y: Text)
    requires n > 0
    ensures Digits(n) != [] && Digits(n)[0] != 48
    ensures R.ReadNatural(Digits(n) + y) == Some(R.ReadDigits(y, n))
  {
    if n < 10 {
      assert (Digits(n) + y)[1..] == y;
    } else {
      var d: CodeUnit := 48 + n % 10;
      DigitsRead(n / 10, [d] + y);
      hide R.ReadNatural;
      assert Digits(n) + y == Digits(n / 10) + ([d] + y);
      hide Digits;
      assert ([d] + y)[1..] == y && n / 10 * 10 + n % 10 == n;
    }
  }

  lemma NaturalRead(n: nat, x: Text)
    requires EndsNumber(x)
    ensures Digits(n) != [] && 48 <= Digits(n)[0] <= 57
    ensures R.ReadNatural(Digits(n) + x) == Some(R.Reading(n, x))
  {
    if n == 0 {
      assert Digits(0) == [48] && ([48] + x)[1..] == x;
    } else {
      DigitsRead(n, x);
      DigitsAreDigits(n);
    }
  }

  lemma {:induction false} DigitsAreDigits(n: nat)
    ensures Digits(n) != [] && 48 <= Digits(n)[0] <= 57
  {
    if n >= 10 {
      DigitsAreDigits(n / 10);
    }
  }

  lemma NumberRead(n: SafeInteger, x: Text)
    requires EndsNumber(x)
    ensures R.ReadNumber(IntegerText(n) + x) == Some(R.Reading(JInteger(n), x))
    ensures IntegerText(n) != [] && (IntegerText(n)[0] == 45 || 48 <= IntegerText(n)[0] <= 57)
  {
    hide Digits, R.ReadNatural;
    if n >= 0 {
      NaturalRead(n, x);
    } else {
      NaturalRead(-n, x);
      WithoutHead(45, Digits(-n), x);
      assert IntegerText(n) == [45] + Digits(-n);
      hide IntegerText, EndsNumber;
      NegativeByStart([45] + Digits(-n) + x, -n, x);
    }
  }

  lemma NegativeByStart(t: Text, n: nat, x: Text)
    requires t != [] && t[0] == 45 && 0 < n <= 9007199254740991 && R.ReadNatural(t[1..]) == Some(R.Reading(n, x))
    ensures R.ReadNumber(t) == Some(R.Reading(JInteger(0 - n), x))
  {
    hide R.ReadNatural;
  }

  // ----- values -----

  lemma LiteralsRead(x: Text)
    ensures R.ReadValue(NULL_TEXT + x) == Some(R.Reading(JNull, x))
    ensures R.ReadValue(TRUE_TEXT + x) == Some(R.Reading(JBool(true), x))
    ensures R.ReadValue(FALSE_TEXT + x) == Some(R.Reading(JBool(false), x))
  {
    assert (NULL_TEXT + x)[..4] == NULL_TEXT && (NULL_TEXT + x)[4..] == x;
    assert (TRUE_TEXT + x)[..4] == TRUE_TEXT && (TRUE_TEXT + x)[4..] == x;
    assert (FALSE_TEXT + x)[..5] == FALSE_TEXT && (FALSE_TEXT + x)[5..] == x && (FALSE_TEXT + x)[0] == 102;
    assert (FALSE_TEXT + x)[..4] != [110, 117, 108, 108] && (FALSE_TEXT + x)[..4] != [116, 114, 117, 101];
    assert NULL_TEXT[0] != TRUE_TEXT[0];
  }

  /** What does not begin like null, true or false is read by its first character. */
  lemma NoLiteral(t: Text)
    requires t != [] && t[0] != 110 && t[0] != 116 && t[0] != 102
    ensures !(|t| >= 4 && t[..4] == [110, 117, 108, 108]) && !(|t| >= 4 && t[..4] == [116, 114, 117, 101])
    ensures !(|t| >= 5 && t[..5] == [102, 97, 108, 115, 101])
  {
    assert |t| >= 4 ==> t[..4][0] == t[0];
    assert |t| >= 5 ==> t[..5][0] == t[0];
  }

  lemma StringByStart(t: Text, s: Text, x: Text)
    requires t != [] && t[0] == 34 && R.ReadCharacters(t[1..]) == Some(R.Reading(s, x))
    ensures R.ReadValue(t) == Some(R.Reading(JString(s), x))
  {
    NoLiteral(t);
    hide R.ReadCharacters, R.ReadNumber, R.ReadItems, R.ReadMembers;
  }

  lemma NumberByStart(t: Text)
    requires t != [] && (t[0] == 45 || 48 <= t[0] <= 57)
    ensures R.ReadValue(t) == R.ReadNumber(t)
  {
    NoLiteral(t);
    hide R.ReadCharacters, R.ReadNumber, R.ReadItems, R.ReadMembers;
  }

  lemma ArrayByStart(t: Text, items: seq<Json>, x: Text)
    requires t != [] && t[0] != 93 && R.ReadItems(t) == Some(R.Reading(items, x))
    ensures R.ReadValue([91] + t) == Some(R.Reading(JArray(items), x))
  {
    NoLiteral([91] + t);
    assert ([91] + t)[1..] == t;
    hide R.ReadCharacters, R.ReadNumber, R.ReadItems, R.ReadMembers;
  }

  lemma ObjectByStart(t: Text, members: seq<Member>, x: Text)
    requires t != [] && t[0] != 125 && R.ReadMembers(t) == Some(R.Reading(members, x))
    ensures R.ReadValue([123] + t) == Some(R.Reading(JObject(members), x))
  {
    NoLiteral([123] + t);
    assert ([123] + t)[1..] == t;
    hide R.ReadCharacters, R.ReadNumber, R.ReadItems, R.ReadMembers;
  }

  lemma EmptyByStart(x: Text)
    ensures R.ReadValue([91, 93] + x) == Some(R.Reading(JArray([]), x))
    ensures R.ReadValue([123, 125] + x) == Some(R.Reading(JObject([]), x))
  {
    NoLiteral([91, 93] + x);
    NoLiteral([123, 125] + x);
    assert ([91, 93] + x)[2..] == x && ([123, 125] + x)[2..] == x;
    hide R.ReadCharacters, R.ReadNumber, R.ReadItems, R.ReadMembers;
  }

  /** Every plainly printed value is read back, whatever follows that does not go on with a number. */
  lemma {:induction false} ValueRead(v: Json, x: Text)
    requires Plain(v) && EndsNumber(x)
    ensures R.ReadValue(Print(v) + x) == Some(R.Reading(v, x))
    decreases v, 2
  {
    hide R.ReadValue, R.ReadCharacters, R.ReadNumber, R.ReadItems, R.ReadMembers, Quote, IntegerText, Join;
    match v
    case JNull => LiteralsRead(x);
    case JBool(b) => LiteralsRead(x);
    case JString(s) =>
      QuoteRead(s, x);
      StringByStart(Quote(s) + x, s, x);
    case JInteger(n) =>
      NumberRead(n, x);
      NumberByStart(IntegerText(n) + x);
    case JArray(items) => ArrayRead(items, x);
    case JObject(members) => ObjectRead(members, x);
  }

  lemma Enclosed(open: CodeUnit, t: Text, close: CodeUnit, x: Text)
    ensures [open] + t + [close] + x == [open] + (t + [close] + x)
  {}

  lemma {:induction false} ArrayRead(items: seq<Json>, x: Text)
    requires (forall i :: 0 <= i < |items| ==> Plain(items[i])) && EndsNumber(x)
    ensures R.ReadValue([91] + Join(ItemPrints(items)) + [93] + x) == Some(R.Reading(JArray(items), x))
    decreases items, 2
  {
    if items == [] {
      EmptyByStart(x);
      assert [91] + Join(ItemPrints(items)) + [93] + x == [91, 93] + x;
    } else {
      var t := Body(ItemPrints(items), 93) + x;
      JoinIsBody(ItemPrints(items), 93);
      ItemBodyStarts(items, x);
      ItemsRead(items, x);
      hide R.ReadValue, R.ReadItems, Join, Body, ItemPrints;
      Enclosed(91, Join(ItemPrints(items)), 93, x);
      ArrayByStart(t, items, x);
    }
  }

  /** What follows the first of several texts. */
  lemma AfterFirst(texts: seq<Text>, close: CodeUnit, x: Text)
    ensures var rest := Tail(texts, close) + x;
      && rest != []
      && (texts == [] ==> rest[0] == close && rest[1..] == x)
      && (texts != [] ==> rest[0] == 44 && rest[1..] == Body(texts, close) + x)
  {
    if texts != [] {
      TailIsBody(texts, close);
      hide Tail, Body;
      WithoutHead(44, Body(texts, close), x);
    } else {
      WithoutHead(close, [], x);
    }
  }

  lemma WithoutHead(u: CodeUnit, b: Text, x: Text)
    ensures [u] + b + x != [] && ([u] + b + x)[0] == u && ([u] + b + x)[1..] == b + x
    ensures b == [] ==> [u] + b + x == [u] + x && b + x == x
  {}

  lemma LastItemRead(t: Text, v: Json, rest: Text)
    requires R.ReadValue(t) == Some(R.Reading(v, rest)) && rest != [] && rest[0] == 93
    ensures R.ReadItems(t) == Some(R.Reading([v], rest[1..]))
  {
    hide R.ReadValue;
  }

  lemma FirstItemRead(t: Text, v: Json, rest: Text, vs: seq<Json>, x: Text)
    requires R.ReadValue(t) == Some(R.Reading(v, rest)) && rest != [] && rest[0] == 44
    requires R.ReadItems(rest[1..]) == Some(R.Reading(vs, x))
    ensures R.ReadItems(t) == Some(R.Reading([v] + vs, x))
  {
    hide R.ReadValue;
  }

  lemma {:induction false} ItemsRead(vs: seq<Json>, x: Text)
    requires vs != [] && forall i :: 0 <= i < |vs| ==> Plain(vs[i])
    ensures R.ReadItems(Body(ItemPrints(vs), 93) + x) == Some(R.Reading(vs, x))
    decreases vs, 1
  {
    NoItemPrints(vs[1..]);
    hide R.ReadValue, R.ReadItems, Print, Tail, Body, ItemPrints, Plain, EndsNumber;
    var others := ItemPrints(vs[1..]);
    var rest := Tail(others, 93) + x;
    TailEndsNumber(others, 93, x);
    ValueRead(vs[0], rest);
    ItemBody(vs, x);
    AfterFirst(others, 93, x);
    if |vs| == 1 {
      LastItemRead(Print(vs[0]) + rest, vs[0], rest);
      assert vs == [vs[0]];
    } else {
      ItemsRead(vs[1..], x);
      FirstItemRead(Print(vs[0]) + rest, vs[0], rest, vs[1..], x);
      assert vs == [vs[0]] + vs[1..];
    }
  }

  lemma NoItemPrints(vs: seq<Json>)
    ensures ItemPrints(vs) == [] <==> vs == []
  {}

  lemma ItemBody(vs: seq<Json>, x: Text)
    requires vs != []
    ensures Body(ItemPrints(vs), 93) + x == Print(vs[0]) + (Tail(ItemPrints(vs[1..]), 93) + x)
  {
    assert ItemPrints(vs)[0] == Print(vs[0]) && ItemPrints(vs)[1..] == ItemPrints(vs[1..]);
    hide Print, Tail, ItemPrints;
  }

  lemma {:induction false} ObjectRead(members: seq<Member>, x: Text)
    requires (forall i :: 0 <= i < |members| ==> Plain(members[i].value)) && EndsNumber(x)
    ensures R.ReadValue([123] + Join(MemberPrints(members)) + [125] + x) == Some(R.Reading(JObject(members), x))
    decreases members, 2
  {
    if members == [] {
      EmptyByStart(x);
      assert [123] + Join(MemberPrints(members)) + [125] + x == [123, 125] + x;
    } else {
      var t := Body(MemberPrints(members), 125) + x;
      JoinIsBody(MemberPrints(members), 125);
      MemberBodyStarts(members, x);
      MembersRead(members, x);
      hide R.ReadValue, R.ReadMembers, Join, Body, MemberPrints;
      Enclosed(123, Join(MemberPrints(members)), 125, x);
      ObjectByStart(t, members, x);
    }
  }

  lemma {:induction false} MemberRead(m: Member, y: Text)
    requires Plain(m.value) && EndsNumber(y)
    ensures R.ReadMember(Quote(m.key) + ([58] + (Print(m.value) + y))) == Some(R.Reading(m, y))
    decreases m, 3
  {
    var rest := [58] + (Print(m.value) + y);
    QuoteRead(m.key, rest);
    ValueRead(m.value, y);
    hide R.ReadValue, R.ReadCharacters, Print, Quote;
    assert rest[1..] == Print(m.value) + y;
  }

  lemma LastMemberRead(t: Text, m: Member, rest: Text)
    requires R.ReadMember(t) == Some(R.Reading(m, rest)) && rest != [] && rest[0] == 125
    ensures R.ReadMembers(t) == Some(R.Reading([m], rest[1..]))
  {
    hide R.ReadMember;
  }

  lemma FirstMemberRead(t: Text, m: Member, rest: Text, ms: seq<Member>, x: Text)
    requires R.ReadMember(t) == Some(R.Reading(m, rest)) && rest != [] && rest[0] == 44
    requires R.ReadMembers(rest[1..]) == Some(R.Reading(ms, x))
    ensures R.ReadMembers(t) == Some(R.Reading([m] + ms, x))
  {
    hide R.ReadMember;
  }

  lemma {:induction false} FirstOfMembers(vs: seq<Member>, x: Text)
    requires vs != [] && Plain(vs[0].value)
    ensures R.ReadMember(Body(MemberPrints(vs), 125) + x) == Some(R.Reading(vs[0], Tail(MemberPrints(vs[1..]), 125) + x))
    decreases vs, 0, 0
  {
    hide R.ReadMember, Print, Quote, Tail, Body, MemberPrints, Plain, EndsNumber;
    TailEndsNumber(MemberPrints(vs[1..]), 125, x);
    MemberRead(vs[0], Tail(MemberPrints(vs[1..]), 125) + x);
    MemberBody(vs, x);
  }

  lemma {:induction false} MembersRead(vs: seq<Member>, x: Text)
    requires vs != [] && forall i :: 0 <= i < |vs| ==> Plain(vs[i].value)
    ensures R.ReadMembers(Body(MemberPrints(vs), 125) + x) == Some(R.Reading(vs, x))
    decreases vs, 1
  {
    hide R.ReadMembers, Body, MemberPrints, Plain;
    if |vs| > 1 {
      MembersRead(vs[1..], x);
    }
    MembersStep(vs, x);
  }

  lemma {:induction false} MembersStep(vs: seq<Member>, x: Text)
    requires vs != [] && Plain(vs[0].value)
    requires |vs| > 1 ==> R.ReadMembers(Body(MemberPrints(vs[1..]), 125) + x) == Some(R.Reading(vs[1..], x))
    ensures R.ReadMembers(Body(MemberPrints(vs), 125) + x) == Some(R.Reading(vs, x))
    decreases vs, 0, 1
  {
    NoMemberPrints(vs[1..]);
    FirstOfMembers(vs, x);
    AfterFirst(MemberPrints(vs[1..]), 125, x);
    assert vs == [vs[0]] + vs[1..];
    hide *;
    MembersJoin(Body(MemberPrints(vs), 125) + x, vs[0], Tail(MemberPrints(vs[1..]), 125) + x, vs[1..], x);
  }

  /** Members are read as the first one and, after a comma, the others. */
  lemma MembersJoin(t: Text, m: Member, rest: Text, ms: seq<Member>, x: Text)
    requires R.ReadMember(t) == Some(R.Reading(m, rest)) && rest != []
    requires ms == [] ==> rest[0] == 125 && rest[1..] == x
    requires ms != [] ==> rest[0] == 44 && R.ReadMembers(rest[1..]) == Some(R.Reading(ms, x))
    ensures R.ReadMembers(t) == Some(R.Reading([m] + ms, x))
  {
    hide *;
    if ms == [] {
      LastMemberRead(t, m, rest);
      assert [m] + ms == [m];
    } else {
      FirstMemberRead(t, m, rest, ms, x);
    }
  }

  lemma NoMemberPrints(vs: seq<Member>)
    ensures MemberPrints(vs) == [] <==> vs == []
  {}

  /** Reading the canonical text of any value gives its normal form. */
  lemma CanonicalTextIsJson(v: Json)
    ensures R.ReadText(CanonicalText(v)) == Some(Normal(v))
  {
    CanonicalIsPrinted(v);
    NormalIsPlain(v);
    ValueRead(Normal(v), []);
    hide R.ReadValue, CanonicalText, Print, Normal;
    assert Print(Normal(v)) + [] == Print(Normal(v));
  }

  // ----- what is read is the value, with its keys in order -----

  /** a comes before b: at the first difference its unit is smaller, or it ends. */
  ghost predicate Earlier(a: Text, b: Text) {
    exists n :: 0 <= n <= |a| && n < |b| && a[..n] == b[..n] && (n == |a| || a[n] < b[n])
  }

  /** In every object, at any depth, the keys ascend. */
  ghost predicate KeysAscend(v: Json) {
    match v
    case JArray(items) => forall i :: 0 <= i < |items| ==> KeysAscend(items[i])
    case JObject(members) =>
      && (forall i, j :: 0 <= i < j < |members| ==> Earlier(members[i].key, members[j].key))
      && (forall i :: 0 <= i < |members| ==> KeysAscend(members[i].value))
    case _ => true
  }

  lemma SortedMembers(members: seq<Member>)
    requires Distinct(Keys(members))
    ensures var s := Sort(NormalMembers(members), MemberBefore);
      && |s| == |members| && Sorted(s, MemberBefore) && NoTies(s, MemberBefore)
      && (forall i, j :: 0 <= i < j < |s| ==> Less(s[i].key, s[j].key))
      && (forall i :: 0 <= i < |s| ==> exists k :: 0 <= k < |members| && s[i] == Member(members[k].key, Normal(members[k].value)))
  {
    hide Normal, NormalMembers, Sort, Less;
    var ms, s := NormalMembers(members), Sort(NormalMembers(members), MemberBefore);
    NormalMemberAt(members);
    NormalMembersDistinct(members);
    MemberBeforeIsWeakOrder();
    SortIsSorted(ms, MemberBefore);
    SameElements(s, ms);
    DistinctPermutation(s, ms);
    hide Permutation;
    forall i, j | 0 <= i < j < |s| ensures Less(s[i].key, s[j].key) {
      assert !MemberBefore(s[j], s[i]) && s[i] in ms && s[j] in ms && s[i] != s[j];
    }
    forall i | 0 <= i < |s| ensures exists k :: 0 <= k < |members| && s[i] == Member(members[k].key, Normal(members[k].value)) {
      assert s[i] in ms;
      var k :| 0 <= k < |ms| && ms[k] == s[i];
    }
  }

  ghost predicate ValueIsNormal(v: Json) {
    WellFormed(v) && KeysAscend(v) && Normal(v) == v
  }

  /** The normal form is itself a normal value, with the keys of its objects in order. */
  lemma {:induction false} NormalIsNormal(v: Json)
    requires WellFormed(v)
    ensures ValueIsNormal(Normal(v))
    decreases v
  {
    match v
    case JArray(items) =>
      forall i | 0 <= i < |items|
        ensures ValueIsNormal(Normal(items[i]))
      {
        NormalIsNormal(items[i]);
      }
      ArrayIsNormal(items);
    case JObject(members) =>
      forall i | 0 <= i < |members|
        ensures ValueIsNormal(Normal(members[i].value))
      {
        NormalIsNormal(members[i].value);
      }
      ObjectIsNormal(members);
    case _ =>
  }

  lemma ArrayIsNormal(items: seq<Json>)
    requires forall i :: 0 <= i < |items| ==> ValueIsNormal(Normal(items[i]))
    ensures ValueIsNormal(Normal(JArray(items)))
  {
    NormalItemAt(items);
    var ns := NormalItems(items);
    NormalItemAt(ns);
    assert Normal(JArray(items)) == JArray(ns) && Normal(JArray(ns)) == JArray(NormalItems(ns));
    assert forall i :: 0 <= i < |ns| ==> ValueIsNormal(ns[i]);
    hide Normal, NormalItems;
    assert NormalItems(ns) == ns;
  }

  lemma ObjectIsNormal(members: seq<Member>)
    requires Distinct(Keys(members)) && forall i :: 0 <= i < |members| ==> ValueIsNormal(Normal(members[i].value))
    ensures ValueIsNormal(Normal(JObject(members)))
  {
    var s := Sort(NormalMembers(members), MemberBefore);
    assert Normal(JObject(members)) == JObject(s);
    SortedMembers(members);
    hide Normal, NormalMembers, Sort, Less, Sorted, NoTies, ValueIsNormal, Distinct, Keys;
    forall i | 0 <= i < |s| ensures ValueIsNormal(s[i].value) {
      var k :| 0 <= k < |members| && s[i] == Member(members[k].key, Normal(members[k].value));
    }
    SortedObjectIsNormal(s);
  }

  lemma SortedObjectIsNormal(s: seq<Member>)
    requires Sorted(s, MemberBefore) && NoTies(s, MemberBefore)
    requires forall i, j :: 0 <= i < j < |s| ==> Less(s[i].key, s[j].key)
    requires forall i :: 0 <= i < |s| ==> ValueIsNormal(s[i].value)
    ensures ValueIsNormal(JObject(s))
  {
    AscendingObject(s);
    assert Normal(JObject(s)) == JObject(Sort(NormalMembers(s), MemberBefore));
    NormalMemberAt(s);
    MemberBeforeIsWeakOrder();
    hide Normal, NormalMembers, Sort, Less, Sorted, NoTies, KeysAscend, WellFormed;
    assert NormalMembers(s) == s;
    SortOfSorted(s, MemberBefore);
  }

  lemma AscendingObject(s: seq<Member>)
    requires forall i, j :: 0 <= i < j < |s| ==> Less(s[i].key, s[j].key)
    requires forall i :: 0 <= i < |s| ==> ValueIsNormal(s[i].value)
    ensures WellFormed(JObject(s)) && KeysAscend(JObject(s))
  {
    hide Normal, Less;
    forall i, j | 0 <= i < j < |s| ensures Earlier(s[i].key, s[j].key) && s[i].key != s[j].key {
      LessMeans(s[i].key, s[j].key);
      NotBeforeItself(s[i].key, s[j].key);
    }
    hide Earlier;
    assert Distinct(Keys(s));
  }

  lemma NotBeforeItself(a: Text, b: Text)
    requires Less(a, b)
    ensures a != b
  {
    LessIsAsymmetric(a, b);
  }

  /**
   The canonical text is a JSON text. Reading it gives the value it was made from, with the keys of every object in
   ascending order.
   */
  lemma CanonicalTextReadsBack(v: Json)
    requires WellFormed(v)
    ensures R.ReadText(CanonicalText(v)) == Some(Normal(v)) && KeysAscend(Normal(v)) && Same(v, Normal(v))
  {
    CanonicalTextIsJson(v);
    NormalIsNormal(v);
    SameNormalIffSame(v, Normal(v));
  }
}
