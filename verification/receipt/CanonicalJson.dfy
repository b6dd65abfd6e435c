/** Canonical JSON: object keys sorted at every level, then rendered. */
module CanonicalJson {
  import opened Sequences
  import opened Sorting
  import opened Text
  import opened JsonText

  const MAX_SAFE_INTEGER: int := 0x1F_FFFF_FFFF_FFFF

  type SafeInteger = n: int | -MAX_SAFE_INTEGER <= n <= MAX_SAFE_INTEGER witness 0

  /** A value as the encoder meets it; the members of an object are in the order the caller listed them. */
  datatype Json =
    | JUndefined
    | JNull
    | JBool(b: bool)
    | JString(s: Text)
    | JInteger(n: SafeInteger)
    | JNegativeZero
    | JNotFinite // NaN and the two infinities
    | JArray(items: seq<Json>)
    | JObject(members: seq<Member>)

  datatype Member = Member(key: Text, value: Json)

  const COMMA: CodeUnit := 0x2C
  const COLON: CodeUnit := 0x3A
  const OPEN_BRACKET: CodeUnit := 0x5B
  const CLOSE_BRACKET: CodeUnit := 0x5D
  const OPEN_BRACE: CodeUnit := 0x7B
  const CLOSE_BRACE: CodeUnit := 0x7D
  const NULL_TEXT: Text := [0x6E, 0x75, 0x6C, 0x6C]
  const TRUE_TEXT: Text := [0x74, 0x72, 0x75, 0x65]
  const FALSE_TEXT: Text := [0x66, 0x61, 0x6C, 0x73, 0x65]

  function Keys(members: seq<Member>): seq<Text> {
    Map(members, (m: Member) => m.key)
  }

  /** No object, at any depth, has the same key twice. */
  ghost predicate WellFormed(v: Json) {
    match v
    case JArray(items) => forall i :: 0 <= i < |items| ==> WellFormed(items[i])
    case JObject(members) => Distinct(Keys(members)) && forall i :: 0 <= i < |members| ==> WellFormed(members[i].value)
    case _ => true
  }

  // ----- the encoder -----

  /** A member whose value is already rendered. */
  datatype Rendered = Rendered(key: Text, text: Text)

  predicate RenderedBefore(a: Rendered, b: Rendered) {
    Less(a.key, b.key)
  }

  function Join(texts: seq<Text>): Text {
    if texts == [] then []
    else if |texts| == 1 then texts[0]
    else texts[0] + [COMMA] + Join(texts[1..])
  }

  function MemberText(r: Rendered): Text {
    Quote(r.key) + [COLON] + r.text
  }

  function CanonicalText(v: Json): Text {
    match v
    case JUndefined => NULL_TEXT
    case JNull => NULL_TEXT
    case JBool(b) => if b then TRUE_TEXT else FALSE_TEXT
    case JString(s) => Quote(s)
    case JInteger(n) => IntegerText(n)
    case JNegativeZero => IntegerText(0)
    case JNotFinite => NULL_TEXT
    case JArray(items) => [OPEN_BRACKET] + Join(ItemTexts(items)) + [CLOSE_BRACKET]
    case JObject(members) => [OPEN_BRACE] + Join(Map(Sort(RenderedMembers(members), RenderedBefore), MemberText)) + [CLOSE_BRACE]
  }

  function ItemTexts(items: seq<Json>): seq<Text> {
    if items == [] then [] else [CanonicalText(items[0])] + ItemTexts(items[1..])
  }

  function RenderedMembers(members: seq<Member>): seq<Rendered> {
    if members == [] then []
    else [Rendered(members[0].key, CanonicalText(members[0].value))] + RenderedMembers(members[1..])
  }

  /** The members come out in the order of their sorted keys. */
  lemma RenderedInKeyOrder(members: seq<Member>)
    ensures Map(Sort(RenderedMembers(members), RenderedBefore), (r: Rendered) => r.key) == Sort(Keys(members), Less)
  {
    SortMap(RenderedMembers(members), RenderedBefore, (r: Rendered) => r.key, Less);
    RenderedKeys(members);
  }

  lemma {:induction false} RenderedKeys(members: seq<Member>)
    ensures Map(RenderedMembers(members), (r: Rendered) => r.key) == Keys(members)
  {
    if members != [] {
      RenderedKeys(members[1..]);
    }
  }

  // ----- what a text stands for -----

  predicate MemberBefore(a: Member, b: Member) {
    Less(a.key, b.key)
  }

  /**
   The value up to what the encoding ignores: key order, undefined and numbers that are not finite, which are written
   as null, and the sign of zero.
   */
  function Normal(v: Json): Json {
    match v
    case JUndefined => JNull
    case JNotFinite => JNull
    case JNegativeZero => JInteger(0)
    case JArray(items) => JArray(NormalItems(items))
    case JObject(members) => JObject(Sort(NormalMembers(members), MemberBefore))
    case _ => v
  }

  function NormalItems(items: seq<Json>): seq<Json> {
    if items == [] then [] else [Normal(items[0])] + NormalItems(items[1..])
  }

  function NormalMembers(members: seq<Member>): seq<Member> {
    if members == [] then []
    else [Member(members[0].key, Normal(members[0].value))] + NormalMembers(members[1..])
  }

  /** The plain rendering: members in the order they are in. */
  function Print(v: Json): Text {
    match v
    case JUndefined => NULL_TEXT
    case JNull => NULL_TEXT
    case JBool(b) => if b then TRUE_TEXT else FALSE_TEXT
    case JString(s) => Quote(s)
    case JInteger(n) => IntegerText(n)
    case JNegativeZero => IntegerText(0)
    case JNotFinite => NULL_TEXT
    case JArray(items) => [OPEN_BRACKET] + Join(ItemPrints(items)) + [CLOSE_BRACKET]
    case JObject(members) => [OPEN_BRACE] + Join(MemberPrints(members)) + [CLOSE_BRACE]
  }

  function ItemPrints(items: seq<Json>): seq<Text> {
    if items == [] then [] else [Print(items[0])] + ItemPrints(items[1..])
  }

  function MemberPrints(members: seq<Member>): seq<Text> {
    if members == [] then []
    else [MemberText(Rendered(members[0].key, Print(members[0].value)))] + MemberPrints(members[1..])
  }

  function Render(m: Member): Rendered {
    Rendered(m.key, Print(m.value))
  }

  lemma {:induction false} MemberPrintsByMap(members: seq<Member>)
    ensures MemberPrints(members) == Map(Map(members, Render), MemberText)
  {
    if members != [] {
      MemberPrintsByMap(members[1..]);
    }
  }

  /** Sorting rendered members is rendering sorted members, so the canonical text is the plain text of the normal form. */
  lemma {:induction false} CanonicalIsPrinted(v: Json)
    ensures CanonicalText(v) == Print(Normal(v))
    decreases v, 1
  {
    match v
    case JArray(items) => ItemsArePrinted(items);
    case JObject(members) =>
      MembersAreRendered(members);
      var normal := NormalMembers(members);
      SortMap(normal, MemberBefore, Render, RenderedBefore);
      MemberPrintsByMap(Sort(normal, MemberBefore));
    case _ =>
  }

  lemma {:induction false} ItemsArePrinted(items: seq<Json>)
    ensures ItemTexts(items) == ItemPrints(NormalItems(items))
    decreases items
  {
    if items != [] {
      CanonicalIsPrinted(items[0]);
      ItemsArePrinted(items[1..]);
    }
  }

  lemma {:induction false} MembersAreRendered(members: seq<Member>)
    ensures RenderedMembers(members) == Map(NormalMembers(members), Render)
    decreases members
  {
    if members != [] {
      CanonicalIsPrinted(members[0].value);
      MembersAreRendered(members[1..]);
    }
  }

  // ----- reading the plain rendering back -----

  /** Nothing anywhere that is written as something else. */
  predicate Plain(v: Json) {
    match v
    case JUndefined => false
    case JNegativeZero => false
    case JNotFinite => false
    case JArray(items) => forall i :: 0 <= i < |items| ==> Plain(items[i])
    case JObject(members) => forall i :: 0 <= i < |members| ==> Plain(members[i].value)
    case _ => true
  }

  function Kind(v: Json): nat {
    match v
    case JUndefined => 0
    case JNull => 0
    case JBool(_) => 1
    case JString(_) => 2
    case JInteger(_) => 3
    case JNegativeZero => 3
    case JNotFinite => 0
    case JArray(_) => 4
    case JObject(_) => 5
  }

  /** The kind of value that a text starting with u begins with. */
  function KindOfStart(u: CodeUnit): nat {
    if u == 0x6E then 0
    else if u == 0x74 || u == 0x66 then 1
    else if u == QUOTE then 2
    else if u == MINUS || IsDigit(u) then 3
    else if u == OPEN_BRACKET then 4
    else if u == OPEN_BRACE then 5
    else 6
  }

  lemma PrintStarts(v: Json, x: Text)
    ensures Print(v) != [] && KindOfStart((Print(v) + x)[0]) == Kind(v)
  {}

  /** What follows the first element of a list: more elements, each behind a comma, then the closing character. */
  function Tail(texts: seq<Text>, close: CodeUnit): Text {
    if texts == [] then [close] else [COMMA] + texts[0] + Tail(texts[1..], close)
  }

  function Body(texts: seq<Text>, close: CodeUnit): Text {
    if texts == [] then [close] else texts[0] + Tail(texts[1..], close)
  }

  lemma {:induction false} JoinIsBody(texts: seq<Text>, close: CodeUnit)
    ensures Join(texts) + [close] == Body(texts, close)
  {
    if |texts| > 1 {
      JoinIsBody(texts[1..], close);
      assert Join(texts) + [close] == texts[0] + [COMMA] + (Join(texts[1..]) + [close]);
    }
  }

  lemma TailStarts(texts: seq<Text>, close: CodeUnit, x: Text)
    ensures (Tail(texts, close) + x)[0] == if texts == [] then close else COMMA
  {}

  lemma Dropped(a: Text, b: Text, x: Text, y: Text)
    requires a + x == b + y && |a| == |b|
    ensures a == b && x == y
  {
    assert a == (a + x)[..|a|] && b == (b + y)[..|b|];
    assert x == (a + x)[|a|..] && y == (b + y)[|b|..];
  }

  lemma TailIsBody(ts: seq<Text>, close: CodeUnit)
    requires ts != []
    ensures Tail(ts, close) == [COMMA] + Body(ts, close)
  {}

  lemma DropHead(u: CodeUnit, b: Text, c: Text, x: Text, y: Text)
    requires [u] + b + x == [u] + c + y
    ensures b + x == c + y
  {
    assert ([u] + b + x)[1..] == b + x && ([u] + c + y)[1..] == c + y;
  }

  lemma TailsDropComma(ts: seq<Text>, us: seq<Text>, close: CodeUnit, x: Text, y: Text)
    requires ts != [] && us != [] && Tail(ts, close) + x == Tail(us, close) + y
    ensures Body(ts, close) + x == Body(us, close) + y
  {
    TailIsBody(ts, close);
    TailIsBody(us, close);
    hide Tail, Body;
    DropHead(COMMA, Body(ts, close), Body(us, close), x, y);
  }

  lemma TailEndsNumber(texts: seq<Text>, close: CodeUnit, x: Text)
    requires close == CLOSE_BRACKET || close == CLOSE_BRACE
    ensures EndsNumber(Tail(texts, close) + x)
  {
    TailStarts(texts, close, x);
  }

  /** The front of a text can be read as a plain rendering in only one way. */
  lemma {:induction false} PrintReadsBack(v: Json, w: Json, x: Text, y: Text)
    requires Plain(v) && Plain(w) && EndsNumber(x) && EndsNumber(y)
    requires Print(v) + x == Print(w) + y
    ensures v == w && x == y
    decreases v, 2
  {
    PrintStarts(v, x);
    PrintStarts(w, y);
    match v
    case JNull => Dropped(NULL_TEXT, NULL_TEXT, x, y);
    case JBool(b) => BoolReadsBack(b, w.b, x, y);
    case JString(s) => QuoteReadsBack(s, w.s, x, y);
    case JInteger(n) => IntegerReadsBack(n, w.n, x, y);
    case JArray(items) =>
      BracketReadsBack(OPEN_BRACKET, ItemPrints(items), ItemPrints(w.items), CLOSE_BRACKET, x, y);
      ItemsReadBack(items, w.items, x, y);
    case JObject(members) =>
      BracketReadsBack(OPEN_BRACE, MemberPrints(members), MemberPrints(w.members), CLOSE_BRACE, x, y);
      MembersReadBack(members, w.members, x, y);
  }

  lemma BoolReadsBack(b: bool, c: bool, x: Text, y: Text)
    requires (if b then TRUE_TEXT else FALSE_TEXT) + x == (if c then TRUE_TEXT else FALSE_TEXT) + y
    ensures b == c && x == y
  {
    var s, t := if b then TRUE_TEXT else FALSE_TEXT, if c then TRUE_TEXT else FALSE_TEXT;
    Leading(s, x);
    Leading(t, y);
    Dropped(s, t, x, y);
  }

  lemma BracketReadsBack(open: CodeUnit, ts: seq<Text>, us: seq<Text>, close: CodeUnit, x: Text, y: Text)
    requires [open] + Join(ts) + [close] + x == [open] + Join(us) + [close] + y
    ensures Body(ts, close) + x == Body(us, close) + y
  {
    JoinIsBody(ts, close);
    JoinIsBody(us, close);
    hide Join, Body;
    assert [open] + Join(ts) + [close] == [open] + Body(ts, close);
    assert [open] + Join(us) + [close] == [open] + Body(us, close);
    DropHead(open, Body(ts, close), Body(us, close), x, y);
  }

  lemma ItemBodyStarts(vs: seq<Json>, x: Text)
    ensures var t := Body(ItemPrints(vs), CLOSE_BRACKET) + x; t != [] && (KindOfStart(t[0]) == 6 <==> vs == [])
  {
    if vs != [] {
      var s := Tail(ItemPrints(vs[1..]), CLOSE_BRACKET) + x;
      PrintStarts(vs[0], s);
      assert Body(ItemPrints(vs), CLOSE_BRACKET) + x == Print(vs[0]) + s;
    }
  }

  lemma {:induction false} ItemsReadBack(vs: seq<Json>, ws: seq<Json>, x: Text, y: Text)
    requires (forall i :: 0 <= i < |vs| ==> Plain(vs[i])) && (forall i :: 0 <= i < |ws| ==> Plain(ws[i]))
    requires Body(ItemPrints(vs), CLOSE_BRACKET) + x == Body(ItemPrints(ws), CLOSE_BRACKET) + y
    ensures vs == ws && x == y
    decreases vs, 1
  {
    ItemBodyStarts(vs, x);
    ItemBodyStarts(ws, y);
    if vs == [] {
      Dropped([CLOSE_BRACKET], [CLOSE_BRACKET], x, y);
    } else {
      FirstItemReadsBack(vs, ws, x, y);
    }
  }

  lemma {:induction false} FirstItemReadsBack(vs: seq<Json>, ws: seq<Json>, x: Text, y: Text)
    requires (forall i :: 0 <= i < |vs| ==> Plain(vs[i])) && (forall i :: 0 <= i < |ws| ==> Plain(ws[i]))
    requires vs != [] && ws != []
    requires Body(ItemPrints(vs), CLOSE_BRACKET) + x == Body(ItemPrints(ws), CLOSE_BRACKET) + y
    ensures vs == ws && x == y
    decreases vs, 0
  {
    var close := CLOSE_BRACKET;
    var s, t := Tail(ItemPrints(vs[1..]), close) + x, Tail(ItemPrints(ws[1..]), close) + y;
    TailEndsNumber(ItemPrints(vs[1..]), close, x);
    TailEndsNumber(ItemPrints(ws[1..]), close, y);
    assert Body(ItemPrints(vs), close) + x == Print(vs[0]) + s;
    assert Body(ItemPrints(ws), close) + y == Print(ws[0]) + t;
    PrintReadsBack(vs[0], ws[0], s, t);
    ItemTailReadsBack(vs[1..], ws[1..], x, y);
    assert vs == [vs[0]] + vs[1..] && ws == [ws[0]] + ws[1..];
  }

  lemma {:induction false} ItemTailReadsBack(vs: seq<Json>, ws: seq<Json>, x: Text, y: Text)
    requires (forall i :: 0 <= i < |vs| ==> Plain(vs[i])) && (forall i :: 0 <= i < |ws| ==> Plain(ws[i]))
    requires Tail(ItemPrints(vs), CLOSE_BRACKET) + x == Tail(ItemPrints(ws), CLOSE_BRACKET) + y
    ensures vs == ws && x == y
    decreases vs, 1
  {
    var close := CLOSE_BRACKET;
    TailStarts(ItemPrints(vs), close, x);
    TailStarts(ItemPrints(ws), close, y);
    if vs == [] {
      Dropped([close], [close], x, y);
    } else {
      TailsDropComma(ItemPrints(vs), ItemPrints(ws), close, x, y);
      FirstItemReadsBack(vs, ws, x, y);
    }
  }

  lemma MemberBodyStarts(vs: seq<Member>, x: Text)
    ensures var t := Body(MemberPrints(vs), CLOSE_BRACE) + x; t != [] && t[0] == if vs == [] then CLOSE_BRACE else QUOTE
  {}

  lemma {:induction false} MembersReadBack(vs: seq<Member>, ws: seq<Member>, x: Text, y: Text)
    requires (forall i :: 0 <= i < |vs| ==> Plain(vs[i].value)) && (forall i :: 0 <= i < |ws| ==> Plain(ws[i].value))
    requires Body(MemberPrints(vs), CLOSE_BRACE) + x == Body(MemberPrints(ws), CLOSE_BRACE) + y
    ensures vs == ws && x == y
    decreases vs, 1
  {
    MemberBodyStarts(vs, x);
    MemberBodyStarts(ws, y);
    if vs == [] {
      Dropped([CLOSE_BRACE], [CLOSE_BRACE], x, y);
    } else {
      FirstMemberReadsBack(vs, ws, x, y);
    }
  }

  lemma MemberBody(vs: seq<Member>, x: Text)
    requires vs != []
    ensures Body(MemberPrints(vs), CLOSE_BRACE) + x
         == Quote(vs[0].key) + ([COLON] + (Print(vs[0].value) + (Tail(MemberPrints(vs[1..]), CLOSE_BRACE) + x)))
  {
    hide Print, Quote, Tail;
    var key, value, rest := Quote(vs[0].key), Print(vs[0].value), Tail(MemberPrints(vs[1..]), CLOSE_BRACE);
    assert MemberPrints(vs)[0] == key + [COLON] + value && MemberPrints(vs)[1..] == MemberPrints(vs[1..]);
    assert Body(MemberPrints(vs), CLOSE_BRACE) == key + [COLON] + value + rest;
    hide MemberPrints, Body;
    FiveParts(key, [COLON], value, rest, x);
  }

  lemma FiveParts(a: Text, b: Text, c: Text, d: Text, e: Text)
    ensures a + b + c + d + e == a + (b + (c + (d + e)))
  {}

  lemma {:induction false} FirstMemberReadsBack(vs: seq<Member>, ws: seq<Member>, x: Text, y: Text)
    requires (forall i :: 0 <= i < |vs| ==> Plain(vs[i].value)) && (forall i :: 0 <= i < |ws| ==> Plain(ws[i].value))
    requires vs != [] && ws != []
    requires Body(MemberPrints(vs), CLOSE_BRACE) + x == Body(MemberPrints(ws), CLOSE_BRACE) + y
    ensures vs == ws && x == y
    decreases vs, 0
  {
    var s, t := Tail(MemberPrints(vs[1..]), CLOSE_BRACE) + x, Tail(MemberPrints(ws[1..]), CLOSE_BRACE) + y;
    TailEndsNumber(MemberPrints(vs[1..]), CLOSE_BRACE, x);
    TailEndsNumber(MemberPrints(ws[1..]), CLOSE_BRACE, y);
    MemberBody(vs, x);
    MemberBody(ws, y);
    var p, q := Print(vs[0].value) + s, Print(ws[0].value) + t;
    QuoteReadsBack(vs[0].key, ws[0].key, [COLON] + p, [COLON] + q);
    Dropped([COLON], [COLON], p, q);
    PrintReadsBack(vs[0].value, ws[0].value, s, t);
    MemberTailReadsBack(vs[1..], ws[1..], x, y);
    assert vs == [vs[0]] + vs[1..] && ws == [ws[0]] + ws[1..];
  }

  lemma {:induction false} MemberTailReadsBack(vs: seq<Member>, ws: seq<Member>, x: Text, y: Text)
    requires (forall i :: 0 <= i < |vs| ==> Plain(vs[i].value)) && (forall i :: 0 <= i < |ws| ==> Plain(ws[i].value))
    requires Tail(MemberPrints(vs), CLOSE_BRACE) + x == Tail(MemberPrints(ws), CLOSE_BRACE) + y
    ensures vs == ws && x == y
    decreases vs, 1
  {
    TailStarts(MemberPrints(vs), CLOSE_BRACE, x);
    TailStarts(MemberPrints(ws), CLOSE_BRACE, y);
    if vs == [] {
      Dropped([CLOSE_BRACE], [CLOSE_BRACE], x, y);
    } else {
      TailsDropComma(MemberPrints(vs), MemberPrints(ws), CLOSE_BRACE, x, y);
      FirstMemberReadsBack(vs, ws, x, y);
    }
  }

  // ----- the laws of the canonical encoding -----

  lemma {:induction false} NormalIsPlain(v: Json)
    ensures Plain(Normal(v))
    decreases v, 1
  {
    match v
    case JArray(items) => NormalItemsArePlain(items);
    case JObject(members) =>
      NormalMembersArePlain(members);
      MemberBeforeIsWeakOrder();
      SortIsSorted(NormalMembers(members), MemberBefore);
      SameElements(Sort(NormalMembers(members), MemberBefore), NormalMembers(members));
      var sorted := Sort(NormalMembers(members), MemberBefore);
      forall i | 0 <= i < |sorted| ensures Plain(sorted[i].value) {
        assert sorted[i] in NormalMembers(members);
      }
    case _ =>
  }

  lemma {:induction false} NormalItemsArePlain(items: seq<Json>)
    ensures forall i :: 0 <= i < |NormalItems(items)| ==> Plain(NormalItems(items)[i])
    decreases items
  {
    if items != [] {
      NormalIsPlain(items[0]);
      NormalItemsArePlain(items[1..]);
    }
  }

  lemma {:induction false} NormalMembersArePlain(members: seq<Member>)
    ensures forall m :: m in NormalMembers(members) ==> Plain(m.value)
    decreases members
  {
    if members != [] {
      NormalIsPlain(members[0].value);
      NormalMembersArePlain(members[1..]);
    }
  }

  lemma MemberBeforeIsWeakOrder()
    ensures WeakOrder(MemberBefore)
  {
    forall a, b | MemberBefore(a, b) ensures !MemberBefore(b, a) {
      LessIsAsymmetric(a.key, b.key);
    }
    forall a, b, c | MemberBefore(a, c) ensures MemberBefore(a, b) || MemberBefore(b, c) {
      LessSplits(a.key, b.key, c.key);
    }
  }

  /**
   Two values have the same canonical text exactly when they have the same normal form: only key order and
   what is written as something else are lost.
   */
  lemma SameTextIffSameNormal(v: Json, w: Json)
    ensures CanonicalText(v) == CanonicalText(w) <==> Normal(v) == Normal(w)
  {
    CanonicalIsPrinted(v);
    CanonicalIsPrinted(w);
    if CanonicalText(v) == CanonicalText(w) {
      NormalIsPlain(v);
      NormalIsPlain(w);
      assert Print(Normal(v)) + [] == Print(Normal(w)) + [];
      PrintReadsBack(Normal(v), Normal(w), [], []);
    }
  }

  // ----- what it means for two values to be the same -----

  predicate WrittenAsNull(v: Json) {
    v.JNull? || v.JUndefined? || v.JNotFinite?
  }

  predicate WrittenAsZero(v: Json) {
    v == JInteger(0) || v.JNegativeZero?
  }

  /**
   The same value, whatever order the keys of its objects are listed in. What the encoder writes as null is taken for
   null, and the two zeros are taken for one.
   */
  ghost predicate Same(v: Json, w: Json) {
    match v
    case JUndefined => WrittenAsNull(w)
    case JNull => WrittenAsNull(w)
    case JNotFinite => WrittenAsNull(w)
    case JNegativeZero => WrittenAsZero(w)
    case JInteger(n) => v == w || (n == 0 && WrittenAsZero(w))
    case JArray(items) =>
      w.JArray? && |items| == |w.items| && forall i :: 0 <= i < |items| ==> Same(items[i], w.items[i])
    case JObject(members) =>
      w.JObject? && |members| == |w.members| && forall i :: 0 <= i < |members| ==> HasPartner(members[i], w.members)
    case _ => v == w
  }

  /** One of the members has the same key and the same value. */
  ghost predicate HasPartner(v: Member, ws: seq<Member>) {
    exists j :: 0 <= j < |ws| && ws[j].key == v.key && Same(v.value, ws[j].value)
  }

  lemma {:induction false} NormalItemAt(items: seq<Json>)
    ensures |NormalItems(items)| == |items| && forall i :: 0 <= i < |items| ==> NormalItems(items)[i] == Normal(items[i])
  {
    if items != [] {
      NormalItemAt(items[1..]);
    }
  }

  lemma {:induction false} NormalMemberAt(members: seq<Member>)
    ensures |NormalMembers(members)| == |members|
    ensures forall i :: 0 <= i < |members| ==> NormalMembers(members)[i] == Member(members[i].key, Normal(members[i].value))
  {
    if members != [] {
      NormalMemberAt(members[1..]);
    }
  }

  lemma NormalMembersDistinct(members: seq<Member>)
    requires Distinct(Keys(members))
    ensures Distinct(NormalMembers(members)) && NoTies(NormalMembers(members), MemberBefore)
  {
    NormalMemberAt(members);
    var ms := NormalMembers(members);
    forall i, j | 0 <= i < j < |ms| ensures ms[i] != ms[j] {
      assert Keys(members)[i] != Keys(members)[j];
    }
    forall a, b | a in ms && b in ms && !MemberBefore(a, b) && !MemberBefore(b, a) ensures a == b {
      LessIsTotal(a.key, b.key);
      var i :| 0 <= i < |ms| && ms[i] == a;
      var j :| 0 <= j < |ms| && ms[j] == b;
      assert Keys(members)[i] == Keys(members)[j];
    }
  }

  lemma {:induction false} SameNormalIffSame(v: Json, w: Json)
    requires WellFormed(v) && WellFormed(w)
    ensures Normal(v) == Normal(w) <==> Same(v, w)
    decreases v
  {
    match (v, w)
    case (JArray(vs), JArray(ws)) =>
      NormalItemAt(vs);
      NormalItemAt(ws);
      if |vs| == |ws| {
        forall i | 0 <= i < |vs| ensures NormalItems(vs)[i] == NormalItems(ws)[i] <==> Same(vs[i], ws[i]) {
          SameNormalIffSame(vs[i], ws[i]);
        }
      }
    case (JObject(vs), JObject(ws)) =>
      forall i, j | 0 <= i < |vs| && 0 <= j < |ws|
        ensures Normal(vs[i].value) == Normal(ws[j].value) <==> Same(vs[i].value, ws[j].value)
      {
        SameNormalIffSame(vs[i].value, ws[j].value);
      }
      SameObjects(vs, ws);
    case _ =>
  }

  /** For members whose values already satisfy the claim. */
  ghost predicate ValuesAgree(vs: seq<Member>, ws: seq<Member>) {
    forall i, j :: 0 <= i < |vs| && 0 <= j < |ws| ==>
      (Normal(vs[i].value) == Normal(ws[j].value) <==> Same(vs[i].value, ws[j].value))
  }

  lemma SameMeansPartners(vs: seq<Member>, ws: seq<Member>)
    ensures Same(JObject(vs), JObject(ws)) <==> |vs| == |ws| && forall i :: 0 <= i < |vs| ==> HasPartner(vs[i], ws)
  {
    hide HasPartner;
  }

  lemma ObjectsSame(vs: seq<Member>, ws: seq<Member>)
    requires ValuesAgree(vs, ws)
    requires Permutation(NormalMembers(vs), NormalMembers(ws))
    ensures Same(JObject(vs), JObject(ws))
  {
    hide Same, NormalMembers, Normal;
    var ms, ns := NormalMembers(vs), NormalMembers(ws);
    NormalMemberAt(vs);
    NormalMemberAt(ws);
    SameElements(ms, ns);
    hide Permutation;
    forall i | 0 <= i < |vs| ensures HasPartner(vs[i], ws) {
      assert ms[i] in ns;
      var j :| 0 <= j < |ns| && ns[j] == ms[i];
      assert ws[j].key == vs[i].key && Same(vs[i].value, ws[j].value);
    }
    SameMeansPartners(vs, ws);
  }

  lemma ObjectsPermute(vs: seq<Member>, ws: seq<Member>)
    requires Distinct(Keys(vs)) && Distinct(Keys(ws)) && ValuesAgree(vs, ws)
    requires Same(JObject(vs), JObject(ws))
    ensures Permutation(NormalMembers(vs), NormalMembers(ws))
  {
    var ms, ns := NormalMembers(vs), NormalMembers(ws);
    NormalMemberAt(vs);
    NormalMemberAt(ws);
    NormalMembersDistinct(vs);
    NormalMembersDistinct(ws);
    SameMeansPartners(vs, ws);
    hide Same, Permutation, NormalMembers, Normal;
    forall i | 0 <= i < |ms| ensures ms[i] in ns {
      assert HasPartner(vs[i], ws);
      var j :| 0 <= j < |ws| && ws[j].key == vs[i].key && Same(vs[i].value, ws[j].value);
      assert ns[j] == ms[i];
    }
    ContainedIsPermutation(ms, ns);
  }

  lemma SameObjects(vs: seq<Member>, ws: seq<Member>)
    requires Distinct(Keys(vs)) && Distinct(Keys(ws)) && ValuesAgree(vs, ws)
    ensures Normal(JObject(vs)) == Normal(JObject(ws)) <==> Same(JObject(vs), JObject(ws))
  {
    hide Same, ValuesAgree, Distinct;
    var ms, ns := NormalMembers(vs), NormalMembers(ws);
    MemberBeforeIsWeakOrder();
    if Normal(JObject(vs)) == Normal(JObject(ws)) {
      SortIsSorted(ms, MemberBefore);
      SortIsSorted(ns, MemberBefore);
      ObjectsSame(vs, ws);
    } else if Same(JObject(vs), JObject(ws)) {
      ObjectsPermute(vs, ws);
      NormalMembersDistinct(vs);
      SortPermutation(ms, ns, MemberBefore);
    }
  }

  /**
   The law of the encoding: two values have the same canonical text exactly when they are the same up to key order,
   what is written as null, and the sign of zero. Listing keys differently never changes the text, and no other two
   values share one.
   */
  lemma SameTextIffSame(v: Json, w: Json)
    requires WellFormed(v) && WellFormed(w)
    ensures CanonicalText(v) == CanonicalText(w) <==> Same(v, w)
  {
    SameTextIffSameNormal(v, w);
    SameNormalIffSame(v, w);
  }

  /** One field whose values have one normal form. */
  lemma SameNormalField(key: Text, v: Json, w: Json)
    requires Normal(v) == Normal(w)
    ensures CanonicalText(JObject([Member(key, v)])) == CanonicalText(JObject([Member(key, w)]))
  {
    NormalMemberAt([Member(key, v)]);
    NormalMemberAt([Member(key, w)]);
    SameTextIffSameNormal(JObject([Member(key, v)]), JObject([Member(key, w)]));
    hide CanonicalText, NormalMembers;
    assert NormalMembers([Member(key, v)]) == NormalMembers([Member(key, w)]);
  }

  /** A payload whose field is undefined is signed like the payload whose field is null. */
  lemma UndefinedIsSignedAsNull(key: Text)
    ensures JObject([Member(key, JUndefined)]) != JObject([Member(key, JNull)])
    ensures CanonicalText(JObject([Member(key, JUndefined)])) == CanonicalText(JObject([Member(key, JNull)]))
  {
    SameNormalField(key, JUndefined, JNull);
    hide CanonicalText;
  }

  /** So is one whose field is not a finite number, and one with negative zero like one with zero. */
  lemma NumbersAreConflated(key: Text)
    ensures CanonicalText(JObject([Member(key, JNotFinite)])) == CanonicalText(JObject([Member(key, JNull)]))
    ensures CanonicalText(JObject([Member(key, JNegativeZero)])) == CanonicalText(JObject([Member(key, JInteger(0))]))
  {
    SameNormalField(key, JNotFinite, JNull);
    SameNormalField(key, JNegativeZero, JInteger(0));
    hide CanonicalText;
  }
}
