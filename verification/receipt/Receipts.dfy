/** Signing and verifying lockbox receipts: a keyed digest of the canonical text, written in hexadecimal. */
module Receipts {
  import opened Sequences
  import opened Text
  import opened Hexadecimal
  import opened CanonicalJson
  import JsonReader
  import JsonRoundTrip
  import opened Results
  import opened Sorting

  /** HMAC-SHA256 under one fixed key. */
  type Digest = Text -> Octets

  datatype Payload = Payload(lockboxId: Text, ciphertextHash: Text, sealerOrgId: Text, sealedAt: Text, state: Text)

  // The field names of a payload, in code units.
  const LOCKBOX_ID: Text := [0x6C, 0x6F, 0x63, 0x6B, 0x62, 0x6F, 0x78, 0x49, 0x64]
  const CIPHERTEXT_HASH: Text := [0x63, 0x69, 0x70, 0x68, 0x65, 0x72, 0x74, 0x65, 0x78, 0x74, 0x48, 0x61, 0x73, 0x68]
  const SEALER_ORG_ID: Text := [0x73, 0x65, 0x61, 0x6C, 0x65, 0x72, 0x4F, 0x72, 0x67, 0x49, 0x64]
  const SEALED_AT: Text := [0x73, 0x65, 0x61, 0x6C, 0x65, 0x64, 0x41, 0x74]
  const STATE: Text := [0x73, 0x74, 0x61, 0x74, 0x65]

  function AsJson(p: Payload): Json {
    JObject([
      Member(LOCKBOX_ID, JString(p.lockboxId)),
      Member(CIPHERTEXT_HASH, JString(p.ciphertextHash)),
      Member(SEALER_ORG_ID, JString(p.sealerOrgId)),
      Member(SEALED_AT, JString(p.sealedAt)),
      Member(STATE, JString(p.state))])
  }

  // ----- signing and verifying -----

  function SignReceipt(payload: Payload, hmac: Digest): Text {
    ToHex(hmac(CanonicalText(AsJson(payload))))
  }

  predicate VerifyReceipt(payload: Payload, signature: Text, hmac: Digest) {
    var expected := SignReceipt(payload, hmac);
    FromHexOfToHex(hmac(CanonicalText(AsJson(payload))));
    var expectedBuf := FromHex(expected);
    if !IsHex(signature) || |signature| % 2 != 0 then false
    else
      var actualBuf := FromHex(signature);
      |actualBuf| == |expectedBuf| && expectedBuf == actualBuf
  }

  /** Verification accepts exactly the signature itself, in either case of its hexadecimal letters. */
  lemma VerifiesExactlyTheSignature(payload: Payload, signature: Text, hmac: Digest)
    ensures VerifyReceipt(payload, signature, hmac) <==> Lower(signature) == SignReceipt(payload, hmac)
  {
    var digest := hmac(CanonicalText(AsJson(payload)));
    FromHexOfToHex(digest);
    if VerifyReceipt(payload, signature, hmac) {
      ToHexOfFromHex(signature);
    } else if Lower(signature) == ToHex(digest) {
      LowerIsHex(signature);
      ToHexOfFromHex(signature);
      FromHexOfToHex(FromHex(signature));
    }
  }

  lemma FieldNamesDistinct()
    ensures forall p :: WellFormed(AsJson(p))
  {
    forall p ensures WellFormed(AsJson(p)) {
      var ks := Keys(AsJson(p).members);
      assert ks[0] == LOCKBOX_ID && ks[1] == CIPHERTEXT_HASH && ks[2] == SEALER_ORG_ID && ks[3] == SEALED_AT && ks[4] == STATE;
      assert |LOCKBOX_ID| == 9 && |CIPHERTEXT_HASH| == 14 && |SEALER_ORG_ID| == 11 && |SEALED_AT| == 8 && |STATE| == 5;
    }
  }

  lemma PartnerAt(qs: seq<Member>, i: nat, v: Member)
    requires Distinct(Keys(qs)) && i < |qs| && qs[i].key == v.key && HasPartner(v, qs)
    ensures Same(v.value, qs[i].value)
  {
    hide Same;
    var j :| 0 <= j < |qs| && qs[j].key == v.key && Same(v.value, qs[j].value);
    assert Keys(qs)[i] == Keys(qs)[j];
  }

  lemma SameFieldSameValue(p: Payload, q: Payload, i: nat)
    requires i < 5 && Same(AsJson(p), AsJson(q))
    ensures AsJson(p).members[i].value == AsJson(q).members[i].value
  {
    FieldNamesDistinct();
    var ps, qs := AsJson(p).members, AsJson(q).members;
    assert WellFormed(AsJson(q));
    SameMeansPartners(ps, qs);
    PartnerAt(qs, i, ps[i]);
  }

  lemma SamePayloads(p: Payload, q: Payload)
    requires Same(AsJson(p), AsJson(q))
    ensures p == q
  {
    SameFieldSameValue(p, q, 0);
    SameFieldSameValue(p, q, 1);
    SameFieldSameValue(p, q, 2);
    SameFieldSameValue(p, q, 3);
    SameFieldSameValue(p, q, 4);
  }

  /** Different payloads are signed over different texts. */
  lemma PayloadTextIsUnique(p: Payload, q: Payload)
    ensures CanonicalText(AsJson(p)) == CanonicalText(AsJson(q)) <==> p == q
  {
    if CanonicalText(AsJson(p)) == CanonicalText(AsJson(q)) {
      FieldNamesDistinct();
      SameTextIffSame(AsJson(p), AsJson(q));
      SamePayloads(p, q);
    }
  }

  /** A receipt signed for one payload verifies for another only if they are equal, or their two texts collide in the digest. */
  lemma ReceiptBindsPayload(p: Payload, q: Payload, hmac: Digest)
    ensures VerifyReceipt(q, SignReceipt(p, hmac), hmac)
       <==> p == q || (CanonicalText(AsJson(p)) != CanonicalText(AsJson(q)) && hmac(CanonicalText(AsJson(p))) == hmac(CanonicalText(AsJson(q))))
  {
    PayloadTextIsUnique(p, q);
    var d, e := hmac(CanonicalText(AsJson(p))), hmac(CanonicalText(AsJson(q)));
    FromHexOfToHex(d);
    FromHexOfToHex(e);
  }

  // ----- what is signed -----

  /** These are the names and values of the payload's fields, in some order. */
  ghost predicate HoldsFields(members: seq<Member>, p: Payload) {
    && |members| == 5
    && Member(Ascii("lockboxId"), JString(p.lockboxId)) in members
    && Member(Ascii("ciphertextHash"), JString(p.ciphertextHash)) in members
    && Member(Ascii("sealerOrgId"), JString(p.sealerOrgId)) in members
    && Member(Ascii("sealedAt"), JString(p.sealedAt)) in members
    && Member(Ascii("state"), JString(p.state)) in members
  }

  lemma FieldNames()
    ensures LOCKBOX_ID == Ascii("lockboxId") && CIPHERTEXT_HASH == Ascii("ciphertextHash") && SEALER_ORG_ID == Ascii("sealerOrgId")
    ensures SEALED_AT == Ascii("sealedAt") && STATE == Ascii("state")
  {}

  lemma MembersOfPayload(p: Payload)
    ensures AsJson(p).JObject? && HoldsFields(AsJson(p).members, p)
    ensures NormalMembers(AsJson(p).members) == AsJson(p).members
  {
    FieldsHeld(p);
    FieldsAreStrings(p);
    hide AsJson, HoldsFields, Ascii;
    StringsAreNormal(AsJson(p).members);
  }

  lemma FieldsAreStrings(p: Payload)
    ensures AsJson(p).JObject? && forall i :: 0 <= i < |AsJson(p).members| ==> AsJson(p).members[i].value.JString?
  {}

  lemma StringsAreNormal(ms: seq<Member>)
    requires forall i :: 0 <= i < |ms| ==> ms[i].value.JString?
    ensures NormalMembers(ms) == ms
  {
    NormalMemberAt(ms);
    hide NormalMembers;
  }

  lemma FieldsHeld(p: Payload)
    ensures AsJson(p).JObject? && HoldsFields(AsJson(p).members, p)
  {
    FieldNames();
    hide Ascii;
    var ms := AsJson(p).members;
    assert ms[0] in ms && ms[1] in ms && ms[2] in ms && ms[3] in ms && ms[4] in ms;
  }

  /** The signed text is a JSON object of five members, which name the payload's fields and hold their values. */
  lemma SignedTextHoldsFields(p: Payload)
    ensures exists members ::
      JsonReader.ReadText(CanonicalText(AsJson(p))) == Some(JObject(members)) && HoldsFields(members, p)
  {
    FieldsHeld(p);
    NormalPayload(p);
    JsonRoundTrip.CanonicalTextIsJson(AsJson(p));
    var ms := AsJson(p).members;
    var sorted := Sort(ms, MemberBefore);
    MemberBeforeIsWeakOrder();
    SortIsSorted(ms, MemberBefore);
    SameElements(sorted, ms);
    hide *;
    HeldInAnyOrder(ms, sorted, p);
  }

  lemma NormalPayload(p: Payload)
    ensures AsJson(p).JObject? && Normal(AsJson(p)) == JObject(Sort(AsJson(p).members, MemberBefore))
  {
    MembersOfPayload(p);
    hide NormalMembers, AsJson, Sort, HoldsFields, Ascii;
  }

  lemma HeldInAnyOrder(ms: seq<Member>, others: seq<Member>, p: Payload)
    requires HoldsFields(ms, p) && |others| == |ms| && forall m :: m in others <==> m in ms
    ensures HoldsFields(others, p)
  {
    hide Ascii;
  }

  /** The signature is the digest of that text in lower-case hexadecimal digits. */
  lemma SignatureIsTheDigest(p: Payload, hmac: Digest)
    ensures var signature, digest := SignReceipt(p, hmac), hmac(CanonicalText(AsJson(p)));
      && |signature| == 2 * |digest| && IsHex(signature) && FromHex(signature) == digest && Lower(signature) == signature
  {
    hide CanonicalText, AsJson;
    var digest := hmac(CanonicalText(AsJson(p)));
    FromHexOfToHex(digest);
    ToHexOfFromHex(ToHex(digest));
  }
}
