/** Sealing a payload for three roles, and releasing it. */
module Envelope {
  // The payload is encrypted under a fresh data key whose shares are wrapped per role; it is released from the wrapped
  // shares. AES-256-GCM and SHA-256 are arguments.

  import opened Results
  import opened Sequences
  import opened Fields
  import opened Gf256Tables
  import opened Shamir
  import opened ShamirBuffers

  type Bytes = seq<bv8>

  datatype Role = Sealer | Operator | Escrow

  const ROLES: seq<Role> := [Sealer, Operator, Escrow]
  const SHARE_THRESHOLD := 2
  const SHARE_TOTAL := 3
  const AES_KEY_BYTES := 32
  const GCM_AUTH_TAG_BYTES := 16

  datatype EnvelopeError =
    | BadKeyLength
    | TamperOrWrongKey
    | TooFewShares
    | DuplicateRoles
    | BadShares(problem: CombineError)

  datatype AesGcmCiphertext = AesGcmCiphertext(iv: Bytes, ciphertext: Bytes, authTag: Bytes)

  datatype WrappedShare = WrappedShare(role: Role, index: nat, wrapped: AesGcmCiphertext)

  datatype SealedEnvelope = SealedEnvelope(sealed: AesGcmCiphertext, ciphertextHash: Bytes, shares: seq<WrappedShare>)

  datatype RoleKeks = RoleKeks(sealer: Bytes, operator: Bytes, escrow: Bytes) {
    function Get(role: Role): Bytes {
      match role
      case Sealer => sealer
      case Operator => operator
      case Escrow => escrow
    }
  }

  /** What the random source returns while one payload is sealed. */
  datatype Randomness = Randomness(dek: Bytes, payloadIv: Bytes, shareIvs: seq<Bytes>, coefficients: seq<Bytes>) {
    ghost predicate Valid() {
      |dek| == AES_KEY_BYTES && |shareIvs| == SHARE_TOTAL && IsRandomFor(coefficients, dek, SHARE_THRESHOLD)
    }
  }

  // ----- roles and indexes -----

  function Position<T(==)>(xs: seq<T>, x: T): (i: nat)
    ensures i <= |xs| && (i < |xs| ==> xs[i] == x) && forall j :: 0 <= j < i ==> xs[j] != x
  {
    if xs == [] || xs[0] == x then 0 else 1 + Position(xs[1..], x)
  }

  function RoleToIndex(role: Role): nat {
    Position(ROLES, role) + 1
  }

  function IndexToRole(index: nat): Option<Role> {
    if 1 <= index <= |ROLES| then Some(ROLES[index - 1]) else None
  }

  /** Roles and the indexes 1, 2, 3 determine each other; no other index has a role. */
  lemma RoleIndexBijection(role: Role, index: nat)
    ensures 1 <= RoleToIndex(role) <= SHARE_TOTAL
    ensures IndexToRole(index) == Some(role) <==> RoleToIndex(role) == index
    ensures IndexToRole(index) == None <==> index == 0 || index > SHARE_TOTAL
  {
    assert ROLES[0] == Sealer && ROLES[1] == Operator && ROLES[2] == Escrow;
    var i := Position(ROLES, role);
  }

  // ----- authenticated encryption -----

  /** The two directions of AES-256-GCM; open answers None where the tag does not verify. */
  datatype Aead = Aead(
    encipher: (Bytes, Bytes, Bytes, Option<Bytes>) -> (Bytes, Bytes),
    open: (AesGcmCiphertext, Bytes, Option<Bytes>) -> Option<Bytes>)
  {
    /** What was encrypted under a key and associated data decrypts under the same two. */
    ghost predicate Correct() {
      forall plaintext, key, iv, aad ::
        var (ciphertext, authTag) := encipher(plaintext, key, iv, aad);
        && |authTag| == GCM_AUTH_TAG_BYTES
        && open(AesGcmCiphertext(iv, ciphertext, authTag), key, aad) == Some(plaintext)
    }

    function Encrypt(plaintext: Bytes, key: Bytes, iv: Bytes, aad: Option<Bytes>): Result<AesGcmCiphertext, EnvelopeError> {
      if |key| != AES_KEY_BYTES then Failure(BadKeyLength)
      else
        var (ciphertext, authTag) := encipher(plaintext, key, iv, aad);
        Success(AesGcmCiphertext(iv, ciphertext, authTag))
    }

    function Decrypt(input: AesGcmCiphertext, key: Bytes, aad: Option<Bytes>): Result<Bytes, EnvelopeError> {
      if |key| != AES_KEY_BYTES then Failure(BadKeyLength)
      else if |input.authTag| != GCM_AUTH_TAG_BYTES then Failure(TamperOrWrongKey)
      else
        match open(input, key, aad)
        case None => Failure(TamperOrWrongKey)
        case Some(plaintext) => Success(plaintext)
    }

    lemma DecryptEncrypt(plaintext: Bytes, key: Bytes, iv: Bytes, aad: Option<Bytes>)
      requires Correct() && |key| == AES_KEY_BYTES
      ensures Encrypt(plaintext, key, iv, aad).Success?
      ensures Decrypt(Encrypt(plaintext, key, iv, aad).value, key, aad) == Success(plaintext)
    {
      var (ciphertext, authTag) := encipher(plaintext, key, iv, aad);
    }
  }

  // ----- sealing -----

  /** The share of one role: its y-values encrypted under that role's key. */
  function Wrap(aead: Aead, share: ShareValue, keks: RoleKeks, iv: Bytes): Result<WrappedShare, EnvelopeError>
    requires IndexToRole(share.index).Some?
  {
    var role := IndexToRole(share.index).value;
    match aead.Encrypt(share.ys, keks.Get(role), iv, None)
    case Failure(e) => Failure(e)
    case Success(wrapped) => Success(WrappedShare(role, share.index, wrapped))
  }

  ghost predicate WellKeyed(keks: RoleKeks) {
    forall role :: |keks.Get(role)| == AES_KEY_BYTES
  }

  /** The envelope that sealing with this randomness must produce. */
  ghost predicate IsSealed(
      F: Field<bv8>, aead: Aead, plaintext: Bytes, keks: RoleKeks, aad: Option<Bytes>, rnd: Randomness, envelope: SealedEnvelope)
    requires rnd.Valid()
  {
    && aead.Encrypt(plaintext, rnd.dek, rnd.payloadIv, aad) == Success(envelope.sealed)
    && |envelope.shares| == SHARE_TOTAL
    && forall i :: 0 <= i < SHARE_TOTAL ==>
         Wrap(aead, ShareAt(F, rnd.dek, rnd.coefficients, i + 1), keks, rnd.shareIvs[i]) == Success(envelope.shares[i])
  }

  /** A wrapped share that names this role and index and opens under this key. */
  ghost predicate OpensAs(aead: Aead, share: WrappedShare, role: Role, index: nat, kek: Bytes, ys: Bytes) {
    && share.role == role && share.index == index
    && |share.wrapped.authTag| == 16 && aead.open(share.wrapped, kek, None) == Some(ys)
  }

  /** The three shares, each under the key of its own role, and the payload under the key they share. */
  ghost predicate OpensForItsRoles(
      F: Field<bv8>, aead: Aead, plaintext: Bytes, keks: RoleKeks, aad: Option<Bytes>, rnd: Randomness, envelope: SealedEnvelope)
    requires rnd.Valid()
  {
    && |envelope.shares| == 3
    && OpensAs(aead, envelope.shares[0], Sealer, 1, keks.sealer, ShareAt(F, rnd.dek, rnd.coefficients, 1).ys)
    && OpensAs(aead, envelope.shares[1], Operator, 2, keks.operator, ShareAt(F, rnd.dek, rnd.coefficients, 2).ys)
    && OpensAs(aead, envelope.shares[2], Escrow, 3, keks.escrow, ShareAt(F, rnd.dek, rnd.coefficients, 3).ys)
    && |envelope.sealed.authTag| == 16 && aead.open(envelope.sealed, rnd.dek, aad) == Some(plaintext)
  }

  lemma KeysOfRoles(keks: RoleKeks)
    ensures keks.Get(Sealer) == keks.sealer && keks.Get(Operator) == keks.operator && keks.Get(Escrow) == keks.escrow
    ensures WellKeyed(keks) <==> |keks.sealer| == 32 && |keks.operator| == 32 && |keks.escrow| == 32
    ensures ROLES[0] == Sealer && ROLES[1] == Operator && ROLES[2] == Escrow
  {
    assert WellKeyed(keks) ==> |keks.Get(Sealer)| == |keks.Get(Operator)| == |keks.Get(Escrow)| == 32;
  }

  lemma WrappedOpens(aead: Aead, share: ShareValue, keks: RoleKeks, iv: Bytes)
    requires aead.Correct() && WellKeyed(keks) && 1 <= share.index <= 3
    ensures var role := ROLES[share.index - 1]; var w := Wrap(aead, share, keks, iv);
      w.Success? && OpensAs(aead, w.value, role, share.index, keks.Get(role), share.ys)
  {
    var role := ROLES[share.index - 1];
    var (ciphertext, authTag) := aead.encipher(share.ys, keks.Get(role), iv, None);
  }

  lemma SealedOpens(
      F: Field<bv8>, aead: Aead, plaintext: Bytes, keks: RoleKeks, aad: Option<Bytes>, rnd: Randomness, envelope: SealedEnvelope)
    requires aead.Correct() && WellKeyed(keks) && rnd.Valid()
    requires IsSealed(F, aead, plaintext, keks, aad, rnd, envelope)
    ensures OpensForItsRoles(F, aead, plaintext, keks, aad, rnd, envelope)
  {
    KeysOfRoles(keks);
    forall i | 0 <= i < 3
      ensures OpensAs(aead, envelope.shares[i], ROLES[i], i + 1, keks.Get(ROLES[i]), ShareAt(F, rnd.dek, rnd.coefficients, i + 1).ys)
    {
      WrappedOpens(aead, ShareAt(F, rnd.dek, rnd.coefficients, i + 1), keks, rnd.shareIvs[i]);
    }
    var (ciphertext, authTag) := aead.encipher(plaintext, rnd.dek, rnd.payloadIv, aad);
    hide OpensAs, Wrap, Aead.Correct;
  }

  method SealPayload(tables: Tables, aead: Aead, sha256: Bytes -> Bytes, plaintext: Bytes, keks: RoleKeks, aad: Option<Bytes>, rnd: Randomness)
    returns (r: Result<SealedEnvelope, EnvelopeError>)
    requires tables.Valid() && rnd.Valid()
    ensures r.Success? <==> |keks.sealer| == 32 && |keks.operator| == 32 && |keks.escrow| == 32
    ensures r.Failure? ==> r.error == BadKeyLength
    ensures r.Success? ==>
      IsSealed(tables.F, aead, plaintext, keks, aad, rnd, r.value) && r.value.ciphertextHash == sha256(r.value.sealed.ciphertext)
    ensures r.Success? && aead.Correct() ==> OpensForItsRoles(tables.F, aead, plaintext, keks, aad, rnd, r.value)
  {
    KeysOfRoles(keks);
    var sealed := aead.Encrypt(plaintext, rnd.dek, rnd.payloadIv, aad).value;
    var ciphertextHash := sha256(sealed.ciphertext);
    var split := SplitSecret(tables, rnd.dek, SHARE_THRESHOLD, SHARE_TOTAL, rnd.coefficients);
    var rawShares := split.value;
    var shares: seq<WrappedShare> := [];
    for i := 0 to |rawShares|
      invariant |shares| == i
      invariant forall j :: 0 <= j < i ==> |keks.Get(ROLES[j])| == AES_KEY_BYTES
      invariant forall j :: 0 <= j < i ==>
        Wrap(aead, ShareAt(tables.F, rnd.dek, rnd.coefficients, j + 1), keks, rnd.shareIvs[j]) == Success(shares[j])
    {
      var share := ShareValue(rawShares[i].index, rawShares[i].ys[..]);
      assert share == rawShares[i].Value();
      match Wrap(aead, share, keks, rnd.shareIvs[i])
      case Failure(e) => return Failure(e);
      case Success(wrapped) => shares := shares + [wrapped];
    }
    assert WellKeyed(keks) by {
      assert ROLES[0] == Sealer && ROLES[1] == Operator && ROLES[2] == Escrow;
      assert |keks.Get(Sealer)| == |keks.Get(Operator)| == |keks.Get(Escrow)| == AES_KEY_BYTES;
    }
    var envelope := SealedEnvelope(sealed, ciphertextHash, shares);
    if aead.Correct() {
      SealedOpens(tables.F, aead, plaintext, keks, aad, rnd, envelope);
    }
    return Success(envelope);
  }

  // ----- releasing -----

  function Roles(shares: seq<WrappedShare>): (roles: seq<Role>)
    ensures |roles| == |shares|
  {
    seq(|shares|, i requires 0 <= i < |shares| => shares[i].role)
  }

  function Unwrap(aead: Aead, share: WrappedShare, keks: RoleKeks): Result<ShareValue, EnvelopeError> {
    match aead.Decrypt(share.wrapped, keks.Get(share.role), None)
    case Failure(e) => Failure(e)
    case Success(ys) => Success(ShareValue(share.index, ys))
  }

  /** Every share unwrapped, or the error of the first that does not. */
  function UnwrapAll(aead: Aead, shares: seq<WrappedShare>, keks: RoleKeks): Result<seq<ShareValue>, EnvelopeError> {
    if shares == [] then Success([])
    else
      var init := UnwrapAll(aead, shares[..|shares| - 1], keks);
      if init.Failure? then init
      else
        match Unwrap(aead, shares[|shares| - 1], keks)
        case Failure(e) => Failure(e)
        case Success(share) => Success(init.value + [share])
  }

  /** Everything release does, as a value. */
  ghost function Released(F: Field<bv8>, aead: Aead, sealed: AesGcmCiphertext, shares: seq<WrappedShare>, keks: RoleKeks, aad: Option<Bytes>)
    : Result<Bytes, EnvelopeError>
  {
    if |shares| < SHARE_THRESHOLD then Failure(TooFewShares)
    else if !Distinct(Roles(shares)) then Failure(DuplicateRoles)
    else
      match UnwrapAll(aead, shares, keks)
      case Failure(e) => Failure(e)
      case Success(unwrapped) =>
        match CombineProblem(unwrapped)
        case Some(problem) => Failure(BadShares(problem))
        case None => aead.Decrypt(sealed, CombinedSecret(F, unwrapped), aad)
  }

  ghost predicate Keyed(keks: RoleKeks) {
    |keks.sealer| == 32 && |keks.operator| == 32 && |keks.escrow| == 32
  }

  /** The share does not open under the key of its own role. */
  ghost predicate Refused(aead: Aead, share: WrappedShare, keks: RoleKeks) {
    || |share.wrapped.authTag| != 16
    || (share.role == Sealer && aead.open(share.wrapped, keks.sealer, None) == None)
    || (share.role == Operator && aead.open(share.wrapped, keks.operator, None) == None)
    || (share.role == Escrow && aead.open(share.wrapped, keks.escrow, None) == None)
  }

  ghost predicate Opened(aead: Aead, share: WrappedShare, keks: RoleKeks, plain: ShareValue) {
    && |share.wrapped.authTag| == 16 && plain.index == share.index
    && (share.role == Sealer ==> aead.open(share.wrapped, keks.sealer, None) == Some(plain.ys))
    && (share.role == Operator ==> aead.open(share.wrapped, keks.operator, None) == Some(plain.ys))
    && (share.role == Escrow ==> aead.open(share.wrapped, keks.escrow, None) == Some(plain.ys))
  }

  ghost predicate AllOpened(aead: Aead, shares: seq<WrappedShare>, keks: RoleKeks, plain: seq<ShareValue>) {
    |plain| == |shares| && forall i :: 0 <= i < |shares| ==> Opened(aead, shares[i], keks, plain[i])
  }

  ghost predicate RoleTwice(shares: seq<WrappedShare>) {
    exists i, j :: 0 <= i < j < |shares| && shares[i].role == shares[j].role
  }

  /** The answer once all shares are open: the payload under the combined key, or why there is none. */
  ghost predicate AnswersFor(
      F: Field<bv8>, aead: Aead, sealed: AesGcmCiphertext, plain: seq<ShareValue>, aad: Option<Bytes>, r: Result<Bytes, EnvelopeError>)
  {
    if CombineProblem(plain) != None then r == Failure(BadShares(CombineProblem(plain).value))
    else
      var key := CombinedSecret(F, plain);
      if |key| != 32 then r == Failure(BadKeyLength)
      else if |sealed.authTag| != 16 || aead.open(sealed, key, aad) == None then r == Failure(TamperOrWrongKey)
      else r == Success(aead.open(sealed, key, aad).value)
  }

  /** What a release must answer, in terms of which shares open under the keys of their roles. */
  ghost predicate ReleasesRight(
      F: Field<bv8>, aead: Aead, sealed: AesGcmCiphertext, shares: seq<WrappedShare>, keks: RoleKeks, aad: Option<Bytes>,
      r: Result<Bytes, EnvelopeError>)
  {
    && (r == Failure(TooFewShares) <==> |shares| < 2)
    && (r == Failure(DuplicateRoles) <==> |shares| >= 2 && RoleTwice(shares))
    && (|shares| >= 2 && !RoleTwice(shares) && Keyed(keks) ==>
          && ((exists i :: 0 <= i < |shares| && Refused(aead, shares[i], keks)) ==> r == Failure(TamperOrWrongKey))
          && (forall plain :: AllOpened(aead, shares, keks, plain) ==> AnswersFor(F, aead, sealed, plain, aad, r)))
  }

  lemma UnwrapMeans(aead: Aead, share: WrappedShare, keks: RoleKeks)
    requires Keyed(keks)
    ensures Refused(aead, share, keks) <==> Unwrap(aead, share, keks) == Failure(TamperOrWrongKey)
    ensures Unwrap(aead, share, keks).Failure? ==> Refused(aead, share, keks)
    ensures forall plain :: Opened(aead, share, keks, plain) ==> Unwrap(aead, share, keks) == Success(plain)
  {
    KeysOfRoles(keks);
    hide RoleKeks.Get;
    match share.role
    case Sealer =>
    case Operator =>
    case Escrow =>
  }

  lemma {:induction false} UnwrapAllFails(aead: Aead, shares: seq<WrappedShare>, keks: RoleKeks, i: nat)
    requires Keyed(keks) && i < |shares| && Refused(aead, shares[i], keks)
    ensures UnwrapAll(aead, shares, keks) == Failure(TamperOrWrongKey)
  {
    var n := |shares| - 1;
    UnwrapMeans(aead, shares[n], keks);
    UnwrapAllErrors(aead, shares[..n], keks);
    hide Unwrap, Refused, Keyed;
    if i < n {
      UnwrapAllFails(aead, shares[..n], keks, i);
    }
  }

  lemma {:induction false} UnwrapAllErrors(aead: Aead, shares: seq<WrappedShare>, keks: RoleKeks)
    requires Keyed(keks)
    ensures UnwrapAll(aead, shares, keks).Failure? ==> UnwrapAll(aead, shares, keks).error == TamperOrWrongKey
  {
    if shares != [] {
      UnwrapMeans(aead, shares[|shares| - 1], keks);
      UnwrapAllErrors(aead, shares[..|shares| - 1], keks);
      hide Unwrap, Refused, Keyed;
    }
  }

  lemma RolesRepeat(shares: seq<WrappedShare>)
    ensures Distinct(Roles(shares)) <==> !RoleTwice(shares)
  {
    assert forall i :: 0 <= i < |shares| ==> Roles(shares)[i] == shares[i].role;
    hide Roles;
    if !Distinct(Roles(shares)) {
      var i, j :| 0 <= i < j < |shares| && Roles(shares)[i] == Roles(shares)[j];
      assert shares[i].role == shares[j].role;
    }
  }

  lemma ErrorsOfCombining(F: Field<bv8>, aead: Aead, sealed: AesGcmCiphertext, plain: seq<ShareValue>, aad: Option<Bytes>)
    ensures var r := match CombineProblem(plain)
      case Some(problem) => Failure(BadShares(problem))
      case None => aead.Decrypt(sealed, CombinedSecret(F, plain), aad);
      AnswersFor(F, aead, sealed, plain, aad, r)
  {
    hide CombineProblem, CombinedSecret;
  }

  lemma ReleasedIsRight(
      F: Field<bv8>, aead: Aead, sealed: AesGcmCiphertext, shares: seq<WrappedShare>, keks: RoleKeks, aad: Option<Bytes>)
    ensures ReleasesRight(F, aead, sealed, shares, keks, aad, Released(F, aead, sealed, shares, keks, aad))
  {
    RolesRepeat(shares);
    UnwrapAllKinds(aead, shares, keks);
    hide CombineProblem, CombinedSecret, UnwrapAll, Unwrap, Distinct, RoleTwice, Roles, Keyed, Refused, AllOpened, AnswersFor;
    var r := Released(F, aead, sealed, shares, keks, aad);
    if |shares| >= 2 && !RoleTwice(shares) && Keyed(keks) {
      if i :| 0 <= i < |shares| && Refused(aead, shares[i], keks) {
        UnwrapAllFails(aead, shares, keks, i);
      }
      forall plain | AllOpened(aead, shares, keks, plain) ensures AnswersFor(F, aead, sealed, plain, aad, r) {
        AllOpenedUnwraps(aead, shares, keks, plain);
        ErrorsOfCombining(F, aead, sealed, plain, aad);
      }
    }
  }

  lemma AllOpenedUnwraps(aead: Aead, shares: seq<WrappedShare>, keks: RoleKeks, plain: seq<ShareValue>)
    requires Keyed(keks) && AllOpened(aead, shares, keks, plain)
    ensures UnwrapAll(aead, shares, keks) == Success(plain)
  {
    hide Unwrap, UnwrapAll, Keyed, Opened;
    forall i | 0 <= i < |shares| ensures Unwrap(aead, shares[i], keks) == Success(plain[i]) {
      UnwrapMeans(aead, shares[i], keks);
      assert Opened(aead, shares[i], keks, plain[i]);
    }
    UnwrapAllSucceeds(aead, shares, keks, plain);
  }

  lemma {:induction false} UnwrapAllKinds(aead: Aead, shares: seq<WrappedShare>, keks: RoleKeks)
    ensures UnwrapAll(aead, shares, keks).Failure? ==>
      UnwrapAll(aead, shares, keks).error == TamperOrWrongKey || UnwrapAll(aead, shares, keks).error == BadKeyLength
  {
    if shares != [] {
      UnwrapAllKinds(aead, shares[..|shares| - 1], keks);
      hide RoleKeks.Get;
    }
  }

  method ReleasePayload(tables: Tables, aead: Aead, sealed: AesGcmCiphertext, wrappedShares: seq<WrappedShare>, keks: RoleKeks, aad: Option<Bytes>)
    returns (r: Result<Bytes, EnvelopeError>)
    requires tables.Valid()
    ensures r == Released(tables.F, aead, sealed, wrappedShares, keks, aad)
    ensures ReleasesRight(tables.F, aead, sealed, wrappedShares, keks, aad, r)
  {
    ReleasedIsRight(tables.F, aead, sealed, wrappedShares, keks, aad);
    hide ReleasesRight, CombineProblem, CombinedSecret, UnwrapAll, Tables.Valid;
    if |wrappedShares| < SHARE_THRESHOLD {
      return Failure(TooFewShares);
    }
    var roles := Roles(wrappedShares);
    ElementsSize(roles);
    if |Elements(roles)| < |wrappedShares| {
      return Failure(DuplicateRoles);
    }
    var unwrapped := UnwrapAll(aead, wrappedShares, keks);
    if unwrapped.Failure? {
      return Failure(unwrapped.error);
    }
    var shares := Load(unwrapped.value);
    var dek := CombineShares(tables, shares);
    assert Values(shares) == unwrapped.value;
    if dek.Failure? {
      return Failure(BadShares(dek.error));
    }
    r := aead.Decrypt(sealed, dek.value[..], aad);
  }

  method Load(values: seq<ShareValue>) returns (shares: seq<ShamirShare>)
    ensures Values(shares) == values
  {
    shares := [];
    for i := 0 to |values|
      invariant |shares| == i && forall j :: 0 <= j < i ==> shares[j].Value() == values[j]
    {
      var share := new ShamirShare.Holding(values[i].index, values[i].ys);
      shares := shares + [share];
    }
  }

  // ----- the round trip -----

  lemma {:induction false} UnwrapAllSucceeds(aead: Aead, shares: seq<WrappedShare>, keks: RoleKeks, values: seq<ShareValue>)
    requires |shares| == |values| && forall i :: 0 <= i < |shares| ==> Unwrap(aead, shares[i], keks) == Success(values[i])
    ensures UnwrapAll(aead, shares, keks) == Success(values)
  {
    if shares != [] {
      var n := |shares| - 1;
      UnwrapAllSucceeds(aead, shares[..n], keks, values[..n]);
      assert values == values[..n] + [values[n]];
    }
  }

  /** A sealed share is wrapped for the role of its place, and unwraps to the share of the data key. */
  lemma SealedShareUnwraps(
      F: Field<bv8>, aead: Aead, plaintext: Bytes, keks: RoleKeks, aad: Option<Bytes>, rnd: Randomness,
      envelope: SealedEnvelope, i: nat)
    requires aead.Correct() && WellKeyed(keks) && rnd.Valid() && i < SHARE_TOTAL
    requires IsSealed(F, aead, plaintext, keks, aad, rnd, envelope)
    ensures envelope.shares[i].role == ROLES[i]
    ensures Unwrap(aead, envelope.shares[i], keks) == Success(ShareAt(F, rnd.dek, rnd.coefficients, i + 1))
  {
    aead.DecryptEncrypt(ShareAt(F, rnd.dek, rnd.coefficients, i + 1).ys, keks.Get(ROLES[i]), rnd.shareIvs[i], None);
  }

  lemma ReleasedFromUnwrapped(
      F: Field<bv8>, aead: Aead, sealed: AesGcmCiphertext, shares: seq<WrappedShare>, keks: RoleKeks, aad: Option<Bytes>, values: seq<ShareValue>)
    requires |shares| >= SHARE_THRESHOLD && Distinct(Roles(shares))
    requires UnwrapAll(aead, shares, keks) == Success(values) && CombineProblem(values) == None
    ensures Released(F, aead, sealed, shares, keks, aad) == aead.Decrypt(sealed, CombinedSecret(F, values), aad)
  {
    hide CombinedSecret, CombineProblem, UnwrapAll, Aead.Decrypt;
  }

  /** Different places of the three shares. */
  ghost predicate Picks(picks: seq<nat>) {
    Distinct(picks) && forall k :: 0 <= k < |picks| ==> picks[k] < 3
  }

  function Picked<T>(xs: seq<T>, picks: seq<nat>): (ys: seq<T>)
    requires |xs| == SHARE_TOTAL && forall k :: 0 <= k < |picks| ==> picks[k] < SHARE_TOTAL
    ensures |ys| == |picks| && forall k :: 0 <= k < |picks| ==> ys[k] == xs[picks[k]]
  {
    seq(|picks|, k requires 0 <= k < |picks| => xs[picks[k]])
  }

  ghost function KeyShares(F: Field<bv8>, rnd: Randomness): (values: seq<ShareValue>)
    requires rnd.Valid()
    ensures |values| == SHARE_TOTAL
  {
    seq(SHARE_TOTAL, i requires 0 <= i < SHARE_TOTAL => ShareAt(F, rnd.dek, rnd.coefficients, i + 1))
  }

  lemma PickedSharesCombine(F: Field<bv8>, rnd: Randomness, picks: seq<nat>)
    requires IsByteField(F) && rnd.Valid() && |picks| >= SHARE_THRESHOLD && Picks(picks)
    ensures CombineProblem(Picked(KeyShares(F, rnd), picks)) == None
    ensures CombinedSecret(F, Picked(KeyShares(F, rnd), picks)) == rnd.dek
  {
    var indexes := seq(|picks|, k requires 0 <= k < |picks| => picks[k] + 1);
    hide IsByteField, ShareAt, CombineProblem, CombinedSecret;
    SharesRecoverSecret(F, rnd.dek, SHARE_THRESHOLD, SHARE_TOTAL, rnd.coefficients, indexes, Picked(KeyShares(F, rnd), picks));
  }

  lemma PickedRolesDistinct(shares: seq<WrappedShare>, picks: seq<nat>)
    requires |shares| == SHARE_TOTAL && Picks(picks) && forall i :: 0 <= i < SHARE_TOTAL ==> shares[i].role == ROLES[i]
    ensures Distinct(Roles(Picked(shares, picks)))
  {
    forall i, j | 0 <= i < j < |picks| ensures Picked(shares, picks)[i].role != Picked(shares, picks)[j].role {
      assert picks[i] != picks[j];
    }
  }

  /** Any two or all three of the sealed shares, in any order, release exactly the payload. */
  lemma SealThenRelease(
      F: Field<bv8>, aead: Aead, plaintext: Bytes, keks: RoleKeks, aad: Option<Bytes>, rnd: Randomness,
      envelope: SealedEnvelope, picks: seq<nat>)
    requires IsByteField(F) && aead.Correct() && WellKeyed(keks) && rnd.Valid()
    requires IsSealed(F, aead, plaintext, keks, aad, rnd, envelope)
    requires |picks| >= 2 && Picks(picks)
    ensures Released(F, aead, envelope.sealed, Picked(envelope.shares, picks), keks, aad) == Success(plaintext)
  {
    var shares, values := Picked(envelope.shares, picks), Picked(KeyShares(F, rnd), picks);
    assert aead.Encrypt(plaintext, rnd.dek, rnd.payloadIv, aad) == Success(envelope.sealed) && |rnd.dek| == AES_KEY_BYTES;
    forall i | 0 <= i < SHARE_TOTAL
      ensures envelope.shares[i].role == ROLES[i] && Unwrap(aead, envelope.shares[i], keks) == Success(KeyShares(F, rnd)[i])
    {
      SealedShareUnwraps(F, aead, plaintext, keks, aad, rnd, envelope, i);
    }
    hide IsSealed, Unwrap, Aead.Encrypt, Aead.Decrypt, Aead.Correct, IsByteField, CombineProblem, CombinedSecret, UnwrapAll, Released;
    hide KeyShares, Roles, Randomness.Valid;
    PickedRolesDistinct(envelope.shares, picks);
    UnwrapAllSucceeds(aead, shares, keks, values);
    PickedSharesCombine(F, rnd, picks);
    ReleasedFromUnwrapped(F, aead, envelope.sealed, shares, keks, aad, values);
    aead.DecryptEncrypt(plaintext, rnd.dek, rnd.payloadIv, aad);
  }
}
