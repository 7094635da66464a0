/**
 Credentials and the scopes they settle under: moving a credential to another scope, matching
 proofs with it, and asking the chain whether its nullifier for a scope was spent.

 The hash that makes a nullifier from secret, policy, asset and action is the parameter `hash4`.
 */
module Eligibility {
  import opened Common
  import opened Numerals
  import opened Text
  import A = Accumulator
  import P = PublicInputs
  import S = Settlement

  type Hash4 = (nat, nat, nat, nat) -> nat

  datatype Scope = Scope(assetId: string, actionId: string)

  /** The asset scopes, in the order they are searched: RWA, USDC, EURC. */
  const SCOPES := [Scope("1", "1"), Scope("2", "1"), Scope("3", "1")]

  /** The prover's inputs that matter here; a missing note secret is empty. */
  datatype ProverInputs = ProverInputs(
    noteSecret: string,
    policyId: Option<string>,
    assetId: Option<string>,
    actionId: Option<string>,
    nullifier: Option<string>)

  datatype Credential = Credential(nullifier: string, policyId: Option<string>, prover: Option<ProverInputs>)

  datatype Proof = Proof(assetId: string, actionId: string, nullifier: string)

  datatype Error = MissingSecret | MissingNullifier | BadNumber | NotU32

  // ---------------------------------------------------------------- numbers in text

  /** A decimal or `0x` number, or zero for blank text. */
  function ToBigInt(text: string): Result<nat, Error> {
    var t := Trim(text);
    if t == "" then Ok(0)
    else if IsDecimal(t) then Ok(ParseDecimal(t))
    else if |t| > 2 && t[0] == '0' && (t[1] == 'x' || t[1] == 'X') && IsHexText(Lower(t[2..])) then
      Ok(ParseHex(Lower(t[2..])))
    else Err(BadNumber)
  }

  predicate IsPrefixed(t: string, h: string) {
    t == "0x" + h || t == "0X" + h
  }

  /** Numbers are read from decimal digits, none being zero, and from prefixed hexadecimal ones in either case. */
  lemma {:induction false} NumbersAreRead(text: string, h: string)
    ensures Trim(text) == h && IsDecimal(h) ==> ToBigInt(text) == Ok(ParseDecimal(h))
    ensures IsPrefixed(Trim(text), h) ==>
              ToBigInt(text) == if h != "" && IsHexText(Lower(h)) then Ok(ParseHex(Lower(h))) else Err(BadNumber)
  {
    var t := Trim(text);
    if IsPrefixed(t, h) {
      assert t[2..] == h && !IsDigit(t[1]);
    }
  }

  /** Nothing else is. */
  lemma {:induction false} OnlyNumbersAreRead(text: string)
    ensures ToBigInt(text).Ok? ==> IsDecimal(Trim(text)) || exists h :: IsPrefixed(Trim(text), h)
  {
    var t := Trim(text);
    if ToBigInt(text).Ok? && !IsDecimal(t) {
      assert t == t[..2] + t[2..];
      assert t[..2] == "0x" || t[..2] == "0X";
      assert IsPrefixed(t, t[2..]);
    }
  }

  function FieldToHex(n: nat): string {
    "0x" + PadStart(Hex(n), 64)
  }

  // ---------------------------------------------------------------- scoping a credential

  function PolicyText(c: Credential, inputs: ProverInputs): string {
    if inputs.policyId.Some? then inputs.policyId.value
    else if c.policyId.Some? then c.policyId.value
    else "1"
  }

  /** The number that `scopedNullifierDecimal` prints. */
  function ScopedNullifier(hash4: Hash4, noteSecret: string, policyId: string, scope: Scope): Result<nat, Error> {
    var secret :- ToBigInt(noteSecret);
    var policy :- ToBigInt(policyId);
    var asset :- ToBigInt(scope.assetId);
    var action :- ToBigInt(scope.actionId);
    Ok(hash4(secret, policy, asset, action))
  }

  function CredentialForScope(hash4: Hash4, c: Credential, scope: Scope): Result<Credential, Error> {
    if c.prover.None? || c.prover.value.noteSecret == "" then Err(MissingSecret)
    else
      var inputs := c.prover.value;
      var policy := PolicyText(c, inputs);
      var n :- ScopedNullifier(hash4, inputs.noteSecret, policy, scope);
      Ok(c.(nullifier := FieldToHex(n),
            prover := Some(inputs.(policyId := Some(policy), assetId := Some(scope.assetId),
                                   actionId := Some(scope.actionId), nullifier := Some(Decimal(n))))))
  }

  function Rescope(hash4: Hash4, c: Result<Credential, Error>, scope: Scope): Result<Credential, Error> {
    match c
    case Err(e) => Err(e)
    case Ok(credential) => CredentialForScope(hash4, credential, scope)
  }

  /** Whose nullifiers a credential has: the numbers of its note secret and policy. */
  function Identity(c: Credential): Result<(nat, nat), Error> {
    if c.prover.None? || c.prover.value.noteSecret == "" then Err(MissingSecret)
    else
      var secret :- ToBigInt(c.prover.value.noteSecret);
      var policy :- ToBigInt(PolicyText(c, c.prover.value));
      Ok((secret, policy))
  }

  function AssetNumber(scope: Scope): nat
    requires scope in SCOPES
  {
    if scope == SCOPES[0] then 1 else if scope == SCOPES[1] then 2 else 3
  }

  lemma OneDigit(c: char)
    requires IsDigit(c)
    ensures ToBigInt([c]) == Ok(DigitOf(c))
  {
    assert DigitsIn([c]) == [DigitOf(c)];
    assert Value(10, [DigitOf(c)][..0]) == 0;
  }

  lemma ScopeNumbers(scope: Scope)
    requires scope in SCOPES
    ensures ToBigInt(scope.assetId) == Ok(AssetNumber(scope)) && ToBigInt(scope.actionId) == Ok(1)
  {
    OneDigit('1');
    if scope == SCOPES[1] {
      OneDigit('2');
    } else if scope == SCOPES[2] {
      OneDigit('3');
    }
  }

  lemma {:induction false} NullifierOfNumbers(hash4: Hash4, noteSecret: string, policyId: string, scope: Scope)
    requires scope in SCOPES
    ensures ToBigInt(noteSecret).Err? ==>
              ScopedNullifier(hash4, noteSecret, policyId, scope) == Err(ToBigInt(noteSecret).error)
    ensures ToBigInt(noteSecret).Ok? && ToBigInt(policyId).Err? ==>
              ScopedNullifier(hash4, noteSecret, policyId, scope) == Err(ToBigInt(policyId).error)
    ensures ToBigInt(noteSecret).Ok? && ToBigInt(policyId).Ok? ==>
              ScopedNullifier(hash4, noteSecret, policyId, scope) ==
              Ok(hash4(ToBigInt(noteSecret).value, ToBigInt(policyId).value, AssetNumber(scope), 1))
  {
    ScopeNumbers(scope);
  }

  /** Scoping fails just when the credential has no identity, and otherwise hashes it with the scope. */
  lemma {:induction false} ScopingHashesIdentity(hash4: Hash4, c: Credential, scope: Scope)
    requires scope in SCOPES
    ensures match CredentialForScope(hash4, c, scope)
            case Err(e) => Identity(c) == Err(e)
            case Ok(scoped) =>
              && Identity(c).Ok? && Identity(scoped) == Identity(c)
              && scoped.prover.value.assetId == Some(scope.assetId)
              && scoped.prover.value.actionId == Some(scope.actionId)
              && var n := hash4(Identity(c).value.0, Identity(c).value.1, AssetNumber(scope), 1);
                 scoped.prover.value.nullifier == Some(Decimal(n)) && scoped.nullifier == FieldToHex(n)
  {
    if c.prover.Some? {
      NullifierOfNumbers(hash4, c.prover.value.noteSecret, PolicyText(c, c.prover.value), scope);
    }
  }

  lemma {:induction false} RescopingForgets(hash4: Hash4, c: Credential, first: Scope, c': Credential, second: Scope)
    requires CredentialForScope(hash4, c, first) == Ok(c')
    ensures CredentialForScope(hash4, c', second) == CredentialForScope(hash4, c, second)
  {}

  /** The last scope wins: scoping twice is scoping once to the second scope, failures included. */
  lemma {:induction false} RescopingIsLastWriteWins(hash4: Hash4, c: Credential, first: Scope, second: Scope)
    requires first in SCOPES && second in SCOPES
    ensures Rescope(hash4, CredentialForScope(hash4, c, first), second) == CredentialForScope(hash4, c, second)
  {
    var scoped := CredentialForScope(hash4, c, first);
    if scoped.Ok? {
      RescopingForgets(hash4, c, first, scoped.value, second);
    } else {
      ScopingHashesIdentity(hash4, c, first);
      ScopingHashesIdentity(hash4, c, second);
    }
  }

  // ---------------------------------------------------------------- matching a proof

  function ScopeForProof(proof: Proof): (r: Option<Scope>)
    ensures r.Some? <==> Scope(proof.assetId, proof.actionId) in SCOPES
    ensures r.Some? ==> r.value == Scope(proof.assetId, proof.actionId)
  {
    FindScope(proof, SCOPES)
  }

  function FindScope(proof: Proof, scopes: seq<Scope>): (r: Option<Scope>)
    ensures r.Some? <==> Scope(proof.assetId, proof.actionId) in scopes
    ensures r.Some? ==> r.value == Scope(proof.assetId, proof.actionId)
  {
    if scopes == [] then None
    else if scopes[0].assetId == proof.assetId && scopes[0].actionId == proof.actionId then Some(scopes[0])
    else FindScope(proof, scopes[1..])
  }

  function ExpectedNullifier(hash4: Hash4, c: Credential, proof: Proof): Result<Option<string>, Error> {
    if c.prover.None? then Ok(None)
    else
      var inputs := c.prover.value;
      if inputs.noteSecret != "" && ScopeForProof(proof).Some? then
        var n :- ScopedNullifier(hash4, inputs.noteSecret, PolicyText(c, inputs), ScopeForProof(proof).value);
        Ok(Some(Decimal(n)))
      else Ok(inputs.nullifier)
  }

  function ProofMatches(hash4: Hash4, proof: Option<Proof>, c: Option<Credential>): Result<bool, Error> {
    if proof.None? || c.None? then Ok(false)
    else
      var expected :- ExpectedNullifier(hash4, c.value, proof.value);
      Ok(expected == Some(proof.value.nullifier))
  }

  /** For a proof of a known scope, moving the credential to any scope changes no answer. */
  lemma {:induction false} RescopingKeepsMatches(hash4: Hash4, c: Credential, scope: Scope, proof: Proof)
    requires scope in SCOPES && ScopeForProof(proof).Some?
    requires CredentialForScope(hash4, c, scope).Ok?
    ensures ProofMatches(hash4, Some(proof), Some(CredentialForScope(hash4, c, scope).value)) ==
            ProofMatches(hash4, Some(proof), Some(c))
  {}

  /** Without a note secret the stored nullifier decides, and without inputs, proof or credential nothing matches. */
  lemma {:induction false} MatchWithoutSecret(hash4: Hash4, proof: Option<Proof>, c: Option<Credential>)
    ensures proof.None? || c.None? || c.value.prover.None? ==> ProofMatches(hash4, proof, c) == Ok(false)
    ensures proof.Some? && c.Some? && c.value.prover.Some? && c.value.prover.value.noteSecret == "" ==>
              ProofMatches(hash4, proof, c) == Ok(c.value.prover.value.nullifier == Some(proof.value.nullifier))
  {}

  /** The hexadecimal text of a number below 2^256 is read as that number. */
  lemma {:induction false} HexIsRead(n: nat)
    requires n < TWO_TO_256
    ensures ToBigInt(FieldToHex(n)) == Ok(n)
  {
    var h := PadStart(Hex(n), 64);
    HexWidth(n, 64);
    var t := "0x" + h;
    assert t[|t| - 1] == h[63] && IsHex(h[63]);
    TrimOfTrimmed(t);
    NumbersAreRead(t, h);
    LowerIsIdle(h);
    PadKeepsHex(Hex(n), 64);
    ParseHexOfHex(n);
  }

  /** For a proof of any other scope it does: the match is then with the scope the credential was moved to last. */
  lemma {:induction false} RescopingMovesOtherMatches(hash4: Hash4, c: Credential, scope: Scope, proof: Proof)
    requires scope in SCOPES && ScopeForProof(proof).None?
    requires CredentialForScope(hash4, c, scope).Ok?
    ensures var id := Identity(c).value;
            ProofMatches(hash4, Some(proof), Some(CredentialForScope(hash4, c, scope).value)) ==
            Ok(proof.nullifier == Decimal(hash4(id.0, id.1, AssetNumber(scope), 1)))
  {
    ScopingHashesIdentity(hash4, c, scope);
  }

  /** The hash yields field elements. */
  ghost predicate YieldsField(hash4: Hash4) {
    forall a: nat, b: nat, c: nat, d: nat :: InField(hash4(a, b, c, d))
  }

  predicate InField(n: nat) {
    n < A.FIELD_ORDER
  }

  function NullifierNumber(hash4: Hash4, id: (nat, nat), scope: Scope): nat
    requires scope in SCOPES
  {
    hash4(id.0, id.1, AssetNumber(scope), 1)
  }

  /** Different secrets or policies with one nullifier for the scope: a collision of the hash. */
  predicate Collide(hash4: Hash4, id: (nat, nat), jd: (nat, nat), scope: Scope)
    requires scope in SCOPES
  {
    id != jd && NullifierNumber(hash4, id, scope) == NullifierNumber(hash4, jd, scope)
  }

  lemma {:induction false} MatchIsByNumber(hash4: Hash4, proof: Proof, c: Credential, id: (nat, nat))
    requires Identity(c) == Ok(id) && ScopeForProof(proof).Some?
    ensures ProofMatches(hash4, Some(proof), Some(c)) ==
            Ok(proof.nullifier == Decimal(hash4(id.0, id.1, AssetNumber(ScopeForProof(proof).value), 1)))
  {
    NullifierOfNumbers(hash4, c.prover.value.noteSecret, PolicyText(c, c.prover.value), ScopeForProof(proof).value);
  }

  /** A proof of a known scope matches only credentials of one secret and policy, barring a collision. */
  lemma {:induction false} MatchesOneIdentity(
    hash4: Hash4, proof: Proof, c: Credential, d: Credential, id: (nat, nat), jd: (nat, nat))
    requires Identity(c) == Ok(id) && Identity(d) == Ok(jd) && ScopeForProof(proof).Some?
    requires !Collide(hash4, id, jd, ScopeForProof(proof).value)
    requires ProofMatches(hash4, Some(proof), Some(c)) == Ok(true)
    ensures ProofMatches(hash4, Some(proof), Some(d)) == Ok(true) <==> jd == id
  {
    var scope := ScopeForProof(proof).value;
    MatchIsByNumber(hash4, proof, c, id);
    MatchIsByNumber(hash4, proof, d, jd);
    var m, n := NullifierNumber(hash4, id, scope), NullifierNumber(hash4, jd, scope);
    if Decimal(m) == Decimal(n) { DecimalIsInjective(m, n); }
  }

  // ---------------------------------------------------------------- asking whether it was spent

  /** The prover's nullifier, or the credential's own when there is none, in hexadecimal. */
  function NullifierHex(c: Credential): Result<string, Error> {
    var text := if c.prover.Some? && c.prover.value.nullifier.Some? then c.prover.value.nullifier.value
        else c.nullifier;
    if text == "" then Err(MissingNullifier)
    else
      var n :- ToBigInt(text);
      Ok(FieldToHex(n))
  }

  function ScopeNullifierHex(hash4: Hash4, c: Credential, scope: Scope): Result<string, Error> {
    var scoped :- CredentialForScope(hash4, c, scope);
    NullifierHex(scoped)
  }

  /** The key that the verifier is asked about: policy, asset and action as 32-bit numbers, and 32 bytes. */
  function KeyOf(policy: nat, asset: nat, action: nat, hex: string): Result<S.SpentKey, Error> {
    if policy >= P.U32_LIMIT || asset >= P.U32_LIMIT || action >= P.U32_LIMIT then Err(NotU32)
    else if |hex| != 66 || !IsHexText(hex[2..]) then Err(BadNumber)
    else Ok(S.SpentKey(policy, asset, action, P.BytesOfHex(hex[2..])))
  }

  function AskedKey(hash4: Hash4, c: Credential, scope: Scope): Result<S.SpentKey, Error> {
    var scoped :- CredentialForScope(hash4, c, scope);
    var policy :- ToBigInt(scoped.prover.value.policyId.value);
    var hex :- ScopeNullifierHex(hash4, c, scope);
    var asset :- ToBigInt(scope.assetId);
    var action :- ToBigInt(scope.actionId);
    KeyOf(policy, asset, action, hex)
  }

  function IsScopeNullifierSpent(hash4: Hash4, c: Credential, scope: Scope, s: S.State): Result<bool, Error> {
    var key :- AskedKey(hash4, c, scope);
    Ok(key in s.spent)
  }

  lemma BigIntOfDecimal(n: nat)
    ensures ToBigInt(Decimal(n)) == Ok(n)
  {
    TrimOfTrimmed(Decimal(n));
    ParseDecimalOfDecimal(n);
  }

  /** The policy is the one among the prover's inputs, or else the credential's, or else 1. */
  lemma {:induction false} PolicyOfIdentity(c: Credential, n: nat)
    requires Identity(c).Ok?
    ensures c.prover.value.policyId == Some(Decimal(n)) ==> Identity(c).value.1 == n
    ensures c.prover.value.policyId == None && c.policyId == Some(Decimal(n)) ==> Identity(c).value.1 == n
    ensures c.prover.value.policyId == None && c.policyId == None ==> Identity(c).value.1 == 1
  {
    BigIntOfDecimal(n);
    OneDigit('1');
  }

  // ---------------------------------------------------------------- what the answer is about

  /** A credential that can be asked about: it has an identity, and its policy is a 32-bit number. */
  predicate Askable(c: Credential) {
    Identity(c).Ok? && Identity(c).value.1 < P.U32_LIMIT
  }

  /** The key for a secret, policy and scope: the scope's numbers and the nullifier in 32 bytes. */
  predicate IsKeyFor(hash4: Hash4, key: S.SpentKey, id: (nat, nat), scope: Scope)
    requires scope in SCOPES
  {
    && key.policy == id.1 && key.asset == AssetNumber(scope) && key.action == 1
    && |key.nullifier| == 32 && Value(256, key.nullifier) == NullifierNumber(hash4, id, scope)
  }

  lemma KeyOfNullifier(policy: nat, asset: nat, n: nat) returns (key: S.SpentKey)
    requires InField(n) && policy < P.U32_LIMIT && asset < P.U32_LIMIT
    ensures KeyOf(policy, asset, 1, FieldToHex(n)) == Ok(key)
    ensures key.policy == policy && key.asset == asset && key.action == 1
    ensures |key.nullifier| == 32 && Value(256, key.nullifier) == n
  {
    var h := FieldToHex(n)[2..];
    assert h == PadStart(Hex(n), 64);
    HexWidth(n, 64);
    PadKeepsHex(Hex(n), 64);
    ParseHexOfHex(n);
    P.PairedValue(DigitsIn(h));
    key := KeyOf(policy, asset, 1, FieldToHex(n)).value;
  }

  lemma HexOfPrinted(c: Credential, n: nat)
    requires c.prover.Some? && c.prover.value.nullifier == Some(Decimal(n))
    ensures NullifierHex(c) == Ok(FieldToHex(n))
  {
    BigIntOfDecimal(n);
  }

  lemma {:induction false} HexIsOfIdentity(hash4: Hash4, c: Credential, scope: Scope, id: (nat, nat))
    requires Identity(c) == Ok(id) && scope in SCOPES
    ensures ScopeNullifierHex(hash4, c, scope) == Ok(FieldToHex(NullifierNumber(hash4, id, scope)))
  {
    ScopingHashesIdentity(hash4, c, scope);
    HexOfPrinted(CredentialForScope(hash4, c, scope).value, NullifierNumber(hash4, id, scope));
  }

  lemma {:induction false} AskedKeyIsKeyOf(hash4: Hash4, c: Credential, scope: Scope, id: (nat, nat), hex: string)
    requires Identity(c) == Ok(id) && scope in SCOPES && ScopeNullifierHex(hash4, c, scope) == Ok(hex)
    ensures AskedKey(hash4, c, scope) == KeyOf(id.1, AssetNumber(scope), 1, hex)
  {
    ScopeNumbers(scope);
  }

  /** The key asked about holds the credential's policy, the scope and the nullifier, which fills its 32 bytes. */
  lemma {:induction false} AskedKeyIsExact(hash4: Hash4, c: Credential, scope: Scope, id: (nat, nat))
    returns (key: S.SpentKey)
    requires YieldsField(hash4) && Askable(c) && scope in SCOPES && Identity(c) == Ok(id)
    ensures AskedKey(hash4, c, scope) == Ok(key) && IsKeyFor(hash4, key, id, scope)
  {
    var n := NullifierNumber(hash4, id, scope);
    HexIsOfIdentity(hash4, c, scope, id);
    AskedKeyIsKeyOf(hash4, c, scope, id, FieldToHex(n));
    key := KeyOfNullifier(id.1, AssetNumber(scope), n);
  }

  /** The question can be put exactly when the credential's policy is below 2^32. */
  lemma {:induction false} AskedIffPolicyFits(hash4: Hash4, c: Credential, scope: Scope, id: (nat, nat))
    requires YieldsField(hash4) && scope in SCOPES && Identity(c) == Ok(id)
    ensures AskedKey(hash4, c, scope).Ok? <==> id.1 < 0x1_0000_0000
  {
    if id.1 < 0x1_0000_0000 {
      var _ := AskedKeyIsExact(hash4, c, scope, id);
    } else {
      HexIsOfIdentity(hash4, c, scope, id);
      AskedKeyIsKeyOf(hash4, c, scope, id, FieldToHex(NullifierNumber(hash4, id, scope)));
    }
  }

  /** Keys are equal exactly when secret, policy and scope are, barring a collision. */
  lemma {:induction false} KeysAreOfIdentityAndScope(
    hash4: Hash4, k: S.SpentKey, id: (nat, nat), s: Scope, l: S.SpentKey, jd: (nat, nat), t: Scope)
    requires s in SCOPES && t in SCOPES && !Collide(hash4, id, jd, s)
    requires IsKeyFor(hash4, k, id, s) && IsKeyFor(hash4, l, jd, t)
    ensures k == l <==> id == jd && s == t
  {
    if id == jd && s == t {
      SameLengthSameValue(256, k.nullifier, l.nullifier);
    }
  }

  // ---------------------------------------------------------------- what settling does to the answers

  /** What a proof for this secret, policy and scope has as public inputs, whatever its roots. */
  predicate IsFor(hash4: Hash4, f: P.Fields<nat>, id: (nat, nat), scope: Scope)
    requires scope in SCOPES
  {
    && P.FitsWire(f) && f.policyId == id.1 && f.assetId == AssetNumber(scope) && f.actionId == 1
    && f.nullifier == NullifierNumber(hash4, id, scope)
  }

  lemma {:induction false} ContractReads(
    hash4: Hash4, f: P.Fields<nat>, id: (nat, nat), scope: Scope, publicInputs: Bytes)
    requires scope in SCOPES && IsFor(hash4, f, id, scope) && publicInputs == P.WireBytes(f)
    ensures |publicInputs| == 192
    ensures P.PublicInputU32(publicInputs, 3) == Some(AssetNumber(scope))
    ensures P.PublicInputU32(publicInputs, 4) == Some(1)
    ensures Value(256, publicInputs[160..192]) == NullifierNumber(hash4, id, scope)
  {
    ContractReadsScope(f, publicInputs, AssetNumber(scope), 1);
  }

  lemma ContractReadsScope(f: P.Fields<nat>, publicInputs: Bytes, asset: nat, action: nat)
    requires P.FitsWire(f) && publicInputs == P.WireBytes(f)
    requires f.assetId == asset && f.actionId == action && 1 <= asset < P.U32_LIMIT && 1 <= action < P.U32_LIMIT
    ensures |publicInputs| == 192
    ensures P.PublicInputU32(publicInputs, 3) == Some(asset) && P.PublicInputU32(publicInputs, 4) == Some(action)
    ensures Value(256, publicInputs[160..192]) == f.nullifier
  {
    P.ContractReadsWhatClientBuilt(f);
  }

  lemma KeyOfInputs(policy: nat, publicInputs: Bytes, asset: nat, action: nat) returns (key: S.SpentKey)
    requires |publicInputs| == 192
    requires P.PublicInputU32(publicInputs, 3) == Some(asset) && P.PublicInputU32(publicInputs, 4) == Some(action)
    ensures S.KeyFor(policy, publicInputs) == Ok(key)
    ensures key == S.SpentKey(policy, asset, action, publicInputs[160..192])
  {
    key := S.SpentKey(policy, asset, action, publicInputs[160..192]);
  }

  /** The verifier files what the client built under the key for it, but for the policy it is passed. */
  lemma {:induction false} FiledKeyIsExact(
    hash4: Hash4, f: P.Fields<nat>, id: (nat, nat), scope: Scope, publicInputs: Bytes, policy: nat)
    returns (key: S.SpentKey)
    requires scope in SCOPES && IsFor(hash4, f, id, scope) && publicInputs == P.WireBytes(f)
    ensures S.KeyFor(policy, publicInputs) == Ok(key)
    ensures key.policy == policy && IsKeyFor(hash4, key.(policy := id.1), id, scope)
  {
    ContractReads(hash4, f, id, scope, publicInputs);
    key := KeyOfInputs(policy, publicInputs, AssetNumber(scope), 1);
  }

  lemma {:induction false} AnswerAfterSpending(
    hash4: Hash4, d: Credential, t: Scope, asked: S.SpentKey, s: S.State, after: S.State, filed: S.SpentKey,
    before: bool)
    requires AskedKey(hash4, d, t) == Ok(asked) && after.spent == s.spent + {filed}
    requires IsScopeNullifierSpent(hash4, d, t, s) == Ok(before)
    ensures IsScopeNullifierSpent(hash4, d, t, after) == Ok(before || filed == asked)
  {}

  lemma {:induction false} FiledIsAsked(
    hash4: Hash4, filed: S.SpentKey, id: (nat, nat), scope: Scope, asked: S.SpentKey, jd: (nat, nat), t: Scope)
    requires scope in SCOPES && t in SCOPES && !Collide(hash4, id, jd, scope)
    requires IsKeyFor(hash4, filed.(policy := id.1), id, scope) && IsKeyFor(hash4, asked, jd, t)
    ensures filed == asked <==> id == jd && scope == t && filed.policy == id.1
  {
    KeysAreOfIdentityAndScope(hash4, filed.(policy := id.1), id, scope, asked, jd, t);
  }

  /** The inputs and policy that a step has filed when it succeeds. */
  function InputsOf(step: S.Step): Option<Bytes> {
    match step
    case Settlement(c) => Some(c.publicInputs)
    case Verification(_, _, publicInputs) => Some(publicInputs)
    case _ => None
  }

  /** Who a proof was made for. */
  datatype Holder = Holder(id: (nat, nat), scope: Scope)

  /** These are what the client builds for this holder, whatever the roots. */
  ghost predicate MadeFor(hash4: Hash4, publicInputs: Bytes, h: Holder) {
    h.scope in SCOPES && exists f :: IsFor(hash4, f, h.id, h.scope) && publicInputs == P.WireBytes(f)
  }

  /** A settlement that succeeds under this policy. */
  predicate Settles(s: S.State, step: S.Step, config: S.Config, accepts: S.Oracle, policy: nat) {
    step.Settlement? && S.Settle(s, step.call, config, accepts).Ok? && S.PolicyPassed(step.call, config) == Some(policy)
  }

  /** A verification, without a settlement, that succeeds under this policy. */
  predicate Verifies(s: S.State, step: S.Step, accepts: S.Oracle, policy: nat) {
    && step.Verification? && step.policy == policy
    && S.Verify(s, policy, step.proof, step.publicInputs, accepts).Ok?
  }

  lemma {:induction false} ReceiptIsOfStep(s: S.State, step: S.Step, config: S.Config, accepts: S.Oracle, policy: nat)
    ensures var rs := S.ReceiptOf(s, step, config, accepts);
            && (rs != [] ==> InputsOf(step) == Some(rs[0].publicInputs))
            && (Settles(s, step, config, accepts, policy) || Verifies(s, step, accepts, policy) <==>
                rs != [] && rs[0].policy == policy)
  {}

  lemma {:induction false} SameSpentSameAnswer(hash4: Hash4, d: Credential, t: Scope, s: S.State, after: S.State)
    requires s.spent == after.spent
    ensures IsScopeNullifierSpent(hash4, d, t, s) == IsScopeNullifierSpent(hash4, d, t, after)
  {}

  lemma {:induction false} FilingChangesOneAnswer(
    hash4: Hash4, holder: Holder, publicInputs: Bytes, policy: nat, key: S.SpentKey, s: S.State, after: S.State,
    d: Credential, t: Scope, before: bool)
    requires YieldsField(hash4) && Askable(d) && t in SCOPES
    requires MadeFor(hash4, publicInputs, holder) && !Collide(hash4, holder.id, Identity(d).value, holder.scope)
    requires S.KeyFor(policy, publicInputs) == Ok(key) && after.spent == s.spent + {key}
    requires IsScopeNullifierSpent(hash4, d, t, s) == Ok(before)
    ensures IsScopeNullifierSpent(hash4, d, t, after) ==
            Ok(before || (holder == Holder(Identity(d).value, t) && policy == holder.id.1))
  {
    var f :| IsFor(hash4, f, holder.id, holder.scope) && publicInputs == P.WireBytes(f);
    var filed := FiledKeyIsExact(hash4, f, holder.id, holder.scope, publicInputs, policy);
    var asked := AskedKeyIsExact(hash4, d, t, Identity(d).value);
    AnswerAfterSpending(hash4, d, t, asked, s, after, filed, before);
    FiledIsAsked(hash4, filed, holder.id, holder.scope, asked, Identity(d).value, t);
  }

  /**
   A step with a proof for one identity and scope makes the answer for them yes when it succeeds and the
   verifier is passed the identity's policy: a settlement, or a verification by anyone who has the proof.
   Barring a collision, every other answer stays as it was, for another scope, policy or secret; and all
   of them do when another policy is passed, as the swap and payroll contracts may.
   */
  lemma {:induction false} StepChangesOneAnswer(
    hash4: Hash4, s: S.State, step: S.Step, holder: Holder, config: S.Config, accepts: S.Oracle,
    d: Credential, t: Scope, before: bool)
    requires YieldsField(hash4) && Askable(d) && t in SCOPES
    requires InputsOf(step).Some? ==>
               && MadeFor(hash4, InputsOf(step).value, holder)
               && !Collide(hash4, holder.id, Identity(d).value, holder.scope)
    requires IsScopeNullifierSpent(hash4, d, t, s) == Ok(before)
    ensures IsScopeNullifierSpent(hash4, d, t, S.Apply(s, step, config, accepts)) ==
            Ok(|| before
               || (holder == Holder(Identity(d).value, t) && Settles(s, step, config, accepts, holder.id.1))
               || (holder == Holder(Identity(d).value, t) && Verifies(s, step, accepts, holder.id.1)))
  {
    var after, rs := S.Apply(s, step, config, accepts), S.ReceiptOf(s, step, config, accepts);
    S.StepFilesReceipt(s, step, config, accepts);
    ReceiptIsOfStep(s, step, config, accepts, holder.id.1);
    if rs == [] {
      SameSpentSameAnswer(hash4, d, t, s, after);
    } else {
      FilingChangesOneAnswer(hash4, holder, rs[0].publicInputs, rs[0].policy, rs[0].key, s, after, d, t, before);
    }
  }

  // ---------------------------------------------------------------- runs

  /** Each proof of a run was built by the client for its holder. */
  ghost predicate AllMadeFor(hash4: Hash4, steps: seq<S.Step>, holders: seq<Holder>) {
    |holders| == |steps| && forall i | 0 <= i < |steps| && InputsOf(steps[i]).Some? ::
        MadeFor(hash4, InputsOf(steps[i]).value, holders[i])
  }

  /** No holder of the run has the nullifier of `id` without being `id`. */
  ghost predicate NoneCollides(hash4: Hash4, steps: seq<S.Step>, holders: seq<Holder>, id: (nat, nat)) {
    |holders| == |steps| &&
    forall i | 0 <= i < |steps| && InputsOf(steps[i]).Some? && holders[i].scope in SCOPES ::
      !Collide(hash4, holders[i].id, id, holders[i].scope)
  }

  /** Some settlement of the run succeeds for this holder and is passed the holder's policy. */
  predicate SettlesFor(
    s: S.State, steps: seq<S.Step>, holders: seq<Holder>, config: S.Config, accepts: S.Oracle, h: Holder)
    requires |holders| == |steps|
    decreases steps
  {
    steps != [] &&
    (|| (holders[0] == h && Settles(s, steps[0], config, accepts, h.id.1))
     || SettlesFor(S.Apply(s, steps[0], config, accepts), steps[1..], holders[1..], config, accepts, h))
  }

  /** Someone had a proof of this holder verified under the holder's policy without settling. */
  predicate VerifiesFor(
    s: S.State, steps: seq<S.Step>, holders: seq<Holder>, config: S.Config, accepts: S.Oracle, h: Holder)
    requires |holders| == |steps|
    decreases steps
  {
    steps != [] &&
    (|| (holders[0] == h && Verifies(s, steps[0], accepts, h.id.1))
     || VerifiesFor(S.Apply(s, steps[0], config, accepts), steps[1..], holders[1..], config, accepts, h))
  }

  /**
   Over any run, whoever settles, verifies, pays or registers policies, the answer for a credential and
   scope becomes yes exactly when a settlement succeeds for that very holder under its policy, or somebody
   has a proof of the holder verified under it. Nothing else changes it, barring a collision.
   */
  lemma {:induction false} AnswerAfterRun(
    hash4: Hash4, s: S.State, steps: seq<S.Step>, holders: seq<Holder>, config: S.Config, accepts: S.Oracle,
    d: Credential, t: Scope, before: bool)
    requires YieldsField(hash4) && Askable(d) && t in SCOPES
    requires AllMadeFor(hash4, steps, holders) && NoneCollides(hash4, steps, holders, Identity(d).value)
    requires IsScopeNullifierSpent(hash4, d, t, s) == Ok(before)
    ensures IsScopeNullifierSpent(hash4, d, t, S.Run(s, steps, config, accepts)) ==
            Ok(|| before
               || SettlesFor(s, steps, holders, config, accepts, Holder(Identity(d).value, t))
               || VerifiesFor(s, steps, holders, config, accepts, Holder(Identity(d).value, t)))
    decreases steps
  {
    if steps != [] {
      var h := Holder(Identity(d).value, t);
      var next := S.Apply(s, steps[0], config, accepts);
      StepChangesOneAnswer(hash4, s, steps[0], holders[0], config, accepts, d, t, before);
      var now := before || (holders[0] == h && Settles(s, steps[0], config, accepts, h.id.1))
                 || (holders[0] == h && Verifies(s, steps[0], accepts, h.id.1));
      AnswerAfterRun(hash4, next, steps[1..], holders[1..], config, accepts, d, t, now);
    }
  }

  /** Proofs of one secret, policy and scope change no answer for another scope, or for another identity. */
  lemma {:induction false} OneHolderChangesNoOther(
    hash4: Hash4, s: S.State, steps: seq<S.Step>, holder: Holder, config: S.Config, accepts: S.Oracle,
    d: Credential, t: Scope, before: bool)
    requires YieldsField(hash4) && Askable(d) && t in SCOPES && holder.scope in SCOPES
    requires forall i | 0 <= i < |steps| && InputsOf(steps[i]).Some? ::
               MadeFor(hash4, InputsOf(steps[i]).value, holder)
    requires !Collide(hash4, holder.id, Identity(d).value, holder.scope)
    requires Identity(d) != Ok(holder.id) || t != holder.scope
    requires IsScopeNullifierSpent(hash4, d, t, s) == Ok(before)
    ensures IsScopeNullifierSpent(hash4, d, t, S.Run(s, steps, config, accepts)) == Ok(before)
  {
    var holders := seq(|steps|, _ => holder);
    AnswerAfterRun(hash4, s, steps, holders, config, accepts, d, t, before);
    NeverFilesFor(s, steps, holders, config, accepts, Holder(Identity(d).value, t));
  }

  lemma {:induction false} NeverFilesFor(
    s: S.State, steps: seq<S.Step>, holders: seq<Holder>, config: S.Config, accepts: S.Oracle, h: Holder)
    requires |holders| == |steps| && forall i | 0 <= i < |holders| :: holders[i] != h
    ensures !SettlesFor(s, steps, holders, config, accepts, h) && !VerifiesFor(s, steps, holders, config, accepts, h)
    decreases steps
  {
    if steps != [] {
      NeverFilesFor(S.Apply(s, steps[0], config, accepts), steps[1..], holders[1..], config, accepts, h);
    }
  }
}
