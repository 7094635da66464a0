/**
 Reading a passkey's P-256 public key out of a WebAuthn registration response: the
 COSE key (RFC 9053, section 7.1.1) inside the attested credential data of the
 authenticator data (Web Authentication Level 2, sections 6.1 and 6.5.1), alone or
 inside an attestation object.

 Whether a point lies on the curve is the parameter `onCurve`.
 */
module Webauthn {
  import opened Common
  import C = Cbor
  import T = Truncation

  datatype Error =
    | Cbor(e: C.Error)
    | BadPoint
    | NotACoseMap
    | NotEs256
    | BadCoordinates
    | NoAttestedData
    | TooShort
    | MissingCoseKey
    | NotAnAttestationMap
    | MissingAuthData
    | NoPublicKey

  const UNCOMPRESSED: Byte := 0x04
  const COORDINATE_SIZE := 32
  const POINT_SIZE := 65

  /** "authData" in UTF-8. */
  const AUTH_DATA: Bytes := [0x61, 0x75, 0x74, 0x68, 0x44, 0x61, 0x74, 0x61]

  function AssertPoint(key: Bytes, onCurve: Bytes -> bool): Result<Bytes, Error> {
    if |key| != POINT_SIZE || key[0] != UNCOMPRESSED || !onCurve(key) then Err(BadPoint) else Ok(key)
  }

  function CoseKeyToPublicKey(coseKey: Bytes, onCurve: Bytes -> bool): Result<Bytes, Error> {
    match C.Decode(coseKey, C.At(0))
    case Err(e) => Err(Cbor(e))
    case Ok(decoded) =>
      if !decoded.value.Map? then Err(NotACoseMap)
      else
        var entries := decoded.value.entries;
        var x, y := C.MapGet(entries, C.Int(-2)), C.MapGet(entries, C.Int(-3));
        if C.MapGet(entries, C.Int(3)) != C.Int(-7)
           || C.MapGet(entries, C.Int(1)) != C.Int(2)
           || C.MapGet(entries, C.Int(-1)) != C.Int(1)
        then Err(NotEs256)
        else if !IsCoordinate(x) || !IsCoordinate(y) then Err(BadCoordinates)
        else AssertPoint([UNCOMPRESSED] + x.bytes + y.bytes, onCurve)
  }

  predicate IsCoordinate(v: C.Value) {
    v.ByteString? && |v.bytes| == COORDINATE_SIZE
  }

  predicate AttestedFlag(flags: Byte) {
    flags / 0x40 % 2 == 1
  }

  /** Past the fixed fields, the 16-bit credential id length and the credential id. */
  function CoseKeyOffset(authData: Bytes): nat
    requires |authData| >= 55
  {
    55 + (authData[53] as nat) * 256 + authData[54] as nat
  }

  function FromAuthData(authData: Bytes, onCurve: Bytes -> bool): Result<Bytes, Error> {
    if !AttestedFlag(C.BitsAt(authData, C.At(32))) then Err(NoAttestedData)
    else if |authData| < 37 + 16 + 2 then Err(TooShort)
    else
      var coseKeyOffset := CoseKeyOffset(authData);
      if coseKeyOffset >= |authData| then Err(MissingCoseKey)
      else CoseKeyToPublicKey(authData[coseKeyOffset..], onCurve)
  }

  function FromAttestationObject(attestationObject: Bytes, onCurve: Bytes -> bool): Result<Bytes, Error> {
    match C.Decode(attestationObject, C.At(0))
    case Err(e) => Err(Cbor(e))
    case Ok(decoded) =>
      if !decoded.value.Map? then Err(NotAnAttestationMap)
      else
        var authData := C.MapGet(decoded.value.entries, C.Text(AUTH_DATA));
        if !authData.ByteString? then Err(MissingAuthData) else FromAuthData(authData.bytes, onCurve)
  }

  /** A registration response; a field that is absent or the empty string is `None`. */
  datatype Response = Response(
    publicKey: Option<Bytes>,
    authenticatorData: Option<Bytes>,
    attestationObject: Option<Bytes>)

  /** `slice(length - 65)`, whose negative start counts from the end again. */
  function LastPoint(key: Bytes): Bytes {
    if |key| >= POINT_SIZE then key[|key| - POINT_SIZE..]
    else if 2 * |key| >= POINT_SIZE then key[2 * |key| - POINT_SIZE..]
    else key
  }

  function ExtractRegistrationPublicKey(response: Response, onCurve: Bytes -> bool): Result<Bytes, Error> {
    if response.publicKey.Some? && AssertPoint(LastPoint(response.publicKey.value), onCurve).Ok? then
      AssertPoint(LastPoint(response.publicKey.value), onCurve)
    else if response.authenticatorData.Some? then
      FromAuthData(response.authenticatorData.value, onCurve)
    else if response.attestationObject.Some? then
      FromAttestationObject(response.attestationObject.value, onCurve)
    else
      Err(NoPublicKey)
  }

  // ---------------------------------------------------------------- what authenticators send

  /** The pairs of a map item, under any tags. */
  function Pairs(t: C.Item): (flat: Option<seq<C.Value>>)
    requires C.Legal(t)
    ensures flat.Some? ==> |flat.value| % 2 == 0 && C.Meaning(t) == C.Map(C.BuildMap(flat.value))
    ensures flat.None? ==> !C.Meaning(t).Map?
  {
    match t
    case MapItem(_, items) => Some(C.MeaningAll(items))
    case TagItem(_, _, inner) => Pairs(inner)
    case _ => None
  }

  /** The value a map item sends for a primitive key; the last one counts. */
  function Sent(t: C.Item, key: C.Value): C.Value
    requires C.Legal(t)
  {
    var flat := Pairs(t);
    if flat.Some? then C.LastValue(flat.value, key) else C.Undefined
  }

  lemma SentIsFound(t: C.Item, key: C.Value)
    requires C.Legal(t) && C.Meaning(t).Map? && C.Primitive(key)
    ensures C.MapGet(C.Meaning(t).entries, key) == Sent(t, key)
  {
    C.MapGetIsLastValue(Pairs(t).value, key);
  }

  /** An EC2 P-256 key for ES256 with these coordinates, in any order, with any further entries. */
  predicate IsEs256Key(t: C.Item, x: Bytes, y: Bytes) {
    && C.Legal(t) && Pairs(t).Some?
    && |x| == COORDINATE_SIZE && |y| == COORDINATE_SIZE
    && Sent(t, C.Int(1)) == C.Int(2)
    && Sent(t, C.Int(3)) == C.Int(-7)
    && Sent(t, C.Int(-1)) == C.Int(1)
    && Sent(t, C.Int(-2)) == C.ByteString(x)
    && Sent(t, C.Int(-3)) == C.ByteString(y)
  }

  function Point(x: Bytes, y: Bytes): Bytes {
    [UNCOMPRESSED] + x + y
  }

  /** Authenticator data with attested credential data. */
  datatype AuthData = AuthData(
    rpIdHash: Bytes,
    flags: Byte,
    counter: Bytes,
    aaguid: Bytes,
    credentialId: Bytes,
    key: C.Item,
    extensions: Bytes)
  {
    predicate WellFormed() {
      && |rpIdHash| == 32 && |counter| == 4 && |aaguid| == 16 && |credentialId| < 0x1_0000
      && flags % 0x80 >= 0x40 && C.Legal(key)
    }

    function Prefix(): Bytes
      requires WellFormed()
    {
      rpIdHash + [flags] + counter + aaguid + [|credentialId| / 0x100, |credentialId| % 0x100] + credentialId
    }

    function ToBytes(): Bytes
      requires WellFormed()
    {
      Prefix() + (C.Serialize(key) + extensions)
    }
  }

  lemma {:induction false} KeyIsRead(t: C.Item, suffix: Bytes, x: Bytes, y: Bytes, onCurve: Bytes -> bool)
    requires IsEs256Key(t, x, y)
    ensures CoseKeyToPublicKey(C.Serialize(t) + suffix, onCurve) == AssertPoint(Point(x, y), onCurve)
  {
    var data := C.Serialize(t) + suffix;
    assert Occurs(data, 0, C.Serialize(t));
    C.DecodeInvertsSerialize(t, data, 0);
    SentIsFound(t, C.Int(1));
    SentIsFound(t, C.Int(3));
    SentIsFound(t, C.Int(-1));
    SentIsFound(t, C.Int(-2));
    SentIsFound(t, C.Int(-3));
  }

  lemma {:induction false} KeyOffsetIsRead(a: AuthData, rest: Bytes, onCurve: Bytes -> bool)
    requires a.WellFormed() && rest != []
    ensures FromAuthData(a.Prefix() + rest, onCurve) == CoseKeyToPublicKey(rest, onCurve)
  {
    var prefix, data := a.Prefix(), a.Prefix() + rest;
    assert |prefix| == 55 + |a.credentialId|;
    assert forall k | 0 <= k < |prefix| :: data[k] == prefix[k];
    assert prefix[32] == a.flags && prefix[53] == |a.credentialId| / 0x100 && prefix[54] == |a.credentialId| % 0x100;
    assert data[|prefix|..] == rest;
  }

  lemma {:induction false} LayoutIsRead(a: AuthData, onCurve: Bytes -> bool)
    requires a.WellFormed()
    ensures FromAuthData(a.ToBytes(), onCurve) == CoseKeyToPublicKey(C.Serialize(a.key) + a.extensions, onCurve)
  {
    KeyOffsetIsRead(a, C.Serialize(a.key) + a.extensions, onCurve);
  }

  /** Whatever surrounds it, the key that was sent is the key extracted. */
  lemma {:induction false} AuthDataYieldsKey(a: AuthData, x: Bytes, y: Bytes, onCurve: Bytes -> bool)
    requires a.WellFormed() && IsEs256Key(a.key, x, y)
    ensures FromAuthData(a.ToBytes(), onCurve) == if onCurve(Point(x, y)) then Ok(Point(x, y)) else Err(BadPoint)
  {
    LayoutIsRead(a, onCurve);
    KeyIsRead(a.key, a.extensions, x, y, onCurve);
  }

  /** The attestation route reads exactly what the authenticator-data route reads. */
  lemma {:induction false} AttestationRouteAgrees(t: C.Item, authData: Bytes, suffix: Bytes, onCurve: Bytes -> bool)
    requires C.Legal(t) && Pairs(t).Some? && Sent(t, C.Text(AUTH_DATA)) == C.ByteString(authData)
    ensures FromAttestationObject(C.Serialize(t) + suffix, onCurve) == FromAuthData(authData, onCurve)
  {
    var data := C.Serialize(t) + suffix;
    assert Occurs(data, 0, C.Serialize(t));
    C.DecodeInvertsSerialize(t, data, 0);
    SentIsFound(t, C.Text(AUTH_DATA));
  }

  /** The last 65 bytes are no point. */
  predicate NoPoint(key: Bytes, onCurve: Bytes -> bool) {
    |key| >= POINT_SIZE ==> key[|key| - POINT_SIZE] != UNCOMPRESSED || !onCurve(key[|key| - POINT_SIZE..])
  }

  /** A public key that ends in no point counts for nothing, and authenticator data is final, key or error. */
  lemma {:induction false} FieldsAreTriedInOrder(response: Response, onCurve: Bytes -> bool)
    ensures response.publicKey.Some? ==>
              ExtractRegistrationPublicKey(response, onCurve) ==
              if NoPoint(response.publicKey.value, onCurve)
              then ExtractRegistrationPublicKey(response.(publicKey := None), onCurve)
              else Ok(response.publicKey.value[|response.publicKey.value| - POINT_SIZE..])
    ensures response.publicKey.None? && response.authenticatorData.Some? ==>
              ExtractRegistrationPublicKey(response, onCurve) == FromAuthData(response.authenticatorData.value, onCurve)
  {}

  /**
   Any subset of the three encodings of one registration gives the one key, also when the public key
   is given in a form that ends in no point.
   */
  lemma {:induction false} AllRoutesAgree(
    a: AuthData, x: Bytes, y: Bytes, attestation: C.Item, spkiHeader: Bytes, suffix: Bytes,
    response: Response, onCurve: Bytes -> bool)
    requires a.WellFormed() && IsEs256Key(a.key, x, y) && onCurve(Point(x, y))
    requires C.Legal(attestation) && Pairs(attestation).Some?
    requires Sent(attestation, C.Text(AUTH_DATA)) == C.ByteString(a.ToBytes())
    requires response.publicKey.Some? ==>
               response.publicKey.value == spkiHeader + Point(x, y) || NoPoint(response.publicKey.value, onCurve)
    requires response.authenticatorData in {None, Some(a.ToBytes())}
    requires response.attestationObject in {None, Some(C.Serialize(attestation) + suffix)}
    ensures ExtractRegistrationPublicKey(response, onCurve) ==
            if response.authenticatorData.None? && response.attestationObject.None?
               && (response.publicKey.None? || NoPoint(response.publicKey.value, onCurve))
            then Err(NoPublicKey) else Ok(Point(x, y))
  {
    FieldsAreTriedInOrder(response, onCurve);
    if response.publicKey.Some? && !NoPoint(response.publicKey.value, onCurve) {
      var key := spkiHeader + Point(x, y);
      assert key[|key| - POINT_SIZE..] == Point(x, y);
    }
    AuthDataYieldsKey(a, x, y, onCurve);
    AttestationRouteAgrees(attestation, a.ToBytes(), suffix, onCurve);
  }

  lemma {:induction false} AcceptedKeyIsEs256(t: C.Item, suffix: Bytes, onCurve: Bytes -> bool)
    returns (x: Bytes, y: Bytes)
    requires C.Legal(t) && CoseKeyToPublicKey(C.Serialize(t) + suffix, onCurve).Ok?
    ensures IsEs256Key(t, x, y) && onCurve(Point(x, y))
    ensures CoseKeyToPublicKey(C.Serialize(t) + suffix, onCurve) == Ok(Point(x, y))
  {
    var data := C.Serialize(t) + suffix;
    assert Occurs(data, 0, C.Serialize(t));
    C.DecodeInvertsSerialize(t, data, 0);
    SentIsFound(t, C.Int(1));
    SentIsFound(t, C.Int(3));
    SentIsFound(t, C.Int(-1));
    SentIsFound(t, C.Int(-2));
    SentIsFound(t, C.Int(-3));
    x, y := Sent(t, C.Int(-2)).bytes, Sent(t, C.Int(-3)).bytes;
  }

  /** Authenticator data is determined by its fixed fields, its credential id and what follows. */
  lemma LayoutIsUnique(data: Bytes, key: C.Item, extensions: Bytes) returns (a: AuthData)
    requires |data| >= 55 && AttestedFlag(data[32]) && C.Legal(key) && CoseKeyOffset(data) <= |data|
    ensures a.WellFormed() && a.Prefix() == data[..CoseKeyOffset(data)] && a.key == key && a.extensions == extensions
    ensures data == a.Prefix() + data[CoseKeyOffset(data)..]
  {
    var end := CoseKeyOffset(data);
    a := AuthData(data[..32], data[32], data[33..37], data[37..53], data[55..end], key, extensions);
    assert (end - 55) / 0x100 == data[53] && (end - 55) % 0x100 == data[54];
    assert a.Prefix() == data[..end];
    assert data == data[..end] + data[end..];
  }

  // ---------------------------------------------------------------- keys that stop short

  /** The key that the pairs of a map give, the last pair counting for each of the five names. */
  function KeyFromPairs(flat: seq<C.Value>, onCurve: Bytes -> bool): Result<Bytes, Error>
    requires |flat| % 2 == 0
  {
    var x, y := C.LastValue(flat, C.Int(-2)), C.LastValue(flat, C.Int(-3));
    if C.LastValue(flat, C.Int(3)) != C.Int(-7)
       || C.LastValue(flat, C.Int(1)) != C.Int(2)
       || C.LastValue(flat, C.Int(-1)) != C.Int(1)
    then Err(NotEs256)
    else if !IsCoordinate(x) || !IsCoordinate(y) then Err(BadCoordinates)
    else AssertPoint([UNCOMPRESSED] + x.bytes + y.bytes, onCurve)
  }

  lemma {:induction false} PairsGiveKey(coseKey: Bytes, flat: seq<C.Value>, onCurve: Bytes -> bool)
    requires |flat| % 2 == 0 && C.Decode(coseKey, C.At(0)).Ok?
    requires C.Decode(coseKey, C.At(0)).value.value == C.Map(C.BuildMap(flat))
    ensures CoseKeyToPublicKey(coseKey, onCurve) == KeyFromPairs(flat, onCurve)
  {
    C.MapGetIsLastValue(flat, C.Int(1));
    C.MapGetIsLastValue(flat, C.Int(3));
    C.MapGetIsLastValue(flat, C.Int(-1));
    C.MapGetIsLastValue(flat, C.Int(-2));
    C.MapGetIsLastValue(flat, C.Int(-3));
  }

  /** The pairs read from the first `n` bytes of a map item, under any tags; none if they do not reach a map. */
  function CutPairs(t: C.Item, n: nat): (flat: Option<seq<C.Value>>)
    requires C.Legal(t)
    ensures flat.Some? ==> |flat.value| % 2 == 0
  {
    if n == 0 then None
    else if t.MapItem? then
      Some(if n < T.HeadLength(t.w) then T.Zeros(2 * T.CutLength(t.w, |t.items| / 2, n).Count())
           else T.CutMeanings(t.items, n - T.HeadLength(t.w)))
    else if t.TagItem? && n >= T.HeadLength(t.w) then CutPairs(t.inner, n - T.HeadLength(t.w))
    else None
  }

  predicate IsMeant(flat: Option<seq<C.Value>>, meaning: C.Value)
    requires flat.Some? ==> |flat.value| % 2 == 0
  {
    if flat.Some? then meaning == C.Map(C.BuildMap(flat.value)) else !meaning.Map?
  }

  lemma {:induction false} CutMapPairsAreMeant(t: C.Item, n: nat)
    requires C.Legal(t) && t.MapItem?
    ensures IsMeant(CutPairs(t, n), T.CutMeaning(t, n))
  {}

  lemma {:induction false} NoMapHasNoPairs(t: C.Item, n: nat)
    requires C.Legal(t) && !t.MapItem? && !t.TagItem?
    ensures IsMeant(CutPairs(t, n), T.CutMeaning(t, n))
  {}

  lemma {:induction false} CutPairsAreMeant(t: C.Item, n: nat)
    requires C.Legal(t)
    ensures IsMeant(CutPairs(t, n), T.CutMeaning(t, n))
  {
    if t.MapItem? {
      CutMapPairsAreMeant(t, n);
    } else if !t.TagItem? {
      NoMapHasNoPairs(t, n);
    } else if n >= T.HeadLength(t.w) {
      CutPairsAreMeant(t.inner, n - T.HeadLength(t.w));
    }
  }

  /** What extraction makes of a COSE key of which only the first `n` bytes are there. */
  function KeyFromCut(t: C.Item, n: nat, onCurve: Bytes -> bool): Result<Bytes, Error>
    requires C.Legal(t)
  {
    if T.CutRejected(t, n) then Err(Cbor(C.Truncated))
    else if CutPairs(t, n).None? then Err(NotACoseMap)
    else KeyFromPairs(CutPairs(t, n).value, onCurve)
  }

  lemma {:induction false} CutKeyIsRead(t: C.Item, n: nat, onCurve: Bytes -> bool)
    requires C.Legal(t) && n < |C.Serialize(t)|
    ensures CoseKeyToPublicKey(C.Serialize(t)[..n], onCurve) == KeyFromCut(t, n, onCurve)
  {
    var data := C.Serialize(t)[..n];
    assert data[0..] == data;
    T.DecodeOfCut(t, n, data, 0);
    CutPairsAreMeant(t, n);
    if !T.CutRejected(t, n) && CutPairs(t, n).Some? {
      PairsGiveKey(data, CutPairs(t, n).value, onCurve);
    }
  }

  /** Authenticator data that stops inside the key: exactly what extraction returns, accepted or not. */
  lemma {:induction false} CutAuthDataIsRead(a: AuthData, n: nat, onCurve: Bytes -> bool)
    requires a.WellFormed() && 0 < n < |C.Serialize(a.key)|
    ensures FromAuthData(a.Prefix() + C.Serialize(a.key)[..n], onCurve) == KeyFromCut(a.key, n, onCurve)
  {
    var rest := C.Serialize(a.key)[..n];
    KeyOffsetIsRead(a, rest, onCurve);
    CutKeyIsRead(a.key, n, onCurve);
  }

  // ---------------------------------------------------------------- a cut that does no harm

  lemma {:induction false} CutInLast(ts: seq<C.Item>, last: C.Item, m: nat, all: seq<C.Item>, n: nat)
    requires (forall t | t in ts :: C.Legal(t)) && (forall t | t in all :: C.Legal(t)) && C.Legal(last)
    requires m < |C.Serialize(last)| && all == ts + [last] && n == |C.SerializeAll(ts)| + m
    ensures |C.SerializeAll(all)| == |C.SerializeAll(ts)| + |C.Serialize(last)|
    ensures T.CutMeanings(all, n) == C.MeaningAll(ts) + [T.CutMeaning(last, m)]
    ensures T.CutRejectedIn(all, n) <==> T.CutRejected(last, m)
  {
    if ts == [] {
      assert all == [last] && all[1..] == [];
    } else {
      var more, k := all[1..], n - |C.Serialize(ts[0])|;
      assert more == ts[1..] + [last] && all[0] == ts[0];
      assert |C.SerializeAll(ts)| == |C.Serialize(ts[0])| + |C.SerializeAll(ts[1..])|;
      CutInLast(ts[1..], last, m, more, k);
      T.CutBehindFirst(all, more, n, k);
    }
  }

  lemma {:induction false} MeaningAllSnoc(ts: seq<C.Item>, last: C.Item, all: seq<C.Item>)
    requires (forall t | t in ts :: C.Legal(t)) && (forall t | t in all :: C.Legal(t)) && C.Legal(last)
    requires all == ts + [last]
    ensures C.MeaningAll(all) == C.MeaningAll(ts) + [C.Meaning(last)]
  {
    if ts == [] {
      assert all == [last] && all[1..] == [];
    } else {
      assert all[1..] == ts[1..] + [last] && all[0] == ts[0];
      MeaningAllSnoc(ts[1..], last, all[1..]);
    }
  }

  /** The names under which an EC2 key is read. */
  predicate IsName(v: C.Value) {
    v in {C.Int(1), C.Int(3), C.Int(-1), C.Int(-2), C.Int(-3)}
  }

  lemma {:induction false} LastPairIsExtra(flat: seq<C.Value>, name: C.Value, value: C.Value, onCurve: Bytes -> bool)
    requires |flat| % 2 == 0 && !IsName(name)
    ensures |flat + [name] + [value]| % 2 == 0
    ensures KeyFromPairs(flat + [name] + [value], onCurve) == KeyFromPairs(flat, onCurve)
  {
    var all := flat + [name] + [value];
    assert all[..|all| - 2] == flat && all[|all| - 2] == name;
  }

  lemma {:induction false} CutInLastEntry(
    items: seq<C.Item>, name: C.Item, value: C.Item, m: nat, front: seq<C.Item>, all: seq<C.Item>)
    returns (n: nat)
    requires (forall t | t in items :: C.Legal(t)) && (forall t | t in front :: C.Legal(t)) && C.Legal(name)
    requires (forall t | t in all :: C.Legal(t)) && front == items + [name] && all == front + [value]
    requires C.Legal(value) && m < |C.Serialize(value)| && !T.CutRejected(value, m)
    ensures n == |C.SerializeAll(all)| - |C.Serialize(value)| + m && !T.CutRejectedIn(all, n)
    ensures T.CutMeanings(all, n) == C.MeaningAll(items) + [C.Meaning(name)] + [T.CutMeaning(value, m)]
    ensures C.MeaningAll(all) == C.MeaningAll(items) + [C.Meaning(name)] + [C.Meaning(value)]
  {
    n := |C.SerializeAll(front)| + m;
    MeaningAllSnoc(items, name, front);
    MeaningAllSnoc(front, value, all);
    CutInLast(front, value, m, all, n);
  }

  lemma {:induction false} EntriesAreLegal(
    w: C.Width, items: seq<C.Item>, name: C.Item, value: C.Item, front: seq<C.Item>, all: seq<C.Item>)
    requires C.Legal(C.MapItem(w, all)) && front == items + [name] && all == front + [value]
    ensures (forall t | t in items :: C.Legal(t)) && (forall t | t in front :: C.Legal(t))
    ensures (forall t | t in all :: C.Legal(t)) && |items| % 2 == 0
  {
    forall t | t in front ensures C.Legal(t) {
      assert t in all;
    }
    forall t | t in items ensures C.Legal(t) {
      assert t in front;
    }
  }

  /**
   A key that is cut inside the value of a last entry of another name is still accepted, with the point it
   would have whole, wherever that value's own cut is not rejected.
   */
  lemma {:induction false} CutInExtraEntryIsAccepted(
    w: C.Width, items: seq<C.Item>, name: C.Item, value: C.Item, m: nat, all: seq<C.Item>, onCurve: Bytes -> bool)
    returns (n: nat)
    requires C.Legal(C.MapItem(w, all)) && all == items + [name] + [value]
    requires C.Legal(name) && !IsName(C.Meaning(name))
    requires C.Legal(value) && m < |C.Serialize(value)| && !T.CutRejected(value, m)
    ensures n == |C.Serialize(C.MapItem(w, all))| - |C.Serialize(value)| + m
    ensures KeyFromCut(C.MapItem(w, all), n, onCurve) == KeyFromPairs(C.MeaningAll(all), onCurve)
  {
    var front := items + [name];
    EntriesAreLegal(w, items, name, value, front, all);
    var k := CutInLastEntry(items, name, value, m, front, all);
    n := T.HeadLength(w) + k;
    LastPairIsExtra(C.MeaningAll(items), C.Meaning(name), C.Meaning(value), onCurve);
    LastPairIsExtra(C.MeaningAll(items), C.Meaning(name), T.CutMeaning(value, m), onCurve);
    KeyFromCutMap(w, all, k, onCurve);
  }

  lemma {:induction false} KeyFromCutMap(w: C.Width, all: seq<C.Item>, k: nat, onCurve: Bytes -> bool)
    requires C.Legal(C.MapItem(w, all)) && !T.CutRejectedIn(all, k)
    ensures |C.Serialize(C.MapItem(w, all))| == T.HeadLength(w) + |C.SerializeAll(all)|
    ensures KeyFromCut(C.MapItem(w, all), T.HeadLength(w) + k, onCurve) == KeyFromPairs(T.CutMeanings(all, k), onCurve)
  {}

  /**
   Extraction succeeds only on authenticator data laid out as above, whole or cut short inside the key.
   A whole key is an ES256 key and is what is returned; of a cut one, the pairs that were read are.
   */
  lemma {:induction false} OnlyWellFormedAuthDataIsAccepted(data: Bytes, onCurve: Bytes -> bool)
    returns (a: AuthData, cut: Option<nat>, x: Bytes, y: Bytes)
    requires FromAuthData(data, onCurve).Ok?
    ensures a.WellFormed()
    ensures cut.None? ==>
              && data == a.ToBytes() && IsEs256Key(a.key, x, y)
              && FromAuthData(data, onCurve) == Ok(Point(x, y)) && onCurve(Point(x, y))
    ensures cut.Some? ==>
              && cut.value < |C.Serialize(a.key)| && data == a.Prefix() + C.Serialize(a.key)[..cut.value]
              && !T.CutRejected(a.key, cut.value) && CutPairs(a.key, cut.value).Some?
              && FromAuthData(data, onCurve) == KeyFromPairs(CutPairs(a.key, cut.value).value, onCurve)
  {
    var cose := data[CoseKeyOffset(data)..];
    x, y := [], [];
    if C.DecodesInside(cose, 0) {
      var key := C.SerializeInvertsDecode(cose, 0);
      var extensions := cose[|C.Serialize(key)|..];
      assert cose == C.Serialize(key) + extensions;
      a := LayoutIsUnique(data, key, extensions);
      x, y := AcceptedKeyIsEs256(key, extensions, onCurve);
      cut := None;
    } else {
      var key, n := T.RecoverCut(cose, 0);
      assert cose[0..] == cose;
      a := LayoutIsUnique(data, key, []);
      CutKeyIsRead(key, n, onCurve);
      cut := Some(n);
    }
  }
}
