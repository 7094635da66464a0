/**
 The six public inputs of an eligibility proof: the client's hexadecimal encoding, and
 the byte decoders of the settlement contracts that read it.
 */
module PublicInputs {
  import opened Common
  import opened Numerals

  const FIELD_CHARS := 64
  const FIELD_BYTES := 32
  const INPUTS_CHARS := 6 * FIELD_CHARS

  /** One more than the largest number a 32-byte field holds. */
  const FIELD_LIMIT := TWO_TO_256

  /** Public inputs by name: as numbers, or as the text the client keeps. */
  datatype Fields<+T> = Fields(
    root: T,
    revocationRoot: T,
    policyId: T,
    assetId: T,
    actionId: T,
    nullifier: T)

  predicate AllDecimal(f: Fields<string>) {
    && IsDecimal(f.root) && IsDecimal(f.revocationRoot) && IsDecimal(f.policyId)
    && IsDecimal(f.assetId) && IsDecimal(f.actionId) && IsDecimal(f.nullifier)
  }

  predicate FitsWire(f: Fields<nat>) {
    && f.root < FIELD_LIMIT && f.revocationRoot < FIELD_LIMIT && f.policyId < FIELD_LIMIT
    && f.assetId < FIELD_LIMIT && f.actionId < FIELD_LIMIT && f.nullifier < FIELD_LIMIT
  }

  /** The fields in decimal, as the client keeps them. */
  function InDecimal(f: Fields<nat>): (d: Fields<string>)
    ensures AllDecimal(d)
  {
    Fields(Decimal(f.root), Decimal(f.revocationRoot), Decimal(f.policyId),
           Decimal(f.assetId), Decimal(f.actionId), Decimal(f.nullifier))
  }

  function FieldToBytes32Hex(fieldDecimal: string): (h: string)
    requires IsDecimal(fieldDecimal)
    ensures IsHexText(h)
  {
    PadStart(Hex(ParseDecimal(fieldDecimal)), FIELD_CHARS)
  }

  function BuildPublicInputsHex(f: Fields<string>): (h: string)
    requires AllDecimal(f)
    ensures IsHexText(h)
  {
    FieldToBytes32Hex(f.root) + FieldToBytes32Hex(f.revocationRoot) + FieldToBytes32Hex(f.policyId)
    + FieldToBytes32Hex(f.assetId) + FieldToBytes32Hex(f.actionId) + FieldToBytes32Hex(f.nullifier)
  }

  datatype Error = InvalidLength

  function StripPrefix(s: string): string {
    if |s| >= 2 && s[0] == '0' && s[1] == 'x' then s[2..] else s
  }

  /** Field `i` of the text, as a number. */
  function FieldAt(h: string, i: nat): nat
    requires IsHexText(h) && |h| >= (i + 1) * FIELD_CHARS
  {
    ParseHex(h[i * FIELD_CHARS..(i + 1) * FIELD_CHARS])
  }

  function FieldsAt(h: string): Fields<nat>
    requires IsHexText(h) && |h| >= INPUTS_CHARS
  {
    Fields(FieldAt(h, 0), FieldAt(h, 1), FieldAt(h, 2), FieldAt(h, 3), FieldAt(h, 4), FieldAt(h, 5))
  }

  function ExtractPublicInputFields(publicInputsHex: string): Result<Fields<string>, Error>
    requires IsHexText(StripPrefix(publicInputsHex))
  {
    var h := StripPrefix(publicInputsHex);
    if |h| < INPUTS_CHARS then Err(InvalidLength) else Ok(InDecimal(FieldsAt(h)))
  }

  // ---------------------------------------------------------------- the client's round trip

  lemma FieldWidth(n: nat, width: nat)
    requires width == FIELD_CHARS
    ensures var h := FieldToBytes32Hex(Decimal(n));
            |h| >= width && ParseHex(h) == n && (|h| == width <==> n < FIELD_LIMIT)
  {
    ParseDecimalOfDecimal(n);
    ParseHexOfHex(n);
    PadKeepsHex(Hex(n), width);
    DigitsOfLength(16, n, width);
    HexPower(width);
  }

  lemma HexHasNoPrefix(h: string)
    requires IsHexText(h)
    ensures StripPrefix(h) == h
  {
    if |h| >= 2 { assert IsHex(h[1]); }
  }

  lemma InDecimalIsInjective(f: Fields<nat>, g: Fields<nat>)
    requires InDecimal(f) == InDecimal(g)
    ensures f == g
  {
    DecimalIsInjective(f.root, g.root);
    DecimalIsInjective(f.revocationRoot, g.revocationRoot);
    DecimalIsInjective(f.policyId, g.policyId);
    DecimalIsInjective(f.assetId, g.assetId);
    DecimalIsInjective(f.actionId, g.actionId);
    DecimalIsInjective(f.nullifier, g.nullifier);
  }

  lemma FieldAtBound(h: string, i: nat, width: nat)
    requires IsHexText(h) && |h| >= (i + 1) * FIELD_CHARS && width == FIELD_CHARS
    ensures FieldAt(h, i) < FIELD_LIMIT
  {
    ValueBound(16, DigitsIn(h[i * FIELD_CHARS..(i + 1) * FIELD_CHARS]));
    HexPower(width);
  }

  lemma FieldsAtFit(h: string)
    requires IsHexText(h) && |h| >= INPUTS_CHARS
    ensures FitsWire(FieldsAt(h))
  {
    FieldAtBound(h, 0, FIELD_CHARS);
    FieldAtBound(h, 1, FIELD_CHARS);
    FieldAtBound(h, 2, FIELD_CHARS);
    FieldAtBound(h, 3, FIELD_CHARS);
    FieldAtBound(h, 4, FIELD_CHARS);
    FieldAtBound(h, 5, FIELD_CHARS);
  }

  /** Six texts of one field's width, end to end. */
  lemma SixChunks(a: string, b: string, c: string, d: string, e: string, g: string)
    requires |a| == |b| == |c| == |d| == |e| == |g| == FIELD_CHARS
    ensures var h := a + b + c + d + e + g;
            && |h| == INPUTS_CHARS
            && h[0..64] == a && h[64..128] == b && h[128..192] == c
            && h[192..256] == d && h[256..320] == e && h[320..384] == g
  {}

  lemma BuiltFields(f: Fields<nat>)
    requires FitsWire(f)
    ensures var h := BuildPublicInputsHex(InDecimal(f)); |h| == INPUTS_CHARS && FieldsAt(h) == f
  {
    FieldWidth(f.root, FIELD_CHARS);
    FieldWidth(f.revocationRoot, FIELD_CHARS);
    FieldWidth(f.policyId, FIELD_CHARS);
    FieldWidth(f.assetId, FIELD_CHARS);
    FieldWidth(f.actionId, FIELD_CHARS);
    FieldWidth(f.nullifier, FIELD_CHARS);
    var d := InDecimal(f);
    SixChunks(FieldToBytes32Hex(d.root), FieldToBytes32Hex(d.revocationRoot), FieldToBytes32Hex(d.policyId),
              FieldToBytes32Hex(d.assetId), FieldToBytes32Hex(d.actionId), FieldToBytes32Hex(d.nullifier));
  }

  /** Reading back what was built gives the fields exactly when each fits 32 bytes. */
  lemma ExtractInvertsBuild(f: Fields<nat>)
    ensures IsHexText(StripPrefix(BuildPublicInputsHex(InDecimal(f))))
    ensures ExtractPublicInputFields(BuildPublicInputsHex(InDecimal(f))) == Ok(InDecimal(f)) <==> FitsWire(f)
  {
    var h := BuildPublicInputsHex(InDecimal(f));
    HexHasNoPrefix(h);
    if FitsWire(f) {
      BuiltFields(f);
    }
    if ExtractPublicInputFields(h) == Ok(InDecimal(f)) {
      FieldsAtFit(h);
      InDecimalIsInjective(f, FieldsAt(h));
    }
  }

  /** A prefix changes nothing, and only text of fewer than 384 digits is refused. */
  lemma PrefixIsOptional(h: string)
    requires IsHexText(h)
    ensures StripPrefix("0x" + h) == StripPrefix(h) == h
    ensures ExtractPublicInputFields("0x" + h) == ExtractPublicInputFields(h)
    ensures ExtractPublicInputFields(h).Err? <==> |h| < 384
    ensures HexField("0x" + h) == HexField(h) == ParseHex(h)
  {
    HexHasNoPrefix(h);
    assert ("0x" + h)[2..] == h;
  }

  // ---------------------------------------------------------------- bytes and hexadecimal

  function Paired(ds: seq<nat>): (bs: Bytes)
    requires Digits(16, ds) && |ds| % 2 == 0
    ensures |bs| == |ds| / 2
  {
    seq(|ds| / 2, i requires 0 <= i < |ds| / 2 => ds[2 * i] * 16 + ds[2 * i + 1])
  }

  /** `Buffer.from(h, 'hex')` for an even number of digits. */
  function BytesOfHex(h: string): (bs: Bytes)
    requires IsHexText(h) && |h| % 2 == 0
    ensures |bs| == |h| / 2
  {
    Paired(DigitsIn(h))
  }

  /** `Buffer.from(bytes).toString('hex')`. */
  function HexOfBytes(bs: Bytes): (h: string)
    ensures |h| == 2 * |bs| && IsHexText(h)
  {
    seq(2 * |bs|, i requires 0 <= i < 2 * |bs| => CharOf(if i % 2 == 0 then bs[i / 2] / 16 else bs[i / 2] % 16))
  }

  lemma HexOfBytesOfHex(h: string)
    requires IsHexText(h) && |h| % 2 == 0
    ensures HexOfBytes(BytesOfHex(h)) == h
  {
    var ds, bs := DigitsIn(h), BytesOfHex(h);
    forall i | 0 <= i < |h| ensures HexOfBytes(bs)[i] == h[i] {
      var b := bs[i / 2];
      assert b == ds[2 * (i / 2)] * 16 + ds[2 * (i / 2) + 1];
      assert b / 16 == ds[2 * (i / 2)] && b % 16 == ds[2 * (i / 2) + 1];
      CharOfDigitOf(h[i]);
    }
  }

  /** A byte string, as a number, is what its hexadecimal text says. */
  lemma {:induction false} PairedValue(ds: seq<nat>)
    requires Digits(16, ds) && |ds| % 2 == 0
    ensures Value(256, Paired(ds)) == Value(16, ds)
  {
    if ds != [] {
      var n := |ds|;
      PairedValue(ds[..n - 2]);
      var bs := Paired(ds);
      assert bs[..|bs| - 1] == Paired(ds[..n - 2]);
      assert ds[..n - 1][..n - 2] == ds[..n - 2];
      assert Value(16, ds[..n - 1]) == Value(16, ds[..n - 2]) * 16 + ds[n - 2];
    }
  }

  /** Field `i` of the bytes is field `i` of the text. */
  lemma FieldBytes(h: string, i: nat)
    requires IsHexText(h) && |h| % 2 == 0 && |h| >= (i + 1) * FIELD_CHARS
    ensures Value(256, BytesOfHex(h)[i * FIELD_BYTES..(i + 1) * FIELD_BYTES]) == FieldAt(h, i)
  {
    var from, to := i * FIELD_CHARS, (i + 1) * FIELD_CHARS;
    assert BytesOfHex(h)[i * FIELD_BYTES..(i + 1) * FIELD_BYTES] == BytesOfHex(h[from..to]);
    PairedValue(DigitsIn(h[from..to]));
  }

  // ---------------------------------------------------------------- the contracts' decoders

  const U128_LIMIT: nat := 0x1_0000_0000_0000_0000_0000_0000_0000_0000
  const U32_LIMIT: nat := 0x1_0000_0000

  /** What `field_bytes_to_u32` returns: zero for a number of more than 32 bits. */
  function FieldToU32(bytes: Bytes): (value: nat)
    ensures value < U32_LIMIT
  {
    var n := Value(256, bytes) % U128_LIMIT;
    if n >= U32_LIMIT then 0 else n
  }

  lemma ShiftWraps(v: nat, b: Byte)
    ensures v % U128_LIMIT * 256 % U128_LIMIT + b == (v * 256 + b) % U128_LIMIT
  {
    var q, r := v / U128_LIMIT, v % U128_LIMIT;
    var top, low := r / (U128_LIMIT / 256), r % (U128_LIMIT / 256);
    assert r * 256 == top * U128_LIMIT + low * 256;
    assert r * 256 % U128_LIMIT == low * 256;
    assert v * 256 + b == (q * 256 + top) * U128_LIMIT + (low * 256 + b);
  }

  /** The loop over a 32-byte field, with its 128-bit accumulator. */
  method FieldBytesToU32(bytes: Bytes) returns (result: nat)
    ensures result == FieldToU32(bytes)
  {
    var value: nat := 0;
    for i := 0 to |bytes|
      invariant value == Value(256, bytes[..i]) % U128_LIMIT
    {
      ShiftWraps(Value(256, bytes[..i]), bytes[i]);
      assert bytes[..i + 1][..i] == bytes[..i];
      value := value * 256 % U128_LIMIT + bytes[i];
    }
    assert bytes[..|bytes|] == bytes;
    if value > 0xFFFF_FFFF {
      return 0;
    }
    return value;
  }

  /** Field `index` as a nonzero 32-bit number, if the bytes hold one. */
  function PublicInputU32(publicInputs: Bytes, index: nat): Option<nat> {
    if |publicInputs| < (index + 1) * FIELD_BYTES then None
    else
      var value := FieldToU32(publicInputs[index * FIELD_BYTES..(index + 1) * FIELD_BYTES]);
      if value == 0 then None else Some(value)
  }

  /** What the client sends for these numbers. */
  function ClientHex(f: Fields<nat>): (h: string)
    requires FitsWire(f)
    ensures IsHexText(h) && |h| == INPUTS_CHARS
  {
    BuiltFields(f);
    BuildPublicInputsHex(InDecimal(f))
  }

  /** What a contract receives for the fields the client built. */
  function WireBytes(f: Fields<nat>): (bs: Bytes)
    requires FitsWire(f)
    ensures |bs| == 192
  {
    BytesOfInputs(ClientHex(f))
  }

  function BytesOfInputs(h: string): (bs: Bytes)
    requires IsHexText(h) && |h| == INPUTS_CHARS
    ensures |bs| == 192
  {
    BytesOfHex(h)
  }

  /** How a contract reads a field holding `n`: modulo 2^128, and only as a nonzero 32-bit number. */
  function AsU32(n: nat): (r: Option<nat>)
    ensures r == Some(n) <==> 1 <= n < U32_LIMIT
  {
    if 1 <= n % U128_LIMIT < U32_LIMIT then Some(n % U128_LIMIT) else None
  }

  lemma {:induction false} ContractReadsText(h: string)
    requires IsHexText(h) && |h| == INPUTS_CHARS
    ensures PublicInputU32(BytesOfHex(h), 2) == AsU32(FieldAt(h, 2))
    ensures PublicInputU32(BytesOfHex(h), 3) == AsU32(FieldAt(h, 3))
    ensures PublicInputU32(BytesOfHex(h), 4) == AsU32(FieldAt(h, 4))
    ensures Value(256, BytesOfHex(h)[160..192]) == FieldAt(h, 5)
  {
    FieldBytes(h, 2);
    FieldBytes(h, 3);
    FieldBytes(h, 4);
    FieldBytes(h, 5);
  }

  /**
   A contract reads policy, asset and action as the client meant them exactly when each is a
   nonzero 32-bit number; the nullifier reaches it unchanged.
   */
  lemma ContractReadsWhatClientBuilt(f: Fields<nat>)
    requires FitsWire(f)
    ensures PublicInputU32(WireBytes(f), 2) == AsU32(f.policyId)
    ensures PublicInputU32(WireBytes(f), 3) == AsU32(f.assetId)
    ensures PublicInputU32(WireBytes(f), 4) == AsU32(f.actionId)
    ensures Value(256, WireBytes(f)[160..192]) == f.nullifier
  {
    BuiltFields(f);
    ContractReadsText(BuildPublicInputsHex(InDecimal(f)));
  }

  /** A field the client builds as 2^128 + 2 is read by the contracts as 2, the USDC asset. */
  lemma LargeFieldsAlias(f: Fields<nat>)
    requires FitsWire(f) && f.assetId == U128_LIMIT + 2
    ensures PublicInputU32(WireBytes(f), 3) == Some(2)
  {
    Wraps(f.assetId, U128_LIMIT, 2);
    ContractReadsWhatClientBuilt(f);
  }

  lemma Wraps(n: nat, limit: nat, rest: nat)
    requires n == limit + rest && rest < limit
    ensures n % limit == rest
  {
    var q := n / limit;
    assert q * limit + n % limit == n;
    assert q >= 2 ==> q * limit >= 2 * limit;
  }

  // ---------------------------------------------------------------- the two bundle routes

  datatype Bundle = Bundle(publicInputsHex: string, publicInputs: Fields<string>)

  function HexField(s: string): nat
    requires IsHexText(StripPrefix(s))
  {
    ParseHex(StripPrefix(s))
  }

  /** From the prover's list of hexadecimal fields. */
  function BundleFromFields(inputs: seq<string>): Result<Bundle, Error>
    requires forall i | 0 <= i < |inputs| :: IsHexText(StripPrefix(inputs[i]))
  {
    if |inputs| < 6 then Err(InvalidLength)
    else
      var f := InDecimal(Fields(HexField(inputs[0]), HexField(inputs[1]), HexField(inputs[2]),
                                HexField(inputs[3]), HexField(inputs[4]), HexField(inputs[5])));
      Ok(Bundle(BuildPublicInputsHex(f), f))
  }

  /** From the prover's bytes. */
  function BundleFromBytes(inputs: Bytes): Result<Bundle, Error> {
    var h := HexOfBytes(inputs);
    HexHasNoPrefix(h);
    match ExtractPublicInputFields(h)
    case Ok(f) => Ok(Bundle(h, f))
    case Err(e) => Err(e)
  }

  lemma {:induction false} ExtractOfText(h: string)
    requires IsHexText(h) && |h| == INPUTS_CHARS && StripPrefix(h) == h
    ensures ExtractPublicInputFields(h) == Ok(InDecimal(FieldsAt(h)))
  {}

  lemma {:induction false} BundleOfText(h: string)
    requires IsHexText(h) && |h| == INPUTS_CHARS
    ensures BundleFromBytes(BytesOfHex(h)) == Ok(Bundle(h, InDecimal(FieldsAt(h))))
  {
    HexOfBytesOfHex(h);
    HexHasNoPrefix(h);
    ExtractOfText(h);
  }

  /** Both shapes of prover output give the same bundle; inputs past the sixth are not read. */
  lemma BundleRoutesAgree(f: Fields<nat>, inputs: seq<string>)
    requires FitsWire(f) && |inputs| >= 6
    requires forall i | 0 <= i < |inputs| :: IsHexText(StripPrefix(inputs[i]))
    requires f == Fields(HexField(inputs[0]), HexField(inputs[1]), HexField(inputs[2]),
                         HexField(inputs[3]), HexField(inputs[4]), HexField(inputs[5]))
    ensures BundleFromFields(inputs) == BundleFromBytes(WireBytes(f))
  {
    BuiltFields(f);
    BundleOfText(BuildPublicInputsHex(InDecimal(f)));
  }
}
