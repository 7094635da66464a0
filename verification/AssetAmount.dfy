/**
 Token amounts as people write them: parsing and printing with a number of decimals, and the
 issuer's own conversion.
 */
module AssetAmount {
  import opened Common
  import opened Numerals
  import opened Text

  datatype Error = NotAnAmount | TooManyDecimals

  // ---------------------------------------------------------------- the parser

  function IndexOfDot(s: string): (i: nat)
    ensures i <= |s| && (i < |s| ==> s[i] == '.')
    ensures forall j | 0 <= j < i :: s[j] != '.'
  {
    if s == "" || s[0] == '.' then 0 else 1 + IndexOfDot(s[1..])
  }

  function Whole(s: string): string {
    s[..IndexOfDot(s)]
  }

  /** The part between the first dot and the next, empty when there is no dot. */
  function Frac(s: string): string {
    var i := IndexOfDot(s);
    if i == |s| then "" else s[i + 1..][..IndexOfDot(s[i + 1..])]
  }

  /** Digits, then possibly a dot and more digits. */
  predicate IsAmount(s: string) {
    var i := IndexOfDot(s);
    && i > 0 && IsDecimal(s[..i])
    && (i < |s| ==> i + 1 < |s| && IsDecimal(s[i + 1..]))
  }

  function PadEnd(s: string, width: nat): (r: string)
    ensures IsDecimal(s) ==> IsDecimal(r)
    ensures |r| == Max(|s|, width)
  {
    s + ZeroText(if |s| < width then width - |s| else 0)
  }

  lemma {:induction false} DigitsHaveNoDot(s: string)
    requires IsDecimal(s)
    ensures IndexOfDot(s) == |s|
  {
    assert forall k | 0 <= k < |s| :: IsDigit(s[k]) && s[k] != '.';
  }

  lemma {:induction false} FracIsDecimal(s: string)
    requires IsAmount(s)
    ensures IsDecimal(Whole(s)) && IsDecimal(Frac(s))
    ensures s == if IndexOfDot(s) == |s| then Whole(s) else Whole(s) + "." + Frac(s)
  {
    var i := IndexOfDot(s);
    if i < |s| {
      var rest := s[i + 1..];
      DigitsHaveNoDot(rest);
      assert Frac(s) == rest;
    }
  }

  function ParseStellarAmount(amount: string, decimals: nat): Result<nat, Error> {
    var trimmed := Trim(amount);
    if !IsAmount(trimmed) then Err(NotAnAmount)
    else
      FracIsDecimal(trimmed);
      ParseParts(Whole(trimmed), Frac(trimmed), decimals)
  }

  function ParseParts(whole: string, frac: string, decimals: nat): Result<nat, Error>
    requires IsDecimal(whole) && IsDecimal(frac)
  {
    if |frac| > decimals then Err(TooManyDecimals)
    else Ok(ParseDecimal(whole) * Pow(10, decimals) + ParseDecimal(PadEnd(frac, decimals)))
  }

  // ---------------------------------------------------------------- the printer

  function StripZeros(s: string): (r: string)
    ensures r <= s && (r == "" || r[|r| - 1] != '0')
    ensures IsDecimal(s) ==> IsDecimal(r)
    ensures s == r + ZeroText(|s| - |r|)
  {
    if s != "" && s[|s| - 1] == '0' then
      StripZeros(s[..|s| - 1])
    else s
  }

  function Join(whole: string, frac: string): string {
    if frac != "" then whole + "." + frac else whole
  }

  function PrintFraction(r: nat, decimals: nat): string {
    StripZeros(PadStart(Decimal(r), decimals))
  }

  function FormatStellarAmount(raw: int, decimals: nat): string {
    if raw < 0 then "0"
    else
      var base := Pow(10, decimals);
      var whole := raw / base;
      Join(Decimal(whole), PrintFraction(raw % base, decimals))
  }

  // ---------------------------------------------------------------- parsing what was printed

  lemma {:induction false} DotOfJoin(whole: string, frac: string)
    requires IsDecimal(whole) && IsDecimal(frac)
    ensures IndexOfDot(Join(whole, frac)) == |whole|
  {
    var s := Join(whole, frac);
    assert forall k | 0 <= k < |whole| :: IsDigit(whole[k]) && s[k] == whole[k];
    if frac != "" {
      assert s[|whole|] == '.';
    }
  }

  lemma {:induction false} JoinIsTrimmed(whole: string, frac: string)
    requires IsDecimal(whole) && whole != "" && IsDecimal(frac)
    ensures Trim(Join(whole, frac)) == Join(whole, frac)
  {
    var s := Join(whole, frac);
    assert IsDigit(whole[0]) && s[0] == whole[0];
    if frac == "" {
      assert IsDigit(whole[|whole| - 1]);
    } else {
      assert IsDigit(frac[|frac| - 1]) && s[|s| - 1] == frac[|frac| - 1];
    }
    TrimOfTrimmed(s);
  }

  /** Joined digits are an amount that falls into the same two parts. */
  lemma {:induction false} PartsOfJoin(whole: string, frac: string)
    requires IsDecimal(whole) && whole != "" && IsDecimal(frac)
    ensures var s := Join(whole, frac); Trim(s) == s && IsAmount(s) && Whole(s) == whole && Frac(s) == frac
  {
    var s := Join(whole, frac);
    DotOfJoin(whole, frac);
    JoinIsTrimmed(whole, frac);
    assert s[..|whole|] == whole;
    if frac != "" {
      assert s[|whole| + 1..] == frac;
      DigitsHaveNoDot(frac);
      assert frac[..|frac|] == frac;
    }
  }

  lemma ParseOfJoin(whole: string, frac: string, decimals: nat, s: string)
    requires IsDecimal(whole) && whole != "" && IsDecimal(frac) && s == Join(whole, frac)
    ensures ParseStellarAmount(s, decimals) == ParseParts(whole, frac, decimals)
  {
    PartsOfJoin(whole, frac);
  }

  /** A remainder printed with `decimals` digits. */
  lemma PaddedFraction(r: nat, decimals: nat)
    requires r < Pow(10, decimals)
    ensures var p := PadStart(Decimal(r), decimals);
            && IsDecimal(p) && ParseDecimal(p) == r
            && (decimals > 0 ==> |p| == decimals) && (decimals == 0 ==> p == ZeroText(1))
  {
    PadKeepsDecimal(Decimal(r), decimals);
    ParseDecimalOfDecimal(r);
    if decimals > 0 {
      DigitsOfLength(10, r, decimals);
    }
  }

  lemma {:induction false} PadEndOfStripped(p: string)
    requires IsDecimal(p)
    ensures PadEnd(StripZeros(p), |p|) == p
  {}

  lemma PartsOfPadded(whole: string, frac: string, decimals: nat, padded: string)
    requires IsDecimal(whole) && IsDecimal(frac) && IsDecimal(padded)
    requires |frac| <= decimals && PadEnd(frac, decimals) == padded
    ensures ParseParts(whole, frac, decimals) == Ok(ParseDecimal(whole) * Pow(10, decimals) + ParseDecimal(padded))
  {}

  /** The printed fraction pads out again to the digits of the remainder. */
  lemma {:induction false} PrintedPads(r: nat, decimals: nat) returns (frac: string, padded: string)
    requires r < Pow(10, decimals)
    ensures frac == PrintFraction(r, decimals) && IsDecimal(frac) && |frac| <= decimals
    ensures PadEnd(frac, decimals) == padded && IsDecimal(padded) && ParseDecimal(padded) == r
  {
    PaddedFraction(r, decimals);
    var printed := PadStart(Decimal(r), decimals);
    frac, padded := StrippedPads(printed, decimals);
  }

  lemma {:induction false} StrippedPads(printed: string, decimals: nat) returns (frac: string, padded: string)
    requires IsDecimal(printed) && (|printed| == decimals || (decimals == 0 && printed == ZeroText(1)))
    ensures frac == StripZeros(printed) && IsDecimal(frac) && |frac| <= decimals
    ensures PadEnd(frac, decimals) == padded && IsDecimal(padded) && ParseDecimal(padded) == ParseDecimal(printed)
  {
    frac := StripZeros(printed);
    if |printed| == decimals {
      padded := printed;
      PadEndOfStripped(printed);
    } else {
      padded := ZeroText(0);
      ParseZeros(0);
      ParseZeros(1);
      assert frac == "";
    }
  }

  lemma {:induction false} ParseOfPadded(whole: string, frac: string, decimals: nat, padded: string, s: string, n: nat)
    requires IsDecimal(whole) && whole != "" && IsDecimal(frac) && IsDecimal(padded) && |frac| <= decimals
    requires PadEnd(frac, decimals) == padded && s == Join(whole, frac)
    requires n == ParseDecimal(whole) * Pow(10, decimals) + ParseDecimal(padded)
    ensures ParseStellarAmount(s, decimals) == Ok(n)
  {
    PartsOfPadded(whole, frac, decimals, padded);
    ParseOfJoin(whole, frac, decimals, s);
  }

  lemma Quotient(n: nat, b: nat)
    requires b >= 1
    ensures n / b * b + n % b == n
  {}

  lemma {:induction false} PrintedParses(n: nat, decimals: nat, s: string)
    requires s == FormatStellarAmount(n, decimals)
    ensures ParseStellarAmount(s, decimals) == Ok(n)
  {
    var base := Pow(10, decimals);
    Quotient(n, base);
    var frac, padded := PrintedPads(n % base, decimals);
    ParseDecimalOfDecimal(n / base);
    ParseOfPadded(Decimal(n / base), frac, decimals, padded, s, n);
  }

  /** Parsing what was printed gives the amount back; a negative amount is printed as zero. */
  lemma ParseInvertsFormat(n: int, decimals: nat)
    ensures ParseStellarAmount(FormatStellarAmount(n, decimals), decimals) == Ok(if n < 0 then 0 else n)
  {
    if n >= 0 {
      PrintedParses(n, decimals, FormatStellarAmount(n, decimals));
    } else {
      ZeroParses(decimals);
    }
  }

  lemma {:induction false} ZeroParses(decimals: nat)
    ensures ParseStellarAmount("0", decimals) == Ok(0)
  {
    ParsesExactly("0", "0", "", decimals);
    ParseZeros(1);
    ParseZeros(0);
    assert "0" == ZeroText(1) && "" == ZeroText(0);
  }

  // ---------------------------------------------------------------- printing what was parsed

  function StripLeading(s: string): (r: string)
    requires IsDecimal(s) && s != ""
    ensures IsDecimal(r) && r != "" && (r[0] == '0' ==> |r| == 1)
    ensures |r| <= |s| && s == PadStart(r, |s|)
  {
    if |s| > 1 && s[0] == '0' then StripLeading(s[1..]) else s
  }

  /** No needless zeros on either side. */
  function Canonical(s: string): string
    requires IsAmount(s)
  {
    FracIsDecimal(s);
    Join(StripLeading(Whole(s)), StripZeros(Frac(s)))
  }

  lemma PrintedWhole(whole: string)
    requires IsDecimal(whole) && whole != ""
    ensures Decimal(ParseDecimal(whole)) == StripLeading(whole)
  {
    PadKeepsDecimal(StripLeading(whole), |whole|);
    DecimalOfParseDecimal(StripLeading(whole));
  }

  lemma ParsedIsBelow(s: string)
    requires IsDecimal(s)
    ensures ParseDecimal(s) < Pow(10, |s|)
  {
    DecimalIsHex(s);
    ValueBound(10, DigitsIn(s));
  }

  lemma ParseDecimalIsInjective(a: string, b: string)
    requires |a| == |b| && IsDecimal(a) && IsDecimal(b) && ParseDecimal(a) == ParseDecimal(b)
    ensures a == b
  {
    DecimalIsHex(a);
    DecimalIsHex(b);
    SameLengthSameValue(10, DigitsIn(a), DigitsIn(b));
    TextOfDigits(a);
    TextOfDigits(b);
  }

  lemma {:induction false} StripZerosOfPadded(s: string, n: nat)
    ensures StripZeros(s + ZeroText(n)) == StripZeros(s)
    decreases n
  {
    if n == 0 {
      assert s + ZeroText(0) == s;
    } else {
      var t, u := s + ZeroText(n), s + ZeroText(n - 1);
      assert t[|t| - 1] == '0' && t[..|t| - 1] == u;
      StripZerosOfPadded(s, n - 1);
    }
  }

  lemma PrintedFraction(frac: string, decimals: nat)
    requires IsDecimal(frac) && |frac| <= decimals
    ensures PrintFraction(ParseDecimal(PadEnd(frac, decimals)), decimals) == StripZeros(frac)
  {
    var padded := PadEnd(frac, decimals);
    ParsedIsBelow(padded);
    PaddedFraction(ParseDecimal(padded), decimals);
    if decimals > 0 {
      ParseDecimalIsInjective(PadStart(Decimal(ParseDecimal(padded)), decimals), padded);
      StripZerosOfPadded(frac, decimals - |frac|);
    }
  }

  lemma QuotientAndRest(q: nat, b: nat, r: nat)
    requires r < b
    ensures (q * b + r) / b == q && (q * b + r) % b == r
  {
    if b > 1 { DivideAppended(q, r, b); }
  }

  lemma FormatOfNumber(q: nat, r: nat, decimals: nat, n: nat)
    requires r < Pow(10, decimals) && n == q * Pow(10, decimals) + r
    ensures FormatStellarAmount(n, decimals) == Join(Decimal(q), PrintFraction(r, decimals))
  {
    QuotientAndRest(q, Pow(10, decimals), r);
  }

  lemma FormatOfParts(whole: string, frac: string, decimals: nat, n: nat)
    requires IsDecimal(whole) && whole != "" && IsDecimal(frac) && ParseParts(whole, frac, decimals) == Ok(n)
    ensures FormatStellarAmount(n, decimals) == Join(StripLeading(whole), StripZeros(frac))
  {
    var r := ParseDecimal(PadEnd(frac, decimals));
    ParsedIsBelow(PadEnd(frac, decimals));
    FormatOfNumber(ParseDecimal(whole), r, decimals, n);
    PrintedWhole(whole);
    PrintedFraction(frac, decimals);
  }

  /** Printing a parsed amount gives the canonical form of what was parsed. */
  lemma FormatOfParse(amount: string, decimals: nat, n: nat)
    requires ParseStellarAmount(amount, decimals) == Ok(n)
    ensures FormatStellarAmount(n, decimals) == Canonical(Trim(amount))
  {
    var s := Trim(amount);
    FracIsDecimal(s);
    FormatOfParts(Whole(s), Frac(s), decimals, n);
  }

  /** Two texts that parse are the same amount exactly when their canonical forms are the same. */
  lemma SameAmountIffSameForm(a: string, b: string, decimals: nat, m: nat, n: nat)
    requires ParseStellarAmount(a, decimals) == Ok(m) && ParseStellarAmount(b, decimals) == Ok(n)
    ensures m == n <==> Canonical(Trim(a)) == Canonical(Trim(b))
  {
    FormatOfParse(a, decimals, m);
    FormatOfParse(b, decimals, n);
    ParseInvertsFormat(m, decimals);
    ParseInvertsFormat(n, decimals);
  }

  // ---------------------------------------------------------------- what is accepted

  /** Digits, or digits, a dot and more digits. */
  predicate IsNumeral(s: string, whole: string, frac: string) {
    && whole != "" && IsDecimal(whole) && IsDecimal(frac)
    && s == if frac == "" then whole else whole + "." + frac
  }

  lemma {:induction false} PartsAreRead(whole: string, frac: string, decimals: nat)
    requires IsDecimal(whole) && IsDecimal(frac) && |frac| <= decimals
    ensures ParseParts(whole, frac, decimals) ==
            Ok(ParseDecimal(whole) * Pow(10, decimals) + ParseDecimal(frac) * Pow(10, decimals - |frac|))
  {
    var zeros := ZeroText(decimals - |frac|);
    assert PadEnd(frac, decimals) == frac + zeros;
    ParseDecimalJoin(frac, zeros);
    ParseZeros(decimals - |frac|);
  }

  /** A numeral is read at its value, in units of the last decimal; more decimals than that are refused. */
  lemma {:induction false} ParsesExactly(amount: string, whole: string, frac: string, decimals: nat)
    requires IsNumeral(Trim(amount), whole, frac)
    ensures ParseStellarAmount(amount, decimals) ==
            if |frac| > decimals then Err(TooManyDecimals)
            else Ok(ParseDecimal(whole) * Pow(10, decimals) + ParseDecimal(frac) * Pow(10, decimals - |frac|))
  {
    var s := Join(whole, frac);
    PartsOfJoin(whole, frac);
    assert Trim(amount) == s && ParseStellarAmount(amount, decimals) == ParseParts(whole, frac, decimals);
    if |frac| <= decimals {
      PartsAreRead(whole, frac, decimals);
    }
  }

  /** Nothing but a numeral is read. */
  lemma {:induction false} OnlyNumeralsParse(amount: string, decimals: nat) returns (whole: string, frac: string)
    requires ParseStellarAmount(amount, decimals) != Err(NotAnAmount)
    ensures IsNumeral(Trim(amount), whole, frac)
  {
    var s := Trim(amount);
    var i := IndexOfDot(s);
    whole, frac := Whole(s), Frac(s);
    FracIsDecimal(s);
    if i < |s| {
      DigitsHaveNoDot(s[i + 1..]);
      assert frac == s[i + 1..] && frac != "";
    }
  }

  // ---------------------------------------------------------------- the issuer's conversion

  const STROOP_DECIMALS := 7

  /** `humanAmountToStroops`: seven decimals, and any further ones dropped. */
  function HumanAmountToStroops(human: string): Result<nat, Error> {
    var raw := Trim(if human == "" then "0" else human);
    HumanParts(Whole(raw), Frac(raw))
  }

  function HumanParts(whole: string, frac: string): Result<nat, Error> {
    var padded := (frac + ZeroText(STROOP_DECIMALS))[..STROOP_DECIMALS];
    if !IsDecimal(whole) || !IsDecimal(padded) then Err(NotAnAmount)
    else Ok(ParseDecimal(whole) * Pow(10, STROOP_DECIMALS) + ParseDecimal(padded))
  }

  lemma {:induction false} TextJoin(base: Base, a: string, b: string)
    requires IsHexText(a) && IsHexText(b) && IsHexText(a + b)
    ensures Value(base, DigitsIn(a + b)) == Value(base, DigitsIn(a)) * Pow(base, |b|) + Value(base, DigitsIn(b))
  {
    assert DigitsIn(a + b) == DigitsIn(a) + DigitsIn(b);
    ValueJoin(base, DigitsIn(a), DigitsIn(b));
  }

  lemma {:induction false} ParseDecimalJoin(a: string, b: string)
    requires IsDecimal(a) && IsDecimal(b)
    ensures IsDecimal(a + b) && ParseDecimal(a + b) == ParseDecimal(a) * Pow(10, |b|) + ParseDecimal(b)
  {
    DecimalIsHex(a);
    DecimalIsHex(b);
    DecimalIsHex(a + b);
    TextJoin(10, a, b);
  }

  lemma ParseZeros(n: nat)
    ensures ParseDecimal(ZeroText(n)) == 0
  {
    assert DigitsIn(ZeroText(n)) == Zeros(n);
    ValueOfZeros(10, n);
  }

  lemma Regroup(w: nat, p: nat, f: nat, q: nat, r: nat)
    ensures w * (p * q) + (f * q + r) == (w * p + f) * q + r
  {}

  lemma RoundedDown(w: nat, p: nat, f: nat, q: nat, r: nat, m: nat)
    requires r < q && m == w * (p * q) + (f * q + r)
    ensures m / q == w * p + f
  {
    Regroup(w, p, f, q, r);
    QuotientAndRest(w * p + f, q, r);
  }

  lemma SplitPadded(frac: string, decimals: nat) returns (first: string, rest: string)
    requires IsDecimal(frac) && |frac| <= decimals && decimals >= STROOP_DECIMALS
    ensures IsDecimal(first) && IsDecimal(rest) && |rest| == decimals - STROOP_DECIMALS
    ensures PadEnd(frac, decimals) == first + rest
    ensures first == (frac + ZeroText(STROOP_DECIMALS))[..STROOP_DECIMALS]
  {
    var p := PadEnd(frac, decimals);
    first, rest := p[..STROOP_DECIMALS], p[STROOP_DECIMALS..];
  }

  lemma HumanPartsRoundDown(whole: string, frac: string, decimals: nat, m: nat)
    requires IsDecimal(whole) && IsDecimal(frac) && decimals >= STROOP_DECIMALS
    requires ParseParts(whole, frac, decimals) == Ok(m)
    ensures HumanParts(whole, frac) == Ok(m / Pow(10, decimals - STROOP_DECIMALS))
  {
    var more := decimals - STROOP_DECIMALS;
    var first, rest := SplitPadded(frac, decimals);
    ParseDecimalJoin(first, rest);
    ParsedIsBelow(rest);
    PowSum(10, STROOP_DECIMALS, more);
    RoundedDown(
      ParseDecimal(whole), Pow(10, STROOP_DECIMALS), ParseDecimal(first), Pow(10, more), ParseDecimal(rest), m);
  }

  lemma HumanPartsScaleUp(whole: string, frac: string, decimals: nat, m: nat)
    requires IsDecimal(whole) && IsDecimal(frac) && decimals <= STROOP_DECIMALS
    requires ParseParts(whole, frac, decimals) == Ok(m)
    ensures HumanParts(whole, frac) == Ok(m * Pow(10, STROOP_DECIMALS - decimals))
  {
    var more := STROOP_DECIMALS - decimals;
    var p := PadEnd(frac, decimals);
    assert (frac + ZeroText(STROOP_DECIMALS))[..STROOP_DECIMALS] == p + ZeroText(more);
    ParseDecimalJoin(p, ZeroText(more));
    ParseZeros(more);
    PowSum(10, decimals, more);
    Regroup(ParseDecimal(whole), Pow(10, decimals), ParseDecimal(p), Pow(10, more), 0);
  }

  /** The issuer reads no text at all as zero, which the parser refuses. */
  lemma {:induction false} NoTextIsZero(decimals: nat)
    ensures HumanAmountToStroops("") == Ok(0) && ParseStellarAmount("", decimals) == Err(NotAnAmount)
  {
    TrimOfTrimmed("0");
    DigitsHaveNoDot("0");
    assert "0" == ZeroText(1) && "0"[..1] == "0";
    assert ("" + ZeroText(STROOP_DECIMALS))[..STROOP_DECIMALS] == ZeroText(STROOP_DECIMALS);
    ParseZeros(1);
    ParseZeros(STROOP_DECIMALS);
  }

  /**
   On every text the parser accepts, at any number of decimals, the issuer's conversion gives the
   same amount in seven decimals, rounded down. At seven decimals the two agree exactly.
   */
  lemma IssuerAgreesWithParser(amount: string, decimals: nat, m: nat)
    requires ParseStellarAmount(amount, decimals) == Ok(m)
    ensures decimals >= 7 ==> HumanAmountToStroops(amount) == Ok(m / Pow(10, decimals - 7))
    ensures decimals <= 7 ==> HumanAmountToStroops(amount) == Ok(m * Pow(10, 7 - decimals))
    ensures decimals == 7 ==> HumanAmountToStroops(amount) == Ok(m)
  {
    var s := Trim(amount);
    assert amount != "";
    FracIsDecimal(s);
    if decimals >= STROOP_DECIMALS {
      HumanPartsRoundDown(Whole(s), Frac(s), decimals, m);
    }
    if decimals <= STROOP_DECIMALS {
      HumanPartsScaleUp(Whole(s), Frac(s), decimals, m);
    }
  }
}
