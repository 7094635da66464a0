/** Positional numerals, most significant digit first, and their decimal and hexadecimal text. */
module Numerals {
  import opened Common

  type Base = b: nat | b >= 2 witness 2

  function Pow(base: Base, e: nat): (p: nat)
    ensures p >= 1
  {
    if e == 0 then 1
    else
      MultiplyBound(Pow(base, e - 1), base);
      base * Pow(base, e - 1)
  }

  lemma MultiplyBound(k: int, base: Base)
    ensures k >= 1 ==> k * base == base * k >= base
    ensures k <= 0 ==> k * base <= 0
    ensures k <= -1 ==> k * base + base <= 0
  {}

  lemma {:induction false} PowSum(base: Base, a: nat, b: nat)
    ensures Pow(base, a + b) == Pow(base, a) * Pow(base, b)
    decreases b
  {
    if b > 0 {
      PowSum(base, a, b - 1);
      SwapFactors(base, Pow(base, a), Pow(base, b - 1));
    }
  }

  lemma SwapFactors(x: nat, p: nat, q: nat)
    ensures x * (p * q) == p * (x * q)
  {}

  predicate Digits(base: Base, ds: seq<nat>) {
    forall i | 0 <= i < |ds| :: ds[i] < base
  }

  function Value(base: Base, ds: seq<nat>): nat {
    if ds == [] then 0 else Value(base, ds[..|ds| - 1]) * base + ds[|ds| - 1]
  }

  /** The digits of a number, without leading zeros; zero is the single digit 0. */
  function DigitsOf(base: Base, n: nat): (ds: seq<nat>)
    ensures |ds| >= 1 && Digits(base, ds)
    ensures ds[0] == 0 ==> n == 0 && ds == [0]
    decreases n
  {
    if n < base then [n]
    else
      Shrinks(base, n);
      DigitsOf(base, n / base) + [n % base]
  }

  lemma Shrinks(base: Base, n: nat)
    requires n >= base
    ensures 1 <= n / base < n
  {}

  lemma DivMod(n: nat, base: Base)
    ensures n / base * base + n % base == n
  {}

  lemma ValueSnoc(base: Base, front: seq<nat>, d: nat)
    ensures Value(base, front + [d]) == Value(base, front) * base + d
  {
    assert (front + [d])[..|front|] == front;
  }

  lemma ValueOfSnoc(base: Base, front: seq<nat>, q: nat, d: nat, n: nat)
    requires Value(base, front) == q && q * base + d == n
    ensures Value(base, front + [d]) == n
  {
    ValueSnoc(base, front, d);
  }

  lemma DigitsSnoc(base: Base, n: nat)
    requires n >= base
    ensures DigitsOf(base, n) == DigitsOf(base, n / base) + [n % base]
  {}

  lemma {:induction false} ValueOfDigits(base: Base, n: nat)
    ensures Value(base, DigitsOf(base, n)) == n
    decreases n
  {
    if n < base {
      ValueOfSnoc(base, [], 0, n, n);
      assert [] + [n] == [n];
    } else {
      Shrinks(base, n);
      DigitsSnoc(base, n);
      DivMod(n, base);
      var q, d := n / base, n % base;
      ValueOfDigits(base, q);
      ValueOfSnoc(base, DigitsOf(base, q), q, d, n);
    }
  }

  lemma {:induction false} ValueJoin(base: Base, a: seq<nat>, b: seq<nat>)
    ensures Value(base, a + b) == Value(base, a) * Pow(base, |b|) + Value(base, b)
    decreases |b|
  {
    if b == [] {
      assert a + b == a;
    } else {
      var front, last := b[..|b| - 1], b[|b| - 1];
      assert (a + b)[..|a + b| - 1] == a + front;
      ValueJoin(base, a, front);
      Distribute(Value(base, a), Pow(base, |front|), Value(base, front), base);
    }
  }

  lemma Distribute(x: nat, p: nat, y: nat, base: Base)
    ensures (x * p + y) * base == x * (base * p) + y * base
  {
    assert x * p * base == x * (base * p);
  }

  lemma {:induction false} ValueBound(base: Base, ds: seq<nat>)
    requires Digits(base, ds)
    ensures Value(base, ds) < Pow(base, |ds|)
  {
    if ds != [] {
      var front := ds[..|ds| - 1];
      ValueBound(base, front);
      AppendDigit(Value(base, front), Pow(base, |front|), ds[|ds| - 1], base);
    }
  }

  lemma AppendDigit(v: nat, p: nat, d: nat, base: Base)
    requires d < base
    ensures v < p <==> v * base + d < base * p
  {
    MultiplyBound(p - v, base);
    assert (p - v) * base == base * p - v * base;
  }

  function Zeros(n: nat): (zs: seq<nat>)
    ensures |zs| == n && forall i | 0 <= i < n :: zs[i] == 0
  {
    if n == 0 then [] else Zeros(n - 1) + [0]
  }

  lemma {:induction false} ValueOfZeros(base: Base, n: nat)
    ensures Value(base, Zeros(n)) == 0
  {
    if n > 0 {
      ValueOfZeros(base, n - 1);
      assert Zeros(n)[..n - 1] == Zeros(n - 1);
    }
  }

  lemma LeadingZeros(base: Base, n: nat, ds: seq<nat>)
    ensures Value(base, Zeros(n) + ds) == Value(base, ds)
  {
    ValueJoin(base, Zeros(n), ds);
    ValueOfZeros(base, n);
  }

  /** Numerals of one length are equal when their values are. */
  lemma {:induction false} SameLengthSameValue(base: Base, a: seq<nat>, b: seq<nat>)
    requires |a| == |b| && Digits(base, a) && Digits(base, b) && Value(base, a) == Value(base, b)
    ensures a == b
  {
    if a != [] {
      var n := |a| - 1;
      DivisionIsUnique(Value(base, a[..n]), a[n], Value(base, b[..n]), b[n], base);
      SameLengthSameValue(base, a[..n], b[..n]);
      assert a == a[..n] + [a[n]] && b == b[..n] + [b[n]];
    }
  }

  lemma DivisionIsUnique(x: nat, r: nat, y: nat, s: nat, base: Base)
    requires r < base && s < base && x * base + r == y * base + s
    ensures x == y && r == s
  {
    MultiplyBound(x - y, base);
    assert (x - y) * base == x * base - y * base;
  }

  lemma DivideAppended(v: nat, d: nat, base: Base)
    requires d < base
    ensures (v * base + d) / base == v && (v * base + d) % base == d
  {
    var n := v * base + d;
    DivMod(n, base);
    DivisionIsUnique(v, d, n / base, n % base, base);
  }

  /** A numeral without leading zeros is the one `DigitsOf` writes. */
  lemma {:induction false} DigitsOfValue(base: Base, ds: seq<nat>)
    requires Digits(base, ds) && |ds| >= 1 && (ds[0] == 0 ==> |ds| == 1)
    ensures DigitsOf(base, Value(base, ds)) == ds
  {
    var front, last := ds[..|ds| - 1], ds[|ds| - 1];
    assert ds == front + [last];
    if front == [] {
      assert Value(base, front) == 0;
    } else {
      DigitsOfValue(base, front);
      var v := Value(base, front);
      assert v != 0;
      DivideAppended(v, last, base);
      MultiplyBound(v, base);
    }
  }

  lemma DivisionBound(n: nat, base: Base, p: nat)
    ensures n / base < p <==> n < base * p
  {
    AppendDigit(n / base, p, n % base, base);
    DivMod(n, base);
  }

  lemma {:induction false} DigitsOfLength(base: Base, n: nat, width: nat)
    requires width >= 1
    ensures |DigitsOf(base, n)| <= width <==> n < Pow(base, width)
    decreases width
  {
    var p := Pow(base, width - 1);
    MultiplyBound(p, base);
    if n >= base {
      Shrinks(base, n);
      DivisionBound(n, base, p);
      if width > 1 {
        DigitsOfLength(base, n / base, width - 1);
      }
    }
  }

  // ---------------------------------------------------------------- text

  const HEX_CHARS := "0123456789abcdef"

  predicate IsDigit(c: char) {
    '0' <= c <= '9'
  }

  predicate IsHex(c: char) {
    IsDigit(c) || 'a' <= c <= 'f'
  }

  predicate IsDecimal(s: string) {
    forall i | 0 <= i < |s| :: IsDigit(s[i])
  }

  predicate IsHexText(s: string) {
    forall i | 0 <= i < |s| :: IsHex(s[i])
  }

  function CharOf(d: nat): (c: char)
    requires d < 16
    ensures IsHex(c) && DigitOf(c) == d && (d < 10 ==> IsDigit(c))
  {
    HEX_CHARS[d]
  }

  function DigitOf(c: char): (d: nat)
    requires IsHex(c)
    ensures d < 16 && (IsDigit(c) ==> d < 10)
  {
    if IsDigit(c) then c as nat - '0' as nat else c as nat - 'a' as nat + 10
  }

  lemma CharOfDigitOf(c: char)
    requires IsHex(c)
    ensures CharOf(DigitOf(c)) == c
  {}

  function TextOf(ds: seq<nat>): (s: string)
    requires Digits(16, ds)
    ensures |s| == |ds| && IsHexText(s)
    ensures forall i | 0 <= i < |ds| :: s[i] == CharOf(ds[i])
    ensures Digits(10, ds) ==> IsDecimal(s)
  {
    seq(|ds|, i requires 0 <= i < |ds| => CharOf(ds[i]))
  }

  function DigitsIn(s: string): (ds: seq<nat>)
    requires IsHexText(s)
    ensures |ds| == |s| && Digits(16, ds)
    ensures forall i | 0 <= i < |s| :: ds[i] == DigitOf(s[i])
    ensures IsDecimal(s) ==> Digits(10, ds)
  {
    seq(|s|, i requires 0 <= i < |s| => DigitOf(s[i]))
  }

  lemma DigitsInText(ds: seq<nat>)
    requires Digits(16, ds)
    ensures DigitsIn(TextOf(ds)) == ds
  {}

  lemma TextOfDigits(s: string)
    requires IsHexText(s)
    ensures TextOf(DigitsIn(s)) == s
  {
    forall i | 0 <= i < |s| ensures TextOf(DigitsIn(s))[i] == s[i] {
      CharOfDigitOf(s[i]);
    }
  }

  lemma DecimalIsHex(s: string)
    requires IsDecimal(s)
    ensures IsHexText(s)
  {}

  /** `n.toString(10)` for a big integer `n >= 0`. */
  function Decimal(n: nat): (s: string)
    ensures |s| >= 1 && IsDecimal(s)
  {
    DigitsFitIn16(DigitsOf(10, n));
    TextOf(DigitsOf(10, n))
  }

  lemma DigitsFitIn16(ds: seq<nat>)
    requires Digits(10, ds)
    ensures Digits(16, ds)
  {}

  /** `BigInt(s)` for a string of decimal digits; the empty string is 0. */
  function ParseDecimal(s: string): nat
    requires IsDecimal(s)
  {
    DecimalIsHex(s);
    Value(10, DigitsIn(s))
  }

  /** `n.toString(16)`. */
  function Hex(n: nat): (s: string)
    ensures |s| >= 1 && IsHexText(s)
  {
    TextOf(DigitsOf(16, n))
  }

  /** `BigInt("0x" + s)` for lower-case hexadecimal digits. */
  function ParseHex(s: string): nat
    requires IsHexText(s)
  {
    Value(16, DigitsIn(s))
  }

  lemma ParseDecimalOfDecimal(n: nat)
    ensures ParseDecimal(Decimal(n)) == n
  {
    DigitsFitIn16(DigitsOf(10, n));
    DigitsInText(DigitsOf(10, n));
    ValueOfDigits(10, n);
  }

  lemma DecimalIsInjective(a: nat, b: nat)
    requires Decimal(a) == Decimal(b)
    ensures a == b
  {
    ParseDecimalOfDecimal(a);
    ParseDecimalOfDecimal(b);
  }

  lemma DecimalOfParseDecimal(s: string)
    requires IsDecimal(s) && |s| >= 1 && (s[0] == '0' ==> |s| == 1)
    ensures Decimal(ParseDecimal(s)) == s
  {
    DecimalIsHex(s);
    DigitsOfValue(10, DigitsIn(s));
    TextOfDigits(s);
  }

  lemma ParseHexOfHex(n: nat)
    ensures ParseHex(Hex(n)) == n
  {
    DigitsInText(DigitsOf(16, n));
    ValueOfDigits(16, n);
  }

  function ZeroText(n: nat): (s: string)
    ensures |s| == n && (forall i | 0 <= i < n :: s[i] == '0') && IsDecimal(s) && IsHexText(s)
  {
    seq(n, _ => '0')
  }

  /** `s.padStart(width, '0')`. */
  function PadStart(s: string, width: nat): (r: string)
    ensures |s| <= width ==> |r| == width
    ensures |s| >= width ==> r == s
    ensures IsDecimal(s) ==> IsDecimal(r)
    ensures IsHexText(s) ==> IsHexText(r)
  {
    if |s| >= width then s else ZeroText(width - |s|) + s
  }

  lemma PadKeepsDecimal(s: string, width: nat)
    requires IsDecimal(s)
    ensures ParseDecimal(PadStart(s, width)) == ParseDecimal(s)
  {
    if |s| < width {
      DecimalIsHex(s);
      assert DigitsIn(PadStart(s, width)) == Zeros(width - |s|) + DigitsIn(s);
      LeadingZeros(10, width - |s|, DigitsIn(s));
    }
  }

  lemma PadKeepsHex(s: string, width: nat)
    requires IsHexText(s)
    ensures ParseHex(PadStart(s, width)) == ParseHex(s)
  {
    if |s| < width {
      assert DigitsIn(PadStart(s, width)) == Zeros(width - |s|) + DigitsIn(s);
      LeadingZeros(16, width - |s|, DigitsIn(s));
    }
  }

  // ---------------------------------------------------------------- 64 hexadecimal digits

  const TWO_TO_256: nat :=
    0x1_0000_0000_0000_0000_0000_0000_0000_0000_0000_0000_0000_0000_0000_0000_0000_0000

  lemma SixteenDigits()
    ensures Pow(16, 16) == 0x1_0000_0000_0000_0000
  {
    assert Pow(16, 1) == 16;
    PowSum(16, 1, 1);
    PowSum(16, 2, 2);
    PowSum(16, 4, 4);
    PowSum(16, 8, 8);
  }

  lemma HexPower(width: nat)
    requires width == 64
    ensures Pow(16, width) == TWO_TO_256
  {
    SixteenDigits();
    PowSum(16, 16, 16);
    PowSum(16, 32, 32);
  }

  /** A number fits 64 hexadecimal digits exactly when it is below 2^256. */
  lemma HexWidth(n: nat, width: nat)
    requires width == 64
    ensures |Hex(n)| <= width <==> n < TWO_TO_256
  {
    DigitsOfLength(16, n, width);
    HexPower(width);
  }
}
