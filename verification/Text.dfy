/** Trimming text and lowering its case. */
module Text {

  function LowerChar(c: char): char {
    if 'A' <= c <= 'Z' then (c as int - 'A' as int + 'a' as int) as char else c
  }

  function Lower(s: string): (r: string)
    ensures |r| == |s| && forall i | 0 <= i < |s| :: r[i] == LowerChar(s[i])
  {
    seq(|s|, i requires 0 <= i < |s| => LowerChar(s[i]))
  }

  const UPPER := "ABCDEFGHIJKLMNOPQRSTUVWXYZ"
  const LOWER := "abcdefghijklmnopqrstuvwxyz"

  /** The 26 capitals become their small letters, and nothing else changes. */
  lemma LowerOfLetters(c: char, i: nat)
    requires i < |UPPER|
    ensures LowerChar(UPPER[i]) == LOWER[i]
    ensures c !in UPPER ==> LowerChar(c) == c
  {
    if 'A' <= c <= 'Z' {
      assert UPPER[c as int - 'A' as int] == c;
    }
  }

  /** Text without capitals is in lower case already. */
  lemma LowerIsIdle(s: string)
    requires forall i | 0 <= i < |s| :: !('A' <= s[i] <= 'Z')
    ensures Lower(s) == s
  {}

  predicate IsSpace(c: char) {
    var n := c as int;
    n == 0x20 || 9 <= n <= 13 || n == 0xA0 || (n >= 0x1680 && IsWideSpace(n))
  }

  predicate IsWideSpace(n: int) {
    || n == 0x1680 || 0x2000 <= n <= 0x200A || n == 0x2028 || n == 0x2029
    || n == 0x202F || n == 0x205F || n == 0x3000 || n == 0xFEFF
  }

  function TrimStart(s: string): (r: string)
    ensures r == [] || !IsSpace(r[0])
    ensures s != [] && !IsSpace(s[0]) ==> r == s
  {
    if s != [] && IsSpace(s[0]) then TrimStart(s[1..]) else s
  }

  function TrimEnd(s: string): (r: string)
    ensures r == [] || !IsSpace(r[|r| - 1])
    ensures s != [] && !IsSpace(s[|s| - 1]) ==> r == s
    ensures r <= s
  {
    if s != [] && IsSpace(s[|s| - 1]) then TrimEnd(s[..|s| - 1]) else s
  }

  function Trim(s: string): string {
    TrimEnd(TrimStart(s))
  }

  const SPACES := [
    9, 10, 11, 12, 13, 0x20, 0xA0, 0x1680, 0x2000, 0x2001, 0x2002, 0x2003, 0x2004, 0x2005, 0x2006, 0x2007, 0x2008,
    0x2009, 0x200A, 0x2028, 0x2029, 0x202F, 0x205F, 0x3000, 0xFEFF]

  lemma SpacesAre(c: char)
    ensures IsSpace(c) <==> c as int in SPACES
  {}

  predicate AllSpaces(s: string) {
    forall i | 0 <= i < |s| :: IsSpace(s[i])
  }

  lemma {:induction false} TrimStartCuts(s: string) returns (a: string)
    ensures AllSpaces(a) && s == a + TrimStart(s)
  {
    a := "";
    if s != [] && IsSpace(s[0]) {
      var b := TrimStartCuts(s[1..]);
      a := [s[0]] + b;
    }
  }

  lemma {:induction false} TrimEndCuts(s: string) returns (b: string)
    ensures AllSpaces(b) && s == TrimEnd(s) + b
  {
    b := "";
    if s != [] && IsSpace(s[|s| - 1]) {
      var a := TrimEndCuts(s[..|s| - 1]);
      b := a + [s[|s| - 1]];
    }
  }

  /** Trimming cuts only spaces, and all at either end. */
  lemma {:induction false} TrimCuts(s: string) returns (a: string, b: string)
    ensures s == a + Trim(s) + b && AllSpaces(a) && AllSpaces(b)
    ensures Trim(s) != "" ==> !IsSpace(Trim(s)[0]) && !IsSpace(Trim(s)[|Trim(s)| - 1])
  {
    a := TrimStartCuts(s);
    b := TrimEndCuts(TrimStart(s));
  }

  /** Trimming leaves text that starts and ends with no space as it is. */
  lemma TrimOfTrimmed(s: string)
    requires s == [] || (!IsSpace(s[0]) && !IsSpace(s[|s| - 1]))
    ensures Trim(s) == s
  {}
}
