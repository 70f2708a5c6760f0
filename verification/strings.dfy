/** The JavaScript string built-ins the extension relies on: `trim`,
    `toLowerCase`, integer `toString` and `padStart`. */
module Strings {

  /** The code points `String.prototype.trim` strips: the ECMAScript
      WhiteSpace and LineTerminator productions. */
  predicate IsWhitespace(c: char) {
    || c == '\t' || c == '\n' || c == '\U{B}' || c == '\U{C}' || c == '\r'
    || c == ' ' || c == '\U{A0}' || c == '\U{1680}'
    || ('\U{2000}' <= c <= '\U{200A}')
    || c == '\U{2028}' || c == '\U{2029}' || c == '\U{202F}'
    || c == '\U{205F}' || c == '\U{3000}' || c == '\U{FEFF}'
  }

  /** A string `trim` leaves alone: empty, or bounded by non-whitespace. */
  predicate Trimmed(s: string) {
    s == [] || (!IsWhitespace(s[0]) && !IsWhitespace(s[|s| - 1]))
  }

  /** How many whitespace characters `s` starts with. */
  function LeadingBlanks(s: string): (n: nat)
    ensures n <= |s|
    decreases |s|
  {
    if |s| > 0 && IsWhitespace(s[0]) then 1 + LeadingBlanks(s[1..]) else 0
  }

  /** `LeadingBlanks` counts exactly the whitespace run at the front. */
  lemma {:induction false} LeadingBlanksRun(s: string)
    ensures forall i :: 0 <= i < LeadingBlanks(s) ==> IsWhitespace(s[i])
    ensures LeadingBlanks(s) == |s| || !IsWhitespace(s[LeadingBlanks(s)])
    decreases |s|
  {
    if |s| > 0 && IsWhitespace(s[0]) {
      LeadingBlanksRun(s[1..]);
    }
  }

  /** How many whitespace characters `s` ends with. */
  function TrailingBlanks(s: string): (n: nat)
    ensures n <= |s|
    decreases |s|
  {
    if |s| > 0 && IsWhitespace(s[|s| - 1]) then 1 + TrailingBlanks(s[..|s| - 1]) else 0
  }

  /** `TrailingBlanks` counts exactly the whitespace run at the back. */
  lemma {:induction false} TrailingBlanksRun(s: string)
    ensures forall i :: |s| - TrailingBlanks(s) <= i < |s| ==> IsWhitespace(s[i])
    ensures TrailingBlanks(s) == |s| || !IsWhitespace(s[|s| - TrailingBlanks(s) - 1])
    decreases |s|
  {
    if |s| > 0 && IsWhitespace(s[|s| - 1]) {
      TrailingBlanksRun(s[..|s| - 1]);
    }
  }

  /** `r` is the infix of `s` at offset `a`, and everything of `s` around it
      is whitespace. */
  predicate InfixAmidBlanks(s: string, r: string, a: int) {
    && 0 <= a <= |s| - |r|
    && r == s[a..a + |r|]
    && (forall i :: 0 <= i < a ==> IsWhitespace(s[i]))
    && (forall i :: a + |r| <= i < |s| ==> IsWhitespace(s[i]))
  }

  /** `String.prototype.trim`: the infix of `s` bounded by non-whitespace,
      obtained by dropping only whitespace on both sides. */
  function Trim(s: string): (r: string)
    ensures Trimmed(r)
  {
    LeadingBlanksRun(s);
    TrailingBlanksRun(s);
    var a := LeadingBlanks(s);
    if a == |s| then [] else s[a..|s| - TrailingBlanks(s)]
  }

  /** What `trim` removes is whitespace only, from both ends. */
  lemma TrimDropsOnlyBlanks(s: string)
    ensures exists a :: InfixAmidBlanks(s, Trim(s), a)
  {
    LeadingBlanksRun(s);
    TrailingBlanksRun(s);
    assert InfixAmidBlanks(s, Trim(s), LeadingBlanks(s));
  }

  /** Trimming a string `trim` would leave alone changes nothing. */
  lemma TrimTrimmed(s: string)
    requires Trimmed(s)
    ensures Trim(s) == s
  {
    if s != [] {
      assert LeadingBlanks(s) == 0;
      assert TrailingBlanks(s) == 0;
    }
  }

  /** `trim` is idempotent. */
  lemma TrimIdempotent(s: string)
    ensures Trim(Trim(s)) == Trim(s)
  {
    TrimTrimmed(Trim(s));
  }

  /** `trim` yields the empty string exactly for all-whitespace input. */
  lemma TrimEmptyIffBlank(s: string)
    ensures Trim(s) == [] <==> forall i :: 0 <= i < |s| ==> IsWhitespace(s[i])
  {
    var r := Trim(s);
    TrimDropsOnlyBlanks(s);
    if r != [] {
      var a :| InfixAmidBlanks(s, r, a);
      assert s[a] == r[0];
    }
  }

  /** `toLowerCase` on one character. Only the ASCII letters are folded. */
  function LowerChar(c: char): char {
    if 'A' <= c <= 'Z' then (c as int + 32) as char else c
  }

  /** `String.prototype.toLowerCase`, as a length-preserving per-character map. */
  function ToLower(s: string): (r: string)
    ensures |r| == |s|
    ensures forall i :: 0 <= i < |s| ==> r[i] == LowerChar(s[i])
  {
    seq(|s|, i requires 0 <= i < |s| => LowerChar(s[i]))
  }

  /** Lower-casing commutes with taking a slice. */
  lemma ToLowerSlice(s: string, a: nat, b: nat)
    requires a <= b <= |s|
    ensures ToLower(s)[a..b] == ToLower(s[a..b])
  {
  }

  predicate IsDigit(c: char) {
    '0' <= c <= '9'
  }

  function DigitValue(c: char): (d: nat)
    requires IsDigit(c)
    ensures d < 10
  {
    c as int - '0' as int
  }

  function DigitChar(d: nat): (c: char)
    requires d < 10
    ensures IsDigit(c)
  {
    ('0' as int + d) as char
  }

  /** The number a string of decimal digits denotes. */
  function DigitsValue(s: string): nat
    requires forall i :: 0 <= i < |s| ==> IsDigit(s[i])
  {
    if s == [] then 0
    else DigitsValue(s[..|s| - 1]) * 10 + DigitValue(s[|s| - 1])
  }

  /** `Number.prototype.toString()` on a non-negative integer: its decimal
      digits without leading zeros. */
  function NatToString(n: nat): (r: string)
    ensures |r| >= 1 && forall i :: 0 <= i < |r| ==> IsDigit(r[i])
    ensures r[0] == '0' ==> n == 0
  {
    if n < 10 then [DigitChar(n)] else NatToString(n / 10) + [DigitChar(n % 10)]
  }

  /** Reading back the decimal string gives the number. */
  lemma {:induction false} NatToStringValue(n: nat)
    ensures DigitsValue(NatToString(n)) == n
  {
    var r := NatToString(n);
    if n >= 10 {
      NatToStringValue(n / 10);
      assert r[..|r| - 1] == NatToString(n / 10);
    }
  }

  /** `Number.prototype.toString()` on an integer: a minus sign for negatives. */
  function IntToString(i: int): (r: string)
    ensures i >= 0 ==> r == NatToString(i)
    ensures i < 0 ==> r == "-" + NatToString(-i)
  {
    if i < 0 then "-" + NatToString(-i) else NatToString(i)
  }

  /** `String.prototype.padStart(width, fill)` with a one-character filler. */
  function PadStart(s: string, width: nat, fill: char): (r: string)
    ensures |s| >= width ==> r == s
    ensures |s| < width ==> |r| == width && r[width - |s|..] == s
    ensures |s| < width ==> forall i :: 0 <= i < width - |s| ==> r[i] == fill
    decreases width - |s|
  {
    if |s| >= width then s else PadStart([fill] + s, width, fill)
  }
}
