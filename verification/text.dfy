/** Character classes and decimal numerals as JavaScript's string functions see them. */
module Text {

  /** The class `\s` of JavaScript regular expressions: the WhiteSpace and LineTerminator
      characters of ECMAScript. `String.prototype.trim` strips exactly this set too. */
  predicate IsSpace(c: char) {
    || c == ' ' || c == '\t' || c == '\n' || c == '\r'
    || c == '\U{000B}' || c == '\U{000C}'
    || c == '\U{00A0}' || c == '\U{1680}'
    || ('\U{2000}' <= c <= '\U{200A}')
    || c == '\U{2028}' || c == '\U{2029}' || c == '\U{202F}' || c == '\U{205F}'
    || c == '\U{3000}' || c == '\U{FEFF}'
  }

  predicate IsDigit(c: char) {
    '0' <= c <= '9'
  }

  predicate IsLowerLetter(c: char) {
    'a' <= c <= 'z'
  }

  predicate IsHyphen(c: char) {
    c == '-'
  }

  predicate AllDigits(s: string) {
    forall i :: 0 <= i < |s| ==> IsDigit(s[i])
  }

  /** The longest suffix of `s` that does not start with a character satisfying `p`. */
  function SkipWhile(s: string, p: char -> bool): (r: string)
    ensures |r| <= |s|
    ensures r == s[|s| - |r|..]
    ensures |r| > 0 ==> !p(r[0])
    ensures forall i :: 0 <= i < |s| - |r| ==> p(s[i])
    decreases |s|
  {
    if |s| > 0 && p(s[0]) then SkipWhile(s[1..], p) else s
  }

  function DigitChar(d: nat): (c: char)
    requires d < 10
    ensures IsDigit(c)
  {
    ('0' as int + d) as char
  }

  function DigitValue(c: char): nat
    requires IsDigit(c)
  {
    c as int - '0' as int
  }

  /** JavaScript's `${n}` for a non-negative integer: its decimal numeral. */
  function NatToDecimal(n: nat): (r: string)
    ensures |r| >= 1 && AllDigits(r)
    ensures r[0] == '0' ==> n == 0
    decreases n
  {
    if n < 10 then [DigitChar(n)] else NatToDecimal(n / 10) + [DigitChar(n % 10)]
  }

  /** The number a string of decimal digits denotes. */
  function DecimalValue(s: string): nat
    requires AllDigits(s)
  {
    if |s| == 0 then 0 else 10 * DecimalValue(s[..|s| - 1]) + DigitValue(s[|s| - 1])
  }

  /** Reading a rendered numeral back gives the number. */
  lemma {:induction false} DecimalRoundTrip(n: nat)
    ensures DecimalValue(NatToDecimal(n)) == n
    decreases n
  {
    var r := NatToDecimal(n);
    if n >= 10 {
      DecimalRoundTrip(n / 10);
      assert r[..|r| - 1] == NatToDecimal(n / 10);
    }
  }

  /** Different numbers render differently. */
  lemma DecimalInjective(m: nat, n: nat)
    requires NatToDecimal(m) == NatToDecimal(n)
    ensures m == n
  {
    DecimalRoundTrip(m);
    DecimalRoundTrip(n);
  }
}
