/**
  Decimal digit runs: what `parseInt(run, 10)` reads from a run of ASCII digits and
  what a template literal `${n}` writes for a natural number.
 */
module Decimal {

  /** JavaScript's `\d` without the `u` flag: the ten ASCII digits. */
  predicate IsDigit(c: char) {
    '0' <= c <= '9'
  }

  predicate AllDigits(s: string) {
    forall i | 0 <= i < |s| :: IsDigit(s[i])
  }

  function DigitValue(c: char): (d: nat)
    requires IsDigit(c)
    ensures d < 10
  {
    c as int - '0' as int
  }

  function DigitChar(d: nat): (c: char)
    requires d < 10
    ensures IsDigit(c) && DigitValue(c) == d
  {
    ('0' as int + d) as char
  }

  /** The value of a run of decimal digits, most significant first (leading zeros allowed). */
  function Value(s: string): (n: nat)
    requires AllDigits(s)
    decreases |s|
  {
    if s == [] then 0 else 10 * Value(s[..|s| - 1]) + DigitValue(s[|s| - 1])
  }

  /** The shortest decimal text of `n`, as JavaScript prints a non-negative integer below 10^21. */
  function Text(n: nat): (s: string)
    ensures s != [] && AllDigits(s)
    ensures n > 0 ==> s[0] != '0'
  {
    if n < 10 then [DigitChar(n)] else Text(n / 10) + [DigitChar(n % 10)]
  }

  /** Reading back what `Text` writes gives the number again. */
  lemma {:induction false} ValueOfText(n: nat)
    ensures Value(Text(n)) == n
  {
    if n >= 10 {
      var s := Text(n);
      assert s[..|s| - 1] == Text(n / 10);
      ValueOfText(n / 10);
    }
  }

  /** The length of the leading run of digits of `s`. */
  function LeadingDigits(s: string): (k: nat)
    ensures k <= |s| && AllDigits(s[..k])
    ensures k < |s| ==> !IsDigit(s[k])
  {
    if s == [] || !IsDigit(s[0]) then 0
    else
      var k := 1 + LeadingDigits(s[1..]);
      assert s[..k] == [s[0]] + s[1..][..k - 1];
      k
  }

  /** A digit run followed by a non-digit is exactly the leading digit run. */
  lemma {:induction false} LeadingDigitsOf(s: string, k: nat)
    requires k <= |s| && AllDigits(s[..k]) && (k < |s| ==> !IsDigit(s[k]))
    ensures LeadingDigits(s) == k
  {
    if k > 0 {
      assert s[..k][0] == s[0];
      assert s[1..][..k - 1] == s[..k][1..];
      LeadingDigitsOf(s[1..], k - 1);
    }
  }
}
