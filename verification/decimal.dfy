/**
 * Decimal text of natural numbers: JavaScript's `String(n)` for a non-negative
 * integer and `Number(s)` for a string of decimal digits.
 */
module Decimal {

  predicate IsDigit(c: char)
  {
    '0' <= c <= '9'
  }

  predicate AllDigits(s: string)
  {
    forall k :: 0 <= k < |s| ==> IsDigit(s[k])
  }

  function DigitChar(d: nat): (c: char)
    requires d < 10
    ensures IsDigit(c)
  {
    ('0' as int + d) as char
  }

  function DigitValue(c: char): (d: nat)
    requires IsDigit(c)
    ensures d < 10 && DigitChar(d) == c
  {
    c as int - '0' as int
  }

  /** `String(n)`: the shortest decimal spelling of n, most significant digit first. */
  function ToString(n: nat): (s: string)
    ensures s != [] && AllDigits(s)
    ensures |s| > 1 ==> s[0] != '0'
  {
    if n < 10 then [DigitChar(n)] else ToString(n / 10) + [DigitChar(n % 10)]
  }

  /** `Number(s)` on a string of decimal digits. */
  function Parse(s: string): (r: nat)
    requires AllDigits(s)
    ensures r == 0 <==> forall k :: 0 <= k < |s| ==> s[k] == '0'
  {
    if s == [] then 0
    else
      var init := s[..|s| - 1];
      assert forall k :: 0 <= k < |init| ==> init[k] == s[k];
      10 * Parse(init) + DigitValue(s[|s| - 1])
  }

  /** Reading back the decimal text of a number gives the number. */
  lemma {:induction false} ParseToString(n: nat)
    ensures Parse(ToString(n)) == n
  {
    var s := ToString(n);
    if n >= 10 {
      assert s[..|s| - 1] == ToString(n / 10);
      ParseToString(n / 10);
    }
  }

  /**
   * Writing back the number read from a digit string without a leading zero
   * gives the string.
   */
  lemma {:induction false} ToStringParse(s: string)
    requires AllDigits(s) && s != [] && (|s| == 1 || s[0] != '0')
    ensures ToString(Parse(s)) == s
    decreases |s|
  {
    if |s| > 1 {
      var init := s[..|s| - 1];
      assert init[0] == s[0];
      ToStringParse(init);
      var d := DigitValue(s[|s| - 1]);
      assert Parse(s) == 10 * Parse(init) + d;
      assert Parse(s) / 10 == Parse(init) && Parse(s) % 10 == d;
      assert s == init + [s[|s| - 1]];
    }
  }

  /** Two numbers with the same decimal text are equal. */
  lemma ToStringInjective(m: nat, n: nat)
    requires ToString(m) == ToString(n)
    ensures m == n
  {
    ParseToString(m);
    ParseToString(n);
  }
}
