/**
 * Integer helpers: the decimal rendering JavaScript uses when a number is
 * interpolated into a template string, and `Math.ceil(a / b)` for a whole
 * dividend and a non-zero whole divisor.
 */
module Numeric {
  import opened Text

  function DigitChar(d: nat): (c: char)
    requires d < 10
  {
    ('0' as int + d) as char
  }

  function DigitValue(c: char): nat
    requires IsDigit(c)
  {
    c as int - '0' as int
  }

  predicate AllDigits(s: string) {
    forall i :: 0 <= i < |s| ==> IsDigit(s[i])
  }

  /** `${n}` for a natural number: decimal digits without leading zeros. */
  function NatToString(n: nat): (r: string)
    ensures |r| >= 1 && AllDigits(r)
    ensures r[0] == '0' ==> n == 0 && r == "0"
    decreases n
  {
    if n < 10 then [DigitChar(n)]
    else NatToString(n / 10) + [DigitChar(n % 10)]
  }

  /** The value of a string of decimal digits. */
  function DigitsValue(s: string): nat
    requires AllDigits(s)
    decreases |s|
  {
    if s == [] then 0 else DigitsValue(s[..|s| - 1]) * 10 + DigitValue(s[|s| - 1])
  }

  /** Reading back the decimal rendering gives the number. */
  lemma {:induction false} DigitsValueOfNatToString(n: nat)
    ensures DigitsValue(NatToString(n)) == n
    decreases n
  {
    if n >= 10 {
      DigitsValueOfNatToString(n / 10);
      var s := NatToString(n);
      assert s[..|s| - 1] == NatToString(n / 10);
    }
  }

  /** Distinct numbers have distinct renderings. */
  lemma NatToStringInjective(m: nat, n: nat)
    requires NatToString(m) == NatToString(n)
    ensures m == n
  {
    DigitsValueOfNatToString(m);
    DigitsValueOfNatToString(n);
  }

  /** `Math.ceil(a / b)` for a non-zero divisor; `CeilDivBounds` states what it computes. */
  function CeilDiv(a: nat, b: int): int
    requires b != 0
  {
    if b > 0 then (a + b - 1) / b else -(a / (-b))
  }

  /** `CeilDiv(a, b)` is the least integer `r` with `a <= r * b` (for `b > 0`), the greatest with `r * b <= a` (for `b < 0`). */
  lemma CeilDivBounds(a: nat, b: int)
    requires b != 0
    ensures var r := CeilDiv(a, b);
      && (b > 0 ==> (r - 1) * b < a <= r * b)
      && (b < 0 ==> r * b <= a < (r - 1) * b)
  {
    var r := CeilDiv(a, b);
    if b > 0 {
      var m := (a + b - 1) % b;
      assert a + b - 1 == r * b + m && 0 <= m < b;
      assert (r - 1) * b == r * b - b;
    } else {
      var q := a / (-b);
      var m := a % (-b);
      assert a == q * (-b) + m && 0 <= m < -b;
      assert r * b == q * (-b);
      assert (r - 1) * b == r * b - b;
    }
  }
}
