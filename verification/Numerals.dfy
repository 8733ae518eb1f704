/** Decimal numbers as `std::to_string` prints and `std::stoll` reads them. */
module Numerals {

  predicate IsDigit(c: char) { '0' <= c <= '9' }

  predicate AllDigits(s: string) { forall k :: 0 <= k < |s| ==> IsDigit(s[k]) }

  function Digit(v: nat): (c: char)
    requires v < 10
    ensures IsDigit(c)
  {
    (v + '0' as int) as char
  }

  function ToDecimal(n: nat): (r: string)
    ensures r != "" && AllDigits(r)
  {
    if n < 10 then [Digit(n)] else ToDecimal(n / 10) + [Digit(n % 10)]
  }

  /** A signed number. */
  function IntText(n: int): (r: string)
    ensures r != "" && (n >= 0 ==> AllDigits(r))
  {
    if n < 0 then "-" + ToDecimal(-n) else ToDecimal(n)
  }

  function FromDecimal(s: string): nat
    requires AllDigits(s)
  {
    if s == "" then 0 else FromDecimal(s[..|s| - 1]) * 10 + (s[|s| - 1] as int - '0' as int)
  }

  lemma {:induction false} DecimalRoundTrip(n: nat)
    ensures FromDecimal(ToDecimal(n)) == n
  {
    if n < 10 {
      assert ToDecimal(n)[..0] == "";
      assert FromDecimal("") == 0;
    } else {
      DecimalRoundTrip(n / 10);
      var s := ToDecimal(n);
      assert s[..|s| - 1] == ToDecimal(n / 10);
    }
  }

  /** The digits stand for the numbers they are written for. */
  lemma DigitsAreDigits(v: nat)
    requires v < 10
    ensures ToDecimal(v) == ["0123456789"[v]] && IntText(-1 - v)[0] == '-'
  {
  }
}
