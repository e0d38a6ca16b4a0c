/**
 * Decimal numerals: how the service turns integers into text (`str(n)`,
 * used inside the f-strings of the pagination links) and text into
 * integers (`int(s)`, used on filter values and on `page`/`limit`).
 */
module Numerals {
  import opened Common

  predicate IsDigit(c: char) {
    '0' <= c <= '9'
  }

  predicate AllDigits(s: string) {
    forall i | 0 <= i < |s| :: IsDigit(s[i])
  }

  function DigitChar(d: int): (c: char)
    requires 0 <= d < 10
    ensures IsDigit(c)
  {
    "0123456789"[d]
  }

  function DigitValue(c: char): (d: int)
    requires IsDigit(c)
    ensures 0 <= d < 10
  {
    (c as int) - ('0' as int)
  }

  /** The digits of a natural number, most significant first, without leading zeros. */
  function NatDigits(n: nat): (r: string)
    ensures |r| > 0 && AllDigits(r)
    decreases n
  {
    if n < 10 then [DigitChar(n)] else NatDigits(n / 10) + [DigitChar(n % 10)]
  }

  /** Python's `str(n)` for an integer: an optional minus sign and the digits. */
  function Decimal(n: int): (r: string)
    ensures |r| > 0
    ensures forall i | 0 <= i < |r| :: r[i] == '-' || IsDigit(r[i])
  {
    if n < 0 then "-" + NatDigits(-n) else NatDigits(n)
  }

  /** The value of a string of decimal digits (the empty string reads as 0). */
  function DigitsValue(s: string): nat
    requires AllDigits(s)
    decreases |s|
  {
    if |s| == 0 then 0 else DigitsValue(s[..|s| - 1]) * 10 + DigitValue(s[|s| - 1])
  }

  /**
   * Python's `int(s)` on the numerals it reads as `[+-]?[0-9]+`; every other
   * string stands for the `ValueError` that `int` raises.
   */
  function ParseInt(s: string): (r: Option<int>)
    ensures r.Some? ==> |s| > 0
  {
    if |s| > 1 && (s[0] == '-' || s[0] == '+') && AllDigits(s[1..]) then
      var v: int := DigitsValue(s[1..]);
      Some(if s[0] == '-' then -v else v)
    else if |s| > 0 && AllDigits(s) then
      Some(DigitsValue(s))
    else
      None
  }

  lemma {:induction false} NatDigitsValue(n: nat)
    ensures DigitsValue(NatDigits(n)) == n
    decreases n
  {
    if n >= 10 {
      var front := NatDigits(n / 10);
      var r := front + [DigitChar(n % 10)];
      assert r[..|r| - 1] == front;
      NatDigitsValue(n / 10);
    }
  }

  /** Reading back what `str` printed gives the number again. */
  lemma ParseDecimal(n: int)
    ensures ParseInt(Decimal(n)) == Some(n)
  {
    var r := Decimal(n);
    if n < 0 {
      var digits := NatDigits(-n);
      assert r == "-" + digits;
      assert r[1..] == digits;
      assert r[0] == '-' && |r| > 1 && AllDigits(r[1..]);
      NatDigitsValue(-n);
    } else {
      assert r == NatDigits(n);
      assert IsDigit(r[0]);
      NatDigitsValue(n);
    }
  }

  /** Different numbers have different numerals. */
  lemma DecimalInjective(a: int, b: int)
    ensures Decimal(a) == Decimal(b) ==> a == b
  {
    ParseDecimal(a);
    ParseDecimal(b);
  }
}
