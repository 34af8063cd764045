/** Decimal digit strings: the `\d` of the archive-name pattern and the zero-padded
    fields of a `%Y%m%d` date stamp. */
module Text {

  /** The characters the model accepts for `\d` (ASCII decimal digits). */
  predicate IsDigit(c: char) {
    '0' <= c <= '9'
  }

  predicate AllDigits(s: string) {
    forall i :: 0 <= i < |s| ==> IsDigit(s[i])
  }

  function Pow10(width: nat): (p: nat)
    ensures p >= 1
  {
    if width == 0 then 1 else 10 * Pow10(width - 1)
  }

  function DigitChar(d: nat): (c: char)
    requires d < 10
    ensures IsDigit(c) && c as int - '0' as int == d
  {
    ('0' as int + d) as char
  }

  /** `n` written in decimal with exactly `width` digits, zero-padded on the left
      (the digits of `n` beyond `width` are cut off, as `n % 10^width`). */
  function Digits(n: nat, width: nat): (s: string)
    ensures |s| == width && AllDigits(s)
  {
    if width == 0 then [] else Digits(n / 10, width - 1) + [DigitChar(n % 10)]
  }

  /** The number a string of decimal digits denotes. */
  function DigitsValue(s: string): nat
    requires AllDigits(s)
  {
    if s == [] then 0
    else DigitsValue(s[..|s| - 1]) * 10 + (s[|s| - 1] as int - '0' as int)
  }

  /** Reading back a zero-padded rendering gives the number that was rendered. */
  lemma {:induction false} DigitsRoundTrip(n: nat, width: nat)
    requires n < Pow10(width)
    ensures DigitsValue(Digits(n, width)) == n
  {
    if width > 0 {
      var s := Digits(n, width);
      assert s[..|s| - 1] == Digits(n / 10, width - 1);
      assert n / 10 < Pow10(width - 1);
      DigitsRoundTrip(n / 10, width - 1);
    }
  }
}
