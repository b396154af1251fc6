/** Decimal digit strings: the reading and the zero-padded writing of non-negative numbers. */
module Decimal {

  predicate IsDigit(c: char)
  {
    '0' <= c <= '9'
  }

  predicate AllDigits(s: string)
  {
    forall i :: 0 <= i < |s| ==> IsDigit(s[i])
  }

  function DigitValue(c: char): (d: nat)
    requires IsDigit(c)
    ensures d < 10
  {
    c as int - '0' as int
  }

  function DigitChar(d: int): (c: char)
    requires 0 <= d < 10
    ensures IsDigit(c) && DigitValue(c) == d
  {
    ('0' as int + d) as char
  }

  function Pow10(n: nat): (p: nat)
    ensures p >= 1
  {
    if n == 0 then 1 else 10 * Pow10(n - 1)
  }

  /** The value of a digit string, most significant digit first; leading zeros are allowed. */
  function DigitsValue(s: string): (v: nat)
    requires AllDigits(s)
    ensures v < Pow10(|s|)
  {
    if s == [] then 0
    else
      var v := DigitsValue(s[..|s| - 1]);
      assert v <= Pow10(|s| - 1) - 1;
      v * 10 + DigitValue(s[|s| - 1])
  }

  /** The last `w` decimal digits of `v`, zero-padded on the left (the `yyyy`, `MM`, ... specifiers). */
  function Pad(v: int, w: nat): (s: string)
    ensures |s| == w && AllDigits(s)
    decreases w
  {
    if w == 0 then [] else Pad(v / 10, w - 1) + [DigitChar(v % 10)]
  }

  /** The number of digits of `n` written without leading zeros ("0" has one). */
  function NumDigits(n: nat): (w: nat)
    ensures 1 <= w && n < Pow10(w)
    ensures n >= Pow10(w - 1) || n == 0
  {
    if n < 10 then 1 else 1 + NumDigits(n / 10)
  }

  lemma {:induction false} DigitsValueSnoc(s: string, c: char)
    requires AllDigits(s) && IsDigit(c)
    ensures AllDigits(s + [c]) && DigitsValue(s + [c]) == DigitsValue(s) * 10 + DigitValue(c)
  {
    assert (s + [c])[..|s|] == s;
  }

  /** Reading back a padded number gives the number, as long as it fits in the width. */
  lemma {:induction false} PadValue(v: int, w: nat)
    requires 0 <= v < Pow10(w)
    ensures DigitsValue(Pad(v, w)) == v
  {
    if w > 0 {
      PadValue(v / 10, w - 1);
      DigitsValueSnoc(Pad(v / 10, w - 1), DigitChar(v % 10));
    }
  }

  /** Writing back the value of a digit string in its own width gives the string. */
  lemma {:induction false} PadOfValue(s: string)
    requires AllDigits(s)
    ensures Pad(DigitsValue(s), |s|) == s
  {
    if s != [] {
      var init, last := s[..|s| - 1], s[|s| - 1];
      assert s == init + [last];
      var v := DigitsValue(s);
      assert v == DigitsValue(init) * 10 + DigitValue(last);
      assert v / 10 == DigitsValue(init) && v % 10 == DigitValue(last);
      PadOfValue(init);
    }
  }
}
