/** Decimal text of natural numbers: what Python's `'%d'` and `str.format`
    produce for a non-negative integer, and the reading that inverts it. */
module Decimal {

  predicate IsDigit(c: char) { '0' <= c <= '9' }

  predicate AllDigits(s: string) { forall i :: 0 <= i < |s| ==> IsDigit(s[i]) }

  function DigitValue(c: char): (d: nat)
    requires IsDigit(c)
    ensures d < 10
  {
    c as int - '0' as int
  }

  function DigitChar(d: nat): (c: char)
    requires d < 10
    ensures IsDigit(c) && DigitValue(c) == d
  {
    ('0' as int + d) as char
  }

  function Pow10(e: nat): (r: nat)
    ensures r >= 1
  {
    if e == 0 then 1 else 10 * Pow10(e - 1)
  }

  /** Powers of ten are strictly increasing, read backwards. */
  lemma {:induction false} Pow10Below(a: nat, b: nat)
    requires Pow10(a) < Pow10(b)
    ensures a < b
    decreases b
  {
    if a > 0 {
      Pow10Below(a - 1, b - 1);
    }
  }

  /** The shortest decimal numeral of `p`: digits only, no leading zero,
      and exactly as many digits as `p` needs. */
  function FromNat(p: nat): (s: string)
    ensures |s| >= 1 && AllDigits(s)
    ensures s[0] == '0' ==> p == 0
    ensures p < Pow10(|s|)
    ensures |s| > 1 ==> Pow10(|s| - 1) <= p
    decreases p
  {
    if p < 10 then [DigitChar(p)] else FromNat(p / 10) + [DigitChar(p % 10)]
  }

  /** The value of a numeral, most significant digit first. */
  function ToNat(s: string): nat
    requires AllDigits(s)
  {
    if |s| == 0 then 0 else 10 * ToNat(s[..|s| - 1]) + DigitValue(s[|s| - 1])
  }

  /** Reading back a rendered number gives the number. */
  lemma {:induction false} ToNatFromNat(p: nat)
    ensures ToNat(FromNat(p)) == p
    decreases p
  {
    if p >= 10 {
      var s := FromNat(p);
      assert s[..|s| - 1] == FromNat(p / 10);
      ToNatFromNat(p / 10);
    }
  }

  /** A number below `10^e` needs at most `e` digits (zero still takes one). */
  lemma FromNatWidth(p: nat, e: nat)
    requires 1 <= e && p < Pow10(e)
    ensures |FromNat(p)| <= e
  {
    var s := FromNat(p);
    if |s| > 1 {
      Pow10Below(|s| - 1, e);
    }
  }
}
