/** Base-10 rendering of integers, as strconv.FormatInt(n, 10) produces it, with a
    reference parser that inverts it. */
module Strconv {
  import opened GoTypes

  predicate IsDigit(c: Byte) {
    Zero <= c <= Zero + 9
  }

  predicate AllDigits(s: Bytes) {
    forall i :: 0 <= i < |s| ==> IsDigit(s[i])
  }

  function DigitChar(d: int): (c: Byte)
    requires 0 <= d < 10
    ensures IsDigit(c) && c - Zero == d
  {
    Zero + d
  }

  /** The decimal digits of n, most significant first, with no leading zero. */
  function FormatNat(n: nat): (s: Bytes)
    ensures |s| > 0 && AllDigits(s)
    ensures s[0] == Zero ==> n == 0
    decreases n
  {
    if n < 10 then [DigitChar(n)] else FormatNat(n / 10) + [DigitChar(n % 10)]
  }

  /** strconv.FormatInt(n, 10): a '-' sign for a negative number, then the digits of its
      magnitude. */
  function FormatInt(n: int): (s: Bytes)
    ensures |s| > 0
    ensures Underscore !in s
    ensures 0 <= n <==> AllDigits(s)
    ensures n < 0 ==> s[0] == Minus && AllDigits(s[1..])
  {
    if n < 0 then
      var s := [Minus] + FormatNat(-n);
      assert !IsDigit(s[0]);
      s
    else FormatNat(n)
  }

  /** The value of a string of decimal digits. */
  function DigitsValue(s: Bytes): nat
    requires AllDigits(s)
  {
    if s == [] then 0 else DigitsValue(s[..|s| - 1]) * 10 + (s[|s| - 1] - Zero)
  }

  /** Reads an optionally signed decimal integer; None for anything else. */
  function ParseInt(s: Bytes): Option<int> {
    if |s| > 0 && s[0] == Minus then
      if |s| > 1 && AllDigits(s[1..]) then Some(0 - DigitsValue(s[1..]) as int) else None
    else if |s| > 0 && AllDigits(s) then Some(DigitsValue(s))
    else None
  }

  lemma {:induction false} FormatNatValue(n: nat)
    ensures DigitsValue(FormatNat(n)) == n
    decreases n
  {
    if n >= 10 {
      var s := FormatNat(n);
      assert s[..|s| - 1] == FormatNat(n / 10);
      FormatNatValue(n / 10);
    }
  }

  /** Parsing undoes the rendering, so the rendering is injective. */
  lemma FormatIntRoundTrip(n: int)
    ensures ParseInt(FormatInt(n)) == Some(n)
  {
    if n < 0 {
      assert FormatInt(n)[1..] == FormatNat(-n);
      FormatNatValue(-n);
    } else {
      FormatNatValue(n);
    }
  }

  lemma FormatIntInjective(m: int, n: int)
    ensures FormatInt(m) == FormatInt(n) <==> m == n
  {
    FormatIntRoundTrip(m);
    FormatIntRoundTrip(n);
  }
}
