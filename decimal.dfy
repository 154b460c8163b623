/** Decimal numerals as java.text.SimpleDateFormat writes a numeric field:
    the shortest numeral of the value, zero-padded on the left to at least as
    many digits as the pattern has letters. */
module Decimal {

  predicate IsDigit(c: char) { '0' <= c <= '9' }

  predicate AllDigits(s: string) { forall i :: 0 <= i < |s| ==> IsDigit(s[i]) }

  function DigitChar(d: nat): (c: char)
    requires d < 10
    ensures IsDigit(c) && c as int - '0' as int == d
  {
    ('0' as int + d) as char
  }

  function DigitValue(c: char): (d: nat)
    requires IsDigit(c)
    ensures d < 10 && DigitChar(d) == c
  {
    c as int - '0' as int
  }

  /** Ten to the power k. */
  function Pow10(k: nat): (p: nat)
    ensures p >= 1
  {
    if k == 0 then 1 else 10 * Pow10(k - 1)
  }

  /** The shortest decimal numeral of n (no leading zeros except for n == 0). */
  function Numeral(n: nat): (s: string)
    ensures 1 <= |s| && AllDigits(s)
    ensures n >= 10 ==> s[0] != '0'
  {
    if n < 10 then [DigitChar(n)] else Numeral(n / 10) + [DigitChar(n % 10)]
  }

  /** A run of k zero digits. */
  function Zeros(k: nat): (s: string)
    ensures |s| == k && AllDigits(s)
  {
    if k == 0 then [] else Zeros(k - 1) + ['0']
  }

  /** n written with at least `width` digits, as a numeric field of `width`
      pattern letters is written. */
  function Padded(n: nat, width: nat): (s: string)
    ensures AllDigits(s)
    ensures |s| == if |Numeral(n)| < width then width else |Numeral(n)|
  {
    if |Numeral(n)| < width then Zeros(width - |Numeral(n)|) + Numeral(n) else Numeral(n)
  }

  /** The number a digit string denotes (the empty string denotes 0). */
  function Value(s: string): nat
    requires AllDigits(s)
  {
    if s == [] then 0 else Value(s[..|s| - 1]) * 10 + DigitValue(s[|s| - 1])
  }

  lemma {:induction false} ValueOfNumeral(n: nat)
    ensures Value(Numeral(n)) == n
  {
    if n >= 10 {
      var s := Numeral(n);
      assert s[..|s| - 1] == Numeral(n / 10);
      ValueOfNumeral(n / 10);
    }
  }

  lemma {:induction false} ValueIgnoresZeros(k: nat, s: string)
    requires AllDigits(s)
    ensures Value(Zeros(k) + s) == Value(s)
    decreases |s|
  {
    if s == [] {
      assert Zeros(k) + s == Zeros(k);
      ValueOfZeros(k);
    } else {
      var t := Zeros(k) + s;
      assert t[..|t| - 1] == Zeros(k) + s[..|s| - 1] && t[|t| - 1] == s[|s| - 1];
      ValueIgnoresZeros(k, s[..|s| - 1]);
    }
  }

  lemma {:induction false} ValueOfZeros(k: nat)
    ensures Value(Zeros(k)) == 0
  {
    if k > 0 {
      assert Zeros(k)[..k - 1] == Zeros(k - 1);
      ValueOfZeros(k - 1);
    }
  }

  /** Zero padding is the inverse of reading the digits back. */
  lemma ValueOfPadded(n: nat, width: nat)
    ensures Value(Padded(n, width)) == n
  {
    ValueOfNumeral(n);
    if |Numeral(n)| < width {
      ValueIgnoresZeros(width - |Numeral(n)|, Numeral(n));
    }
  }

  /** The numeral of n has at most k digits exactly when n < 10^k. */
  lemma {:induction false} NumeralLength(n: nat, k: nat)
    requires k >= 1
    ensures |Numeral(n)| <= k <==> n < Pow10(k)
  {
    if n >= 10 {
      assert n == 10 * (n / 10) + n % 10;
      if k == 1 {
        assert |Numeral(n / 10)| >= 1;
      } else {
        NumeralLength(n / 10, k - 1);
      }
    } else {
      PowAtLeastTen(k);
    }
  }

  lemma {:induction false} PowAtLeastTen(k: nat)
    requires k >= 1
    ensures Pow10(k) >= 10
  {
    if k > 1 { PowAtLeastTen(k - 1); }
  }

  /** A field value below 10^width fills exactly `width` digits. */
  lemma PaddedWidth(n: nat, width: nat)
    requires width >= 1
    ensures |Padded(n, width)| == width <==> n < Pow10(width)
  {
    NumeralLength(n, width);
  }
}
