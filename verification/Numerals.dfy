/** Numerals: the digits of a number in a base, and the value of decimal digits. */
module Numerals {
  import Digits

  const DIGITS := "0123456789abcdef"

  function Digit(d: nat): char
    requires d < 16
  {
    DIGITS[d]
  }

  predicate IsBase(b: nat) {
    b == 8 || b == 10 || b == 16
  }

  /** The digits of n, most significant first; zero has one digit. */
  function Numeral(n: nat, b: nat): (r: string)
    requires IsBase(b)
    ensures |r| >= 1
    decreases n
  {
    if n < b then [Digit(n)] else Numeral(n / b, b) + [Digit(n % b)]
  }

  function DigitValue(c: char): int {
    if '0' <= c <= '9' then c as int - '0' as int
    else if 'a' <= c <= 'f' then c as int - 'a' as int + 10
    else -1
  }

  /** The value of digits in a base. */
  function Value(ds: string, b: nat): int {
    if ds == [] then 0 else Value(ds[..|ds| - 1], b) * b + DigitValue(ds[|ds| - 1])
  }

  lemma DigitRoundTrip(d: nat)
    requires d < 16
    ensures DigitValue(Digit(d)) == d
  {
    assert DIGITS[0] == '0' && DIGITS[1] == '1' && DIGITS[2] == '2' && DIGITS[3] == '3';
    assert DIGITS[4] == '4' && DIGITS[5] == '5' && DIGITS[6] == '6' && DIGITS[7] == '7';
    assert DIGITS[8] == '8' && DIGITS[9] == '9' && DIGITS[10] == 'a' && DIGITS[11] == 'b';
    assert DIGITS[12] == 'c' && DIGITS[13] == 'd' && DIGITS[14] == 'e' && DIGITS[15] == 'f';
  }

  /** The digits of a number evaluate back to it. */
  lemma {:induction false} NumeralEvaluates(n: nat, b: nat)
    requires IsBase(b)
    ensures Value(Numeral(n, b), b) == n
    decreases n
  {
    if n < b {
      DigitRoundTrip(n);
      var ds := Numeral(n, b);
      assert ds[..0] == [];
    } else {
      NumeralEvaluates(n / b, b);
      DigitRoundTrip(n % b);
      var ds := Numeral(n, b);
      assert ds[..|ds| - 1] == Numeral(n / b, b);
    }
  }

  /** n has at most k digits if and only if it is below the k-th power of the base. */
  lemma {:induction false} NumeralLength(n: nat, b: nat, k: nat)
    requires IsBase(b) && k >= 1
    ensures |Numeral(n, b)| <= k <==> n < Digits.Pow(b, k)
    decreases n
  {
    if k == 1 {
      assert Digits.Pow(b, 1) == b * Digits.Pow(b, 0) == b;
    } else if n < b {
      PowGrows(b, k);
    } else {
      NumeralLength(n / b, b, k - 1);
      DivBelow(n, b, Digits.Pow(b, k - 1));
    }
  }

  lemma {:induction false} PowGrows(b: nat, k: nat)
    requires IsBase(b) && k >= 1
    ensures Digits.Pow(b, k) >= b
    decreases k
  {
    if k > 1 {
      PowGrows(b, k - 1);
    }
  }

  lemma DivBelow(n: nat, b: nat, p: nat)
    requires IsBase(b)
    ensures n / b < p <==> n < b * p
  {
  }

  /** Decimal digits are the characters 0 to 9, and the first is 0 only for zero. */
  lemma {:induction false} DecimalDigits(n: nat)
    ensures forall i :: 0 <= i < |Numeral(n, 10)| ==> '0' <= Numeral(n, 10)[i] <= '9'
    ensures Numeral(n, 10)[0] == '0' <==> n == 0
    decreases n
  {
    if n < 10 {
      DecimalChar(n);
    } else {
      DecimalDigits(n / 10);
      DecimalChar(n % 10);
    }
  }

  lemma DecimalChar(d: nat)
    requires d < 10
    ensures '0' <= Digit(d) <= '9' && (Digit(d) == '0' <==> d == 0)
  {
    assert DIGITS[0] == '0' && DIGITS[1] == '1' && DIGITS[2] == '2' && DIGITS[3] == '3';
    assert DIGITS[4] == '4' && DIGITS[5] == '5' && DIGITS[6] == '6' && DIGITS[7] == '7';
    assert DIGITS[8] == '8' && DIGITS[9] == '9';
  }

  function Repeat(c: char, n: nat): (r: string)
    ensures |r| == n && forall i :: 0 <= i < n ==> r[i] == c
  {
    seq(n, _ => c)
  }

  lemma ValueSnoc(ds: string, c: char, b: nat)
    ensures Value(ds + [c], b) == Value(ds, b) * b + DigitValue(c)
  {
    assert (ds + [c])[..|ds|] == ds;
  }

  /** Zeros in front change nothing. */
  lemma {:induction false} ZerosInFront(n: nat, ds: string)
    ensures Value(Repeat('0', n) + ds, 10) == Value(ds, 10)
    decreases |ds|, n
  {
    if ds != [] {
      var m := |ds| - 1;
      ZerosInFront(n, ds[..m]);
      assert (Repeat('0', n) + ds)[..n + m] == Repeat('0', n) + ds[..m];
    } else if n > 0 {
      ZerosInFront(n - 1, ds);
      assert (Repeat('0', n) + ds)[..n - 1] == Repeat('0', n - 1) + ds;
    }
  }

  /** Zeros behind multiply. */
  lemma {:induction false} ZerosBehind(ds: string, n: nat)
    ensures Value(ds + Repeat('0', n), 10) == Value(ds, 10) * Digits.Pow(10, n)
    decreases n
  {
    if n == 0 {
      assert ds + Repeat('0', 0) == ds;
    } else {
      ZerosBehind(ds, n - 1);
      assert (ds + Repeat('0', n))[..|ds| + n - 1] == ds + Repeat('0', n - 1);
      MulMove(Value(ds, 10), Digits.Pow(10, n - 1));
    }
  }

  lemma MulMove(v: int, p: int)
    ensures v * p * 10 == v * (10 * p)
  {
  }
}
