/**
 Decimal digits of positive integers, as the integer `draw_string` emits
 them: `get_digit_count` (the number of digits) without floating point, and
 the digit text, most significant digit first, as a reference definition.
 */
module Decimal {
  import opened Bits

  /** The ASCII code of '0'. */
  const ZERO: UInt8 := 48

  /** 10^n, the divisor `(int16_t)std::pow(10, n)` is taken to be: `pow` assumed exact at integer powers of ten. */
  function Pow10(n: nat): (r: nat)
    ensures r >= 1
  {
    if n == 0 then 1 else 10 * Pow10(n - 1)
  }

  lemma {:induction false} Pow10Monotone(a: nat, b: nat)
    requires a <= b
    ensures Pow10(a) <= Pow10(b)
    decreases b
  {
    if a < b {
      Pow10Monotone(a, b - 1);
    }
  }

  /** Dropping the last decimal digit of a power of ten gives the next lower power. */
  lemma Pow10Down(n: nat)
    requires n >= 1
    ensures Pow10(n) / 10 == Pow10(n - 1)
  {
    DivUnique(Pow10(n), 10, Pow10(n - 1), 0);
  }

  /** Dividing by `b` then by `c` is dividing by `b * c`. */
  lemma DivDiv(a: nat, b: nat, c: nat)
    requires b > 0 && c > 0
    ensures a / b / c == a / (b * c)
  {
    var q, r := a / (b * c), a % (b * c);
    assert a == (b * c) * q + r && 0 <= r < b * c;
    assert r / b < c;
    DivUnique(a, b, c * q + r / b, r % b);
    DivUnique(a / b, c, q, r / b);
  }

  /**
   The number of decimal digits of `num >= 1`: the `n` with
   10^(n-1) <= num < 10^n.  `get_digit_count` computes `log10(num) + 1`
   in double and truncates it; this is that value under the assumption
   that `log10` is exact at powers of ten.
   */
  function DigitCount(num: int): (n: nat)
    requires num >= 1
    ensures n >= 1
    ensures Pow10(n - 1) <= num < Pow10(n)
    decreases num
  {
    if num < 10 then 1 else 1 + DigitCount(num / 10)
  }

  /** Only one digit count brackets a number between consecutive powers of ten. */
  lemma DigitCountUnique(num: int, n: nat)
    requires num >= 1 && n >= 1 && Pow10(n - 1) <= num < Pow10(n)
    ensures DigitCount(num) == n
  {
    var m := DigitCount(num);
    if m < n {
      Pow10Monotone(m, n - 1);
      assert false;
    } else if m > n {
      Pow10Monotone(n, m - 1);
      assert false;
    }
  }

  /** A decimal digit character '0' .. '9'. */
  predicate IsDigit(c: UInt8)
  {
    ZERO <= c < ZERO + 10
  }

  /** The decimal text of `num`, most significant digit first, no leading zero. */
  function DecimalText(num: nat): (s: seq<UInt8>)
    ensures |s| >= 1
    ensures forall i | 0 <= i < |s| :: IsDigit(s[i])
    ensures num >= 10 ==> s[0] != ZERO
    decreases num
  {
    if num < 10 then [ZERO + num]
    else DecimalText(num / 10) + [ZERO + num % 10]
  }

  /** The value of a string of decimal digits. */
  function Value(s: seq<UInt8>): int
  {
    if |s| == 0 then 0 else 10 * Value(s[..|s| - 1]) + (s[|s| - 1] - ZERO)
  }

  /** Reading the decimal text back gives the number. */
  lemma {:induction false} DecimalRoundTrip(num: nat)
    ensures Value(DecimalText(num)) == num
    decreases num
  {
    if num >= 10 {
      var s := DecimalText(num);
      assert s[..|s| - 1] == DecimalText(num / 10);
      DecimalRoundTrip(num / 10);
    }
  }

  /** The decimal text of `num >= 1` has `DigitCount(num)` characters. */
  lemma {:induction false} DecimalLength(num: int)
    requires num >= 1
    ensures |DecimalText(num)| == DigitCount(num)
    decreases num
  {
    if num >= 10 {
      DecimalLength(num / 10);
    }
  }

  /**
   Character `i` of the decimal text is digit `(num / 10^(n-1-i)) % 10`,
   where `n` is the digit count: the digit the integer `draw_string` loop
   computes with its divisor at step `i`.
   */
  lemma {:induction false} DigitAt(num: int, i: nat)
    requires num >= 1 && i < DigitCount(num)
    ensures |DecimalText(num)| == DigitCount(num)
    ensures DecimalText(num)[i] == ZERO + (num / Pow10(DigitCount(num) - 1 - i)) % 10
    decreases num
  {
    DecimalLength(num);
    var n := DigitCount(num);
    if num >= 10 {
      var s := DecimalText(num);
      if i < n - 1 {
        DigitAt(num / 10, i);
        assert s[i] == DecimalText(num / 10)[i];
        var p := Pow10(n - 2 - i);
        DivDiv(num, 10, p);
        assert Pow10(n - 1 - i) == 10 * p;
      }
    }
  }
}
