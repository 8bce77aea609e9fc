/** Division one bit at a time, on machine words of a given width. */
module LongDivision {
  function Pow2(n: nat): (p: nat)
    ensures p > 0
  { if n == 0 then 1 else 2 * Pow2(n - 1) }

  // after i of width bits: high holds the bits shifted in, low those still in the dividend
  ghost predicate Bits(width: nat, number: nat, i: nat, high: nat, low: nat, dividend: nat) {
    && i <= width && number == high * Pow2(width - i) + low && low < Pow2(width - i) && dividend == low * Pow2(i)
    && high < Pow2(i)
  }

  // the bits shifted in, divided
  ghost predicate Parts(divisor: nat, i: nat, high: nat, quotient: nat, remainder: nat) {
    && remainder <= high < Pow2(i) && quotient < Pow2(i)
    && (if divisor > 0 then high == quotient * divisor + remainder && remainder < divisor
        else quotient == Pow2(i) - 1 && remainder == high)
  }

  lemma {:induction false} Pow2Sum(a: nat, b: nat)
    ensures Pow2(a + b) == Pow2(a) * Pow2(b)
  {
    if a > 0 { Pow2Sum(a - 1, b); }
  }

  lemma {:induction false} Pow2Grows(a: nat, b: nat)
    requires a <= b
    ensures Pow2(a) <= Pow2(b)
  {
    if a < b { Pow2Grows(a, b - 1); }
  }

  // the top bit of the dividend is the top bit of low
  lemma TopBit(width: nat, i: nat, low: nat, dividend: nat)
    requires i < width && low < Pow2(width - i) && dividend == low * Pow2(i)
    ensures dividend < Pow2(width)
    ensures dividend >= Pow2(width - 1) <==> low >= Pow2(width - i - 1)
    ensures low >= Pow2(width - i - 1) ==> dividend * 2 - Pow2(width) == (low - Pow2(width - i - 1)) * Pow2(i + 1)
    ensures low < Pow2(width - i - 1) ==> dividend * 2 == low * Pow2(i + 1) && dividend * 2 < Pow2(width)
  {
    var half, p := Pow2(width - i - 1), Pow2(i);
    Pow2Sum(width - i - 1, i);
    Pow2Sum(width - i, i);
    Below(low, 2 * half, p);
    if low < half { Below(low, half, p); } else { Above(low, half, p); }
    Twice(low, half, p);
  }

  lemma Twice(low: nat, half: nat, p: nat)
    ensures low >= half ==> low * p * 2 - 2 * (half * p) == (low - half) * (2 * p)
    ensures low * p * 2 == low * (2 * p) && 2 * half * p == 2 * (half * p)
  {}

  lemma Below(x: nat, y: nat, z: nat)
    requires x < y && z > 0
    ensures x * z < y * z
  {}

  lemma Above(x: nat, y: nat, z: nat)
    requires x >= y
    ensures x * z >= y * z
  {}

  // a word of this width, shifted left by one
  function Shl(x: nat, width: nat): nat
    requires width > 0 && x < Pow2(width)
  { if x >= Pow2(width - 1) then x * 2 - Pow2(width) else x * 2 }

  lemma AdvanceBits(width: nat, number: nat, i: nat, high: nat, low: nat, dividend: nat, bit: nat)
    requires i < width && Bits(width, number, i, high, low, dividend)
    requires bit == (if low >= Pow2(width - i - 1) then 1 else 0)
    ensures var low' := low - bit * Pow2(width - i - 1);
            && low' >= 0 && dividend < Pow2(width)
            && Bits(width, number, i + 1, high * 2 + bit, low', Shl(dividend, width))
    ensures dividend >= Pow2(width - 1) <==> bit == 1
  {
    TopBit(width, i, low, dividend);
    var half := Pow2(width - i - 1);
    Regroup(high, low, half, bit);
  }

  lemma Regroup(high: nat, low: nat, half: nat, bit: nat)
    ensures high * (2 * half) + low == (high * 2 + bit) * half + (low - bit * half)
  {}

  // one bit more, divided
  lemma AdvanceParts(divisor: nat, i: nat, high: nat, quotient: nat, remainder: nat, bit: nat)
    requires bit <= 1 && Parts(divisor, i, high, quotient, remainder)
    ensures var r := remainder * 2 + bit;
            Parts(divisor, i + 1, high * 2 + bit, quotient * 2 + (if r >= divisor then 1 else 0),
              if r >= divisor then r - divisor else r)
  {
    Double(quotient, divisor);
  }

  lemma Double(quotient: nat, divisor: nat)
    ensures (quotient * 2 + 1) * divisor == quotient * divisor * 2 + divisor
        && quotient * 2 * divisor == quotient * divisor * 2
  {}

  /** The loop of the four division routines; by zero it gives all ones and the dividend. */
  method ShiftSubtract(width: nat, number: nat, divisor: nat) returns (quotient: nat, remainder: nat)
    requires width > 0 && number < Pow2(width) && divisor < Pow2(width)
    ensures divisor > 0 ==> number == quotient * divisor + remainder && remainder < divisor
    ensures divisor == 0 ==> quotient == Pow2(width) - 1 && remainder == number
  {
    quotient, remainder := 0, 0;
    var dividend: nat := number;
    ghost var high: nat, low: nat := 0, number;
    var i := 0;
    while i < width
      invariant i <= width && Bits(width, number, i, high, low, dividend)
          && Parts(divisor, i, high, quotient, remainder)
    {
      ghost var bit := if low >= Pow2(width - i - 1) then 1 else 0;
      AdvanceBits(width, number, i, high, low, dividend, bit);
      AdvanceParts(divisor, i, high, quotient, remainder, bit);
      Pow2Grows(i + 1, width);
      hide Bits;
      if dividend >= Pow2(width - 1) {
        remainder := Shl(remainder, width) + 1;
      } else {
        remainder := Shl(remainder, width);
      }
      if remainder >= divisor {
        remainder := remainder - divisor;
        quotient := Shl(quotient, width) + 1;
      } else {
        quotient := Shl(quotient, width);
      }
      dividend := Shl(dividend, width);
      high, low := high * 2 + bit, low - bit * Pow2(width - i - 1);
      i := i + 1;
    }
  }

  lemma QuotientUnique(number: nat, divisor: nat, quotient: nat, remainder: nat)
    requires divisor > 0 && number == quotient * divisor + remainder && remainder < divisor
    ensures quotient == number / divisor && remainder == number % divisor
  {
    var q, r := number / divisor, number % divisor;
    assert (quotient - q) * divisor == r - remainder;
    if quotient > q { Above(quotient - q, 1, divisor); }
    if quotient < q { Above(q - quotient, 1, divisor); }
  }

  method Div64(dividend: nat, divisor: nat) returns (quotient: nat)
    requires dividend < Pow2(64) && divisor < Pow2(64)
    ensures quotient == if divisor > 0 then dividend / divisor else Pow2(64) - 1
  {
    ghost var remainder;
    quotient, remainder := ShiftSubtract(64, dividend, divisor);
    if divisor > 0 { QuotientUnique(dividend, divisor, quotient, remainder); }
  }

  method Mod64(dividend: nat, divisor: nat) returns (remainder: nat)
    requires dividend < Pow2(64) && divisor < Pow2(64)
    ensures remainder == if divisor > 0 then dividend % divisor else dividend
  {
    ghost var quotient;
    quotient, remainder := ShiftSubtract(64, dividend, divisor);
    if divisor > 0 { QuotientUnique(dividend, divisor, quotient, remainder); }
  }

  method Div32(dividend: nat, divisor: nat) returns (quotient: nat)
    requires dividend < Pow2(32) && divisor < Pow2(32)
    ensures quotient == if divisor > 0 then dividend / divisor else Pow2(32) - 1
  {
    ghost var remainder;
    quotient, remainder := ShiftSubtract(32, dividend, divisor);
    if divisor > 0 { QuotientUnique(dividend, divisor, quotient, remainder); }
  }

  method Mod32(dividend: nat, divisor: nat) returns (remainder: nat)
    requires dividend < Pow2(32) && divisor < Pow2(32)
    ensures remainder == if divisor > 0 then dividend % divisor else dividend
  {
    ghost var quotient;
    quotient, remainder := ShiftSubtract(32, dividend, divisor);
    if divisor > 0 { QuotientUnique(dividend, divisor, quotient, remainder); }
  }
}
