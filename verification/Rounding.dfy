/** Integer division with a rule for ties, percentages of an amount, and proportional shares. */
module Rounding {
  import opened Arithmetic
  import opened Results

  datatype Mode = HalfUp | HalfEven

  function Signed(negative: bool, magnitude: nat): int {
    if negative then -(magnitude as int) else magnitude
  }

  /** The quotient of magnitudes, one more when the remainder rounds up. */
  function RoundedMagnitude(num: nat, den: nat, mode: Mode): nat
    requires den > 0
  {
    var quotient := num / den;
    var twice := 2 * (num % den);
    if twice > den || (twice == den && (mode.HalfUp? || quotient % 2 == 1)) then quotient + 1 else quotient
  }

  function RoundedQuotient(num: int, den: nat, mode: Mode): int
    requires den > 0
  {
    Signed(num < 0, RoundedMagnitude(Abs(num), den, mode))
  }

  function DivideRounded(num: int, den: int, mode: Mode): Result<int> {
    if den <= 0 then Err("RangeError") else Ok(RoundedQuotient(num, den, mode))
  }

  /** q * den is nearest to num; a tie goes away from zero, or to the even quotient. */
  predicate IsRounded(num: int, den: nat, mode: Mode, q: int) {
    && 2 * Abs(num - q * den) <= den
    && (2 * Abs(num - q * den) == den ==> if mode.HalfUp? then Abs(q * den) > Abs(num) else q % 2 == 0)
  }

  lemma MagnitudeRounds(num: nat, den: nat, mode: Mode)
    requires den > 0
    ensures IsRounded(num, den, mode, RoundedMagnitude(num, den, mode))
  {
    var quotient, rest := num / den, num % den;
    assert num == quotient * den + rest;
    MulSucc(quotient, den);
  }

  lemma NegatedProduct(q: int, den: int)
    ensures (-q) * den == -(q * den)
  {
  }

  lemma NegatedRounds(num: int, den: nat, mode: Mode, q: int)
    requires IsRounded(num, den, mode, q)
    ensures IsRounded(-num, den, mode, -q)
  {
    NegatedProduct(q, den);
  }

  lemma QuotientRounds(num: int, den: nat, mode: Mode)
    requires den > 0
    ensures IsRounded(num, den, mode, RoundedQuotient(num, den, mode))
  {
    MagnitudeRounds(Abs(num), den, mode);
    if num < 0 {
      NegatedRounds(-num, den, mode, RoundedMagnitude(-num, den, mode));
    }
  }

  /** A larger factor makes the product larger by at least one more multiple. */
  lemma {:induction false} ProductGap(p: int, q: int, den: nat)
    requires p < q
    ensures p * den + den <= q * den
    decreases q - p
  {
    assert (q - 1) * den + den == q * den;
    if p < q - 1 {
      ProductGap(p, q - 1, den);
    }
  }

  /** A larger numerator never has a smaller rounded quotient. */
  lemma RoundedMonotone(num: int, other: int, den: nat, mode: Mode, p: int, q: int)
    requires den > 0 && num <= other
    requires IsRounded(num, den, mode, p) && IsRounded(other, den, mode, q)
    ensures p <= q
  {
    if q < p {
      ProductGap(q, p, den);
      if q + 1 < p {
        ProductGap(q, q + 1, den);
        ProductGap(q + 1, p, den);
        assert false;
      }
      assert q * den <= num <= p * den;
      assert mode.HalfUp? ==> Abs(q * den) > Abs(num) && Abs(p * den) > Abs(num);
      SameSign(q, p, den);
    }
  }

  lemma SameSign(q: int, p: int, den: nat)
    requires den > 0 && p == q + 1
    ensures 0 <= q * den || p * den <= 0
  {
    if q >= 0 {
      ProductNonNegative(q, den);
    } else {
      ProductNonNegative(-p, den);
      NegatedProduct(p, den);
    }
  }

  lemma ProductNonNegative(m: nat, n: nat)
    ensures m * n >= 0
  {
  }

  /** The rounded quotient is the one integer that is nearest under the rule for ties. */
  lemma DivideRoundedIff(num: int, den: int, mode: Mode, q: int)
    requires den > 0
    ensures DivideRounded(num, den, mode) == Ok(q) <==> IsRounded(num, den, mode, q)
  {
    var p := RoundedQuotient(num, den, mode);
    QuotientRounds(num, den, mode);
    if IsRounded(num, den, mode, q) {
      RoundedMonotone(num, num, den, mode, p, q);
      RoundedMonotone(num, num, den, mode, q, p);
    }
  }

  // ---- percentages ----

  /** One hundred per cent at six decimals of rate. */
  const WHOLE_RATE: nat := 100_000_000

  function ApplyRatePercent(amount: int, rate: int, mode: Mode): int {
    RoundedQuotient(amount * rate, WHOLE_RATE, mode)
  }

  function Sum(values: seq<int>): int {
    if values == [] then 0 else Sum(values[..|values| - 1]) + values[|values| - 1]
  }

  function SumOfRates(amounts: seq<int>, rate: int, mode: Mode): int {
    if amounts == [] then 0
    else SumOfRates(amounts[..|amounts| - 1], rate, mode) + ApplyRatePercent(amounts[|amounts| - 1], rate, mode)
  }

  lemma Distribute(a: int, b: int, c: int)
    ensures (a + b) * c == a * c + b * c
  {
  }

  lemma {:induction false} SumOfRatesNear(amounts: seq<int>, rate: int, mode: Mode)
    ensures 2 * Abs(Sum(amounts) * rate - SumOfRates(amounts, rate, mode) * WHOLE_RATE) <= |amounts| * WHOLE_RATE
    decreases |amounts|
  {
    if amounts != [] {
      var init, last := amounts[..|amounts| - 1], amounts[|amounts| - 1];
      SumOfRatesNear(init, rate, mode);
      QuotientRounds(last * rate, WHOLE_RATE, mode);
      Distribute(Sum(init), last, rate);
    }
  }

  /** Rounding each of n amounts, or their sum once, differs by at most half of n + 1. */
  lemma RatesOfPartsAndWhole(amounts: seq<int>, rate: int, mode: Mode)
    ensures 2 * Abs(SumOfRates(amounts, rate, mode) - ApplyRatePercent(Sum(amounts), rate, mode)) <= |amounts| + 1
  {
    SumOfRatesNear(amounts, rate, mode);
    QuotientRounds(Sum(amounts) * rate, WHOLE_RATE, mode);
  }

  lemma {:induction false} MulMonotoneInt(a: int, b: int, c: nat)
    requires a <= b
    ensures a * c <= b * c
  {
    if a < b {
      ProductGap(a, b, c);
    }
  }

  /** A larger amount, or a larger rate of a non-negative amount, is never charged less. */
  lemma RateMonotone(amount: int, other: int, rate: int, larger: int, mode: Mode)
    requires 0 <= amount <= other && 0 <= rate <= larger
    ensures ApplyRatePercent(amount, rate, mode) <= ApplyRatePercent(other, larger, mode)
  {
    MulMonotoneInt(amount, other, rate);
    MulMonotoneInt(rate, larger, other);
    assert amount * rate <= other * rate && other * rate <= other * larger;
    QuotientRounds(amount * rate, WHOLE_RATE, mode);
    QuotientRounds(other * larger, WHOLE_RATE, mode);
    RoundedMonotone(amount * rate, other * larger, WHOLE_RATE, mode,
      ApplyRatePercent(amount, rate, mode), ApplyRatePercent(other, larger, mode));
  }

  /** A rate between 0 and 100 % of a non-negative amount is between nothing and the amount. */
  lemma RateWithinAmount(amount: int, rate: int, mode: Mode)
    requires 0 <= amount && 0 <= rate <= WHOLE_RATE
    ensures 0 <= ApplyRatePercent(amount, rate, mode) <= amount
    ensures ApplyRatePercent(amount, WHOLE_RATE, mode) == amount
  {
    RateMonotone(amount, amount, 0, rate, mode);
    RateMonotone(amount, amount, rate, WHOLE_RATE, mode);
    DivideRoundedIff(0, WHOLE_RATE, mode, 0);
    DivideRoundedIff(amount * WHOLE_RATE, WHOLE_RATE, mode, amount);
  }
}
