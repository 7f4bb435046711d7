/** Exact money: decimal texts to minor units and back, and shares that add up to the total. */
module Money {
  import opened Arithmetic
  import opened Decimals
  import opened Results
  import opened Rounding
  import opened Texts

  /** What an amount comes in as: nothing, an integer or a text. */
  datatype Input = Missing | Whole(n: int) | Written(text: string)

  const MAX_SCALE := 12
  const NUMERIC_18_2_MAX_MINOR := 999_999_999_999_999_999
  const MAX_INTEGER_DIGITS := 16

  predicate ScaleOk(scale: int) {
    0 <= scale <= MAX_SCALE
  }

  // ---- decimal texts ----

  predicate HasSign(text: string) {
    text != "" && (text[0] == '-' || text[0] == '+')
  }

  predicate Negative(text: string) {
    text != "" && text[0] == '-'
  }

  function Unsigned(text: string): string {
    if HasSign(text) then text[1..] else text
  }

  function PointAt(s: string): (k: nat)
    ensures k <= |s|
    ensures k < |s| ==> s[k] == '.'
  {
    if s == "" || s[0] == '.' then 0 else 1 + PointAt(s[1..])
  }

  function IntegerPart(text: string): string {
    var u := Unsigned(text);
    u[..PointAt(u)]
  }

  function FractionPart(text: string): string {
    var u := Unsigned(text);
    if PointAt(u) < |u| then u[PointAt(u) + 1..] else ""
  }

  /** A sign or none, digits, at most one point, and a digit on one of its sides. */
  predicate WellFormed(text: string) {
    && AllDigits(IntegerPart(text))
    && AllDigits(FractionPart(text))
    && IntegerPart(text) + FractionPart(text) != ""
  }

  /** The value of a well-formed text is Numerator / 10 ** Places. */
  function Places(text: string): nat {
    |FractionPart(text)|
  }

  function Numerator(text: string): int
    requires WellFormed(text)
  {
    Signed(Negative(text), Value(IntegerPart(text) + FractionPart(text)))
  }

  // ---- to minor units ----

  /** The digits kept, and one more unit when the first dropped digit is five or more. */
  function MinorMagnitude(integer: string, fraction: string, scale: nat): nat
    requires AllDigits(integer) && AllDigits(fraction)
  {
    var padded := PadEnd(fraction, scale + 1);
    PadEndValue(fraction, scale + 1);
    Value((if integer == "" then "0" else integer) + padded[..scale]) + if padded[scale] >= '5' then 1 else 0
  }

  function TextToMinor(text: string, scale: nat): Result<int> {
    if !WellFormed(text) then Err("InvalidDecimalAmount")
    else Ok(Signed(Negative(text), MinorMagnitude(IntegerPart(text), FractionPart(text), scale)))
  }

  function ToMinorUnits(value: Input, scale: int): Result<int> {
    if !ScaleOk(scale) then Err("RangeError")
    else
      match value
      case Missing => Ok(0)
      case Whole(n) => TextToMinor(IntegerText(n), scale)
      case Written(text) => if Trim(text) == "" then Ok(0) else TextToMinor(Trim(text), scale)
  }

  /** The text with exactly `scale` decimals. */
  function MinorToText(minor: int, scale: nat): string {
    var digits := PadStart(Digits(Abs(minor)), scale + 1);
    PadStartValue(Digits(Abs(minor)), scale + 1);
    (if minor < 0 then "-" else "") + digits[..|digits| - scale] +
    if scale == 0 then "" else "." + digits[|digits| - scale..]
  }

  function FromMinorUnits(minor: int, scale: int): Result<string> {
    if !ScaleOk(scale) then Err("RangeError") else Ok(MinorToText(minor, scale))
  }

  function NormalizeAmount(value: Input, scale: int): Result<string> {
    var minor := ToMinorUnits(value, scale);
    if minor.Err? then Err(minor.error) else FromMinorUnits(minor.value, scale)
  }

  // ---- exact parsing ----

  predicate OnlyZerosBeyond(fraction: string, scale: nat) {
    forall i :: scale <= i < |fraction| ==> !('1' <= fraction[i] <= '9')
  }

  function ParseDecimalExact(value: Input, scale: int): Result<int> {
    if !ScaleOk(scale) then Err("RangeError")
    else if value.Missing? then Err("InvalidDecimalAmount")
    else
      var text := if value.Whole? then IntegerText(value.n) else Trim(value.text);
      if !WellFormed(text) then Err("InvalidDecimalAmount")
      else if !OnlyZerosBeyond(FractionPart(text), scale) then Err("AmountOutOfRange")
      else ToMinorUnits(Written(text), scale)
  }

  // ---- what rounding to minor units means ----

  lemma KeptMagnitude(integer: string, kept: string)
    requires AllDigits(integer) && AllDigits(kept)
    ensures Value((if integer == "" then "0" else integer) + kept) == Value(integer + kept)
  {
    if integer == "" {
      ValueConcat("0", kept);
      ValueZeros(1);
      assert Zeros(1) == "0" && integer + kept == kept;
    }
  }

  lemma PadShort(fraction: string, scale: nat, padded: string, rest: nat)
    requires |fraction| <= scale && padded == PadEnd(fraction, scale + 1) && rest == scale - |fraction|
    ensures |padded| == scale + 1 && padded[scale] == '0' && padded[..scale] == fraction + Zeros(rest)
  {
  }

  lemma AppendZeros(integer: string, fraction: string, zeros: string, rest: nat)
    requires AllDigits(integer) && AllDigits(fraction) && zeros == Zeros(rest)
    ensures AllDigits(fraction + zeros) && |zeros| == rest
    ensures Value(integer + (fraction + zeros)) == Value(integer + fraction) * Pow10(rest)
  {
    assert integer + (fraction + zeros) == (integer + fraction) + zeros;
    ValueConcat(integer + fraction, zeros);
    ValueZeros(rest);
  }

  /** What the digits kept and the first dropped one make. */
  lemma MagnitudeOf(integer: string, fraction: string, scale: nat, padded: string, kept: string)
    requires AllDigits(integer) && AllDigits(fraction) && padded == PadEnd(fraction, scale + 1)
    requires |padded| > scale && kept == padded[..scale] && AllDigits(kept)
    ensures MinorMagnitude(integer, fraction, scale) == Value(integer + kept) + if padded[scale] >= '5' then 1 else 0
  {
    KeptMagnitude(integer, kept);
  }

  /** When the scale keeps every digit the result is exact. */
  lemma ShortFraction(integer: string, fraction: string, scale: nat)
    requires AllDigits(integer) && AllDigits(fraction) && |fraction| <= scale
    ensures MinorMagnitude(integer, fraction, scale) == Value(integer + fraction) * Pow10(scale - |fraction|)
  {
    var padded, rest := PadEnd(fraction, scale + 1), scale - |fraction|;
    var zeros := Zeros(rest);
    PadShort(fraction, scale, padded, rest);
    AppendZeros(integer, fraction, zeros, rest);
    MagnitudeOf(integer, fraction, scale, padded, fraction + zeros);
  }

  /** The first dropped digit is five or more exactly when what is dropped is half a unit or more. */
  lemma DroppedHalf(dropped: string)
    requires AllDigits(dropped) && dropped != ""
    ensures dropped[0] >= '5' <==> 2 * Value(dropped) >= Pow10(|dropped|)
    ensures Value(dropped) < Pow10(|dropped|)
  {
    ValueHead(dropped);
    ValueBound(dropped[1..]);
    ValueBound(dropped);
    var d, p := DigitOf(dropped[0]), Pow10(|dropped| - 1);
    if d >= 5 {
      MulMonotone(5, d, p);
    } else {
      MulSucc(d, p);
      MulMonotone(d + 1, 5, p);
    }
  }

  lemma LongFraction(integer: string, fraction: string, scale: nat)
    requires AllDigits(integer) && AllDigits(fraction) && |fraction| > scale
    ensures Value(integer + fraction) ==
            Value(integer + fraction[..scale]) * Pow10(|fraction| - scale) + Value(fraction[scale..])
    ensures MinorMagnitude(integer, fraction, scale) ==
            Value(integer + fraction[..scale]) + if fraction[scale] >= '5' then 1 else 0
  {
    assert integer + fraction == (integer + fraction[..scale]) + fraction[scale..];
    ValueConcat(integer + fraction[..scale], fraction[scale..]);
    KeptMagnitude(integer, fraction[..scale]);
    PadEndValue(fraction, scale + 1);
  }

  /** A multiple of the unit plus a part of it, both scaled alike. */
  lemma ScaledParts(kept: nat, unit: nat, rest: nat, factor: nat, whole: nat)
    requires whole == factor * unit
    ensures (kept * unit + rest) * factor == kept * whole + rest * factor
  {
    Distribute(kept * unit, rest, factor);
    assert (kept * unit) * factor == kept * (unit * factor);
    assert unit * factor == factor * unit;
  }

  lemma KeptIsNearest(kept: nat, excess: nat, whole: nat, num: int)
    requires num == kept * whole + excess && 2 * excess < whole
    ensures IsRounded(num, whole, HalfUp, kept)
  {
  }

  lemma NextIsNearest(kept: nat, excess: nat, whole: nat, num: int, q: nat)
    requires num == kept * whole + excess && excess < whole <= 2 * excess
    requires q * whole == kept * whole + whole
    ensures IsRounded(num, whole, HalfUp, q)
  {
  }

  /** Half a unit or less, and either of them scaled. */
  lemma ScaledHalf(rest: nat, unit: nat, factor: nat, whole: nat, excess: nat)
    requires factor > 0 && whole == factor * unit && excess == rest * factor && rest < unit
    ensures excess < whole && (2 * rest >= unit <==> 2 * excess >= whole)
  {
    assert (2 * rest) * factor == 2 * excess;
    MulMonotone(rest + 1, unit, factor);
    MulSucc(rest, factor);
    if 2 * rest >= unit {
      MulMonotone(unit, 2 * rest, factor);
    } else {
      MulMonotone(2 * rest + 1, unit, factor);
      MulSucc(2 * rest, factor);
    }
  }

  lemma HalfUpRounds(kept: nat, rest: nat, unit: nat, factor: nat, whole: nat, num: int, q: nat)
    requires factor > 0 && whole == factor * unit
    requires num == kept * whole + rest * factor && rest < unit
    requires q == kept + if 2 * rest >= unit then 1 else 0
    ensures IsRounded(num, whole, HalfUp, q)
  {
    var excess := rest * factor;
    ScaledHalf(rest, unit, factor, whole, excess);
    if 2 * rest >= unit {
      MulSucc(kept, whole);
      NextIsNearest(kept, excess, whole, num, q);
    } else {
      KeptIsNearest(kept, excess, whole, num);
    }
  }

  /** The scaled numerator, the kept digits and the dropped ones. */
  lemma LongParts(integer: string, fraction: string, scale: nat)
    requires AllDigits(integer) && AllDigits(fraction) && |fraction| > scale
    ensures Value(integer + fraction) * Pow10(scale) ==
            Value(integer + fraction[..scale]) * Pow10(|fraction|) + Value(fraction[scale..]) * Pow10(scale)
    ensures Pow10(|fraction|) == Pow10(scale) * Pow10(|fraction| - scale)
  {
    Pow10Sum(scale, |fraction| - scale);
    LongFraction(integer, fraction, scale);
    ScaledParts(Value(integer + fraction[..scale]), Pow10(|fraction| - scale), Value(fraction[scale..]),
      Pow10(scale), Pow10(|fraction|));
  }

  /** A value whose digits the scale keeps, in units of the scale. */
  lemma ExactScaling(value: nat, gap: nat, whole: nat, factor: nat, minor: nat)
    requires whole > 0 && factor == gap * whole && minor == value * gap
    ensures minor * whole == value * factor
    ensures IsRounded(value * factor, whole, HalfUp, minor)
    ensures (value * factor) % whole == 0
  {
    assert minor * whole == value * (gap * whole);
    assert value * factor == whole * minor + 0;
    QuotientUnique(value * factor, whole, minor, 0);
  }

  lemma ShortScaling(integer: string, fraction: string, scale: nat)
    requires AllDigits(integer) && AllDigits(fraction) && |fraction| <= scale
    ensures var minor := MinorMagnitude(integer, fraction, scale);
            var num, whole := Value(integer + fraction) * Pow10(scale), Pow10(|fraction|);
            minor * whole == num && IsRounded(num, whole, HalfUp, minor) && num % whole == 0
  {
    ShortFraction(integer, fraction, scale);
    Pow10Sum(scale - |fraction|, |fraction|);
    ExactScaling(Value(integer + fraction), Pow10(scale - |fraction|), Pow10(|fraction|), Pow10(scale),
      MinorMagnitude(integer, fraction, scale));
  }

  /** A value of which the scale drops digits: its remainder, and when there is none. */
  lemma DroppedScaling(kept: nat, rest: nat, unit: nat, factor: nat, whole: nat, num: int)
    requires factor > 0 && whole == factor * unit && rest < unit
    requires num == kept * whole + rest * factor
    ensures num % whole == 0 <==> rest == 0
    ensures rest == 0 ==> kept * whole == num
  {
    ScaledRest(rest, unit, factor, whole);
    Commute(kept, whole);
    QuotientUnique(num, whole, kept, rest * factor);
  }

  lemma LongScaling(integer: string, fraction: string, scale: nat)
    requires AllDigits(integer) && AllDigits(fraction) && |fraction| > scale
    ensures var minor := MinorMagnitude(integer, fraction, scale);
            var num, whole := Value(integer + fraction) * Pow10(scale), Pow10(|fraction|);
            && IsRounded(num, whole, HalfUp, minor)
            && (num % whole == 0 <==> Value(fraction[scale..]) == 0)
            && (Value(fraction[scale..]) == 0 ==> minor * whole == num)
  {
    var kept, rest, unit := Value(integer + fraction[..scale]), Value(fraction[scale..]), Pow10(|fraction| - scale);
    var num := Value(integer + fraction) * Pow10(scale);
    LongFraction(integer, fraction, scale);
    LongParts(integer, fraction, scale);
    DroppedHalf(fraction[scale..]);
    HalfUpRounds(kept, rest, unit, Pow10(scale), Pow10(|fraction|), num, MinorMagnitude(integer, fraction, scale));
    DroppedScaling(kept, rest, unit, Pow10(scale), Pow10(|fraction|), num);
  }

  lemma MagnitudeRoundsDecimal(integer: string, fraction: string, scale: nat)
    requires AllDigits(integer) && AllDigits(fraction)
    ensures IsRounded(Value(integer + fraction) * Pow10(scale), Pow10(|fraction|), HalfUp,
                      MinorMagnitude(integer, fraction, scale))
  {
    if |fraction| <= scale {
      ShortScaling(integer, fraction, scale);
    } else {
      LongScaling(integer, fraction, scale);
    }
  }

  /**
   * A well-formed text becomes its value in minor units, rounded to the nearest with ties away from
   * zero: the rule that divisions of money follow.
   */
  lemma MinorUnitsAreNearest(text: string, scale: nat)
    requires WellFormed(text)
    ensures TextToMinor(text, scale).Ok?
    ensures DivideRounded(Numerator(text) * Pow10(scale), Pow10(Places(text)), HalfUp) == TextToMinor(text, scale)
  {
    var integer, fraction := IntegerPart(text), FractionPart(text);
    MagnitudeRoundsDecimal(integer, fraction, scale);
    SignedRounds(Negative(text), Value(integer + fraction), Pow10(scale), Pow10(Places(text)),
      MinorMagnitude(integer, fraction, scale));
  }

  lemma SignedRounds(negative: bool, value: nat, factor: nat, whole: nat, magnitude: nat)
    requires whole > 0 && IsRounded(value * factor, whole, HalfUp, magnitude)
    ensures DivideRounded(Signed(negative, value) * factor, whole, HalfUp) == Ok(Signed(negative, magnitude))
  {
    if negative {
      NegatedRounds(value * factor, whole, HalfUp, magnitude);
      NegatedProduct(value, factor);
    }
    DivideRoundedIff(Signed(negative, value) * factor, whole, HalfUp, Signed(negative, magnitude));
  }

  // ---- exact parsing ----

  /** The value of the text is a whole number of minor units. */
  predicate Representable(text: string, scale: nat)
    requires WellFormed(text)
  {
    (Abs(Numerator(text)) * Pow10(scale)) % Pow10(Places(text)) == 0
  }

  lemma {:induction false} ZeroValue(s: string)
    requires AllDigits(s)
    ensures Value(s) == 0 <==> forall i :: 0 <= i < |s| ==> !('1' <= s[i] <= '9')
    decreases |s|
  {
    if s != "" {
      ZeroValue(s[..|s| - 1]);
      assert s == s[..|s| - 1] + [s[|s| - 1]];
    }
  }

  lemma ZerosBeyond(fraction: string, scale: nat)
    requires AllDigits(fraction) && |fraction| > scale
    ensures OnlyZerosBeyond(fraction, scale) <==> Value(fraction[scale..]) == 0
  {
    ZeroValue(fraction[scale..]);
    forall i | scale <= i < |fraction|
      ensures fraction[i] == fraction[scale..][i - scale]
    {
    }
  }

  lemma RepresentableDigits(integer: string, fraction: string, scale: nat)
    requires AllDigits(integer) && AllDigits(fraction)
    ensures (Value(integer + fraction) * Pow10(scale)) % Pow10(|fraction|) == 0 <==> OnlyZerosBeyond(fraction, scale)
    ensures OnlyZerosBeyond(fraction, scale) ==>
      MinorMagnitude(integer, fraction, scale) * Pow10(|fraction|) == Value(integer + fraction) * Pow10(scale)
  {
    if |fraction| <= scale {
      ShortScaling(integer, fraction, scale);
    } else {
      LongScaling(integer, fraction, scale);
      ZerosBeyond(fraction, scale);
    }
  }

  lemma SignedProducts(negative: bool, a: nat, b: nat, p: nat, q: nat)
    requires a * p == b * q
    ensures Signed(negative, a) * p == Signed(negative, b) * q
  {
    NegatedProduct(a, p);
    NegatedProduct(b, q);
  }

  /** Exact parsing succeeds exactly when the value is a whole number of minor units, and returns that number. */
  lemma ExactParse(text: string, scale: int)
    ensures ParseDecimalExact(Written(text), scale).Ok? <==>
            ScaleOk(scale) && WellFormed(Trim(text)) && Representable(Trim(text), scale)
    ensures ParseDecimalExact(Written(text), scale).Ok? ==>
            ParseDecimalExact(Written(text), scale).value * Pow10(Places(Trim(text))) ==
            Numerator(Trim(text)) * Pow10(scale)
  {
    TrimIdempotent(text);
    if ScaleOk(scale) && WellFormed(Trim(text)) {
      ExactParseTrimmed(Trim(text), scale);
    }
  }

  lemma ExactParseTrimmed(text: string, scale: nat)
    requires WellFormed(text)
    ensures OnlyZerosBeyond(FractionPart(text), scale) <==> Representable(text, scale)
    ensures Representable(text, scale) ==>
      TextToMinor(text, scale).value * Pow10(Places(text)) == Numerator(text) * Pow10(scale)
  {
    var integer, fraction := IntegerPart(text), FractionPart(text);
    RepresentableDigits(integer, fraction, scale);
    assert Abs(Numerator(text)) == Value(integer + fraction);
    if OnlyZerosBeyond(fraction, scale) {
      SignedProducts(Negative(text), MinorMagnitude(integer, fraction, scale), Value(integer + fraction),
        Pow10(|fraction|), Pow10(scale));
    }
  }

  lemma TrimIdempotent(text: string)
    ensures Trim(Trim(text)) == Trim(text)
  {
    TrimStartClean(text);
    TrimEndClean(TrimStart(text));
  }

  lemma {:induction false} TrimStartClean(s: string)
    ensures TrimStart(s) == "" || !IsBlank(TrimStart(s)[0])
    decreases |s|
  {
    if s != "" && IsBlank(s[0]) {
      TrimStartClean(s[1..]);
    }
  }

  lemma {:induction false} TrimEndClean(s: string)
    ensures TrimEnd(s) == "" || (!IsBlank(TrimEnd(s)[|TrimEnd(s)| - 1]) && TrimEnd(s)[0] == s[0])
    decreases |s|
  {
    if s != "" && IsBlank(s[|s| - 1]) {
      TrimEndClean(s[..|s| - 1]);
    }
  }

  // ---- printing and reading back ----

  lemma {:induction false} PointAfterDigits(integer: string, rest: string)
    requires AllDigits(integer) && (rest == "" || rest[0] == '.')
    ensures PointAt(integer + rest) == |integer|
    decreases |integer|
  {
    if integer == "" {
      assert integer + rest == rest;
    } else {
      assert (integer + rest)[1..] == integer[1..] + rest;
      PointAfterDigits(integer[1..], rest);
    }
  }

  lemma PrintedTrim(sign: string, integer: string, tail: string)
    requires sign == "" || sign == "-"
    requires AllDigits(integer) && integer != ""
    requires tail == "" || IsDigit(tail[|tail| - 1])
    ensures Trim(sign + integer + tail) == sign + integer + tail
  {
    var text := sign + integer + tail;
    assert sign == "" ==> text[0] == integer[0];
    assert text[|text| - 1] == if tail == "" then integer[|integer| - 1] else tail[|tail| - 1];
    TrimKeeps(text);
  }

  lemma SignOf(sign: string, u: string, text: string)
    requires sign == "" || sign == "-"
    requires text == sign + u && u != "" && IsDigit(u[0])
    ensures Unsigned(text) == u && Negative(text) == (sign == "-")
  {
    if sign == "" {
      assert text == u;
    } else {
      assert text[0] == '-' && text[1..] == u;
    }
  }

  lemma SplitAtPoint(u: string, integer: string, fraction: string, tail: string)
    requires AllDigits(integer) && u == integer + tail
    requires tail == if fraction == "" then "" else "." + fraction
    ensures PointAt(u) == |integer| && u[..|integer|] == integer
    ensures fraction == if |integer| < |u| then u[|integer| + 1..] else ""
  {
    PointAfterDigits(integer, tail);
  }

  /** The parts of a printed decimal are the ones it was printed from. */
  lemma PartsOf(sign: string, integer: string, fraction: string)
    requires sign == "" || sign == "-"
    requires AllDigits(integer) && AllDigits(fraction) && integer != ""
    ensures var text := sign + integer + if fraction == "" then "" else "." + fraction;
            && IntegerPart(text) == integer
            && FractionPart(text) == fraction
            && Negative(text) == (sign == "-")
            && WellFormed(text)
            && Trim(text) == text
  {
    var tail := if fraction == "" then "" else "." + fraction;
    var u := integer + tail;
    assert u[0] == integer[0] && sign + integer + tail == sign + u;
    SignOf(sign, u, sign + integer + tail);
    SplitAtPoint(u, integer, fraction, tail);
    PrintedTrim(sign, integer, tail);
  }

  /** The printed digits, split at the point. */
  lemma PrintedParts(minor: int, scale: nat)
    ensures var text := MinorToText(minor, scale);
            && WellFormed(text)
            && Trim(text) == text
            && Places(text) == scale
            && Negative(text) == (minor < 0)
            && IntegerPart(text) + FractionPart(text) == PadStart(Digits(Abs(minor)), scale + 1)
  {
    var digits := PadStart(Digits(Abs(minor)), scale + 1);
    PadStartValue(Digits(Abs(minor)), scale + 1);
    var integer, fraction := digits[..|digits| - scale], digits[|digits| - scale..];
    assert integer + fraction == digits;
    PartsOf(if minor < 0 then "-" else "", integer, fraction);
  }

  /** What is printed has exactly the scale's decimals, is worth the minor units, and reads back as them. */
  lemma PrintedReadsBack(minor: int, scale: nat)
    ensures var text := MinorToText(minor, scale);
            && WellFormed(text)
            && Trim(text) == text
            && Places(text) == scale
            && Numerator(text) == minor
            && TextToMinor(text, scale) == Ok(minor)
  {
    var text := MinorToText(minor, scale);
    PrintedParts(minor, scale);
    PadStartValue(Digits(Abs(minor)), scale + 1);
    ValueOfDigits(Abs(minor));
    ShortFraction(IntegerPart(text), FractionPart(text), scale);
  }

  /** Printing minor units and reading the text gives them back, by both readers. */
  lemma RoundTrip(minor: int, scale: int)
    requires ScaleOk(scale)
    ensures FromMinorUnits(minor, scale).Ok?
    ensures ToMinorUnits(Written(FromMinorUnits(minor, scale).value), scale) == Ok(minor)
    ensures ParseDecimalExact(Written(FromMinorUnits(minor, scale).value), scale) == Ok(minor)
  {
    PrintedReadsBack(minor, scale);
  }

  /** The canonical form is its own canonical form. */
  lemma NormalizeIdempotent(value: Input, scale: int)
    requires NormalizeAmount(value, scale).Ok?
    ensures NormalizeAmount(Written(NormalizeAmount(value, scale).value), scale) == NormalizeAmount(value, scale)
  {
    RoundTrip(ToMinorUnits(value, scale).value, scale);
  }

  lemma Commute(a: nat, b: nat)
    ensures a * b == b * a
  {
  }

  lemma ScaledRest(rest: nat, unit: nat, factor: nat, whole: nat)
    requires rest < unit && factor > 0 && whole == factor * unit
    ensures rest * factor < whole && (rest * factor == 0 <==> rest == 0)
  {
    MulSucc(rest, factor);
    MulMonotone(rest + 1, unit, factor);
    Commute(unit, factor);
    if rest > 0 {
      PositiveProduct(rest, factor);
    }
  }

  // ---- the pattern of amounts ----

  /** The text is a sign or none, digits, and after a point, if there is one, more digits; some digit is there. */
  predicate Spelt(text: string, sign: string, integer: string, fraction: string) {
    && (sign == "" || sign == "+" || sign == "-")
    && AllDigits(integer) && AllDigits(fraction) && integer + fraction != ""
    && (text == sign + integer + "." + fraction || (fraction == "" && text == sign + integer))
  }

  lemma UnsignedOf(sign: string, u: string, text: string)
    requires (sign == "" || sign == "+" || sign == "-") && text == sign + u
    requires u != "" && (u[0] == '.' || IsDigit(u[0]))
    ensures Unsigned(text) == u && Negative(text) == (sign == "-")
  {
    if sign == "" {
      assert text == u;
    } else {
      assert text[0] == sign[0] && text[1..] == u;
    }
  }

  lemma PartsOfUnsigned(text: string, u: string, integer: string, fraction: string, tail: string)
    requires Unsigned(text) == u && u == integer + tail && AllDigits(integer)
    requires tail == "." + fraction || (tail == "" && fraction == "")
    ensures IntegerPart(text) == integer && FractionPart(text) == fraction
  {
    PointAfterDigits(integer, tail);
    assert u[..|integer|] == integer;
    assert tail != "" ==> u[|integer| + 1..] == fraction;
  }

  lemma TailParts(text: string, sign: string, integer: string, fraction: string, tail: string)
    requires (sign == "" || sign == "+" || sign == "-") && AllDigits(integer) && integer + fraction != ""
    requires tail == "." + fraction || (tail == "" && fraction == "")
    requires text == sign + (integer + tail)
    ensures IntegerPart(text) == integer && FractionPart(text) == fraction && Negative(text) == (sign == "-")
  {
    var u := integer + tail;
    assert if integer == "" then u == tail && u[0] == '.' else u[0] == integer[0];
    UnsignedOf(sign, u, text);
    PartsOfUnsigned(text, u, integer, fraction, tail);
  }

  lemma SignFirst(sign: string, integer: string, tail: string)
    ensures sign + integer + tail == sign + (integer + tail)
  {
  }

  /** What a text in the pattern says. */
  lemma SpeltParts(text: string, sign: string, integer: string, fraction: string)
    requires Spelt(text, sign, integer, fraction)
    ensures IntegerPart(text) == integer && FractionPart(text) == fraction && WellFormed(text)
    ensures Places(text) == |fraction|
    ensures sign == "-" ==> Numerator(text) + Value(integer + fraction) == 0
    ensures sign != "-" ==> Numerator(text) == Value(integer + fraction)
  {
    var tail := if text == sign + integer + "." + fraction then "." + fraction else "";
    assert sign + integer + "." + fraction == sign + integer + ("." + fraction);
    assert sign + integer + "" == sign + integer;
    SignFirst(sign, integer, tail);
    TailParts(text, sign, integer, fraction, tail);
  }

  lemma WholeFromParts(u: string, k: nat)
    requires k <= |u| && (k < |u| ==> u[k] == '.')
    ensures u == u[..k] + if k < |u| then "." + u[k + 1..] else ""
  {
  }

  lemma SignThenParts(text: string, sign: string, u: string, k: nat)
    requires text == sign + u && k <= |u| && (k < |u| ==> u[k] == '.')
    ensures k < |u| ==> text == sign + u[..k] + "." + u[k + 1..]
    ensures k == |u| ==> text == sign + u[..k]
  {
    WholeFromParts(u, k);
  }

  lemma SpeltOfParts(text: string)
    requires WellFormed(text)
    ensures Spelt(text, if HasSign(text) then text[..1] else "", IntegerPart(text), FractionPart(text))
  {
    var sign := if HasSign(text) then text[..1] else "";
    var u := Unsigned(text);
    assert text == sign + u && (sign == "" || sign == "+" || sign == "-");
    SignThenParts(text, sign, u, PointAt(u));
  }

  /** The texts taken for amounts are exactly those of the pattern. */
  lemma AmountPattern(text: string)
    ensures WellFormed(text) <==> exists sign, integer, fraction :: Spelt(text, sign, integer, fraction)
  {
    if WellFormed(text) {
      SpeltOfParts(text);
    }
    if sign, integer, fraction :| Spelt(text, sign, integer, fraction) {
      SpeltParts(text, sign, integer, fraction);
    }
  }
}
