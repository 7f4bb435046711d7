/** The two ways an amount enters: the range-checked parser and the pattern of the public interface. */
module MoneyInput {
  import opened Arithmetic
  import opened Decimals
  import opened Money
  import opened Results
  import opened Rounding
  import opened Texts

  // ---- the range-checked parser ----

  /** Upper case of the letters that currency codes are made of; the long s is one of them. */
  function Upper(c: char): char {
    if 'a' <= c <= 'z' then (c as int - 32) as char else if c == '\U{017F}' then 'S' else c
  }

  function UpperText(s: string): string {
    seq(|s|, i requires 0 <= i < |s| => Upper(s[i]))
  }

  function CurrencyScale(currency: string): Result<int> {
    if UpperText(Trim(currency)) in {"BOB", "USD"} then Ok(2) else Err("UnsupportedCurrency")
  }

  datatype Options = Options(currency: string, allowNegative: bool, allowZero: bool, maxMinor: int)

  function ParseMoney(value: Input, options: Options): Result<int> {
    var scale := CurrencyScale(options.currency);
    if scale.Err? then Err(scale.error)
    else
      var minor := ParseDecimalExact(value, scale.value);
      if minor.Err? then minor
      else if minor.value < 0 && !options.allowNegative then Err("AmountOutOfRange")
      else if minor.value == 0 && !options.allowZero then Err("AmountOutOfRange")
      else if minor.value > options.maxMinor || -minor.value > options.maxMinor then Err("AmountOutOfRange")
      else minor
  }

  const POSITIVE := Options("BOB", false, false, NUMERIC_18_2_MAX_MINOR)

  lemma UpperLetter(c: char)
    ensures Upper(c) == 'B' <==> c == 'b' || c == 'B'
    ensures Upper(c) == 'O' <==> c == 'o' || c == 'O'
    ensures Upper(c) == 'U' <==> c == 'u' || c == 'U'
    ensures Upper(c) == 'S' <==> c == 's' || c == 'S' || c == '\U{017F}'
    ensures Upper(c) == 'D' <==> c == 'd' || c == 'D'
  {
  }

  predicate Spelled(t: string, first: set<char>, second: set<char>, third: set<char>) {
    |t| == 3 && t[0] in first && t[1] in second && t[2] in third
  }

  /** Two currencies are known, in any case and with white space around, and both have two decimals. */
  lemma CurrencyByLetters(currency: string)
    ensures var t := Trim(currency);
            var known := Spelled(t, {'b', 'B'}, {'o', 'O'}, {'b', 'B'}) ||
                         Spelled(t, {'u', 'U'}, {'s', 'S', '\U{017F}'}, {'d', 'D'});
            CurrencyScale(currency) == if known then Ok(2) else Err("UnsupportedCurrency")
  {
    var t := Trim(currency);
    if |t| == 3 {
      UpperLetter(t[0]);
      UpperLetter(t[1]);
      UpperLetter(t[2]);
      ThreeLetters(UpperText(t));
    }
  }

  lemma ThreeLetters(u: string)
    requires |u| == 3
    ensures u == "BOB" <==> u[0] == 'B' && u[1] == 'O' && u[2] == 'B'
    ensures u == "USD" <==> u[0] == 'U' && u[1] == 'S' && u[2] == 'D'
  {
  }

  /** An amount is accepted exactly if it is exact at two decimals, of an admitted sign and within the limit. */
  lemma MoneyByOptions(value: Input, options: Options, minor: int)
    ensures ParseMoney(value, options) == Ok(minor) <==>
            && CurrencyScale(options.currency) == Ok(2) && ParseDecimalExact(value, 2) == Ok(minor)
            && (minor < 0 ==> options.allowNegative) && (minor == 0 ==> options.allowZero)
            && -options.maxMinor <= minor <= options.maxMinor
  {
    CurrencyByLetters(options.currency);
  }

  /** What the parser assumes when nothing else is said. */
  const DEFAULTS := Options("BOB", false, true, NUMERIC_18_2_MAX_MINOR)

  /** By default amounts from zero to the largest of a column are accepted. */
  lemma DefaultsAccept(value: Input, minor: int)
    ensures ParseMoney(value, DEFAULTS) == Ok(minor) <==>
            ParseDecimalExact(value, 2) == Ok(minor) && 0 <= minor <= 999_999_999_999_999_999
  {
    KnownCurrency();
    MoneyByOptions(value, DEFAULTS, minor);
  }

  // ---- the pattern ----

  /** One to sixteen digits and, after a point, one to `scale` more. */
  predicate PlainAmount(text: string, scale: nat) {
    && !HasSign(text)
    && AllDigits(IntegerPart(text)) && 1 <= |IntegerPart(text)| <= MAX_INTEGER_DIGITS
    && (text != IntegerPart(text) ==> AllDigits(FractionPart(text)) && 1 <= |FractionPart(text)| <= scale)
  }

  predicate DigitsAround(text: string, k: nat)
    requires k < |text|
  {
    AllDigits(text[..k]) && AllDigits(text[k + 1..])
  }

  lemma DigitsPlain(text: string, scale: nat)
    requires AllDigits(text) && text != ""
    ensures PlainAmount(text, scale) <==> |text| <= 16
  {
    PointAfterDigits(text, "");
    assert text + "" == text && text[..|text|] == text;
    assert IsDigit(text[0]);
  }

  lemma PointedParts(text: string, k: nat)
    requires 0 < k < |text| && text[k] == '.' && AllDigits(text[..k])
    ensures !HasSign(text) && IntegerPart(text) == text[..k] && FractionPart(text) == text[k + 1..]
  {
    PointAfterDigits(text[..k], text[k..]);
    assert text == text[..k] + text[k..];
    assert text[..k][0] == text[0] && IsDigit(text[0]);
  }

  lemma UnsignedParts(text: string, k: nat)
    requires !HasSign(text) && k == PointAt(text)
    ensures IntegerPart(text) == text[..k] && (k < |text| ==> FractionPart(text) == text[k + 1..])
    ensures k == |text| ==> IntegerPart(text) == text
  {
  }

  lemma PlainPoint(text: string, scale: nat)
    requires PlainAmount(text, scale) && text != IntegerPart(text)
    ensures 1 <= PointAt(text) <= 16 && PointAt(text) + 1 < |text| <= PointAt(text) + 1 + scale
    ensures DigitsAround(text, PointAt(text))
  {
    UnsignedParts(text, PointAt(text));
  }

  /** Up to sixteen digits, alone or before a point and up to `scale` more digits. */
  lemma PlainByParts(text: string, scale: nat)
    ensures PlainAmount(text, scale) <==>
      || (AllDigits(text) && 1 <= |text| <= 16)
      || exists k :: 1 <= k <= 16 && k + 1 < |text| <= k + 1 + scale && text[k] == '.' && DigitsAround(text, k)
  {
    if PlainAmount(text, scale) && text != IntegerPart(text) {
      PlainPoint(text, scale);
    }
    if AllDigits(text) && text != "" {
      DigitsPlain(text, scale);
    }
    if k :| 1 <= k <= 16 && k + 1 < |text| <= k + 1 + scale && text[k] == '.' && DigitsAround(text, k) {
      PointedParts(text, k);
    }
  }

  predicate AllZeros(s: string) {
    forall i :: 0 <= i < |s| ==> s[i] == '0'
  }

  /** Only zeros, at least one on each side of the point if there is one. */
  predicate ZeroText(text: string) {
    && !HasSign(text)
    && IntegerPart(text) != "" && AllZeros(IntegerPart(text))
    && (text != IntegerPart(text) ==> FractionPart(text) != "" && AllZeros(FractionPart(text)))
  }

  /** The canonical text of an exact positive amount, or nothing; some scales throw. */
  function ParseExactPositiveAmount(value: string, scale: nat): Result<Option<string>> {
    if scale == 0 then Err("SyntaxError")
    else if !PlainAmount(Trim(value), scale) then Ok(None)
    else
      var normalized := NormalizeAmount(Written(Trim(value)), scale);
      if normalized.Err? then Err(normalized.error)
      else if ZeroText(normalized.value) then Ok(None)
      else Ok(Some(normalized.value))
  }

  // ---- how they relate ----

  lemma {:induction false} ZerosValue(s: string)
    requires AllDigits(s)
    ensures AllZeros(s) <==> Value(s) == 0
  {
    ZeroValue(s);
  }

  lemma ZeroTextIffZero(minor: int, scale: nat)
    ensures ZeroText(MinorToText(minor, scale)) <==> minor == 0
  {
    var text := MinorToText(minor, scale);
    PrintedParts(minor, scale);
    var digits := PadStart(Digits(Abs(minor)), scale + 1);
    PadStartValue(Digits(Abs(minor)), scale + 1);
    ValueOfDigits(Abs(minor));
    ZerosValue(digits);
    assert AllZeros(digits) <==> AllZeros(IntegerPart(text)) && AllZeros(FractionPart(text)) by {
      ZerosOfParts(IntegerPart(text), FractionPart(text));
    }
  }

  lemma ZerosOfParts(a: string, b: string)
    ensures AllZeros(a + b) <==> AllZeros(a) && AllZeros(b)
  {
    if AllZeros(a + b) {
      assert forall i :: 0 <= i < |a| ==> a[i] == (a + b)[i];
      assert forall i :: 0 <= i < |b| ==> b[i] == (a + b)[|a| + i];
    }
  }

  lemma FractionAfterInteger(text: string)
    requires !HasSign(text) && text == IntegerPart(text)
    ensures FractionPart(text) == ""
  {
  }

  lemma ScaledBound(digits: string, rest: nat, places: nat)
    requires AllDigits(digits) && |digits| + rest <= places
    ensures Value(digits) * Pow10(rest) < Pow10(places)
  {
    ValueConcat(digits, Zeros(rest));
    ValueZeros(rest);
    ValueBound(digits + Zeros(rest));
    Pow10Mono(|digits| + rest, places);
  }

  lemma ColumnLimit()
    ensures Pow10(18) == NUMERIC_18_2_MAX_MINOR + 1
  {
    Pow10Sum(9, 9);
    assert Pow10(9) == 1_000_000_000;
  }

  /** A text of the pattern is well formed and has no digit that the scale drops. */
  lemma PlainAmountParts(text: string, scale: nat)
    requires PlainAmount(text, scale)
    ensures WellFormed(text) && !Negative(text)
    ensures |FractionPart(text)| <= scale && OnlyZerosBeyond(FractionPart(text), scale)
    ensures TextToMinor(text, scale).Ok? && 0 <= TextToMinor(text, scale).value
  {
    if text == IntegerPart(text) {
      FractionAfterInteger(text);
    }
  }

  /** Sixteen integer digits and two decimals fit the column. */
  lemma PlainAmountInRange(text: string)
    requires PlainAmount(text, 2)
    ensures WellFormed(text) && TextToMinor(text, 2).Ok?
    ensures 0 <= TextToMinor(text, 2).value <= NUMERIC_18_2_MAX_MINOR
  {
    var integer, fraction := IntegerPart(text), FractionPart(text);
    PlainAmountParts(text, 2);
    ShortFraction(integer, fraction, 2);
    ScaledBound(integer + fraction, 2 - |fraction|, 18);
    ColumnLimit();
  }

  /**
   * The parser throws exactly at scale 0, where its pattern cannot be built, and above scale 12 on texts
   * of the pattern, which the printer then refuses.
   */
  lemma ThrowsExactly(value: string, scale: nat)
    ensures ParseExactPositiveAmount(value, scale).Err? <==>
            scale == 0 || (scale > MAX_SCALE && PlainAmount(Trim(value), scale))
  {
    TrimIdempotent(value);
    if PlainAmount(Trim(value), scale) {
      PlainAmountParts(Trim(value), scale);
    }
  }

  lemma TrimOne()
    ensures Trim("1") == "1"
  {
    TrimKeeps("1");
  }

  /** The two ways to throw. */
  lemma ThrowingScales()
    ensures ParseExactPositiveAmount("1", 0) == Err("SyntaxError")
    ensures ParseExactPositiveAmount("1", 13) == Err("RangeError")
  {
    TrimOne();
    assert IntegerPart("1") == "1";
  }

  /** At every other scale it answers what exact parsing does, in canonical form, if that is positive. */
  lemma ExactAtEveryScale(value: string, scale: nat)
    requires 1 <= scale <= MAX_SCALE
    ensures ParseExactPositiveAmount(value, scale) ==
            if !PlainAmount(Trim(value), scale) then Ok(None)
            else
              var minor := ParseDecimalExact(Written(value), scale);
              if minor.Err? || minor.value <= 0 then Ok(None) else Ok(Some(MinorToText(minor.value, scale)))
    ensures PlainAmount(Trim(value), scale) ==> ParseDecimalExact(Written(value), scale).Ok?
  {
    TrimIdempotent(value);
    if PlainAmount(Trim(value), scale) {
      PlainAmountParts(Trim(value), scale);
      ZeroTextIffZero(TextToMinor(Trim(value), scale).value, scale);
    }
  }

  /**
   * On a text of the pattern's shape with two decimals the public parser answers what the range-checked one
   * does, in canonical form; on any other it answers nothing.
   */
  lemma ParsersAgree(value: string)
    ensures ParseExactPositiveAmount(value, 2) ==
            if !PlainAmount(Trim(value), 2) then Ok(None)
            else
              var minor := ParseMoney(Written(value), POSITIVE);
              if minor.Err? then Ok(None) else Ok(Some(MinorToText(minor.value, 2)))
  {
    KnownCurrency();
    ExactAtEveryScale(value, 2);
    if PlainAmount(Trim(value), 2) {
      TrimIdempotent(value);
      PlainAmountInRange(Trim(value));
    }
  }

  lemma KnownCurrency()
    ensures CurrencyScale("BOB") == Ok(2)
  {
    assert Trim("BOB") == "BOB" by {
      TrimKeeps("BOB");
    }
    assert UpperText("BOB") == "BOB";
  }

  /** Every positive amount of the column, printed, is accepted by both parsers as it stands. */
  lemma CanonicalAccepted(minor: int)
    requires 1 <= minor <= NUMERIC_18_2_MAX_MINOR
    ensures ParseMoney(Written(MinorToText(minor, 2)), POSITIVE) == Ok(minor)
    ensures ParseExactPositiveAmount(MinorToText(minor, 2), 2) == Ok(Some(MinorToText(minor, 2)))
  {
    var text := MinorToText(minor, 2);
    KnownCurrency();
    RoundTrip(minor, 2);
    PrintedParts(minor, 2);
    PadStartValue(Digits(minor), 3);
    ColumnLimit();
    DigitsLength(minor, 18);
    ParsersAgree(text);
  }

  // ---- rates ----

  /** A percentage with up to six decimals, in millionths of a point. */
  function ParseRatePercent(value: Input): Result<int> {
    var units := ParseDecimalExact(value, 6);
    if units.Err? then units
    else if units.value < 0 || units.value > WHOLE_RATE then Err("AmountOutOfRange")
    else units
  }

  /** A rate that was accepted never charges more than a non-negative amount, nor less than nothing. */
  lemma AcceptedRateWithinAmount(value: Input, amount: int, mode: Mode)
    requires amount >= 0 && ParseRatePercent(value).Ok?
    ensures 0 <= ApplyRatePercent(amount, ParseRatePercent(value).value, mode) <= amount
  {
    RateWithinAmount(amount, ParseRatePercent(value).value, mode);
  }

  lemma AbsProduct(n: int, k: nat)
    ensures Abs(n * k) == Abs(n) * k
  {
    NegatedProduct(n, k);
    if n >= 0 {
      ProductNonNegative(n, k);
    } else {
      ProductNonNegative(-n, k);
    }
  }

  lemma ScaledGap(num: int, den: nat, k: nat, q: int)
    ensures q * (den * k) == (q * den) * k
    ensures num * k - q * (den * k) == (num - q * den) * k
  {
    Distribute(num - q * den, q * den, k);
  }

  lemma CompareAbs(a: int, b: int, k: nat)
    requires k > 0
    ensures Abs(b * k) > Abs(a * k) <==> Abs(b) > Abs(a)
  {
    AbsProduct(a, k);
    AbsProduct(b, k);
    CompareScaled(Abs(a), Abs(b), k);
  }

  lemma TwiceScaled(gap: int, den: nat, k: nat)
    requires k > 0
    ensures 2 * Abs(gap * k) <= den * k <==> 2 * Abs(gap) <= den
    ensures 2 * Abs(gap * k) == den * k <==> 2 * Abs(gap) == den
  {
    var twice := 2 * Abs(gap);
    AbsProduct(gap, k);
    assert twice * k == 2 * (Abs(gap) * k);
    CompareScaled(twice, den, k);
  }

  /** The conditions on a rounded quotient, all of their sides multiplied by k. */
  lemma ScaledConditions(gap: int, num: int, product: int, den: nat, k: nat)
    requires k > 0
    ensures 2 * Abs(gap * k) <= den * k <==> 2 * Abs(gap) <= den
    ensures 2 * Abs(gap * k) == den * k <==> 2 * Abs(gap) == den
    ensures Abs(product * k) > Abs(num * k) <==> Abs(product) > Abs(num)
  {
    TwiceScaled(gap, den, k);
    CompareAbs(num, product, k);
  }

  /** Numerator and denominator may be multiplied alike. */
  lemma RoundedScaled(num: int, den: nat, k: nat, mode: Mode, q: int, n: int, d: nat)
    requires den > 0 && k > 0 && n == num * k && d == den * k
    ensures IsRounded(n, d, mode, q) <==> IsRounded(num, den, mode, q)
  {
    ScaledGap(num, den, k, q);
    ScaledConditions(num - q * den, num, q * den, den, k);
  }

  lemma CompareScaled(a: nat, b: nat, k: nat)
    requires k > 0
    ensures a <= b <==> a * k <= b * k
    ensures a < b <==> a * k < b * k
    ensures a == b <==> a * k == b * k
  {
    if a <= b {
      MulMonotone(a, b, k);
    }
    if a < b {
      ProductGap(a, b, k);
    }
    if b < a {
      ProductGap(b, a, k);
    }
  }

  const MILLION: nat := 1_000_000

  lemma SixDecimals()
    ensures Pow10(6) == MILLION && WHOLE_RATE == 100 * MILLION
  {
    assert Pow10(3) == 1000;
    Pow10Sum(3, 3);
  }

  /** What a rate of r units charges is what its fraction of one hundred does. */
  lemma UnitsCharge(amount: int, r: int, numerator: int, power: nat, mode: Mode)
    requires power > 0 && r * power == numerator * MILLION && WHOLE_RATE == 100 * MILLION
    ensures DivideRounded(amount * numerator, 100 * power, mode) == Ok(ApplyRatePercent(amount, r, mode))
  {
    var q := ApplyRatePercent(amount, r, mode);
    QuotientRounds(amount * r, WHOLE_RATE, mode);
    AmountOfRate(amount, r, numerator, power, MILLION);
    assert WHOLE_RATE * power == (100 * power) * MILLION;
    RoundedScaled(amount * r, WHOLE_RATE, power, mode, q, (amount * r) * power, WHOLE_RATE * power);
    RoundedScaled(amount * numerator, 100 * power, MILLION, mode, q,
      (amount * numerator) * MILLION, WHOLE_RATE * power);
    DivideRoundedIff(amount * numerator, 100 * power, mode, q);
  }

  lemma AmountOfRate(amount: int, r: int, numerator: int, power: nat, million: nat)
    requires r * power == numerator * million
    ensures (amount * r) * power == (amount * numerator) * million
  {
    assert (amount * r) * power == amount * (r * power);
    assert (amount * numerator) * million == amount * (numerator * million);
  }

  /** An accepted text charges its percentage of the amount, rounded once. */
  lemma RateTextCharges(text: string, r: int, amount: int, mode: Mode)
    requires ParseRatePercent(Written(text)) == Ok(r)
    ensures WellFormed(Trim(text))
    ensures DivideRounded(amount * Numerator(Trim(text)), 100 * Pow10(Places(Trim(text))), mode) ==
            Ok(ApplyRatePercent(amount, r, mode))
  {
    ExactParse(text, 6);
    SixDecimals();
    UnitsCharge(amount, r, Numerator(Trim(text)), Pow10(Places(Trim(text))), mode);
  }

  lemma UnitsInRange(r: int, numerator: int, power: nat)
    requires power > 0 && r * power == numerator * MILLION && WHOLE_RATE == 100 * MILLION
    ensures 0 <= r <= WHOLE_RATE <==> 0 <= numerator <= 100 * power
  {
    assert WHOLE_RATE * power == (100 * power) * MILLION;
    SameOrder(0, r, power);
    SameOrder(r, WHOLE_RATE, power);
    SameOrder(0, numerator, MILLION);
    SameOrder(numerator, 100 * power, MILLION);
  }

  lemma SameOrder(a: int, b: int, k: nat)
    requires k > 0
    ensures a <= b <==> a * k <= b * k
  {
    if a <= b {
      MulMonotoneInt(a, b, k);
    } else {
      ProductGap(b, a, k);
    }
  }

  /** Accepted are the texts of numbers from 0 to 100 that have at most six decimals. */
  lemma RateAccepted(text: string)
    ensures ParseRatePercent(Written(text)).Ok? <==>
            && WellFormed(Trim(text)) && Representable(Trim(text), 6)
            && 0 <= Numerator(Trim(text)) <= 100 * Pow10(Places(Trim(text)))
  {
    ExactParse(text, 6);
    SixDecimals();
    var units := ParseDecimalExact(Written(text), 6);
    if units.Ok? {
      UnitsInRange(units.value, Numerator(Trim(text)), Pow10(Places(Trim(text))));
    }
  }

  lemma IntegerParts(sign: string, digits: string, text: string)
    requires (sign == "" || sign == "-") && AllDigits(digits) && digits != "" && text == sign + digits
    ensures IntegerPart(text) == digits && FractionPart(text) == "" && Negative(text) == (sign == "-")
  {
    PartsOf(sign, digits, "");
    assert sign + digits + "" == text;
  }

  lemma PlainMagnitude(digits: string, scale: nat)
    requires AllDigits(digits)
    ensures MinorMagnitude(digits, "", scale) == Value(digits) * Pow10(scale)
  {
    assert digits + "" == digits;
    ShortFraction(digits, "", scale);
  }

  lemma PlainInteger(sign: string, digits: string, text: string, scale: nat)
    requires (sign == "" || sign == "-") && AllDigits(digits) && digits != "" && text == sign + digits
    ensures TextToMinor(text, scale) == Ok(Signed(sign == "-", Value(digits) * Pow10(scale)))
  {
    IntegerParts(sign, digits, text);
    PlainMagnitude(digits, scale);
  }

  lemma SignedUnits(n: int, factor: nat)
    ensures Signed(n < 0, Abs(n) * factor) == n * factor
  {
    NegatedProduct(Abs(n), factor);
  }

  lemma IntegerUnits(n: int, scale: nat)
    ensures TextToMinor(IntegerText(n), scale) == Ok(n * Pow10(scale))
  {
    var sign := if n < 0 then "-" else "";
    ValueOfDigits(Abs(n));
    PlainInteger(sign, Digits(Abs(n)), IntegerText(n), scale);
    SignedUnits(n, Pow10(scale));
  }

  /** An integer is that many whole units. */
  lemma WholeUnits(n: int, scale: int)
    requires ScaleOk(scale)
    ensures ToMinorUnits(Whole(n), scale) == Ok(n * Pow10(scale))
  {
    IntegerUnits(n, scale);
  }

  /** A column's amount: nothing and blank texts are zero, integers whole units, other texts rounded to the nearest. */
  lemma ToMinorUnitsByInput(value: Input, scale: int)
    ensures !(0 <= scale <= 12) ==> ToMinorUnits(value, scale) == Err("RangeError")
    ensures 0 <= scale <= 12 ==>
      match value
      case Missing => ToMinorUnits(value, scale) == Ok(0)
      case Whole(n) => ToMinorUnits(value, scale) == Ok(n * Pow10(scale))
      case Written(text) =>
        if Trim(text) == "" then ToMinorUnits(value, scale) == Ok(0)
        else if !WellFormed(Trim(text)) then ToMinorUnits(value, scale) == Err("InvalidDecimalAmount")
        else ToMinorUnits(value, scale) ==
             DivideRounded(Numerator(Trim(text)) * Pow10(scale), Pow10(Places(Trim(text))), HalfUp)
  {
    if 0 <= scale <= 12 {
      match value {
        case Missing =>
        case Whole(n) => WholeUnits(n, scale);
        case Written(text) =>
          if Trim(text) != "" && WellFormed(Trim(text)) {
            MinorUnitsAreNearest(Trim(text), scale);
          }
      }
    }
  }

  lemma IntegerTextParts(n: int)
    ensures WellFormed(IntegerText(n)) && FractionPart(IntegerText(n)) == "" && Trim(IntegerText(n)) == IntegerText(n)
  {
    var sign, digits := if n < 0 then "-" else "", Digits(Abs(n));
    PartsOf(sign, digits, "");
    assert sign + digits + "" == IntegerText(n);
  }

  lemma ExactWhole(n: int, text: string, scale: int)
    requires text == IntegerText(n) && 0 <= scale <= 12
    requires WellFormed(text) && FractionPart(text) == "" && Trim(text) == text && text != ""
    ensures ParseDecimalExact(Whole(n), scale) == TextToMinor(text, scale)
  {
  }

  /** Exact parsing of what is not a text: nothing is refused, an integer is whole units. */
  lemma ExactByInput(n: int, scale: int)
    ensures ParseDecimalExact(Missing, scale).Err?
    ensures 0 <= scale <= 12 ==> ParseDecimalExact(Whole(n), scale) == Ok(n * Pow10(scale))
  {
    if 0 <= scale <= 12 {
      IntegerTextParts(n);
      ExactWhole(n, IntegerText(n), scale);
      IntegerUnits(n, scale);
    }
  }

  /** Exact parsing refuses a scale, what is not a number, or a number with too many decimals. */
  lemma ExactRefusedAs(text: string, scale: int)
    ensures ParseDecimalExact(Missing, scale) ==
      Err(if 0 <= scale <= 12 then "InvalidDecimalAmount" else "RangeError")
    ensures ParseDecimalExact(Written(text), scale).Err? ==>
      ParseDecimalExact(Written(text), scale).error ==
        if !(0 <= scale <= 12) then "RangeError"
        else if !WellFormed(Trim(text)) then "InvalidDecimalAmount" else "AmountOutOfRange"
  {
    TrimIdempotent(text);
  }

  /** What is not a number is refused as such, and a number that is not admitted as out of range. */
  lemma RefusedAs(text: string, options: Options)
    ensures ParseMoney(Written(text), options).Err? ==>
      ParseMoney(Written(text), options).error ==
        if CurrencyScale(options.currency) != Ok(2) then "UnsupportedCurrency"
        else if !WellFormed(Trim(text)) then "InvalidDecimalAmount" else "AmountOutOfRange"
    ensures ParseRatePercent(Written(text)).Err? ==>
      ParseRatePercent(Written(text)).error ==
        if !WellFormed(Trim(text)) then "InvalidDecimalAmount" else "AmountOutOfRange"
  {
    CurrencyByLetters(options.currency);
    ExactRefusedAs(text, 2);
    ExactRefusedAs(text, 6);
    ExactParse(text, 2);
    ExactParse(text, 6);
  }
}
