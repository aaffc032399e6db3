/** Exact decimal division and conversion of AMD amounts into display currencies. */
module FxConversion {
  import opened Arithmetic
  import opened Outcomes
  import opened Strings
  import opened Digits
  import opened Decimals
  import opened Monetary

  const BASE_CURRENCY_CODE := "AMD"

  /** BigInt division: the quotient is cut towards zero. */
  function TruncatedQuotient(n: int, d: int): int
    requires d > 0
  {
    if n >= 0 then n / d else -(-n / d)
  }

  function DivideRoundHalfUp(numerator: int, denominator: int): int
    requires denominator > 0
  {
    TruncatedQuotient(numerator * 2 + denominator, denominator * 2)
  }

  /** The integer ratio of `a / b` in units of the last of `outputScale` decimal places. */
  function Numerator(a: string, b: string, outputScale: nat): (n: int)
    requires IsDecimalText(a) && IsDecimalText(b)
    ensures ScaledUnits(a) >= 0 ==> n >= 0
  {
    assert ScaledUnits(a) >= 0 ==> ScaledUnits(a) * Pow10(Scale(b)) >= 0;
    ScaledUnits(a) * Pow10(Scale(b)) * Pow10(outputScale)
  }

  function Denominator(a: string, b: string): (d: int)
    requires IsDecimalText(a) && IsDecimalText(b)
    ensures ScaledUnits(b) > 0 ==> d > 0
  {
    Pow10(Scale(a)) * ScaledUnits(b)
  }

  /** A quotient of decimal strings, written with exactly `outputScale` fraction digits. */
  function DivideDecimalStrings(dividend: string, divisor: string, outputScale: nat): Outcome<string> {
    var a, b := Trim(dividend), Trim(divisor);
    if !IsDecimalText(a) || !IsDecimalText(b) then Thrown
    else if ScaledUnits(b) <= 0 then Thrown
    else Returned(PointText(DivideRoundHalfUp(Numerator(a, b, outputScale), Denominator(a, b)), outputScale))
  }

  function NormalizeAmdPerUnit(rate: string, amount: string): Outcome<string> {
    DivideDecimalStrings(rate, amount, 8)
  }

  function ConvertAmdToDisplayCurrency(amd: Money, targetCurrency: string, targetPlaces: nat,
                                       amdPerUnit: string): Outcome<Money> {
    if amd.currency != BASE_CURRENCY_CODE then Thrown
    else if targetCurrency == BASE_CURRENCY_CODE then Returned(amd)
    else
      match DivideDecimalStrings(ToDecimalString(amd), amdPerUnit, targetPlaces)
      case Thrown => Thrown
      case Returned(converted) => FromDecimalString(converted, targetCurrency, targetPlaces)
  }

  // ---- Rounding ----

  /** The integer nearest to `x`, ties upwards. */
  ghost function Nearest(x: real): int {
    (x + 0.5).Floor
  }

  /** `x` in units of its last of `places` decimal places, rounded half up. */
  ghost function HalfUp(x: real, places: nat): int {
    Nearest(x * Pow10(places) as real)
  }

  /** Multiplying by a positive number keeps order. */
  lemma TimesKeepsOrder(x: real, y: real, d: real)
    requires d > 0.0
    ensures x < y <==> x * d < y * d
  {
    assert (y - x) * d == y * d - x * d;
  }

  lemma QuotientTimesDivisor(a: real, d: real)
    requires d > 0.0
    ensures a / d * d == a
  {
  }

  lemma FloorOfQuotient(n: int, d: int)
    requires d > 0
    ensures (n as real / d as real).Floor == n / d
  {
    var q, x := n / d, n as real / d as real;
    QuotientTimesDivisor(n as real, d as real);
    QuotientBounds(n, d);
    TimesKeepsOrder(x, q as real, d as real);
    TimesKeepsOrder(x, (q + 1) as real, d as real);
    assert q as real <= x < (q + 1) as real;
  }

  lemma QuotientBounds(n: int, d: int)
    requires d > 0
    ensures (n / d) as real * d as real <= n as real < (n / d + 1) as real * d as real
  {
    var q := n / d;
    assert n == q * d + n % d && (q + 1) * d == q * d + d;
    assert (q * d) as real == q as real * d as real && ((q + 1) * d) as real == (q + 1) as real * d as real;
  }

  /** Truncation differs from flooring only below zero, off the integers. */
  lemma TruncationVersusFloor(n: int, d: int)
    requires d > 0
    ensures TruncatedQuotient(n, d) == n / d <==> n >= 0 || n % d == 0
    ensures TruncatedQuotient(n, d) == n / d || TruncatedQuotient(n, d) == n / d + 1
  {
    if n < 0 {
      var q, r := n / d, n % d;
      assert n == q * d + r;
      assert q < 0;
      if r == 0 {
        QuotientOf(-n, d, -q, 0);
      } else {
        assert -n == (-q - 1) * d + (d - r);
        QuotientOf(-n, d, -q - 1, d - r);
      }
    }
  }

  lemma NearestOfRatio(numerator: int, denominator: int)
    requires denominator > 0
    ensures Nearest(numerator as real / denominator as real) == (numerator * 2 + denominator) / (denominator * 2)
  {
    var n, d := numerator as real, denominator as real;
    QuotientTimesDivisor(n, d);
    QuotientTimesDivisor(2.0 * n + d, 2.0 * d);
    SameQuotient(n / d + 0.5, (2.0 * n + d) / (2.0 * d), 2.0 * d);
    FloorOfQuotient(numerator * 2 + denominator, denominator * 2);
  }

  lemma SameQuotient(x: real, y: real, d: real)
    requires d > 0.0 && x * d == y * d
    ensures x == y
  {
    TimesKeepsOrder(x, y, d);
    TimesKeepsOrder(y, x, d);
  }

  /**
   * The rounding is half-up exactly when the shifted ratio is not negative, or is whole; that covers every price and
   * rate.
   */
  lemma RoundingIsHalfUp(numerator: int, denominator: int)
    requires denominator > 0
    ensures DivideRoundHalfUp(numerator, denominator) == Nearest(numerator as real / denominator as real)
       <==> numerator * 2 + denominator >= 0 || (numerator * 2 + denominator) % (denominator * 2) == 0
  {
    NearestOfRatio(numerator, denominator);
    TruncationVersusFloor(numerator * 2 + denominator, denominator * 2);
  }

  lemma OneDigitReads(negative: bool)
    ensures var s := if negative then "-1" else "1";
      Trim(s) == s && IsDecimalText(s) && Scale(s) == 0 && ScaledUnits(s) == if negative then -1 else 1
  {
    var parts := Parts(negative, "1", "");
    TextKeepsParts(parts);
    assert TextOf(parts) == if negative then "-1" else "1";
    assert "1" + "" == "1" && DropLast("1") == "";
    hide IsDecimalText, PartsOf, Trim;
  }

  lemma ZeroText()
    ensures PointText(0, 0) == "0"
  {
    assert PadStart(NatToString(0), 1) == "0";
  }

  /** A negative dividend is not rounded to nearest: -1 divided by 1 comes out as 0. */
  lemma NegativeDividendIsNotRounded()
    ensures DivideRoundHalfUp(-1, 1) == 0
    ensures DivideDecimalStrings("-1", "1", 0) == Returned("0")
  {
    hide IsDecimalText, Trim, Scale, ScaledUnits, PointText;
    OneDigitReads(true);
    OneDigitReads(false);
    ZeroText();
    NoDigits();
  }

  /** A usable rate or divisor: a positive decimal text. */
  predicate IsRate(text: string) {
    IsDecimalText(Trim(text)) && ScaledUnits(Trim(text)) > 0
  }

  predicate IsAmount(text: string) {
    IsDecimalText(Trim(text)) && ScaledUnits(Trim(text)) >= 0
  }

  ghost function NumberOf(text: string): real
    requires IsDecimalText(Trim(text))
  {
    Value(Trim(text))
  }

  lemma RateIsPositive(rate: string)
    requires IsRate(rate)
    ensures NumberOf(rate) > 0.0
  {
    hide IsDecimalText, ScaledUnits, Scale, Pow10;
    QuotientTimesDivisor(ScaledUnits(Trim(rate)) as real, Pow10(Scale(Trim(rate))) as real);
    TimesKeepsOrder(0.0, NumberOf(rate), Pow10(Scale(Trim(rate))) as real);
  }

  ghost function ExactQuotient(dividend: string, divisor: string): real
    requires IsDecimalText(Trim(dividend)) && IsRate(divisor)
  {
    RateIsPositive(divisor);
    NumberOf(dividend) / NumberOf(divisor)
  }

  /** The exact quotient, as the ratio of integers the code divides. */
  lemma ExactRatio(dividend: string, divisor: string, outputScale: nat)
    requires IsDecimalText(Trim(dividend)) && IsRate(divisor)
    ensures var a, b := Trim(dividend), Trim(divisor);
      ExactQuotient(dividend, divisor) * Pow10(outputScale) as real
      == Numerator(a, b, outputScale) as real / Denominator(a, b) as real
  {
    hide IsDecimalText, ScaledUnits, Scale, Pow10, Trim;
    var a, b := Trim(dividend), Trim(divisor);
    RatioOfFractions(ScaledUnits(a), Pow10(Scale(a)), ScaledUnits(b), Pow10(Scale(b)), Pow10(outputScale));
  }

  lemma RatioOfFractions(a: int, p: int, b: int, q: int, s: int)
    requires p > 0 && b > 0 && q > 0 && s > 0
    ensures p * b > 0 && b as real / q as real > 0.0
    ensures (a as real / p as real) / (b as real / q as real) * s as real == (a * q * s) as real / (p * b) as real
  {
    var A, P, B, Q, S := a as real, p as real, b as real, q as real, s as real;
    QuotientTimesDivisor(B, Q);
    TimesKeepsOrder(0.0, B / Q, Q);
    RealRatio(A, P, B, Q, S);
    assert (p * b) as real == P * B && (a * q * s) as real == A * Q * S;
  }

  lemma RealRatio(a: real, p: real, b: real, q: real, s: real)
    requires p > 0.0 && b > 0.0 && q > 0.0 && s > 0.0 && b / q > 0.0
    ensures p * b > 0.0 && a / p / (b / q) * s == a * q * s / (p * b)
  {
    var y, z := b / q, a / p / (b / q);
    QuotientTimesDivisor(b, q);
    QuotientTimesDivisor(a, p);
    QuotientTimesDivisor(a / p, y);
    assert z * (p * b) == a * q by {
      assert z * (p * b) == z * (p * (y * q)) == (z * y * p) * q;
    }
    QuotientTimesDivisor(a * q * s, p * b);
    assert z * s * (p * b) == z * (p * b) * s;
    SameQuotient(z * s, a * q * s / (p * b), p * b);
  }

  /**
   * For a dividend of any sign, division rounds half up exactly when the shifted ratio of integers is not negative, or
   * is whole.
   */
  lemma WhenDivisionIsHalfUp(dividend: string, divisor: string, outputScale: nat)
    requires IsDecimalText(Trim(dividend)) && IsRate(divisor)
    ensures var a, b := Trim(dividend), Trim(divisor);
      var n, d := Numerator(a, b, outputScale), Denominator(a, b);
      DivideDecimalStrings(dividend, divisor, outputScale)
      == Returned(PointText(HalfUp(ExactQuotient(dividend, divisor), outputScale), outputScale))
      <==> n * 2 + d >= 0 || (n * 2 + d) % (d * 2) == 0
  {
    hide IsDecimalText, ScaledUnits, Scale, Trim, PointText, ExactQuotient, DivideRoundHalfUp, PartsOf, IsCanonical,
      Numerator, Denominator;
    var a, b := Trim(dividend), Trim(divisor);
    var n, d := Numerator(a, b, outputScale), Denominator(a, b);
    ExactRatio(dividend, divisor, outputScale);
    RoundingIsHalfUp(n, d);
    SameTextSameUnits(DivideRoundHalfUp(n, d), HalfUp(ExactQuotient(dividend, divisor), outputScale), outputScale);
  }

  lemma SameTextSameUnits(x: int, y: int, places: nat)
    ensures PointText(x, places) == PointText(y, places) <==> x == y
  {
    hide IsDecimalText, ScaledUnits, Scale, Trim, PointText, PartsOf, IsCanonical;
    PointTextReads(x, places);
    PointTextReads(y, places);
  }

  /**
   * Division of a non-negative amount: exactly the half-up rounding of the exact quotient, in exactly `outputScale`
   * digits.
   */
  lemma DivisionIsExactlyRounded(dividend: string, divisor: string, outputScale: nat)
    requires IsAmount(dividend) && IsRate(divisor)
    ensures DivideDecimalStrings(dividend, divisor, outputScale)
         == Returned(PointText(HalfUp(ExactQuotient(dividend, divisor), outputScale), outputScale))
  {
    hide IsDecimalText, ScaledUnits, Trim, PointText, ExactQuotient, DivideDecimalStrings, HalfUp, Numerator,
      Denominator;
    WhenDivisionIsHalfUp(dividend, divisor, outputScale);
  }

  /** The quotient text has exactly the asked fraction digits and is at most half a unit of its last place off. */
  lemma DivisionErrorBound(dividend: string, divisor: string, outputScale: nat, result: string)
    requires IsAmount(dividend) && IsRate(divisor)
    requires DivideDecimalStrings(dividend, divisor, outputScale) == Returned(result)
    ensures IsDecimalText(result) && Scale(result) == outputScale
    ensures IsCanonical(PartsOf(result)) && !PartsOf(result).negative
    ensures var error, ulp := Value(result) - ExactQuotient(dividend, divisor), 1.0 / Pow10(outputScale) as real;
      -0.5 * ulp < error <= 0.5 * ulp
  {
    hide IsDecimalText, ScaledUnits, Scale, Trim, PointText, PartsOf, Pow10, DivideDecimalStrings, HalfUp,
      ExactQuotient;
    DivisionIsExactlyRounded(dividend, divisor, outputScale);
    var exact := ExactQuotient(dividend, divisor);
    var units := HalfUp(exact, outputScale);
    assert result == PointText(units, outputScale);
    PointTextReads(units, outputScale);
    ScaleDown(units, exact, outputScale);
    assert Value(result) == units as real / Pow10(outputScale) as real;
    QuotientIsNonNegative(dividend, divisor);
    HalfUpIsNonNegative(exact, outputScale);
  }

  /** A normalised rate is AMD per single unit, rounded half up to eight decimals. */
  lemma NormalizedRateIsPerUnit(rate: string, amount: string)
    requires IsAmount(rate) && IsRate(amount)
    ensures NormalizeAmdPerUnit(rate, amount) == Returned(PointText(HalfUp(ExactQuotient(rate, amount), 8), 8))
  {
    hide IsAmount, IsRate, ExactQuotient, HalfUp, DivideDecimalStrings;
    DivisionIsExactlyRounded(rate, amount, 8);
  }

  lemma QuotientIsNonNegative(dividend: string, divisor: string)
    requires IsAmount(dividend) && IsRate(divisor)
    ensures ExactQuotient(dividend, divisor) >= 0.0
  {
    hide IsDecimalText, ScaledUnits, Scale, Pow10;
    RateIsPositive(divisor);
    QuotientIsMonotone(0.0, ScaledUnits(Trim(dividend)) as real, Pow10(Scale(Trim(dividend))) as real);
    QuotientIsMonotone(0.0, NumberOf(dividend), NumberOf(divisor));
  }

  lemma HalfUpIsNonNegative(x: real, places: nat)
    requires x >= 0.0
    ensures HalfUp(x, places) >= 0
  {
    hide Pow10;
    assert x * Pow10(places) as real >= 0.0;
  }

  lemma ScaleDown(units: int, exact: real, places: nat)
    requires units == HalfUp(exact, places)
    ensures var power := Pow10(places) as real;
      -0.5 * (1.0 / power) < units as real / power - exact <= 0.5 * (1.0 / power)
  {
    hide Pow10;
    var p := Pow10(places) as real;
    var error, ulp := units as real / p - exact, 1.0 / p;
    QuotientTimesDivisor(units as real, p);
    QuotientTimesDivisor(1.0, p);
    assert error * p == units as real - exact * p;
    assert (0.5 * ulp) * p == 0.5 && (-0.5 * ulp) * p == -0.5;
    TimesKeepsOrder(-0.5 * ulp, error, p);
    TimesKeepsOrder(0.5 * ulp, error, p);
  }

  // ---- Conversion ----

  /** The amount in the target currency before any rounding: AMD divided by the AMD price of one unit. */
  ghost function ExactConversion(amd: Money, amdPerUnit: string): real
    requires IsRate(amdPerUnit)
  {
    RateIsPositive(amdPerUnit);
    amd.minorUnits as real / Pow10(amd.decimalPlaces) as real / NumberOf(amdPerUnit)
  }

  /** An AMD amount, another named currency and a usable rate. */
  predicate IsConversion(amd: Money, targetCurrency: string, amdPerUnit: string) {
    && amd.currency == BASE_CURRENCY_CODE && amd.minorUnits >= 0
    && targetCurrency != BASE_CURRENCY_CODE && Trim(targetCurrency) != "" && IsRate(amdPerUnit)
  }

  /** Conversion of a non-negative amount is one half-up rounding; re-reading the quotient text loses nothing more. */
  lemma ConversionRoundsOnce(amd: Money, targetCurrency: string, targetPlaces: nat, amdPerUnit: string)
    requires IsConversion(amd, targetCurrency, amdPerUnit)
    ensures ConvertAmdToDisplayCurrency(amd, targetCurrency, targetPlaces, amdPerUnit)
         == Returned(Money(HalfUp(ExactConversion(amd, amdPerUnit), targetPlaces), Upper(targetCurrency), targetPlaces))
  {
    hide IsDecimalText, ScaledUnits, Scale, Trim, PointText, PartsOf, Pow10, DivideDecimalStrings, FromDecimalString,
      Upper, HalfUp, Value;
    var text := ToDecimalString(amd);
    PointTextReads(amd.minorUnits, amd.decimalPlaces);
    TextNamesAmount(amd);
    DivisionIsExactlyRounded(text, amdPerUnit, targetPlaces);
    assert ExactQuotient(text, amdPerUnit) == ExactConversion(amd, amdPerUnit);
    hide ExactConversion, ExactQuotient;
    var units := HalfUp(ExactConversion(amd, amdPerUnit), targetPlaces);
    PointTextReads(units, targetPlaces);
    ShortFractionIsExact(PointText(units, targetPlaces), targetCurrency, targetPlaces);
    NoDigits();
  }

  /** The converted amount is within half a target minor unit of the exact one. */
  lemma ConversionErrorBound(amd: Money, targetCurrency: string, targetPlaces: nat, amdPerUnit: string)
    requires IsConversion(amd, targetCurrency, amdPerUnit)
    ensures var converted := ConvertAmdToDisplayCurrency(amd, targetCurrency, targetPlaces, amdPerUnit);
      converted.Returned?
      && var exact := ExactConversion(amd, amdPerUnit) * Pow10(targetPlaces) as real;
      -0.5 < converted.value.minorUnits as real - exact <= 0.5
  {
    hide ConvertAmdToDisplayCurrency, ExactConversion, IsRate, Trim, Upper, Pow10;
    ConversionRoundsOnce(amd, targetCurrency, targetPlaces, amdPerUnit);
  }

  /** A larger amount never converts to less. */
  lemma ConversionIsMonotone(small: Money, large: Money, targetCurrency: string, targetPlaces: nat, amdPerUnit: string)
    requires IsConversion(small, targetCurrency, amdPerUnit) && IsConversion(large, targetCurrency, amdPerUnit)
    requires small.decimalPlaces == large.decimalPlaces && small.minorUnits <= large.minorUnits
    ensures var less := ConvertAmdToDisplayCurrency(small, targetCurrency, targetPlaces, amdPerUnit);
      var more := ConvertAmdToDisplayCurrency(large, targetCurrency, targetPlaces, amdPerUnit);
      less.Returned? && more.Returned? && less.value.minorUnits <= more.value.minorUnits
  {
    hide ConvertAmdToDisplayCurrency, IsRate, Trim, Upper, Pow10, NumberOf;
    ConversionRoundsOnce(small, targetCurrency, targetPlaces, amdPerUnit);
    ConversionRoundsOnce(large, targetCurrency, targetPlaces, amdPerUnit);
    RateIsPositive(amdPerUnit);
    var power := Pow10(small.decimalPlaces) as real;
    QuotientIsMonotone(small.minorUnits as real, large.minorUnits as real, power);
    var x, y := ExactConversion(small, amdPerUnit), ExactConversion(large, amdPerUnit);
    assert x <= y by {
      RateNames(amdPerUnit);
      QuotientIsMonotone(small.minorUnits as real / power, large.minorUnits as real / power, NumberOf(amdPerUnit));
    }
    hide ExactConversion;
    TimesKeepsOrder(y, x, Pow10(targetPlaces) as real);
  }

  lemma RateNames(rate: string)
    requires IsRate(rate)
    ensures IsDecimalText(Trim(rate))
  {
  }

  lemma QuotientIsMonotone(a: real, b: real, d: real)
    requires a <= b && d > 0.0
    ensures a / d <= b / d
  {
    QuotientTimesDivisor(a, d);
    QuotientTimesDivisor(b, d);
    TimesKeepsOrder(b / d, a / d, d);
  }

  /**
   * AMD converts to itself whatever the rate, and only AMD amounts with a usable rate and a target currency convert.
   */
  lemma WhenConversionSucceeds(amd: Money, targetCurrency: string, targetPlaces: nat, amdPerUnit: string)
    ensures ConvertAmdToDisplayCurrency(amd, BASE_CURRENCY_CODE, targetPlaces, amdPerUnit)
         == if amd.currency == BASE_CURRENCY_CODE then Returned(amd) else Thrown
    ensures ConvertAmdToDisplayCurrency(amd, targetCurrency, targetPlaces, amdPerUnit).Returned?
       <==> && amd.currency == BASE_CURRENCY_CODE
            && (targetCurrency == BASE_CURRENCY_CODE || (IsRate(amdPerUnit) && Trim(targetCurrency) != ""))
  {
    hide IsDecimalText, ScaledUnits, Scale, Trim, PointText, PartsOf, Pow10, Upper, DivideRoundHalfUp;
    PointTextReads(amd.minorUnits, amd.decimalPlaces);
    if IsRate(amdPerUnit) {
      var a, b := ToDecimalString(amd), Trim(amdPerUnit);
      PointTextReads(DivideRoundHalfUp(Numerator(a, b, targetPlaces), Denominator(a, b)), targetPlaces);
    }
  }
}
