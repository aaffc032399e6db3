/** The accepted quote must equal the price computed now, exactly. */
module BookingQuote {
  import opened Outcomes
  import opened Strings
  import opened Digits
  import opened Decimals
  import opened Monetary
  import opened Arithmetic

  /** `/^(0|[1-9]\d{0,9})\.\d{2}$/` */
  predicate IsExpectedAmount(s: string) {
    && |s| >= 4
    && var whole, cents := s[..|s| - 3], s[|s| - 2..];
    && s[|s| - 3] == '.'
    && AllDigits(whole) && AllDigits(cents)
    && (whole == "0" || (whole[0] != '0' && |whole| <= 10))
  }

  function QuoteItemTotal(unitPrice: Money, quantity: int): Money {
    Multiply(unitPrice, quantity)
  }

  /** The unit price added to zero `quantity` times. */
  function RepeatedAddition(unitPrice: Money, quantity: nat): Outcome<Money> {
    if quantity == 0 then MakeMoney(0, unitPrice.currency, unitPrice.decimalPlaces)
    else
      match RepeatedAddition(unitPrice, quantity - 1)
      case Thrown => Thrown
      case Returned(sum) => Add(sum, unitPrice)
  }

  /** An item's total is its unit price added once per held unit. */
  lemma {:induction false} ItemTotalIsRepeatedAddition(unitPrice: Money, quantity: nat)
    requires IsMoney(unitPrice)
    ensures RepeatedAddition(unitPrice, quantity) == Returned(QuoteItemTotal(unitPrice, quantity))
  {
    if quantity > 0 {
      ItemTotalIsRepeatedAddition(unitPrice, quantity - 1);
      assert unitPrice.minorUnits * quantity == unitPrice.minorUnits * (quantity - 1) + unitPrice.minorUnits;
    }
  }

  function IsAcceptedQuoteCurrent(expectedTotalAmount: string, expectedCurrency: string,
                                  currentTotal: Money): Outcome<bool> {
    match FromDecimalString(expectedTotalAmount, expectedCurrency, 2)
    case Thrown => Thrown
    case Returned(expected) => Returned(Equals(expected, currentTotal))
  }

  const AMOUNT_LIMIT := 1_000_000_000_000 // minor units of DECIMAL(12,2)

  lemma ExpectedAmountParts(s: string)
    requires IsExpectedAmount(s)
    ensures Trim(s) == s && IsDecimalText(s) && !PartsOf(s).negative
    ensures IsCanonical(PartsOf(s)) && Scale(s) == 2 && 0 <= ScaledUnits(s) < AMOUNT_LIMIT
  {
    hide PartsOf, IsDecimalText, Trim, ToNat, Pow10;
    var whole, cents := s[..|s| - 3], s[|s| - 2..];
    assert s == TextOf(Parts(false, whole, cents)) by { assert s == whole + "." + cents; }
    TextKeepsParts(Parts(false, whole, cents));
    ToNatBound(whole + cents);
    Pow10Ascends(|whole + cents|, 12);
    TwelveDigits();
  }

  lemma TwelveDigits()
    ensures Pow10(12) == AMOUNT_LIMIT
  {
    assert Pow10(4) == 10_000;
    assert Pow10(8) == 100_000_000;
  }

  /** The pattern accepts exactly the texts `toDecimalString` gives two-decimal totals below the column limit. */
  lemma ExpectedAmountsAreWrittenTotals(s: string)
    ensures IsExpectedAmount(s) <==> exists units: nat | units < AMOUNT_LIMIT :: s == PointText(units, 2)
  {
    if IsExpectedAmount(s) {
      ExpectedAmountParts(s);
      PointTextReads(ScaledUnits(s), 2);
      CanonicalTextIsUnique(s, PointText(ScaledUnits(s), 2));
    }
    if exists units: nat | units < AMOUNT_LIMIT :: s == PointText(units, 2) {
      var units: nat :| units < AMOUNT_LIMIT && s == PointText(units, 2);
      WrittenTotalIsExpected(units);
    }
  }

  lemma WrittenTotalIsExpected(units: nat)
    requires units < AMOUNT_LIMIT
    ensures IsExpectedAmount(PointText(units, 2))
  {
    hide PartsFor, ToNat, Pow10;
    PartsForNames(units, 2);
    var parts := PartsFor(units, 2);
    var s := PointText(units, 2);
    assert s == parts.whole + "." + parts.fraction;
    assert s[..|s| - 3] == parts.whole && s[|s| - 2..] == parts.fraction;
    if parts.whole[0] != '0' && |parts.whole| > 10 {
      LeadingDigitCounts(parts.whole + parts.fraction);
      Pow10Ascends(12, |parts.whole| + 1);
      TwelveDigits();
    }
  }

  /** For a canonical amount the quote is current exactly when it is the text of the current total, in its currency. */
  lemma QuoteIsCurrentIffSameText(expectedTotalAmount: string, expectedCurrency: string, currentTotal: Money)
    requires IsExpectedAmount(expectedTotalAmount) && Trim(expectedCurrency) != ""
    requires currentTotal.decimalPlaces == 2
    ensures IsAcceptedQuoteCurrent(expectedTotalAmount, expectedCurrency, currentTotal)
         == Returned(expectedTotalAmount == ToDecimalString(currentTotal)
                     && Upper(expectedCurrency) == currentTotal.currency)
  {
    hide IsDecimalText, PartsOf, Trim, Upper, PointText, Pow10;
    ExpectedAmountParts(expectedTotalAmount);
    ShortFractionIsExact(expectedTotalAmount, expectedCurrency, 2);
    NoDigits();
    PointTextReads(currentTotal.minorUnits, 2);
    if ScaledUnits(expectedTotalAmount) == currentTotal.minorUnits {
      CanonicalTextIsUnique(expectedTotalAmount, ToDecimalString(currentTotal));
    }
  }

  // ---- Amounts outside the pattern ----

  predicate OnlyZerosFrom(s: string, n: nat) {
    forall i :: n <= i < |s| ==> s[i] == '0'
  }

  lemma {:induction false} ZeroDigits(s: string)
    requires AllDigits(s)
    ensures ToNat(s) == 0 <==> OnlyZerosFrom(s, 0)
  {
    if s != "" {
      LastDigit(s);
      ZeroDigits(DropLast(s));
      hide ToNat, Pow10;
      assert s == DropLast(s) + [Last(s)];
      assert DigitOf(Last(s)) == 0 <==> s[|s| - 1] == '0';
    }
  }

  lemma SameFraction(units: int, cents: int, cut: nat)
    requires cut > 0
    ensures units as real / (cut * 100) as real == cents as real / 100.0 <==> units == cents * cut
  {
    var x, y, c := units as real / (cut * 100) as real, cents as real / 100.0, cut as real;
    assert (cut * 100) as real == c * 100.0;
    assert x * (c * 100.0) == units as real && y * 100.0 == cents as real;
    assert y * (c * 100.0) == (y * 100.0) * c == (cents * cut) as real;
    if units == cents * cut {
      assert (x - y) * (c * 100.0) == 0.0;
      assert x == y;
    }
  }

  /** The integer read from an amount with many decimals: exact when only zeros are cut off. */
  lemma CutLosesNothingIffZeros(amount: string)
    requires IsDecimalText(amount) && Scale(amount) >= 2
    ensures var units, cut := ScaledUnits(amount), Pow10(Scale(amount) - 2);
      units == (if units < 0 then -(-units / cut) else units / cut) * cut
      <==> OnlyZerosFrom(PartsOf(amount).fraction, 2)
  {
    hide IsDecimalText, PartsOf, ToNat, Pow10;
    var parts := PartsOf(amount);
    var kept, dropped := parts.fraction[..2], parts.fraction[2..];
    assert parts.whole + parts.fraction == (parts.whole + kept) + dropped by {
      assert parts.fraction == kept + dropped;
    }
    ToNatConcat(parts.whole + kept, dropped);
    ToNatBound(dropped);
    ZeroDigits(dropped);
    assert OnlyZerosFrom(dropped, 0) <==> OnlyZerosFrom(parts.fraction, 2) by {
      assert forall i :: 0 <= i < |dropped| ==> dropped[i] == parts.fraction[i + 2];
      assert forall i :: 2 <= i < |parts.fraction| ==> parts.fraction[i] == dropped[i - 2];
    }
    var q, r, cut := ToNat(parts.whole + kept), ToNat(dropped), Pow10(|dropped|);
    QuotientOf(q * cut + r, cut, q, r);
    QuotientOf(0, cut, 0, 0);
  }

  /** The money read from an amount has the amount's value exactly when every digit past the second decimal is zero. */
  lemma ReadingKeepsValueIffZeros(amount: string, currency: string) returns (read: Money)
    requires IsDecimalText(Trim(amount)) && Trim(currency) != ""
    ensures FromDecimalString(amount, currency, 2) == Returned(read) && read.currency == Upper(currency)
    ensures Value(Trim(amount)) == read.minorUnits as real / 100.0 <==> OnlyZerosFrom(PartsOf(Trim(amount)).fraction, 2)
  {
    var s := Trim(amount);
    hide IsDecimalText, PartsOf, Trim, Upper, ToNat, Pow10, ScaledUnits, FromDecimalString;
    SmallPowers();
    if Scale(s) < 2 {
      ShortFractionIsExact(amount, currency, 2);
      var scaled := ScaledUnits(s) * Pow10(2 - Scale(s));
      read := Money(scaled, Upper(currency), 2);
      Pow10Sum(Scale(s), 2 - Scale(s));
      ScaledValue(ScaledUnits(s), Pow10(Scale(s)), Pow10(2 - Scale(s)));
    } else {
      LongFractionIsCut(amount, currency, 2);
      var units, cut := ScaledUnits(s), Pow10(Scale(s) - 2);
      read := Money(if units < 0 then -(-units / cut) else units / cut, Upper(currency), 2);
      Pow10Sum(Scale(s) - 2, 2);
      CutLosesNothingIffZeros(s);
      SameFraction(units, read.minorUnits, cut);
    }
  }

  lemma ScaledValue(units: int, power: nat, rest: nat)
    requires power > 0 && rest > 0 && power * rest == 100
    ensures units as real / power as real == (units * rest) as real / 100.0
  {
    var x, y := units as real / power as real, (units * rest) as real / 100.0;
    assert power as real * rest as real == 100.0;
    assert x * 100.0 == (x * power as real) * rest as real;
    assert (x - y) * 100.0 == 0.0;
  }

  /**
   * For any decimal text the check compares values with every two-decimal total exactly when no digit past the
   * second decimal is other than zero; otherwise a total of another value is taken for the accepted one.
   */
  lemma ComparisonIsExactIffNothingIsCut(amount: string, currency: string)
    requires IsDecimalText(Trim(amount)) && Trim(currency) != ""
    ensures (forall total: Money :: IsAcceptedQuoteCurrent(amount, currency, total)
               == Returned(Value(Trim(amount)) == total.minorUnits as real / 100.0
                           && Upper(currency) == total.currency))
       <==> OnlyZerosFrom(PartsOf(Trim(amount)).fraction, 2)
  {
    var read := ReadingKeepsValueIffZeros(amount, currency);
    hide IsDecimalText, PartsOf, Trim, Upper, FromDecimalString, Value, OnlyZerosFrom;
    assert IsAcceptedQuoteCurrent(amount, currency, read) == Returned(true);
    forall total: Money
      ensures IsAcceptedQuoteCurrent(amount, currency, total)
           == Returned(read.minorUnits == total.minorUnits && Upper(currency) == total.currency)
    {
    }
  }

  /** Such an amount, and the total it is taken for. */
  lemma CutAmountIsMistaken()
    ensures IsDecimalText(Trim("1.005")) && !OnlyZerosFrom(PartsOf(Trim("1.005")).fraction, 2)
    ensures exists total: Money ::
      IsAcceptedQuoteCurrent("1.005", "AMD", total) == Returned(true)
      && Value(Trim("1.005")) != total.minorUnits as real / 100.0
  {
    var parts := Parts(false, "1", "005");
    TextKeepsParts(parts);
    assert TextOf(parts) == "1.005";
    assert Trim("AMD") == "AMD" by { NoSpacesNoTrim("AMD"); }
    hide IsDecimalText, PartsOf, Trim, Value, FromDecimalString;
    assert parts.fraction[2] == '5';
    var read := ReadingKeepsValueIffZeros("1.005", "AMD");
    assert IsAcceptedQuoteCurrent("1.005", "AMD", read) == Returned(true);
  }
}
