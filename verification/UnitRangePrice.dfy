/** The price of one unit over its charged dates. */
module UnitRangePrice {
  import opened Outcomes
  import opened Strings
  import opened Digits
  import opened Sorting
  import opened Decimals
  import opened Monetary
  import opened IsoDate
  import opened CalendarExpansion
  import opened StayDates
  import BookingQuote

  /** An amount and currency as stored; either may be absent. */
  datatype Rung = Rung(amount: Option<string>, currency: Option<string>)

  datatype Price = Price(amount: string, currency: string)

  /** The calendar override, the unit's base price and the listing's base price. */
  datatype PriceSources = PriceSources(overrideByDate: map<string, Rung>, unitBase: Rung, listingBase: Rung)

  predicate IsResolved(rung: Rung) {
    rung.amount.Some? && rung.currency.Some?
  }

  function PriceOf(rung: Rung): Price
    requires IsResolved(rung)
  {
    Price(rung.amount.value, rung.currency.value)
  }

  function ResolvePrice(override: Rung, unitBase: Rung, listingBase: Rung): Option<Price> {
    if IsResolved(override) then Some(PriceOf(override))
    else if IsResolved(unitBase) then Some(PriceOf(unitBase))
    else if IsResolved(listingBase) then Some(PriceOf(listingBase))
    else None
  }

  function ResolvePriceForDate(date: string, sources: PriceSources): Option<Price> {
    var override := if date in sources.overrideByDate then sources.overrideByDate[date] else Rung(None, None);
    ResolvePrice(override, sources.unitBase, sources.listingBase)
  }

  /** The date's own override when it is complete, or else the unit's own price, or else the listing's. */
  predicate IsCharged(date: string, sources: PriceSources, amount: string, currency: string) {
    var own := if date in sources.overrideByDate then sources.overrideByDate[date] else Rung(None, None);
    var price := Rung(Some(amount), Some(currency));
    if own.amount.Some? && own.currency.Some? then own == price
    else if sources.unitBase.amount.Some? && sources.unitBase.currency.Some? then sources.unitBase == price
    else sources.listingBase == price
  }

  lemma ResolvedIsCharged(date: string, sources: PriceSources, amount: string, currency: string)
    ensures ResolvePriceForDate(date, sources) == Some(Price(amount, currency))
       <==> IsCharged(date, sources, amount, currency)
  {
  }

  datatype RangePrice = Priced(unitPrice: Money) | Incomplete | CurrencyMismatch | Failed

  function ResolvedPrices(dates: seq<string>, sources: PriceSources): seq<Option<Price>> {
    seq(|dates|, i requires 0 <= i < |dates| => ResolvePriceForDate(dates[i], sources))
  }

  /** The left fold of `add` over the prices, starting from zero. */
  function SumPrices(prices: seq<Option<Price>>, currency: string): Outcome<Money>
    requires None !in prices
  {
    if prices == [] then MakeMoney(0, currency, 2)
    else
      assert Last(prices) in prices && forall p <- DropLast(prices) :: p in prices;
      match SumPrices(DropLast(prices), currency)
      case Thrown => Thrown
      case Returned(sum) =>
        match FromDecimalString(Last(prices).value.amount, currency, 2)
        case Thrown => Thrown
        case Returned(price) => Add(sum, price)
  }

  function SumUnitRangePrice(dates: seq<string>, sources: PriceSources): RangePrice {
    var prices := ResolvedPrices(dates, sources);
    if prices == [] || None in prices then Incomplete
    else
      assert prices[0] in prices;
      var currency := prices[0].value.currency;
      if exists p <- prices :: p.value.currency != currency then CurrencyMismatch
      else
        match SumPrices(prices, currency)
        case Thrown => Failed
        case Returned(total) => Priced(total)
  }

  // ---- When a range has a price, and which ----

  /** Whole minor units of a two-decimal amount, later digits cut off. */
  function Cents(amount: string): int
    requires IsDecimalText(Trim(amount))
  {
    var parts := PartsOf(Trim(amount));
    Signed(parts.negative, ToNat(parts.whole + (parts.fraction + Zeros(2))[..2]))
  }

  /** The date resolves to a readable amount in this currency. */
  predicate IsPricedIn(date: string, sources: PriceSources, currency: string) {
    var price := ResolvePriceForDate(date, sources);
    price.Some? && price.value.currency == currency && IsDecimalText(Trim(price.value.amount))
  }

  predicate AllPricedIn(dates: seq<string>, sources: PriceSources, currency: string) {
    Trim(currency) != "" && forall date <- dates :: IsPricedIn(date, sources, currency)
  }

  function DateCents(date: string, sources: PriceSources, currency: string): int
    requires IsPricedIn(date, sources, currency)
  {
    Cents(ResolvePriceForDate(date, sources).value.amount)
  }

  function TotalCents(dates: seq<string>, sources: PriceSources, currency: string): int
    requires AllPricedIn(dates, sources, currency)
  {
    if dates == [] then 0 else TotalCents(dates[1..], sources, currency) + DateCents(dates[0], sources, currency)
  }

  lemma {:induction false} SumPricesMeaning(dates: seq<string>, sources: PriceSources, currency: string)
    requires forall date <- dates :: ResolvePriceForDate(date, sources).Some?
               && ResolvePriceForDate(date, sources).value.currency == currency
    ensures None !in ResolvedPrices(dates, sources)
    ensures var sum := SumPrices(ResolvedPrices(dates, sources), currency);
      && (sum.Returned? <==> AllPricedIn(dates, sources, currency))
      && (sum.Returned? ==> sum.value == Money(TotalCents(dates, sources, currency), Upper(currency), 2))
  {
    hide ResolvePriceForDate, IsDecimalText, Trim, Upper, Cents;
    if dates != [] {
      var prices := ResolvedPrices(dates, sources);
      assert DropLast(prices) == ResolvedPrices(DropLast(dates), sources);
      SumPricesMeaning(DropLast(dates), sources, currency);
      assert dates == DropLast(dates) + [Last(dates)] && Last(dates) in dates;
      ReadAsCents(Last(prices).value.amount, currency);
      if AllPricedIn(dates, sources, currency) {
        TotalConcat(DropLast(dates), [Last(dates)], sources, currency);
        assert IsPricedIn(Last(dates), sources, currency);
      }
    }
  }

  lemma ReadAsCents(amount: string, currency: string)
    ensures FromDecimalString(amount, currency, 2)
         == if IsDecimalText(Trim(amount)) && Trim(currency) != ""
            then Returned(Money(Cents(amount), Upper(currency), 2)) else Thrown
  {
  }

  lemma {:induction false} TotalConcat(a: seq<string>, b: seq<string>, sources: PriceSources, currency: string)
    requires AllPricedIn(a + b, sources, currency)
    ensures AllPricedIn(a, sources, currency) && AllPricedIn(b, sources, currency)
    ensures TotalCents(a + b, sources, currency) == TotalCents(a, sources, currency) + TotalCents(b, sources, currency)
  {
    hide IsPricedIn, DateCents, Trim;
    forall date <- a ensures date in a + b {}
    forall date <- b ensures date in a + b {}
    if a == [] {
      assert a + b == b;
    } else {
      assert (a + b)[1..] == a[1..] + b;
      assert forall date <- a[1..] + b :: date in a + b;
      TotalConcat(a[1..], b, sources, currency);
    }
  }

  /**
   * A range is priced exactly when it has dates and all resolve to readable amounts in one named currency; the price is
   * their sum.
   */
  lemma PricedMeaning(dates: seq<string>, sources: PriceSources)
    ensures var result := SumUnitRangePrice(dates, sources);
      && (result.Priced? <==> dates != [] && exists currency :: AllPricedIn(dates, sources, currency))
      && (forall currency :: dates != [] && AllPricedIn(dates, sources, currency)
            ==> result == Priced(Money(TotalCents(dates, sources, currency), Upper(currency), 2)))
  {
    hide ResolvePriceForDate, IsDecimalText, Trim, Upper, Cents, TotalCents, SumPrices;
    var prices := ResolvedPrices(dates, sources);
    if dates != [] {
      assert dates[0] in dates && prices[0] == ResolvePriceForDate(dates[0], sources);
      forall currency | AllPricedIn(dates, sources, currency)
        ensures SumUnitRangePrice(dates, sources)
             == Priced(Money(TotalCents(dates, sources, currency), Upper(currency), 2))
      {
        assert IsPricedIn(dates[0], sources, currency);
        forall i | 0 <= i < |dates|
          ensures prices[i].Some? && prices[i].value.currency == currency
        {
          assert dates[i] in dates && IsPricedIn(dates[i], sources, currency);
        }
        SumPricesMeaning(dates, sources, currency);
        assert prices[0].value.currency == currency;
        assert forall p <- prices :: p.value.currency == currency;
      }
      if SumUnitRangePrice(dates, sources).Priced? {
        var currency := prices[0].value.currency;
        forall date <- dates
          ensures ResolvePriceForDate(date, sources).Some?
              && ResolvePriceForDate(date, sources).value.currency == currency
        {
          var i :| 0 <= i < |dates| && dates[i] == date;
          assert prices[i] in prices;
        }
        SumPricesMeaning(dates, sources, currency);
      }
    }
  }

  /** The sum of the amounts' exact values. */
  ghost function SumOfValues(amounts: seq<string>): real
    requires forall amount <- amounts :: IsDecimalText(Trim(amount))
  {
    if amounts == [] then 0.0 else Value(Trim(amounts[0])) + SumOfValues(amounts[1..])
  }

  lemma CentsOfValue(amount: string)
    requires IsDecimalText(Trim(amount)) && Scale(Trim(amount)) <= 2
    ensures Cents(amount) as real == 100.0 * Value(Trim(amount))
  {
    hide IsDecimalText, Trim, Upper, ScaledUnits, Cents, PartsOf;
    assert Trim("USD") != "" by { NamedCurrency(); }
    ShortFractionIsExact(amount, "USD", 2);
    ReadAsCents(amount, "USD");
    assert Pow10(2) == 100 && Pow10(1) == 10 && Pow10(0) == 1;
  }

  lemma NamedCurrency()
    ensures Trim("USD") != ""
  {
  }

  lemma {:induction false} TotalOfValues(
    dates: seq<string>, sources: PriceSources, amounts: seq<string>, currency: string)
    requires |amounts| == |dates| && AllPricedIn(dates, sources, currency)
    requires forall i :: 0 <= i < |dates| ==> IsCharged(dates[i], sources, amounts[i], currency)
    requires forall amount <- amounts :: IsDecimalText(Trim(amount)) && Scale(Trim(amount)) <= 2
    ensures TotalCents(dates, sources, currency) as real == 100.0 * SumOfValues(amounts)
  {
    hide IsDecimalText, Trim, Value, Scale, Cents, IsCharged, ResolvePriceForDate;
    if dates != [] {
      assert amounts[0] in amounts;
      ResolvedIsCharged(dates[0], sources, amounts[0], currency);
      CentsOfValue(amounts[0]);
      TotalOfValues(dates[1..], sources, amounts[1..], currency);
    }
  }

  /** The price is the sum of the stored amounts charged for the dates, when all are readable. */
  lemma ChargedAmountsAddUp(dates: seq<string>, sources: PriceSources, amounts: seq<string>, currency: string)
    requires dates != [] && |amounts| == |dates| && Trim(currency) != ""
    requires forall i :: 0 <= i < |dates| ==> IsCharged(dates[i], sources, amounts[i], currency)
    ensures SumUnitRangePrice(dates, sources).Priced? <==> forall amount <- amounts :: IsDecimalText(Trim(amount))
    ensures
      (forall amount <- amounts :: IsDecimalText(Trim(amount)) && Scale(Trim(amount)) <= 2) ==>
        var price := SumUnitRangePrice(dates, sources).unitPrice;
        && price.currency == Upper(currency) && price.decimalPlaces == 2
        && price.minorUnits as real == 100.0 * SumOfValues(amounts)
  {
    hide IsDecimalText, Trim, Upper, Scale, Cents, IsCharged, ResolvePriceForDate, SumUnitRangePrice, TotalCents;
    forall i | 0 <= i < |dates|
      ensures dates[i] in dates && amounts[i] in amounts
      ensures ResolvePriceForDate(dates[i], sources) == Some(Price(amounts[i], currency))
    {
      ResolvedIsCharged(dates[i], sources, amounts[i], currency);
    }
    PricedMeaning(dates, sources);
    if exists other :: AllPricedIn(dates, sources, other) {
      var other :| AllPricedIn(dates, sources, other);
      assert IsPricedIn(dates[0], sources, other);
    }
    assert AllPricedIn(dates, sources, currency) <==> forall amount <- amounts :: IsDecimalText(Trim(amount));
    if forall amount <- amounts :: IsDecimalText(Trim(amount)) && Scale(Trim(amount)) <= 2 {
      TotalOfValues(dates, sources, amounts, currency);
    }
  }

  /** The order of the dates does not matter, to the price or to the reason there is none. */
  lemma PriceIgnoresOrder(a: seq<string>, b: seq<string>, sources: PriceSources)
    requires multiset(a) == multiset(b)
    ensures SumUnitRangePrice(a, sources) == SumUnitRangePrice(b, sources)
  {
    hide ResolvePriceForDate, IsDecimalText, Trim, Upper, Cents, SumPrices, TotalCents;
    assert |a| == |multiset(a)| == |multiset(b)| == |b|;
    assert forall date :: date in a <==> date in multiset(a);
    assert forall date :: date in b <==> date in multiset(b);
    PricedMeaning(a, sources);
    PricedMeaning(b, sources);
    FailureMeaning(a, sources);
    FailureMeaning(b, sources);
    if SumUnitRangePrice(a, sources).Priced? {
      var currency :| AllPricedIn(a, sources, currency);
      assert AllPricedIn(b, sources, currency);
      TotalIgnoresOrder(a, b, sources, currency);
    }
    if SumUnitRangePrice(b, sources).Priced? {
      var currency :| AllPricedIn(b, sources, currency);
      assert AllPricedIn(a, sources, currency);
    }
  }

  lemma FailureMeaning(dates: seq<string>, sources: PriceSources)
    ensures var result := SumUnitRangePrice(dates, sources);
      && (result.Incomplete? <==> dates == [] || exists date <- dates :: ResolvePriceForDate(date, sources).None?)
      && (result.CurrencyMismatch? <==> !result.Incomplete? && exists d <- dates, e <- dates ::
            ResolvePriceForDate(d, sources).value.currency != ResolvePriceForDate(e, sources).value.currency)
  {
    hide ResolvePriceForDate, SumPrices;
    var prices := ResolvedPrices(dates, sources);
    forall i | 0 <= i < |dates| ensures prices[i] in prices && dates[i] in dates {}
  }

  lemma TotalWithout(dates: seq<string>, m: nat, sources: PriceSources, currency: string)
    requires m < |dates| && AllPricedIn(dates, sources, currency)
    ensures AllPricedIn(dates[..m] + dates[m + 1..], sources, currency) && IsPricedIn(dates[m], sources, currency)
    ensures TotalCents(dates, sources, currency)
         == TotalCents(dates[..m] + dates[m + 1..], sources, currency) + DateCents(dates[m], sources, currency)
  {
    hide IsPricedIn, DateCents, Trim;
    var tail := [dates[m]] + dates[m + 1..];
    assert dates == dates[..m] + tail;
    TotalConcat(dates[..m], tail, sources, currency);
    assert tail[1..] == dates[m + 1..];
    assert AllPricedIn(dates[..m] + dates[m + 1..], sources, currency);
    TotalConcat(dates[..m], dates[m + 1..], sources, currency);
  }

  lemma {:induction false} TotalIgnoresOrder(a: seq<string>, b: seq<string>, sources: PriceSources, currency: string)
    requires multiset(a) == multiset(b)
    requires AllPricedIn(a, sources, currency) && AllPricedIn(b, sources, currency)
    ensures TotalCents(a, sources, currency) == TotalCents(b, sources, currency)
  {
    hide AllPricedIn, IsPricedIn, DateCents, TotalCents;
    if a == [] {
      assert |multiset(b)| == 0;
      assert a == b;
    } else {
      var m := FindAndRemove(a, b);
      var rest := b[..m] + b[m + 1..];
      TotalWithout(a, 0, sources, currency);
      assert a[..0] + a[1..] == a[1..];
      TotalWithout(b, m, sources, currency);
      TotalIgnoresOrder(a[1..], rest, sources, currency);
    }
  }

  /** Prices add up over a range cut in two, whenever the whole has a price. */
  lemma PriceAddsUp(a: seq<string>, b: seq<string>, sources: PriceSources)
    requires a != [] && b != [] && SumUnitRangePrice(a + b, sources).Priced?
    ensures var first, second := SumUnitRangePrice(a, sources), SumUnitRangePrice(b, sources);
      && first.Priced? && second.Priced?
      && Add(first.unitPrice, second.unitPrice) == Returned(SumUnitRangePrice(a + b, sources).unitPrice)
  {
    hide IsPricedIn, SumUnitRangePrice, TotalCents, Trim, Upper;
    PricedMeaning(a + b, sources);
    var currency :| AllPricedIn(a + b, sources, currency);
    TotalConcat(a, b, sources, currency);
    PricedMeaning(a, sources);
    PricedMeaning(b, sources);
  }

  /** Conversely, two priced parts in one stored currency make a priced whole. */
  lemma PricedPartsMakePricedWhole(a: seq<string>, b: seq<string>, sources: PriceSources, currency: string)
    requires a != [] && b != []
    requires AllPricedIn(a, sources, currency) && AllPricedIn(b, sources, currency)
    ensures SumUnitRangePrice(a + b, sources).Priced?
  {
    hide IsPricedIn, SumUnitRangePrice, TotalCents, Trim, Upper;
    PricedMeaning(a + b, sources);
    assert AllPricedIn(a + b, sources, currency);
  }

  /** Without overrides the price is the number of dates times the base price: the unit's own, or else the listing's. */
  lemma {:induction false} BasePriceTimesDays(dates: seq<string>, sources: PriceSources, base: Price)
    requires dates != [] && ResolvePrice(Rung(None, None), sources.unitBase, sources.listingBase) == Some(base)
    requires forall date <- dates :: date !in sources.overrideByDate || !IsResolved(sources.overrideByDate[date])
    ensures SumUnitRangePrice(dates, sources).Priced? <==> IsDecimalText(Trim(base.amount)) && Trim(base.currency) != ""
    ensures SumUnitRangePrice(dates, sources).Priced? ==>
      SumUnitRangePrice(dates, sources) == Priced(Money(|dates| * Cents(base.amount), Upper(base.currency), 2))
  {
    hide IsDecimalText, Trim, Upper, Cents, SumUnitRangePrice;
    forall date <- dates
      ensures ResolvePriceForDate(date, sources) == Some(base)
    {
    }
    PricedMeaning(dates, sources);
    if IsDecimalText(Trim(base.amount)) && Trim(base.currency) != "" {
      SameEachDay(dates, sources, base.currency, Cents(base.amount));
    } else {
      assert dates[0] in dates;
      assert forall currency :: AllPricedIn(dates, sources, currency) ==> IsPricedIn(dates[0], sources, currency);
    }
  }

  lemma {:induction false} SameEachDay(dates: seq<string>, sources: PriceSources, currency: string, cents: int)
    requires AllPricedIn(dates, sources, currency)
    requires forall date <- dates :: DateCents(date, sources, currency) == cents
    ensures TotalCents(dates, sources, currency) == |dates| * cents
  {
    hide IsPricedIn, DateCents, Trim;
    if dates != [] {
      assert dates[0] in dates;
      assert |dates| * cents == |dates[1..]| * cents + cents;
      SameEachDay(dates[1..], sources, currency, cents);
    }
  }

  // ---- Exactness in JavaScript numbers ----

  const MAX_DATE_SPAN_DAYS := 366
  const TWO_TO_THE_53 := 9_007_199_254_740_992

  lemma {:induction false} TotalBound(dates: seq<string>, sources: PriceSources, currency: string, limit: nat)
    requires AllPricedIn(dates, sources, currency)
    requires forall date <- dates :: 0 <= DateCents(date, sources, currency) < limit
    ensures 0 <= TotalCents(dates, sources, currency) <= |dates| * limit
  {
    hide IsPricedIn, DateCents, Trim;
    if dates != [] {
      assert |dates| * limit == |dates[1..]| * limit + limit;
      assert dates[0] in dates;
      TotalBound(dates[1..], sources, currency, limit);
    }
  }

  lemma SpanCapBoundsDates(unitType: string, dateFrom: string, dateTo: string, rolls: bool)
    requires IsRealDate(dateFrom) && IsRealDate(dateTo) && DayOf(dateTo) - DayOf(dateFrom) <= MAX_DATE_SPAN_DAYS
    ensures var charged := ChargedDates(unitType, dateFrom, dateTo, rolls);
      charged.Returned? ==> |charged.value| <= MAX_DATE_SPAN_DAYS + 1
  {
    hide DayOf, IsRealDate, ChargedDates;
    ChargedDatesByDays(unitType, dateFrom, dateTo, rolls);
  }

  /** Over any capped range of DECIMAL(12,2) amounts every partial sum is a safe integer, so the sums are exact. */
  lemma CappedSumsAreExact(dates: seq<string>, sources: PriceSources, currency: string, n: nat)
    requires AllPricedIn(dates, sources, currency) && |dates| <= MAX_DATE_SPAN_DAYS + 1 && n <= |dates|
    requires forall date <- dates :: BookingQuote.IsExpectedAmount(ResolvePriceForDate(date, sources).value.amount)
    ensures AllPricedIn(dates[..n], sources, currency)
    ensures 0 <= TotalCents(dates[..n], sources, currency) < TWO_TO_THE_53
  {
    hide ResolvePriceForDate, IsDecimalText, Trim, Cents;
    forall date <- dates[..n]
      ensures IsPricedIn(date, sources, currency) && 0 <= DateCents(date, sources, currency) < BookingQuote.AMOUNT_LIMIT
    {
      assert date in dates;
      CentsOfExpectedAmount(ResolvePriceForDate(date, sources).value.amount);
    }
    TotalBound(dates[..n], sources, currency, BookingQuote.AMOUNT_LIMIT);
  }

  lemma CentsOfExpectedAmount(amount: string)
    requires BookingQuote.IsExpectedAmount(amount)
    ensures IsDecimalText(Trim(amount)) && 0 <= Cents(amount) < BookingQuote.AMOUNT_LIMIT
  {
    hide IsDecimalText, Trim, PartsOf, ToNat, Zeros;
    BookingQuote.ExpectedAmountParts(amount);
    PaddedFraction(PartsOf(amount).fraction, 2);
    assert Zeros(0) == "" by { NoZeros(); }
  }

  lemma NoZeros()
    ensures Zeros(0) == ""
  {
  }

  // ---- Splitting a stay ----

  /** A lodging stay costs the same booked whole or cut at any night in between. */
  lemma SplitStayCostsTheSame(unitType: string, a: string, b: string, c: string, rolls: bool, sources: PriceSources)
    requires IsAccommodationUnitType(unitType)
    requires IsRealDate(a) && IsRealDate(b) && IsRealDate(c) && Less(a, b) && Less(b, c)
    requires var whole := ChargedDates(unitType, a, c, rolls);
      whole.Returned? && SumUnitRangePrice(whole.value, sources).Priced?
    ensures var first, second := ChargedDates(unitType, a, b, rolls), ChargedDates(unitType, b, c, rolls);
      && first.Returned? && second.Returned?
      && var p, q := SumUnitRangePrice(first.value, sources), SumUnitRangePrice(second.value, sources);
      && p.Priced? && q.Priced?
      && Add(p.unitPrice, q.unitPrice)
         == Returned(SumUnitRangePrice(ChargedDates(unitType, a, c, rolls).value, sources).unitPrice)
  {
    hide IsRealDate, DayOf, Less, ChargedDates, SumUnitRangePrice, IsAccommodationUnitType, ToIsoDate;
    LodgingUnitTypes(unitType);
    BackToBackStays(unitType, a, b, c, rolls);
    ChargedDatesByDays(unitType, a, b, rolls);
    ChargedDatesByDays(unitType, b, c, rolls);
    TextOrderIsDayOrder(a, b);
    TextOrderIsDayOrder(b, c);
    PriceAddsUp(ChargedDates(unitType, a, b, rolls).value, ChargedDates(unitType, b, c, rolls).value, sources);
  }
}
