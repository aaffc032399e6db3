/** Which calendar dates a stay consumes, and how long the stay is. */
module StayDates {
  import opened Outcomes
  import opened Strings
  import opened Gregorian
  import opened IsoDate
  import opened CalendarExpansion

  predicate IsAccommodationUnitType(unitType: string) {
    unitType in ["HOTEL_ROOM", "PROPERTY_UNIT"]
  }

  function PreviousDay(date: string): string
    requires IsRealDate(date)
  {
    ToIsoDate(ShiftUtcDate(DayOf(date), -1))
  }

  /** The dates consumed and priced: lodging leaves the checkout date out. */
  function ResolveConsumedRange(unitType: string, dateFrom: string, dateTo: string): DateRange
    requires IsRealDate(dateTo)
  {
    if IsAccommodationUnitType(unitType) && dateFrom != dateTo
    then DateRange(dateFrom, PreviousDay(dateTo))
    else DateRange(dateFrom, dateTo)
  }

  /** The one unit type a listing type may register. */
  function GetBookableUnitType(listingType: string): Option<string> {
    match listingType
    case "HOTEL" => Some("HOTEL_ROOM")
    case "PROPERTY" => Some("PROPERTY_UNIT")
    case "RESTAURANT" => Some("RESTAURANT_TABLE")
    case "TOUR" => Some("TOUR_DEPARTURE")
    case "CAR_RENTAL" => Some("VEHICLE")
    case "ATTRACTION" => Some("TOUR_DEPARTURE")
    case _ => None
  }

  datatype StayUnit = Nights | Days

  /** How a listing type measures a stay; other types have no stay rule. */
  function GetStayRuleUnit(listingType: string): Option<StayUnit> {
    match listingType
    case "HOTEL" => Some(Nights)
    case "PROPERTY" => Some(Nights)
    case "CAR_RENTAL" => Some(Days)
    case _ => None
  }

  /** The rounded quotient of two midnights' distance is exact: both are whole days. */
  function CalendarDaysBetween(from: string, to: string): int
    requires IsRealDate(from) && IsRealDate(to)
  {
    (DayOf(to) * MS_PER_DAY - DayOf(from) * MS_PER_DAY) / MS_PER_DAY
  }

  function ComputeStayLength(unit: StayUnit, dateFrom: string, dateTo: string): int
    requires IsRealDate(dateFrom) && IsRealDate(dateTo)
  {
    var span := CalendarDaysBetween(dateFrom, dateTo);
    if unit == Days then span + 1 else span
  }

  /** The day before, also when that day is the last one before the year 0000. */
  lemma PreviousDayText(date: string)
    requires IsRealDate(date)
    ensures DayOf(date) > FIRST_DAY ==> IsRealDate(PreviousDay(date)) && DayOf(PreviousDay(date)) == DayOf(date) - 1
    ensures DayOf(date) == FIRST_DAY ==> |PreviousDay(date)| == 10 && PreviousDay(date)[0] == '-'
  {
    hide IsRealDate, DayOf, ToIsoDate, ShiftUtcDate;
    ShiftIsAddition(DayOf(date), -1);
    TextRoundTrip(date);
    var day := DayOf(date) - 1;
    if day >= FIRST_DAY {
      DateRoundTrip(day);
    } else {
      TextBeforeYearZero();
    }
  }

  lemma TextBeforeYearZero()
    ensures |ToIsoDate(FIRST_DAY - 1)| == 10 && ToIsoDate(FIRST_DAY - 1)[0] == '-'
  {
    FourDigitYears(FIRST_DAY - 1);
    YearBeforeZero();
  }

  lemma YearBeforeZero()
    ensures YearOf(FIRST_DAY - 1) < 0
  {
    if YearOf(FIRST_DAY - 1) > 0 {
      YearsAscend(0, YearOf(FIRST_DAY - 1));
    }
  }

  /** A text that starts with a sign is before every date. */
  lemma SignIsBeforeDates(text: string, date: string)
    requires |text| == 10 && (text[0] == '-' || text[0] == '+') && IsRealDate(date)
    ensures Less(text, date)
  {
    assert date[..4][0] == date[0];
  }

  /** The consumed range can be enumerated: its end is a date, or so early that the span is rejected. */
  lemma ConsumedRangeIsReadable(unitType: string, dateFrom: string, dateTo: string)
    requires IsRealDate(dateFrom) && IsRealDate(dateTo)
    ensures var range := ResolveConsumedRange(unitType, dateFrom, dateTo);
      range.dateFrom == dateFrom && (Less(range.dateTo, dateFrom) || IsDateText(range.dateTo))
  {
    hide IsRealDate, IsDateText, DayOf, PreviousDay, Less, IsAccommodationUnitType, ToIsoDate;
    PreviousDayText(dateTo);
    TextRoundTrip(dateTo);
    RealDatesAreTexts(dateTo);
    if IsAccommodationUnitType(unitType) && dateFrom != dateTo && DayOf(dateTo) == FIRST_DAY {
      SignIsBeforeDates(PreviousDay(dateTo), dateFrom);
    } else if DayOf(dateTo) > FIRST_DAY {
      RealDatesAreTexts(PreviousDay(dateTo));
    }
  }

  lemma RealDatesAreTexts(s: string)
    requires IsRealDate(s)
    ensures IsDateText(s)
  {
  }

  /** The dates a stay is charged for. */
  ghost function ChargedDates(unitType: string, dateFrom: string, dateTo: string, rolls: bool): Outcome<seq<string>>
    requires IsRealDate(dateFrom) && IsRealDate(dateTo)
  {
    ConsumedRangeIsReadable(unitType, dateFrom, dateTo);
    var range := ResolveConsumedRange(unitType, dateFrom, dateTo);
    EnumeratedDates(range.dateFrom, range.dateTo, rolls)
  }

  lemma LodgingUnitTypes(unitType: string)
    ensures IsAccommodationUnitType(unitType) <==> unitType == "HOTEL_ROOM" || unitType == "PROPERTY_UNIT"
  {
    var lodging := ["HOTEL_ROOM", "PROPERTY_UNIT"];
    assert lodging[0] in lodging && lodging[1] in lodging;
  }

  /** The charged dates in day numbers, error cases included. */
  lemma ChargedDatesByDays(unitType: string, dateFrom: string, dateTo: string, rolls: bool)
    requires IsRealDate(dateFrom) && IsRealDate(dateTo)
    ensures var first, end := DayOf(dateFrom), DayOf(dateTo);
      var isLodging := unitType == "HOTEL_ROOM" || unitType == "PROPERTY_UNIT";
      var last := if isLodging && first != end then end - 1 else end;
      ChargedDates(unitType, dateFrom, dateTo, rolls)
        == if last < first then Thrown else Returned(DayTexts(first, last))
  {
    hide IsRealDate, IsDateText, DayOf, PreviousDay, EnumeratedDates, DayTexts, Less, IsAccommodationUnitType,
      ToIsoDate, ParseUtcMidnight;
    LodgingUnitTypes(unitType);
    RealDatesAreTexts(dateFrom);
    ConsumedRangeIsReadable(unitType, dateFrom, dateTo);
    TextOrderIsDayOrder(dateFrom, dateTo);
    TextRoundTrip(dateFrom);
    TextRoundTrip(dateTo);
    PreviousDayText(dateTo);
    if IsAccommodationUnitType(unitType) && dateFrom != dateTo {
      if DayOf(dateTo) == FIRST_DAY {
        SignIsBeforeDates(PreviousDay(dateTo), dateFrom);
        InvertedSpansAreRejected(dateFrom, PreviousDay(dateTo), rolls);
      } else {
        EnumerationByDays(dateFrom, PreviousDay(dateTo), rolls);
      }
    } else {
      EnumerationByDays(dateFrom, dateTo, rolls);
    }
  }

  lemma InvertedSpansAreRejected(from: string, to: string, rolls: bool)
    requires IsDateText(from) && Less(to, from)
    ensures EnumeratedDates(from, to, rolls).Thrown?
  {
  }

  /** Lodging is measured in nights and vehicles in days; tours and attractions alone have departures. */
  lemma RuleUnitsMatchUnitTypes(listingType: string)
    ensures GetBookableUnitType(listingType) == Some("TOUR_DEPARTURE")
       <==> listingType == "TOUR" || listingType == "ATTRACTION"
    ensures GetStayRuleUnit(listingType) == Some(Days) <==> GetBookableUnitType(listingType) == Some("VEHICLE")
    ensures GetStayRuleUnit(listingType).Some? ==>
      && GetBookableUnitType(listingType).Some?
      && (IsAccommodationUnitType(GetBookableUnitType(listingType).value)
          <==> GetStayRuleUnit(listingType) == Some(Nights))
  {
    var lodging := ["HOTEL_ROOM", "PROPERTY_UNIT"];
    assert lodging[0] in lodging && lodging[1] in lodging;
  }

  /**
   * For every listing type with a stay rule, the charged dates number the stay length exactly from the first legal stay
   * on.
   */
  lemma ChargedDatesMatchStayLength(listingType: string, dateFrom: string, dateTo: string, rolls: bool)
    requires GetStayRuleUnit(listingType).Some? && IsRealDate(dateFrom) && IsRealDate(dateTo)
    ensures GetBookableUnitType(listingType).Some?
    ensures var unit := GetStayRuleUnit(listingType).value;
      var charged := ChargedDates(GetBookableUnitType(listingType).value, dateFrom, dateTo, rolls);
      (charged.Returned? && |charged.value| == ComputeStayLength(unit, dateFrom, dateTo))
      <==> (if unit == Nights then Less(dateFrom, dateTo) else !Less(dateTo, dateFrom))
  {
    hide GetBookableUnitType, GetStayRuleUnit, IsRealDate, DayOf, Less, ChargedDates, IsAccommodationUnitType,
      ToIsoDate;
    RuleUnitsMatchUnitTypes(listingType);
    LodgingUnitTypes(GetBookableUnitType(listingType).value);
    TextOrderIsDayOrder(dateFrom, dateTo);
    TextOrderIsDayOrder(dateTo, dateFrom);
    ChargedDatesByDays(GetBookableUnitType(listingType).value, dateFrom, dateTo, rolls);
  }

  lemma DayTextsConcat(first: int, middle: int, last: int)
    requires first <= middle + 1 && middle <= last
    ensures DayTexts(first, middle) + DayTexts(middle + 1, last) == DayTexts(first, last)
  {
    hide ToIsoDate;
  }

  lemma DifferentDaysDifferentTexts(a: int, b: int)
    requires FIRST_DAY <= a < b <= LAST_DAY
    ensures ToIsoDate(a) != ToIsoDate(b)
  {
    DateRoundTrip(a);
    DateRoundTrip(b);
  }

  /** Back-to-back lodging stays charge disjoint dates that together are those of the whole stay. */
  lemma BackToBackStays(unitType: string, a: string, b: string, c: string, rolls: bool)
    requires IsAccommodationUnitType(unitType)
    requires IsRealDate(a) && IsRealDate(b) && IsRealDate(c)
    requires Less(a, b) && Less(b, c)
    ensures var first, second := ChargedDates(unitType, a, b, rolls), ChargedDates(unitType, b, c, rolls);
      && first.Returned? && second.Returned?
      && ChargedDates(unitType, a, c, rolls) == Returned(first.value + second.value)
      && forall i, j :: 0 <= i < |first.value| && 0 <= j < |second.value| ==> first.value[i] != second.value[j]
  {
    LodgingUnitTypes(unitType);
    hide IsRealDate, DayOf, Less, ChargedDates, IsAccommodationUnitType, ToIsoDate;
    TextOrderIsDayOrder(a, b);
    TextOrderIsDayOrder(b, c);
    TextRoundTrip(a);
    TextRoundTrip(c);
    ChargedDatesByDays(unitType, a, b, rolls);
    ChargedDatesByDays(unitType, b, c, rolls);
    ChargedDatesByDays(unitType, a, c, rolls);
    DayTextsConcat(DayOf(a), DayOf(b) - 1, DayOf(c) - 1);
    var first, second := DayTexts(DayOf(a), DayOf(b) - 1), DayTexts(DayOf(b), DayOf(c) - 1);
    forall i, j | 0 <= i < |first| && 0 <= j < |second|
      ensures first[i] != second[j]
    {
      DifferentDaysDifferentTexts(DayOf(a) + i, DayOf(b) + j);
    }
  }
}
