/** Day-by-day expansion of a date span. */
module CalendarExpansion {
  import opened Outcomes
  import opened Strings
  import opened Digits
  import opened Gregorian
  import opened IsoDate

  const MS_PER_DAY := 86_400_000

  /** The texts of the days from `first` to `last`. */
  function DayTexts(first: int, last: int): seq<string> {
    seq(if last < first then 0 else last - first + 1, i requires 0 <= i => ToIsoDate(first + i))
  }

  /** What `enumerateDates` returns: an error for an inverted span, nothing for an invalid date. */
  function EnumeratedDates(from: string, to: string, rolls: bool): Outcome<seq<string>>
    requires IsDateText(from) && (Less(to, from) || IsDateText(to))
  {
    if Less(to, from) then Thrown
    else
      var first, last := ParseUtcMidnight(from, rolls), ParseUtcMidnight(to, rolls);
      if first.None? || last.None? then Returned([]) else Returned(DayTexts(first.value, last.value))
  }

  method EnumerateDates(from: string, to: string, rolls: bool) returns (result: Outcome<seq<string>>)
    requires IsDateText(from) && (Less(to, from) || IsDateText(to))
    ensures result == EnumeratedDates(from, to, rolls)
  {
    hide ToIsoDate, ParseUtcMidnight, Less;
    if Less(to, from) {
      return Thrown;
    }
    var dates := [];
    var first, last := ParseUtcMidnight(from, rolls), ParseUtcMidnight(to, rolls);
    if first.None? || last.None? {
      return Returned(dates); // an invalid date never satisfies `cursor <= end`
    }
    var cursor, end := first.value * MS_PER_DAY, last.value * MS_PER_DAY;
    while cursor <= end
      invariant cursor % MS_PER_DAY == 0 && first.value <= cursor / MS_PER_DAY
      invariant cursor / MS_PER_DAY <= last.value + 1 || cursor / MS_PER_DAY == first.value
      invariant dates == DayTexts(first.value, cursor / MS_PER_DAY - 1)
      decreases end - cursor
    {
      dates := dates + [ToIsoDate(cursor / MS_PER_DAY)];
      cursor := cursor + MS_PER_DAY;
    }
    result := Returned(dates);
  }

  lemma RealDatesParse(s: string, rolls: bool)
    requires IsRealDate(s)
    ensures ParseUtcMidnight(s, rolls) == Some(DayOf(s))
  {
  }

  lemma EnumerationByDays(from: string, to: string, rolls: bool)
    requires IsRealDate(from) && IsRealDate(to)
    ensures EnumeratedDates(from, to, rolls)
         == if DayOf(to) < DayOf(from) then Thrown else Returned(DayTexts(DayOf(from), DayOf(to)))
  {
    hide ParseUtcMidnight, DayOf, DayTexts;
    TextOrderIsDayOrder(to, from);
    RealDatesParse(from, rolls);
    RealDatesParse(to, rolls);
  }

  /** Between real dates: every day from `from` to `to`, once, in order; an error exactly when inverted. */
  lemma EnumerationIsEveryDay(from: string, to: string, rolls: bool)
    requires IsRealDate(from) && IsRealDate(to)
    ensures var result := EnumeratedDates(from, to, rolls);
      && (result.Thrown? <==> Less(to, from))
      && (result.Returned? ==>
            && |result.value| == DayOf(to) - DayOf(from) + 1
            && (forall i :: 0 <= i < |result.value|
                  ==> IsRealDate(result.value[i]) && DayOf(result.value[i]) == DayOf(from) + i)
            && result.value != [] && result.value[0] == from && Last(result.value) == to)
  {
    hide EnumeratedDates, DayTexts, ToIsoDate, IsRealDate, DayOf, Less;
    EnumerationByDays(from, to, rolls);
    TextRoundTrip(from);
    TextRoundTrip(to);
    TextOrderIsDayOrder(to, from);
    DayTextAt(DayOf(from), DayOf(to));
    forall day | DayOf(from) <= day <= DayOf(to)
      ensures IsRealDate(ToIsoDate(day)) && DayOf(ToIsoDate(day)) == day
    {
      DateRoundTrip(day);
    }
  }

  /** The month exists, and some month has that many days. */
  predicate NamesDay(s: string)
    requires IsDateText(s)
  {
    var month, day := ToNat(s[5..7]), ToNat(s[8..]);
    1 <= month <= 12 && 1 <= day <= 31
  }

  /** Counted from the first of the month, past its end if need be. */
  function CountedDay(s: string): int
    requires IsDateText(s) && NamesDay(s)
  {
    DayNumber(Civil(ToNat(s[..4]), ToNat(s[5..7]), 1)) + ToNat(s[8..]) - 1
  }

  /** Texts of the form that name no day give no dates, those past the end of a month only if the engine rolls over. */
  lemma EnumerationOfAnyTexts(from: string, to: string, rolls: bool)
    requires IsDateText(from) && IsDateText(to) && !Less(to, from)
    ensures EnumeratedDates(from, to, rolls)
         == if !NamesDay(from) || !NamesDay(to) || !(rolls || (IsRealDate(from) && IsRealDate(to))) then Returned([])
            else Returned(DayTexts(CountedDay(from), CountedDay(to)))
  {
    hide Less, ToIsoDate, DayTexts;
  }

  lemma DayTextAt(first: int, last: int)
    ensures |DayTexts(first, last)| == if last < first then 0 else last - first + 1
    ensures forall i :: 0 <= i < |DayTexts(first, last)| ==> DayTexts(first, last)[i] == ToIsoDate(first + i)
  {
    hide ToIsoDate;
  }

  // ---- Blackouts and calendar statuses ----

  datatype Status = Available | Blocked

  datatype DateRange = DateRange(dateFrom: string, dateTo: string)

  datatype DayEntry = DayEntry(date: string, status: Status)

  predicate IsVetoedByBlackout(date: string, ranges: seq<DateRange>) {
    exists range <- ranges :: !Less(date, range.dateFrom) && !Less(range.dateTo, date)
  }

  function StatusOf(date: string, calendar: map<string, Status>, ranges: seq<DateRange>): Status {
    if IsVetoedByBlackout(date, ranges) then Blocked
    else if date in calendar then calendar[date]
    else Available
  }

  function ExpandCalendarDays(from: string, to: string, rolls: bool, calendar: map<string, Status>,
                              ranges: seq<DateRange>): Outcome<seq<DayEntry>>
    requires IsDateText(from) && (Less(to, from) || IsDateText(to))
  {
    match EnumeratedDates(from, to, rolls)
    case Thrown => Thrown
    case Returned(dates) =>
      Returned(seq(|dates|, i requires 0 <= i < |dates| => DayEntry(dates[i], StatusOf(dates[i], calendar, ranges))))
  }

  ghost predicate BlackoutCovers(day: int, ranges: seq<DateRange>)
    requires forall range <- ranges :: IsRealDate(range.dateFrom) && IsRealDate(range.dateTo)
  {
    exists range <- ranges :: DayOf(range.dateFrom) <= day <= DayOf(range.dateTo)
  }

  /** A day is blocked exactly by a blackout that covers it, or by its own blocked calendar row. */
  lemma StatusByDay(day: int, calendar: map<string, Status>, ranges: seq<DateRange>)
    requires FIRST_DAY <= day <= LAST_DAY
    requires forall range <- ranges :: IsRealDate(range.dateFrom) && IsRealDate(range.dateTo)
    ensures var date := ToIsoDate(day);
      StatusOf(date, calendar, ranges).Blocked?
      <==> BlackoutCovers(day, ranges) || (date in calendar && calendar[date].Blocked?)
  {
    DateRoundTrip(day);
    var date := ToIsoDate(day);
    hide ToIsoDate, IsRealDate, DayOf, Less;
    forall range <- ranges
      ensures !Less(date, range.dateFrom) && !Less(range.dateTo, date)
           <==> DayOf(range.dateFrom) <= day <= DayOf(range.dateTo)
    {
      TextOrderIsDayOrder(date, range.dateFrom);
      TextOrderIsDayOrder(range.dateTo, date);
    }
  }

  /** The expansion of a span: one entry a day, in order, each with that day's status. */
  lemma ExpansionByDays(from: string, to: string, rolls: bool, calendar: map<string, Status>, ranges: seq<DateRange>)
    requires IsRealDate(from) && IsRealDate(to)
    requires forall range <- ranges :: IsRealDate(range.dateFrom) && IsRealDate(range.dateTo)
    ensures var result := ExpandCalendarDays(from, to, rolls, calendar, ranges);
      && (result.Thrown? <==> DayOf(to) < DayOf(from))
      && (result.Returned? ==>
            && |result.value| == DayOf(to) - DayOf(from) + 1
            && forall i :: 0 <= i < |result.value| ==>
                 var date, entry := ToIsoDate(DayOf(from) + i), result.value[i];
                 && entry.date == date
                 && (entry.status.Blocked?
                     <==> BlackoutCovers(DayOf(from) + i, ranges) || (date in calendar && calendar[date].Blocked?)))
  {
    hide ToIsoDate, IsRealDate, DayOf, Less, EnumeratedDates, StatusOf, BlackoutCovers, DayTexts;
    EnumerationByDays(from, to, rolls);
    TextRoundTrip(from);
    TextRoundTrip(to);
    DayTextAt(DayOf(from), DayOf(to));
    forall day | DayOf(from) <= day <= DayOf(to)
      ensures var date := ToIsoDate(day);
        StatusOf(date, calendar, ranges).Blocked?
        <==> BlackoutCovers(day, ranges) || (date in calendar && calendar[date].Blocked?)
    {
      StatusByDay(day, calendar, ranges);
    }
  }
}
