/** Evaluation of a listing's booking rules for one customer request. */
module BookingRules {
  import opened Outcomes
  import opened Strings
  import opened Digits
  import opened Gregorian
  import opened IsoDate
  import opened StayDates
  import opened BookingTimebase

  const MS_PER_HOUR := 3_600_000

  /** The stored rules; the advance limits are INT UNSIGNED columns. */
  datatype Rules = Rules(
    minimumStay: Option<int>, maximumStay: Option<int>, advanceMinHours: Option<nat>, advanceMaxDays: Option<nat>)

  datatype Violation =
    | MinimumStayNotMet(minimum: int, minimumUnit: StayUnit)
    | MaximumStayExceeded(maximum: int, maximumUnit: StayUnit)
    | BookingTooSoon(minimumHours: nat)
    | BookingTooFarAhead(maximumDays: nat)

  // A date object beyond these days is invalid and cannot be written as text.
  const LAST_DATE_DAY := 100_000_000

  /** Writing an invalid date is an error. */
  function AddCalendarDays(date: string, days: int): Outcome<string>
    requires IsRealDate(date)
  {
    var day := ShiftUtcDate(DayOf(date), days);
    if -LAST_DATE_DAY <= day <= LAST_DATE_DAY then Returned(ToIsoDate(day)) else Thrown
  }

  function ToWallClock(start: Start): string {
    var time := if HasTime(start) then start.time.value else "00:00:00";
    start.date + "T" + ToSeconds(time)
  }

  function LeadEnd(now: int, minimumHours: nat): int {
    now + minimumHours * MS_PER_HOUR
  }

  /** The advance minimum, compared as wall-clock text. */
  function IsTooSoon(start: Start, minimumHours: nat, now: int): Outcome<bool> {
    if minimumHours == 0 then Returned(false)
    else
      match ToBusinessDateTime(LeadEnd(now, minimumHours))
      case Thrown => Thrown
      case Returned(earliest) => Returned(Less(ToWallClock(start), earliest.date + "T" + earliest.time))
  }

  /** The advance maximum, compared as date text. */
  function IsTooFarAhead(start: Start, maximumDays: nat, now: int): Outcome<bool>
    requires IsClock(now)
  {
    BusinessTimeNamesItsSecond(now);
    match AddCalendarDays(BusinessTime(now).date, maximumDays)
    case Thrown => Thrown
    case Returned(latestDate) => Returned(Less(latestDate, start.date))
  }

  /** A rule that is not set has nothing against any start. */
  function TooSoonAt(start: Start, rules: Rules, now: int): Outcome<bool> {
    if rules.advanceMinHours.None? then Returned(false) else IsTooSoon(start, rules.advanceMinHours.value, now)
  }

  function TooFarAt(start: Start, rules: Rules, now: int): Outcome<bool>
    requires IsClock(now)
  {
    if rules.advanceMaxDays.None? then Returned(false) else IsTooFarAhead(start, rules.advanceMaxDays.value, now)
  }

  function StartClock(start: Start): string {
    if HasTime(start) then ToSeconds(start.time.value) else "00:00:00"
  }

  lemma StartClockNamesStart(start: Start)
    requires IsStart(start)
    ensures IsTimeText(StartClock(start))
    ensures ToWallClock(start) == start.date + "T" + StartClock(start)
    ensures StartSecond(start) == WallSecond(start.date, StartClock(start))
  {
    hide IsRealDate, DayOf;
    ClockRoundTrip(0);
    assert ClockText(0) == "00:00:00";
  }

  // ---- The advance minimum ----

  /** The lead reaches past the start, on the clock of whole seconds. */
  predicate IsShortNotice(start: Start, minimumHours: nat, now: int)
    requires IsStart(start)
  {
    minimumHours > 0 && StartSecond(start) < BusinessSecond(LeadEnd(now, minimumHours))
  }

  lemma LeadEndsLater(now: int, minimumHours: nat)
    ensures now <= LeadEnd(now, minimumHours)
    ensures BusinessSecond(now) <= BusinessSecond(LeadEnd(now, minimumHours))
    ensures BusinessDay(now) <= BusinessDay(LeadEnd(now, minimumHours))
  {
  }

  /** The lead ends in a year that compares as it should with the start's date. */
  predicate LeadIsComparable(start: Start, minimumHours: nat, now: int)
    requires IsStart(start) && IsClock(now)
  {
    LeadEndsLater(now, minimumHours);
    IsComparable(start.date, LeadEnd(now, minimumHours))
  }

  /**
   * For every lead the columns hold: an error past the last date object, and otherwise the text comparison
   * finds exactly the starts at short notice whose date is comparable with the end of the lead.
   */
  lemma TooSoonMeaning(start: Start, minimumHours: nat, now: int)
    requires IsStart(start) && IsClock(now)
    ensures IsTooSoon(start, minimumHours, now)
         == if minimumHours > 0 && !IsInstant(LeadEnd(now, minimumHours)) then Thrown
            else Returned(IsShortNotice(start, minimumHours, now) && LeadIsComparable(start, minimumHours, now))
    ensures minimumHours > 0 && BusinessDay(LeadEnd(now, minimumHours)) > LAST_DAY
         ==> IsShortNotice(start, minimumHours, now)
  {
    hide IsRealDate, DayOf, Less, BusinessTime, BusinessDay, BusinessSecond, IsTimeText, WallSecond, ToWallClock,
      StartClock, StartSecond, YearOf, FirstFour, LeadEnd;
    var instant := LeadEnd(now, minimumHours);
    LeadEndsLater(now, minimumHours);
    StartClockNamesStart(start);
    var earliest, clock := BusinessTime(instant), StartClock(start);
    if BusinessDay(instant) > LAST_DAY {
      StartsEndBeforeLateInstants(start, instant);
      LateInstantOrder(start.date, "T" + clock, instant, "T" + earliest.time);
      assert start.date + ("T" + clock) == start.date + "T" + clock;
      assert earliest.date + ("T" + earliest.time) == earliest.date + "T" + earliest.time;
    } else {
      BusinessTimeNamesItsSecond(instant);
      WallOrder(start.date, clock, earliest.date, earliest.time);
    }
  }

  /** The rule is right about a start at short notice exactly when their years compare. */
  lemma WhenTooSoonIsRight(start: Start, minimumHours: nat, now: int)
    requires IsStart(start) && IsClock(now) && IsTooSoon(start, minimumHours, now).Returned?
    ensures (IsTooSoon(start, minimumHours, now).value <==> IsShortNotice(start, minimumHours, now))
       <==> !IsShortNotice(start, minimumHours, now) || LeadIsComparable(start, minimumHours, now)
  {
    hide IsShortNotice, LeadIsComparable, IsTooSoon, IsClock;
    TooSoonMeaning(start, minimumHours, now);
  }

  /** The same rule in milliseconds: the exact boundary is accepted, and so is any fraction of a second beyond it. */
  lemma TooSoonInMilliseconds(start: Start, minimumHours: nat, now: int)
    requires IsStart(start) && IsClock(now) && IsTooSoon(start, minimumHours, now).Returned?
    ensures var startInstant := StartSecond(start) * 1000 - BUSINESS_OFFSET_MS;
      IsTooSoon(start, minimumHours, now).value
      <==> && minimumHours > 0 && startInstant + 1000 <= LeadEnd(now, minimumHours)
           && LeadIsComparable(start, minimumHours, now)
  {
    hide StartSecond, IsTooSoon, LeadIsComparable, IsClock;
    TooSoonMeaning(start, minimumHours, now);
  }

  /** Once too soon, a start stays too soon exactly as long as its date compares with the end of the lead. */
  lemma OnceTooSoon(start: Start, minimumHours: nat, earlier: int, later: int)
    requires IsStart(start) && earlier <= later && IsClock(earlier) && IsClock(later)
    requires IsTooSoon(start, minimumHours, earlier) == Returned(true)
    requires IsTooSoon(start, minimumHours, later).Returned?
    ensures IsTooSoon(start, minimumHours, later).value <==> LeadIsComparable(start, minimumHours, later)
  {
    hide StartSecond, IsTooSoon, LeadIsComparable, IsClock;
    TooSoonMeaning(start, minimumHours, earlier);
    TooSoonMeaning(start, minimumHours, later);
  }

  // ---- The advance maximum ----

  predicate IsBeyondHorizon(start: Start, maximumDays: nat, now: int)
    requires IsRealDate(start.date)
  {
    BusinessDay(now) + maximumDays < DayOf(start.date)
  }

  lemma HorizonText(now: int, maximumDays: nat)
    requires IsClock(now) && IsRealDate(BusinessTime(now).date)
    ensures AddCalendarDays(BusinessTime(now).date, maximumDays)
         == if BusinessDay(now) + maximumDays > LAST_DATE_DAY then Thrown
            else Returned(ToIsoDate(BusinessDay(now) + maximumDays))
  {
    hide IsRealDate, DayOf, BusinessTime, ToIsoDate, ShiftUtcDate, BusinessDay;
    BusinessTimeNamesItsSecond(now);
    ShiftIsAddition(BusinessDay(now), maximumDays);
  }

  /** Up to the year 9999 texts compare as days do; a later day is written with a sign and comes before every date. */
  lemma HorizonOrder(latest: int, date: string)
    requires FIRST_DAY <= latest && IsRealDate(date)
    ensures Less(ToIsoDate(latest), date) <==> latest > LAST_DAY || latest < DayOf(date)
  {
    hide IsRealDate, DayOf, Less, ToIsoDate;
    if latest > LAST_DAY {
      FourDigitYears(latest);
      ExpandedFormIsNotADate(latest);
      SignIsBeforeDates(ToIsoDate(latest), date);
    } else {
      DateRoundTrip(latest);
      TextOrderIsDayOrder(ToIsoDate(latest), date);
    }
  }

  /**
   * For every horizon the columns hold: an error past the last date object; up to the last day of the year 9999
   * the comparison in days; and in between every start is refused, although none is too far ahead.
   */
  lemma TooFarMeaning(start: Start, maximumDays: nat, now: int)
    requires IsRealDate(start.date) && IsClock(now)
    ensures var latest := BusinessDay(now) + maximumDays;
      IsTooFarAhead(start, maximumDays, now)
      == if latest > LAST_DATE_DAY then Thrown
         else Returned(latest > LAST_DAY || IsBeyondHorizon(start, maximumDays, now))
    ensures BusinessDay(now) + maximumDays > LAST_DAY ==> !IsBeyondHorizon(start, maximumDays, now)
  {
    hide IsRealDate, DayOf, Less, BusinessTime, ToIsoDate, BusinessDay, AddCalendarDays;
    BusinessTimeNamesItsSecond(now);
    HorizonText(now, maximumDays);
    TextRoundTrip(start.date);
    HorizonOrder(BusinessDay(now) + maximumDays, start.date);
  }

  /** The rule is right about any start exactly when the horizon stays within the year 9999. */
  lemma WhenTooFarIsRight(start: Start, maximumDays: nat, now: int)
    requires IsRealDate(start.date) && IsClock(now) && IsTooFarAhead(start, maximumDays, now).Returned?
    ensures (IsTooFarAhead(start, maximumDays, now).value <==> IsBeyondHorizon(start, maximumDays, now))
       <==> BusinessDay(now) + maximumDays <= LAST_DAY
  {
    hide IsBeyondHorizon, IsTooFarAhead, IsClock, BusinessDay;
    TooFarMeaning(start, maximumDays, now);
  }

  /** Once within the horizon, a start stays within it exactly as long as the horizon stays within the year 9999. */
  lemma OnceWithinHorizon(start: Start, maximumDays: nat, earlier: int, later: int)
    requires IsRealDate(start.date) && earlier <= later && IsClock(earlier) && IsClock(later)
    requires IsTooFarAhead(start, maximumDays, earlier) == Returned(false)
    requires IsTooFarAhead(start, maximumDays, later).Returned?
    ensures !IsTooFarAhead(start, maximumDays, later).value <==> BusinessDay(later) + maximumDays <= LAST_DAY
  {
    hide IsRealDate, IsTooFarAhead, InFourDigitYears, DayOf;
    TooFarMeaning(start, maximumDays, earlier);
    TooFarMeaning(start, maximumDays, later);
  }

  // ---- The evaluation ----

  /** A stay violation is on the list exactly when its own limit is set and broken, in nights or in days. */
  ghost predicate ReportsStayRules(
    violations: seq<Violation>, listingType: string, days: int, rules: Rules, isHourlyStay: bool)
  {
    var nightly := !isHourlyStay && (listingType == "HOTEL" || listingType == "PROPERTY");
    var rental := !isHourlyStay && listingType == "CAR_RENTAL";
    && (forall n :: MinimumStayNotMet(n, Nights) in violations
          <==> nightly && rules.minimumStay == Some(n) && days < n)
    && (forall n :: MinimumStayNotMet(n, Days) in violations
          <==> rental && rules.minimumStay == Some(n) && days + 1 < n)
    && (forall n :: MaximumStayExceeded(n, Nights) in violations
          <==> nightly && rules.maximumStay == Some(n) && days > n)
    && (forall n :: MaximumStayExceeded(n, Days) in violations
          <==> rental && rules.maximumStay == Some(n) && days + 1 > n)
  }

  /** So is an advance violation, with its own limit. */
  ghost predicate ReportsAdvanceRules(violations: seq<Violation>, start: Start, rules: Rules, now: int)
    requires IsStart(start) && IsClock(now)
  {
    && (forall n: nat :: BookingTooSoon(n) in violations
          <==> rules.advanceMinHours == Some(n) && IsShortNotice(start, n, now) && LeadIsComparable(start, n, now))
    && (forall n: nat :: BookingTooFarAhead(n) in violations
          <==> && rules.advanceMaxDays == Some(n)
               && (BusinessDay(now) + n > LAST_DAY || BusinessDay(now) + n < DayOf(start.date)))
  }

  lemma StartsAreDates(start: Start)
    requires IsStart(start)
    ensures IsRealDate(start.date)
  {
  }

  lemma AdvanceErrors(start: Start, rules: Rules, now: int)
    requires IsStart(start) && IsClock(now)
    ensures TooSoonAt(start, rules, now).Thrown?
       <==> && rules.advanceMinHours.Some? && rules.advanceMinHours.value > 0
            && !IsInstant(now + rules.advanceMinHours.value * 3_600_000)
    ensures TooFarAt(start, rules, now).Thrown?
       <==> rules.advanceMaxDays.Some? && BusinessDay(now) + rules.advanceMaxDays.value > 100_000_000
  {
    StartsAreDates(start);
    hide IsStart, IsRealDate, IsTooSoon, IsTooFarAhead, BusinessDay, IsInstant, IsShortNotice, IsBeyondHorizon;
    if rules.advanceMinHours.Some? {
      TooSoonMeaning(start, rules.advanceMinHours.value, now);
    }
    if rules.advanceMaxDays.Some? {
      TooFarMeaning(start, rules.advanceMaxDays.value, now);
    }
  }

  lemma AdvanceVerdicts(start: Start, rules: Rules, now: int)
    requires IsStart(start) && IsClock(now)
    requires TooSoonAt(start, rules, now).Returned? && TooFarAt(start, rules, now).Returned?
    ensures TooSoonAt(start, rules, now).value
       <==> && rules.advanceMinHours.Some?
            && IsShortNotice(start, rules.advanceMinHours.value, now)
            && LeadIsComparable(start, rules.advanceMinHours.value, now)
    ensures TooFarAt(start, rules, now).value
       <==> && rules.advanceMaxDays.Some?
            && (|| BusinessDay(now) + rules.advanceMaxDays.value > LAST_DAY
                || BusinessDay(now) + rules.advanceMaxDays.value < DayOf(start.date))
  {
    StartsAreDates(start);
    hide IsStart, IsRealDate, IsTooSoon, IsTooFarAhead, BusinessDay, IsInstant, IsShortNotice, LeadIsComparable, DayOf;
    if rules.advanceMinHours.Some? {
      TooSoonMeaning(start, rules.advanceMinHours.value, now);
    }
    if rules.advanceMaxDays.Some? {
      TooFarMeaning(start, rules.advanceMaxDays.value, now);
    }
  }

  /** The violations the stay limits give, and those the advance limits give. */
  function StayViolations(unit: Option<StayUnit>, length: int, r: Rules): (violations: seq<Violation>)
    ensures forall v <- violations :: v.MinimumStayNotMet? || v.MaximumStayExceeded?
  {
    if unit.None? then []
    else
      var tooShort := r.minimumStay.Some? && length < r.minimumStay.value;
      var tooLong := r.maximumStay.Some? && r.maximumStay.value < length;
      var minimum := if tooShort then [MinimumStayNotMet(r.minimumStay.value, unit.value)] else [];
      var maximum := if tooLong then [MaximumStayExceeded(r.maximumStay.value, unit.value)] else [];
      minimum + maximum
  }

  function AdvanceViolations(tooSoon: bool, tooFar: bool, r: Rules): (violations: seq<Violation>)
    requires (tooSoon ==> r.advanceMinHours.Some?) && (tooFar ==> r.advanceMaxDays.Some?)
    ensures forall v <- violations :: v.BookingTooSoon? || v.BookingTooFarAhead?
  {
    var minimum := if tooSoon then [BookingTooSoon(r.advanceMinHours.value)] else [];
    var maximum := if tooFar then [BookingTooFarAhead(r.advanceMaxDays.value)] else [];
    minimum + maximum
  }

  lemma StayRulesAreReported(
    listingType: string, dateFrom: string, dateTo: string, r: Rules, isHourlyStay: bool, others: seq<Violation>)
    requires IsRealDate(dateFrom) && IsRealDate(dateTo)
    requires forall v <- others :: v.BookingTooSoon? || v.BookingTooFarAhead?
    ensures
      var unit := if isHourlyStay then None else GetStayRuleUnit(listingType);
      var length := if unit.Some? then ComputeStayLength(unit.value, dateFrom, dateTo) else 0;
      var days := DayOf(dateTo) - DayOf(dateFrom);
      ReportsStayRules(StayViolations(unit, length, r) + others, listingType, days, r, isHourlyStay)
  {
    hide IsRealDate, DayOf;
    var unit := if isHourlyStay then None else GetStayRuleUnit(listingType);
    var length := if unit.Some? then ComputeStayLength(unit.value, dateFrom, dateTo) else 0;
    var own := StayViolations(unit, length, r);
    assert forall v :: v in own + others <==> v in own || v in others;
  }

  lemma AdvanceRulesAreListed(tooSoon: bool, tooFar: bool, r: Rules, others: seq<Violation>)
    requires (tooSoon ==> r.advanceMinHours.Some?) && (tooFar ==> r.advanceMaxDays.Some?)
    requires forall v <- others :: v.MinimumStayNotMet? || v.MaximumStayExceeded?
    ensures
      var all := others + AdvanceViolations(tooSoon, tooFar, r);
      && (forall n: nat :: BookingTooSoon(n) in all <==> tooSoon && r.advanceMinHours.value == n)
      && (forall n: nat :: BookingTooFarAhead(n) in all <==> tooFar && r.advanceMaxDays.value == n)
  {
    var own := AdvanceViolations(tooSoon, tooFar, r);
    assert forall v :: v in others + own <==> v in others || v in own;
  }

  lemma AdvanceRulesAreReported(
    start: Start, r: Rules, now: int, tooSoon: bool, tooFar: bool, others: seq<Violation>)
    requires IsStart(start) && IsClock(now)
    requires tooSoon
        <==> && r.advanceMinHours.Some?
             && IsShortNotice(start, r.advanceMinHours.value, now)
             && LeadIsComparable(start, r.advanceMinHours.value, now)
    requires tooFar
        <==> && r.advanceMaxDays.Some?
             && (|| BusinessDay(now) + r.advanceMaxDays.value > LAST_DAY
                 || BusinessDay(now) + r.advanceMaxDays.value < DayOf(start.date))
    requires forall v <- others :: v.MinimumStayNotMet? || v.MaximumStayExceeded?
    ensures ReportsAdvanceRules(others + AdvanceViolations(tooSoon, tooFar, r), start, r, now)
  {
    hide IsStart, BusinessDay, IsShortNotice, LeadIsComparable, DayOf, IsClock, AdvanceViolations;
    AdvanceRulesAreListed(tooSoon, tooFar, r, others);
  }

  lemma StayInOrder(unit: Option<StayUnit>, length: int, r: Rules)
    ensures unit.None? ==> StayViolations(unit, length, r) == []
    ensures unit.Some? ==>
      var tooShort := r.minimumStay.Some? && length < r.minimumStay.value;
      var first := if tooShort then [MinimumStayNotMet(r.minimumStay.value, unit.value)] else [];
      StayViolations(unit, length, r)
      == if r.maximumStay.Some? && r.maximumStay.value < length
         then first + [MaximumStayExceeded(r.maximumStay.value, unit.value)] else first
  {
  }

  lemma AdvanceInOrder(stay: seq<Violation>, tooSoon: bool, tooFar: bool, r: Rules)
    requires (tooSoon ==> r.advanceMinHours.Some?) && (tooFar ==> r.advanceMaxDays.Some?)
    ensures
      var first := if tooSoon then stay + [BookingTooSoon(r.advanceMinHours.value)] else stay;
      stay + AdvanceViolations(tooSoon, tooFar, r)
      == if tooFar then first + [BookingTooFarAhead(r.advanceMaxDays.value)] else first
  {
  }

  method EvaluateBookingRules(listingType: string, dateFrom: string, dateTo: string, start: Start,
                              rules: Option<Rules>, now: int, isHourlyStay: bool)
    returns (result: Outcome<seq<Violation>>)
    requires IsRealDate(dateFrom) && IsRealDate(dateTo) && IsClock(now)
    ensures rules.None? ==> result == Returned([])
    ensures rules.Some? ==>
      var r := rules.value;
      var unit := if isHourlyStay then None else GetStayRuleUnit(listingType);
      var length := if unit.Some? then ComputeStayLength(unit.value, dateFrom, dateTo) else 0;
      var soon, far := TooSoonAt(start, r, now), TooFarAt(start, r, now);
      result == if soon.Thrown? || far.Thrown? then Thrown
                else Returned(StayViolations(unit, length, r) + AdvanceViolations(soon.value, far.value, r))
    ensures rules.Some? && IsStart(start) ==>
      var r := rules.value;
      result.Thrown?
      <==> || (r.advanceMinHours.Some? && r.advanceMinHours.value > 0
               && !IsInstant(now + r.advanceMinHours.value * 3_600_000))
           || (r.advanceMaxDays.Some? && BusinessDay(now) + r.advanceMaxDays.value > 100_000_000)
    ensures rules.Some? && IsStart(start) && result.Returned? ==>
      && ReportsStayRules(result.value, listingType, DayOf(dateTo) - DayOf(dateFrom), rules.value, isHourlyStay)
      && ReportsAdvanceRules(result.value, start, rules.value, now)
  {
    hide IsRealDate, Less, BusinessTime, AddCalendarDays, ComputeStayLength, GetStayRuleUnit, ToWallClock, IsTooSoon,
      IsTooFarAhead, IsStart, DayOf, BusinessDay, IsShortNotice, LeadIsComparable, ReportsStayRules,
      ReportsAdvanceRules, IsInstant, StayViolations, AdvanceViolations;
    var violations := [];
    if rules.None? {
      return Returned(violations);
    }
    var r := rules.value;
    if IsStart(start) {
      AdvanceErrors(start, r, now);
    }
    var stayUnit := if isHourlyStay then None else GetStayRuleUnit(listingType);
    if stayUnit.Some? {
      var length := ComputeStayLength(stayUnit.value, dateFrom, dateTo);
      if r.minimumStay.Some? && length < r.minimumStay.value {
        violations := violations + [MinimumStayNotMet(r.minimumStay.value, stayUnit.value)];
      }
      if r.maximumStay.Some? && length > r.maximumStay.value {
        violations := violations + [MaximumStayExceeded(r.maximumStay.value, stayUnit.value)];
      }
    }
    ghost var unit := if isHourlyStay then None else GetStayRuleUnit(listingType);
    ghost var length := if unit.Some? then ComputeStayLength(unit.value, dateFrom, dateTo) else 0;
    StayInOrder(unit, length, r);
    assert violations == StayViolations(unit, length, r);
    ghost var stay := violations;
    ghost var soon, far := TooSoonAt(start, r, now), TooFarAt(start, r, now);
    if r.advanceMinHours.Some? {
      var tooSoon := IsTooSoon(start, r.advanceMinHours.value, now);
      if tooSoon.Thrown? {
        return Thrown;
      }
      if tooSoon.value {
        violations := violations + [BookingTooSoon(r.advanceMinHours.value)];
      }
    }
    if r.advanceMaxDays.Some? {
      var tooFar := IsTooFarAhead(start, r.advanceMaxDays.value, now);
      if tooFar.Thrown? {
        return Thrown;
      }
      if tooFar.value {
        violations := violations + [BookingTooFarAhead(r.advanceMaxDays.value)];
      }
    }
    AdvanceInOrder(stay, soon.value, far.value, r);
    if IsStart(start) {
      StayRulesAreReported(listingType, dateFrom, dateTo, r, isHourlyStay, AdvanceViolations(soon.value, far.value, r));
      AdvanceVerdicts(start, r, now);
      AdvanceRulesAreReported(start, r, now, soon.value, far.value, stay);
    }
    result := Returned(violations);
  }

  // ---- Today's clock with limits the columns accept ----

  const NOW_2026 := 1_767_225_600_000 // 2026-01-01T00:00:00Z
  const LARGEST_LIMIT := 4_294_967_295 // INT UNSIGNED

  lemma YearOfDay(day: int, year: int)
    requires DayFromYear(year) <= day < DayFromYear(year + 1)
    ensures YearOf(day) == year
  {
    hide DayFromYear, YearOf;
    var found := YearOf(day);
    YearLength(found);
    if found < year { YearsAscend(found, year); }
    if year < found { YearsAscend(year, found); YearLength(year); }
  }

  /** With three million days every start is refused as too far ahead; with the largest limit the evaluation fails. */
  lemma HugeHorizonRefusesAll(start: Start)
    requires IsRealDate(start.date)
    ensures IsClock(NOW_2026)
    ensures IsTooFarAhead(start, 3_000_000, NOW_2026) == Returned(true) && !IsBeyondHorizon(start, 3_000_000, NOW_2026)
    ensures IsTooFarAhead(start, LARGEST_LIMIT, NOW_2026) == Thrown
  {
    assert BusinessDay(NOW_2026) == 20454;
    hide IsRealDate, IsTooFarAhead, IsBeyondHorizon;
    TooFarMeaning(start, 3_000_000, NOW_2026);
    TooFarMeaning(start, LARGEST_LIMIT, NOW_2026);
  }

  /** A lead of seventy million hours ends in the year 10011 and refuses no start after the year 1001. */
  lemma HugeLeadRefusesNone(start: Start)
    requires IsStart(start) && FieldsOf(start.date).year > 1001
    ensures IsClock(NOW_2026)
    ensures IsTooSoon(start, 70_000_000, NOW_2026) == Returned(false) && IsShortNotice(start, 70_000_000, NOW_2026)
    ensures IsTooSoon(start, LARGEST_LIMIT, NOW_2026) == Thrown
  {
    var end := LeadEnd(NOW_2026, 70_000_000);
    assert BusinessDay(NOW_2026) == 20454 && BusinessDay(end) == 2_937_120;
    YearOfDay(2_937_120, 10011);
    assert FirstFour(10011) == 1001;
    hide IsStart, IsTooSoon, IsShortNotice, YearOf, FirstFour;
    TooSoonMeaning(start, 70_000_000, NOW_2026);
    TooSoonMeaning(start, LARGEST_LIMIT, NOW_2026);
  }

  // ---- The advance-booking window ----

  /** No advance violation, and no error. */
  predicate AdvanceAllowed(start: Start, rules: Rules, now: int)
    requires IsClock(now)
  {
    TooSoonAt(start, rules, now) == Returned(false) && TooFarAt(start, rules, now) == Returned(false)
  }

  lemma LaterInstants(a: int, b: int)
    requires a <= b
    ensures BusinessSecond(a) <= BusinessSecond(b) && BusinessDay(a) <= BusinessDay(b)
    ensures BusinessYear(a) <= BusinessYear(b)
  {
    YearsFollowDays(BusinessDay(a), BusinessDay(b));
    hide YearOf;
  }

  lemma YearsFollowDays(a: int, b: int)
    requires a <= b
    ensures YearOf(a) <= YearOf(b)
  {
    hide YearOf, DayFromYear;
    if YearOf(b) < YearOf(a) {
      YearsAscend(YearOf(b), YearOf(a));
    }
  }

  lemma InstantsEndInSixDigits(instant: int)
    requires IsInstant(instant)
    ensures BusinessYear(instant) <= 999_999
  {
    hide YearOf;
    assert DayFromYear(1_000_000) > LAST_DATE_DAY;
    if 1_000_000 < BusinessYear(instant) {
      YearsAscend(1_000_000, BusinessYear(instant));
    }
  }

  /** Among years of one length the first four digits ascend. */
  lemma FirstFourAscends(a: nat, b: nat)
    requires 10_000 <= a <= b <= 999_999 && !(a <= 99_999 < b)
    ensures FirstFour(a) <= FirstFour(b)
  {
    FirstFourStep(a);
    FirstFourStep(a / 10);
    FirstFourStep(a / 10 / 10);
    FirstFourStep(b);
    FirstFourStep(b / 10);
    FirstFourStep(b / 10 / 10);
  }

  lemma FirstFourStep(n: nat)
    ensures FirstFour(n) == if n < 10_000 then n else FirstFour(n / 10)
  {
  }

  /**
   * Between the two moments the end of the lead does not pass into longer years, save by a start that is itself the
   * last second before.
   */
  predicate LeadKeepsYearLength(start: Start, minimumHours: nat, opening: int, closing: int)
    requires IsStart(start)
  {
    var first, last := BusinessYear(LeadEnd(opening, minimumHours)), BusinessYear(LeadEnd(closing, minimumHours));
    minimumHours > 0 ==> !(first <= 99_999 < last) && (first <= 9999 < last ==> StartSecond(start) == LAST_SECOND)
  }

  predicate WithinAdvanceRules(start: Start, rules: Rules, now: int) {
    IsClock(now) && AdvanceAllowed(start, rules, now)
  }

  lemma HorizonAllowsBetween(start: Start, rules: Rules, opening: int, now: int, closing: int)
    requires IsStart(start) && opening <= now <= closing
    requires WithinAdvanceRules(start, rules, opening) && WithinAdvanceRules(start, rules, closing)
    ensures IsClock(now) && TooFarAt(start, rules, now) == Returned(false)
  {
    StartsAreDates(start);
    hide IsStart, IsRealDate, IsTooFarAhead, TooSoonAt, BusinessDay, DayOf;
    LaterInstants(opening, now);
    LaterInstants(now, closing);
    if rules.advanceMaxDays.Some? {
      var days := rules.advanceMaxDays.value;
      TooFarMeaning(start, days, opening);
      TooFarMeaning(start, days, now);
      TooFarMeaning(start, days, closing);
    }
  }

  lemma LeadAllowsBetween(start: Start, minimumHours: nat, opening: int, now: int, closing: int)
    requires IsStart(start) && opening <= now <= closing
    requires IsClock(opening) && IsClock(now) && IsClock(closing)
        && LeadKeepsYearLength(start, minimumHours, opening, closing)
    requires IsTooSoon(start, minimumHours, opening) == IsTooSoon(start, minimumHours, closing) == Returned(false)
    ensures IsTooSoon(start, minimumHours, now) == Returned(false)
  {
    hide IsStart, IsTooSoon, BusinessDay, BusinessSecond, StartSecond, YearOf, FirstFour;
    TooSoonMeaning(start, minimumHours, opening);
    TooSoonMeaning(start, minimumHours, now);
    TooSoonMeaning(start, minimumHours, closing);
    if minimumHours > 0 {
      var first, last := LeadEnd(opening, minimumHours), LeadEnd(closing, minimumHours);
      var middle := LeadEnd(now, minimumHours);
      LaterInstants(first, middle);
      LaterInstants(middle, last);
      InstantsEndInSixDigits(last);
      YearsByDays(BusinessDay(first));
      YearsByDays(BusinessDay(middle));
      YearsByDays(BusinessDay(last));
      LastSecondBound(middle);
      if 10_000 <= BusinessYear(middle) {
        FirstFourAscends(BusinessYear(middle), BusinessYear(last));
      }
    }
  }

  /** The last millisecond before a year begins. */
  function EndBefore(year: int): int {
    DayFromYear(year) * BookingTimebase.MS_PER_DAY - 1 - BUSINESS_OFFSET_MS
  }

  lemma EndBeforeMeaning(year: int, instant: int)
    ensures BusinessYear(instant) < year <==> instant <= EndBefore(year)
    ensures BusinessYear(EndBefore(year)) == year - 1
  {
    hide YearOf, DayFromYear;
    BusinessDayOfLocal(instant);
    BusinessDayOfLocal(EndBefore(year));
    YearLength(year - 1);
    YearOfDay(BusinessDay(EndBefore(year)), year - 1);
    var found := BusinessYear(instant);
    if found < year { YearLength(found); if found < year - 1 { YearsAscend(found, year); } }
    if year < found { YearsAscend(year, found); }
  }

  /** Otherwise some moment in between is too soon. */
  lemma LeadRefusesBetween(start: Start, minimumHours: nat, opening: int, closing: int) returns (now: int)
    requires IsStart(start) && opening <= closing
    requires IsClock(opening) && IsClock(closing) && !LeadKeepsYearLength(start, minimumHours, opening, closing)
    requires IsTooSoon(start, minimumHours, closing).Returned?
    ensures opening <= now <= closing
    ensures IsTooSoon(start, minimumHours, now) != Returned(false)
  {
    hide IsStart, IsTooSoon, BusinessDay, BusinessSecond, StartSecond, YearOf, FirstFour, DayFromYear;
    var first, last := LeadEnd(opening, minimumHours), LeadEnd(closing, minimumHours);
    var year := if BusinessYear(first) <= 99_999 < BusinessYear(last) then 100_000 else 10_000;
    EndBeforeMeaning(year, first);
    EndBeforeMeaning(year, last);
    now := EndBefore(year) - minimumHours * MS_PER_HOUR;
    assert LeadEnd(now, minimumHours) == EndBefore(year);
    LaterInstants(opening, now);
    LaterInstants(now, closing);
    TooSoonMeaning(start, minimumHours, now);
    YearsByDays(BusinessDay(EndBefore(year)));
    LastMomentIsShortNotice(start, minimumHours, now, year);
  }

  lemma LastMomentIsShortNotice(start: Start, minimumHours: nat, now: int, year: int)
    requires IsStart(start) && IsClock(now) && minimumHours > 0 && LeadEnd(now, minimumHours) == EndBefore(year)
    requires year == 100_000 || (year == 10_000 && StartSecond(start) != LAST_SECOND)
    ensures IsShortNotice(start, minimumHours, now) && LeadIsComparable(start, minimumHours, now)
  {
    hide YearOf;
    EndBeforeMeaning(year, EndBefore(year));
    YearsByDays(BusinessDay(EndBefore(year)));
    if year == 100_000 {
      assert FirstFour(99_999) == 9999;
      DateStartsWithYear(start.date);
      hide IsStart, StartSecond;
      StartsEndBeforeLateInstants(start, EndBefore(year));
    } else {
      assert BusinessSecond(EndBefore(year)) == LAST_SECOND;
      StartsByLastSecond(start);
    }
  }

  lemma StartsByLastSecond(start: Start)
    requires IsStart(start)
    ensures StartSecond(start) <= LAST_SECOND
  {
    hide IsRealDate, DayOf, IsTimeText, LastClock, ToSeconds;
    TextRoundTrip(start.date);
    if HasTime(start) {
      LastClockRange(ToSeconds(start.time.value));
    }
  }

  /**
   * Between two moments at which a request may be booked it may be booked throughout, exactly when the lead does not
   * pass into longer years in between; the horizon never interrupts.
   */
  lemma BookingMomentsFormInterval(start: Start, rules: Rules, opening: int, closing: int)
    requires IsStart(start) && opening <= closing
    requires WithinAdvanceRules(start, rules, opening) && WithinAdvanceRules(start, rules, closing)
    ensures (forall now | opening <= now <= closing :: WithinAdvanceRules(start, rules, now))
       <==> rules.advanceMinHours.None? || LeadKeepsYearLength(start, rules.advanceMinHours.value, opening, closing)
  {
    hide IsStart, IsTooSoon, TooFarAt, LeadKeepsYearLength, InFourDigitYears;
    if rules.advanceMinHours.None? || LeadKeepsYearLength(start, rules.advanceMinHours.value, opening, closing) {
      forall now | opening <= now <= closing
        ensures WithinAdvanceRules(start, rules, now)
      {
        HorizonAllowsBetween(start, rules, opening, now, closing);
        if rules.advanceMinHours.Some? {
          LeadAllowsBetween(start, rules.advanceMinHours.value, opening, now, closing);
        }
      }
    } else {
      var now := LeadRefusesBetween(start, rules.advanceMinHours.value, opening, closing);
      assert !WithinAdvanceRules(start, rules, now);
    }
  }

  const ONE_DAY_LEAD := Rules(None, None, Some(24), None)

  lemma WellBeforeTheStart(start: Start)
    requires IsStart(start) && FieldsOf(start.date).year == 9990
    ensures WithinAdvanceRules(start, ONE_DAY_LEAD, 0) && BusinessYear(LeadEnd(0, 24)) == 1970
  {
    StartInYear(start);
    assert DayFromYear(9990) > 2 && BusinessDay(0) == 0 && BusinessDay(LeadEnd(0, 24)) == 1;
    YearOfDay(1, 1970);
    assert BusinessSecond(LeadEnd(0, 24)) < 2 * SECONDS_PER_DAY;
    hide IsStart, StartSecond, YearOf, DayFromYear, FirstFour, IsTooSoon, FieldsOf, BusinessSecond, LeadIsComparable;
    TooSoonMeaning(start, 24, 0);
  }

  lemma LongAfterTheStart(start: Start, closing: int)
    requires IsStart(start) && FieldsOf(start.date).year == 9990
    requires closing == EndBefore(10_000) - 23 * MS_PER_HOUR
    ensures WithinAdvanceRules(start, ONE_DAY_LEAD, closing) && BusinessYear(LeadEnd(closing, 24)) == 10_000
  {
    FirstDays();
    assert BusinessDay(closing) == LAST_DAY && BusinessDay(LeadEnd(closing, 24)) == LAST_DAY + 1;
    YearLength(10_000);
    YearOfDay(LAST_DAY + 1, 10_000);
    FirstFourStep(10_000);
    FirstFourStep(1000);
    hide IsStart, StartSecond, YearOf, DayFromYear, FirstFour, IsTooSoon, FieldsOf, BusinessDay, IsShortNotice,
      EndBefore, LeadEnd;
    TooSoonMeaning(start, 24, closing);
  }

  /**
   * An interrupted window: a start of the year 9990 with a lead of one day, allowed in 1970 and early on the last day
   * of 9999.
   */
  lemma WindowIsInterrupted(start: Start) returns (between: int)
    requires IsStart(start) && FieldsOf(start.date).year == 9990
    ensures var closing := EndBefore(10_000) - 23 * MS_PER_HOUR;
      && WithinAdvanceRules(start, ONE_DAY_LEAD, 0) && WithinAdvanceRules(start, ONE_DAY_LEAD, closing)
      && 0 <= between <= closing && !WithinAdvanceRules(start, ONE_DAY_LEAD, between)
  {
    var closing := EndBefore(10_000) - 23 * MS_PER_HOUR;
    WellBeforeTheStart(start);
    LongAfterTheStart(start, closing);
    StartInYear(start);
    assert (DayFromYear(9990) + 366) * SECONDS_PER_DAY < LAST_SECOND && closing >= 0;
    hide IsStart, StartSecond, BusinessYear, DayFromYear, WithinAdvanceRules, FieldsOf, EndBefore, LeadEnd;
    BookingMomentsFormInterval(start, ONE_DAY_LEAD, 0, closing);
    between :| 0 <= between <= closing && !WithinAdvanceRules(start, ONE_DAY_LEAD, between);
  }

  lemma StartInYear(start: Start)
    requires IsStart(start)
    ensures var year := FieldsOf(start.date).year;
      DayFromYear(year) * SECONDS_PER_DAY <= StartSecond(start) < (DayFromYear(year) + 366) * SECONDS_PER_DAY
  {
    hide IsTimeText, LastClock, ToSeconds, DayFromYear;
    if HasTime(start) {
      LastClockRange(ToSeconds(start.time.value));
    }
    DayInsideYear(FieldsOf(start.date));
  }

  // ---- The lead and the past ----

  /** No start of a year after the lead's first four digits is over yet. */
  predicate LeadCoversThePast(minimumHours: nat, now: int)
    requires IsClock(now)
  {
    var end := LeadEnd(now, minimumHours);
    LeadEndsLater(now, minimumHours);
    YearsByDays(BusinessDay(end));
    BusinessDay(end) <= LAST_DAY
    || BusinessSecond(now) <= DayFromYear(FirstFour(BusinessYear(end)) + 1) * SECONDS_PER_DAY
  }

  lemma OverStartsAreEarly(start: Start, now: int, year: int)
    requires IsStart(start) && IsOver(start, now)
    ensures StartSecond(start) < BusinessSecond(now)
    ensures BusinessSecond(now) <= DayFromYear(year + 1) * SECONDS_PER_DAY ==> FieldsOf(start.date).year <= year
  {
    hide IsTimeText, LastClock, ToSeconds, DayFromYear;
    if HasTime(start) {
      LastClockRange(ToSeconds(start.time.value));
    }
    var c := FieldsOf(start.date);
    DayInsideYear(c);
    assert DayOf(start.date) * SECONDS_PER_DAY <= StartSecond(start);
    if c.year > year + 1 {
      YearsAscend(year + 1, c.year);
    }
  }

  lemma NewYearText(year: int)
    requires 0 <= year && DayFromYear(year) <= LAST_DAY
    ensures FIRST_DAY <= DayFromYear(year)
    ensures var text := ToIsoDate(DayFromYear(year));
      IsRealDate(text) && DayOf(text) == DayFromYear(year) && FieldsOf(text).year == year
  {
    var day := DayFromYear(year);
    NewYearsAreDates(year);
    YearLength(year);
    YearOfDay(day, year);
    hide DayFromYear, YearOf, MonthFrom, DaysBeforeMonth;
    DateRoundTrip(day);
    FourDigitYears(day);
    TextKeepsFields(CivilOf(day));
    assert CivilOf(day).year == year;
  }

  lemma NewYearsAreDates(year: int)
    requires 0 <= year
    ensures FIRST_DAY <= DayFromYear(year)
  {
    assert DayFromYear(0) == FIRST_DAY;
    hide DayFromYear;
    if 0 < year { YearsAscend(0, year); }
  }

  lemma MidnightText()
    ensures IsTimeText("00:00:00") && LastClock("00:00:00") == 0 && ToSeconds("00:00:00") == "00:00:00"
  {
    ClockRoundTrip(0);
    assert ClockText(0) == "00:00:00";
  }

  lemma FirstSecondOfYear(year: int) returns (start: Start)
    requires 0 <= year && DayFromYear(year) <= LAST_DAY
    ensures IsStart(start) && HasTime(start) && FieldsOf(start.date).year == year
    ensures StartSecond(start) == DayFromYear(year) * SECONDS_PER_DAY
  {
    hide LastClock, IsTimeText, ToSeconds, DayOf, IsRealDate, ToIsoDate, DayFromYear;
    NewYearText(year);
    MidnightText();
    start := Start(ToIsoDate(DayFromYear(year)), Some("00:00:00"));
  }

  lemma CoveredPastIsRefused(start: Start, minimumHours: nat, now: int)
    requires IsStart(start) && minimumHours > 0 && IsClock(now) && LeadCoversThePast(minimumHours, now)
    requires IsTooSoon(start, minimumHours, now) == Returned(false)
    ensures IsBookingStartInPast(start, now) == Returned(false)
  {
    BusinessTimeNamesItsSecond(now);
    LeadEndsLater(now, minimumHours);
    hide IsStart, IsTooSoon, IsBookingStartInPast, BusinessDay, BusinessSecond, StartSecond, YearOf, FirstFour,
      DayFromYear, IsOver, LeadEnd;
    TooSoonMeaning(start, minimumHours, now);
    PastMeaning(start, now);
    if IsOver(start, now) {
      OverStartsAreEarly(start, now, FirstFour(BusinessYear(LeadEnd(now, minimumHours))));
    }
  }

  lemma UncoveredYear(minimumHours: nat, now: int)
    requires IsClock(now) && !LeadCoversThePast(minimumHours, now)
    ensures var end := LeadEnd(now, minimumHours);
      && BusinessDay(end) > LAST_DAY && BusinessYear(end) >= 10_000
      && var year := FirstFour(BusinessYear(end)) + 1;
      && DayFromYear(year) <= LAST_DAY && DayFromYear(year) * SECONDS_PER_DAY < BusinessSecond(now)
  {
    var end := LeadEnd(now, minimumHours);
    LeadEndsLater(now, minimumHours);
    YearsByDays(BusinessDay(end));
    DayAtSecond(now, DayFromYear(FirstFour(BusinessYear(end)) + 1));
    hide YearOf, FirstFour, DayFromYear, BusinessSecond, BusinessYear, LeadEnd;
  }

  lemma LaterYearsAreNotTooSoon(start: Start, minimumHours: nat, now: int)
    requires IsStart(start) && IsClock(now) && IsInstant(LeadEnd(now, minimumHours))
    requires BusinessDay(LeadEnd(now, minimumHours)) > LAST_DAY && BusinessYear(LeadEnd(now, minimumHours)) >= 10_000
    requires FieldsOf(start.date).year > FirstFour(BusinessYear(LeadEnd(now, minimumHours)))
    ensures IsTooSoon(start, minimumHours, now) == Returned(false)
  {
    hide IsStart, IsTooSoon, BusinessDay, BusinessYear, FirstFour, LeadEnd, IsShortNotice, FieldsOf;
    TooSoonMeaning(start, minimumHours, now);
  }

  lemma UncoveredPastIsAccepted(minimumHours: nat, now: int) returns (start: Start)
    requires minimumHours > 0 && IsClock(now) && IsInstant(LeadEnd(now, minimumHours))
        && !LeadCoversThePast(minimumHours, now)
    ensures IsStart(start) && IsTooSoon(start, minimumHours, now) == Returned(false)
    ensures IsBookingStartInPast(start, now) == Returned(true)
  {
    hide IsTooSoon, IsBookingStartInPast, IsStart, BusinessDay, BusinessSecond, BusinessYear, StartSecond, FirstFour,
      DayFromYear, IsOver, LeadEnd, LeadCoversThePast, FieldsOf;
    BusinessTimeNamesItsSecond(now);
    UncoveredYear(minimumHours, now);
    start := FirstSecondOfYear(FirstFour(BusinessYear(LeadEnd(now, minimumHours))) + 1);
    LaterYearsAreNotTooSoon(start, minimumHours, now);
    TimedStartIsOver(start, now);
    PastMeaning(start, now);
  }

  /**
   * A request that respects a positive lead is never already in the past, for all starts exactly when the lead covers
   * the past.
   */
  lemma LeadTimeExcludesPast(minimumHours: nat, now: int)
    requires minimumHours > 0 && IsClock(now) && IsInstant(LeadEnd(now, minimumHours))
    ensures (forall start | IsStart(start) && IsTooSoon(start, minimumHours, now) == Returned(false) ::
               IsBookingStartInPast(start, now) == Returned(false))
       <==> LeadCoversThePast(minimumHours, now)
  {
    hide IsStart, IsTooSoon, IsBookingStartInPast, LeadCoversThePast, IsClock;
    if LeadCoversThePast(minimumHours, now) {
      forall start | IsStart(start) && IsTooSoon(start, minimumHours, now) == Returned(false)
        ensures IsBookingStartInPast(start, now) == Returned(false)
      {
        CoveredPastIsRefused(start, minimumHours, now);
      }
    } else {
      var start := UncoveredPastIsAccepted(minimumHours, now);
    }
  }

  /** With a lead of seventy million hours starts of last year are accepted today. */
  lemma HugeLeadAcceptsThePast() returns (start: Start)
    ensures IsClock(NOW_2026) && IsStart(start) && FieldsOf(start.date).year == 2025
    ensures IsTooSoon(start, 70_000_000, NOW_2026) == Returned(false)
    ensures IsBookingStartInPast(start, NOW_2026) == Returned(true)
  {
    assert DayFromYear(2025) == 20_089 && BusinessDay(NOW_2026) == 20_454;
    start := FirstSecondOfYear(2025);
    hide IsStart, StartSecond, DayFromYear, IsTooSoon, IsBookingStartInPast, FieldsOf, IsOver;
    HugeLeadRefusesNone(start);
    BusinessTimeNamesItsSecond(NOW_2026);
    TimedStartIsOver(start, NOW_2026);
    PastMeaning(start, NOW_2026);
  }

  lemma TimedStartIsOver(start: Start, now: int)
    requires IsStart(start) && HasTime(start)
    ensures IsOver(start, now) <==> StartSecond(start) < BusinessSecond(now)
  {
  }

  lemma DayAtSecond(now: int, day: int)
    requires BusinessSecond(now) > day * SECONDS_PER_DAY
    ensures day <= BusinessDay(now)
  {
  }
}
