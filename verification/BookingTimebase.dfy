/** Business wall-clock time (a fixed offset from UTC) and when a booking starts. */
module BookingTimebase {
  import opened Outcomes
  import opened Strings
  import opened Digits
  import opened Gregorian
  import opened IsoDate

  const MS_PER_DAY := 86_400_000
  const SECONDS_PER_DAY := 86_400
  const BUSINESS_OFFSET_MS := 14_400_000 // Asia/Yerevan, UTC+4

  // The days whose year is written with four digits and no padding.
  const FIRST_FOUR_DIGIT_DAY := -354285

  datatype WallClock = WallClock(date: string, time: string)

  /** An instant, in milliseconds since 1970 UTC, as whole seconds of business wall-clock time. */
  function BusinessSecond(now: int): int {
    (now + BUSINESS_OFFSET_MS) / 1000
  }

  function BusinessDay(now: int): int {
    BusinessSecond(now) / SECONDS_PER_DAY
  }

  predicate InFourDigitYears(day: int) {
    FIRST_FOUR_DIGIT_DAY <= day <= LAST_DAY
  }

  /** A clock the database can give: its years have four digits. */
  predicate IsClock(now: int) {
    InFourDigitYears(BusinessDay(now))
  }

  // The seconds those years hold.
  const FIRST_SECOND := FIRST_FOUR_DIGIT_DAY * SECONDS_PER_DAY
  const LAST_SECOND := (LAST_DAY + 1) * SECONDS_PER_DAY - 1

  /** The formatter's date parts: the year is not padded, and years before 1 are counted backwards. */
  function BusinessDateText(day: int): string {
    var c := CivilOf(day);
    NatToString(if c.year >= 1 then c.year else 1 - c.year) + "-" + Fixed(c.month, 2) + "-" + Fixed(c.day, 2)
  }

  function ClockText(second: nat): string {
    Fixed(second / 3600, 2) + ":" + Fixed(second / 60 % 60, 2) + ":" + Fixed(second % 60, 2)
  }

  /** The formatted parts of an instant. */
  function BusinessTime(now: int): WallClock {
    var local := now + BUSINESS_OFFSET_MS;
    WallClock(BusinessDateText(local / MS_PER_DAY), ClockText(local % MS_PER_DAY / 1000))
  }

  // A date object beyond these milliseconds is invalid (ECMA-262 section 21.4.1.1).
  const LAST_INSTANT := 8_640_000_000_000_000

  predicate IsInstant(ms: int) {
    -LAST_INSTANT <= ms <= LAST_INSTANT
  }

  /** An invalid date is an error. */
  function ToBusinessDateTime(now: int): Outcome<WallClock> {
    if IsInstant(now) then Returned(BusinessTime(now)) else Thrown
  }

  /** `/^\d{2}:\d{2}:\d{2}$/`: what request validation lets through, with its seconds. */
  predicate IsTimeText(t: string) {
    && |t| == 8 && t[2] == ':' && t[5] == ':'
    && AllDigits(t[..2]) && AllDigits(t[3..5]) && AllDigits(t[6..])
  }

  /** `HH:MM:SS` on a 24-hour clock. */
  predicate IsClockText(t: string) {
    IsTimeText(t) && ToNat(t[..2]) < 24 && ToNat(t[3..5]) < 60 && ToNat(t[6..]) < 60
  }

  /** The hours, minutes and seconds a time text names, counted from midnight. */
  function NamedSecond(t: string): nat
    requires IsTimeText(t)
  {
    ToNat(t[..2]) * 3600 + ToNat(t[3..5]) * 60 + ToNat(t[6..])
  }

  /** The last second of a day whose clock text is not after the time text. */
  function LastClock(t: string): nat
    requires IsTimeText(t)
  {
    var hour, minute, second := ToNat(t[..2]), ToNat(t[3..5]), ToNat(t[6..]);
    if hour >= 24 then SECONDS_PER_DAY - 1
    else if minute >= 60 then hour * 3600 + 3599
    else if second >= 60 then hour * 3600 + minute * 60 + 59
    else NamedSecond(t)
  }

  lemma LastClockRange(t: string)
    requires IsTimeText(t)
    ensures 0 <= LastClock(t) < SECONDS_PER_DAY && LastClock(t) <= NamedSecond(t)
    ensures LastClock(t) == NamedSecond(t) <==> IsClockText(t)
  {
  }

  lemma ClockRoundTrip(second: nat)
    requires second < SECONDS_PER_DAY
    ensures IsClockText(ClockText(second)) && LastClock(ClockText(second)) == second
  {
    SmallPowers();
    hide Fixed, Pow10, ToNat;
    var t := ClockText(second);
    assert t[..2] == Fixed(second / 3600, 2) && t[3..5] == Fixed(second / 60 % 60, 2)
      && t[6..] == Fixed(second % 60, 2);
    FixedNames(second / 3600, 2);
    FixedNames(second / 60 % 60, 2);
    FixedNames(second % 60, 2);
  }

  lemma DigitPairOrder(p: string, q: string, x: string, y: string)
    requires AllDigits(p) && AllDigits(q) && |p| == |q| == 2
    ensures Less(p + x, q + y) <==> ToNat(p) < ToNat(q) || (ToNat(p) == ToNat(q) && Less(x, y))
  {
    SmallPowers();
    ToNatBound(p);
    ToNatBound(q);
    FixedOfToNat(p);
    FixedOfToNat(q);
    FixedOrder(ToNat(p), ToNat(q), 2);
    if p == q {
      LessAfterCommonPrefix(p, x, y);
    } else {
      LessByHeads(p, q, x, y);
      if ToNat(p) == ToNat(q) {
        ToNatIsInjective(p, q);
      }
    }
  }

  lemma TimeOfPieces(t: string)
    requires IsTimeText(t)
    ensures t == t[..2] + (":" + (t[3..5] + (":" + (t[6..] + ""))))
  {
  }

  /** A time text against the text of a clock: the last clock second not after it decides. */
  lemma ClockOrder(t: string, clock: string)
    requires IsTimeText(t) && IsClockText(clock)
    ensures Less(t, clock) <==> LastClock(t) < LastClock(clock)
  {
    var a, b := t, clock;
    TimeOfPieces(a);
    TimeOfPieces(b);
    DigitPairOrder(a[..2], b[..2], ":" + (a[3..5] + (":" + (a[6..] + ""))), ":" + (b[3..5] + (":" + (b[6..] + ""))));
    LessAfterCommonPrefix(":", a[3..5] + (":" + (a[6..] + "")), b[3..5] + (":" + (b[6..] + "")));
    DigitPairOrder(a[3..5], b[3..5], ":" + (a[6..] + ""), ":" + (b[6..] + ""));
    LessAfterCommonPrefix(":", a[6..] + "", b[6..] + "");
    DigitPairOrder(a[6..], b[6..], "", "");
    hide Less, ToNat;
    ClockFieldsDecide(ToNat(a[..2]), ToNat(a[3..5]), ToNat(a[6..]), ToNat(b[..2]), ToNat(b[3..5]), ToNat(b[6..]));
  }

  lemma ClockFieldsDecide(h: nat, m: nat, s: nat, hour: nat, minute: nat, second: nat)
    requires hour < 24 && minute < 60 && second < 60
    ensures var last := if h >= 24 then SECONDS_PER_DAY - 1 else if m >= 60 then h * 3600 + 3599
                        else if s >= 60 then h * 3600 + m * 60 + 59 else h * 3600 + m * 60 + s;
      h < hour || (h == hour && (m < minute || (m == minute && s < second)))
      <==> last < hour * 3600 + minute * 60 + second
  {
  }

  /** The last whole second of business time since 1970 that is not after a date and time text. */
  function WallSecond(date: string, time: string): int
    requires IsRealDate(date) && IsTimeText(time)
  {
    DayOf(date) * SECONDS_PER_DAY + LastClock(time)
  }

  /** String order on `YYYY-MM-DDTHH:MM:SS` texts, against one with a clock time, is order on these seconds. */
  lemma WallOrder(a: string, s: string, b: string, t: string)
    requires IsRealDate(a) && IsTimeText(s) && IsRealDate(b) && IsClockText(t)
    ensures Less(a + "T" + s, b + "T" + t) <==> WallSecond(a, s) < WallSecond(b, t)
  {
    hide DayOf, LastClock, NamedSecond, Less, IsClockText;
    assert |a| == |b| == 10;
    hide IsRealDate, IsTimeText;
    assert a + "T" + s == a + ("T" + s) && b + "T" + t == b + ("T" + t);
    ClockIsTime(t);
    TextOrderIsDayOrder(a, b);
    ClockOrder(s, t);
    LastClockRange(s);
    LastClockRange(t);
    if a == b {
      LessAfterCommonPrefix(a, "T" + s, "T" + t);
      LessAfterCommonPrefix("T", s, t);
    } else {
      LessByHeads(a, b, "T" + s, "T" + t);
    }
  }

  lemma ClockIsTime(t: string)
    requires IsClockText(t)
    ensures IsTimeText(t)
  {
  }

  lemma FourDigitYearText(day: int)
    requires InFourDigitYears(day)
    ensures BusinessDateText(day) == ToIsoDate(day)
  {
    FourDigitYears(day);
    var year := YearOf(day);
    assert DayFromYear(1000) == FIRST_FOUR_DIGIT_DAY;
    if year < 1000 {
      YearsAscend(year, 1000);
    }
    PadStartOfNat(year, 4);
    NatToStringLength(year, 3);
    assert Pow10(3) == 1000;
    SmallPowers();
  }

  /** In years written with four digits, business time reads back as the whole second of the instant. */
  lemma BusinessTimeNamesItsSecond(now: int)
    requires InFourDigitYears(BusinessDay(now))
    ensures IsInstant(now)
    ensures var business := BusinessTime(now);
      && IsRealDate(business.date) && IsClockText(business.time)
      && DayOf(business.date) == BusinessDay(now)
      && WallSecond(business.date, business.time) == BusinessSecond(now)
  {
    hide IsRealDate, DayOf, ToIsoDate, BusinessDateText, ClockText, IsTimeText, LastClock;
    var local := now + BUSINESS_OFFSET_MS;
    var day, second := local / MS_PER_DAY, local % MS_PER_DAY / 1000;
    assert BusinessSecond(now) == day * SECONDS_PER_DAY + second && day == BusinessDay(now);
    FourDigitYearText(day);
    DateRoundTrip(day);
    ClockRoundTrip(second);
  }

  // ---- When a booking starts ----

  datatype Start = Start(date: string, time: Option<string>)

  function ResolveBookingStart(unitType: string, dateFrom: string, usesRequestedTime: bool,
                               requestedStartTime: Option<string>, unitTimeSlotStart: Option<string>): Start {
    if usesRequestedTime then Start(dateFrom, requestedStartTime)
    else if unitType == "TOUR_DEPARTURE" && unitTimeSlotStart.Some? && unitTimeSlotStart.value != ""
    then Start(dateFrom, unitTimeSlotStart)
    else Start(dateFrom, None)
  }

  /** A null or empty time means a date-only start. */
  predicate HasTime(start: Start) {
    start.time.Some? && start.time.value != ""
  }

  /** `HH:MM` gains its seconds; anything longer is cut to `HH:MM:SS`. */
  function ToSeconds(time: string): string {
    if |time| == 5 then time + ":00" else if |time| <= 8 then time else time[..8]
  }

  /** A real date and, if any, two-digit hours, minutes and perhaps seconds: what request validation asks. */
  predicate IsStart(start: Start) {
    IsRealDate(start.date) && (HasTime(start) ==> IsTimeText(ToSeconds(start.time.value)))
  }

  /** The last second not after a start; a date-only start is its midnight. */
  function StartSecond(start: Start): int
    requires IsStart(start)
  {
    if HasTime(start) then WallSecond(start.date, ToSeconds(start.time.value)) else DayOf(start.date) * SECONDS_PER_DAY
  }

  function IsBookingStartInPast(start: Start, now: int): Outcome<bool> {
    match ToBusinessDateTime(now)
    case Thrown => Thrown
    case Returned(business) =>
      Returned(if !HasTime(start) then Less(start.date, business.date)
               else Less(start.date + "T" + ToSeconds(start.time.value), business.date + "T" + business.time))
  }

  // ---- Years of more than four digits ----

  /** The first four digits of a number of at least four. */
  function FirstFour(n: nat): (f: nat)
    ensures n >= 1000 ==> 1000 <= f <= 9999
  {
    if n < 10000 then n else FirstFour(n / 10)
  }

  lemma {:induction false} LongNumberText(n: nat)
    requires n >= 10000
    ensures |NatToString(n)| > 4 && IsDigit(NatToString(n)[4])
    ensures NatToString(n)[..4] == Fixed(FirstFour(n), 4)
  {
    var t := NatToString(n / 10);
    assert NatToString(n) == t + [DigitChar(n % 10)];
    if n / 10 >= 10000 {
      LongNumberText(n / 10);
    } else {
      SmallPowers();
      PadStartOfNat(n / 10, 4);
      NatToStringLength(n / 10, 3);
      assert Pow10(3) == 1000;
      assert NatToString(n)[..4] == t;
    }
  }

  /** The year an instant falls in. */
  function BusinessYear(now: int): int {
    YearOf(BusinessDay(now))
  }

  lemma YearsByDays(day: int)
    ensures YearOf(day) <= 9999 <==> day <= LAST_DAY
    ensures YearOf(day) >= 1000 <==> day >= FIRST_FOUR_DIGIT_DAY
  {
    hide DayFromYear;
    var year := YearOf(day);
    FirstDays();
    if year < 10000 { YearsAscend(year, 10000); }
    if 10000 < year { YearsAscend(10000, year); }
    if year < 1000 { YearsAscend(year, 1000); }
    if 1000 < year { YearsAscend(1000, year); }
  }

  lemma FirstDays()
    ensures DayFromYear(1000) == FIRST_FOUR_DIGIT_DAY && DayFromYear(10000) == LAST_DAY + 1
  {
  }

  lemma DateStartsWithYear(date: string)
    requires IsRealDate(date)
    ensures date == Fixed(FieldsOf(date).year, 4) + ("-" + date[5..])
    ensures 0 <= FieldsOf(date).year <= 9999
  {
    FieldsKeepText(date);
    assert date == date[..4] + [date[4]] + date[5..];
    assert DateText(FieldsOf(date))[..4] == Fixed(FieldsOf(date).year, 4);
  }

  /** A year followed by a hyphen against four digits followed by another digit. */
  lemma HyphenBeforeDigit(a: nat, b: nat, x: string, y: string)
    requires a <= 9999 && b <= 9999 && x != "" && x[0] == '-' && y != "" && IsDigit(y[0])
    ensures Less(Fixed(a, 4) + x, Fixed(b, 4) + y) <==> a <= b
  {
    SmallPowers();
    FixedOrder(a, b, 4);
    hide Fixed;
    if a == b {
      LessAfterCommonPrefix(Fixed(a, 4), x, y);
    } else {
      FixedNames(a, 4);
      FixedNames(b, 4);
      hide Pow10, ToNat;
      LessByHeads(Fixed(a, 4), Fixed(b, 4), x, y);
    }
  }

  /** Against a text with a longer year only the first four digits decide. */
  lemma LongYearOrder(date: string, rest: string, year: nat, tail: string)
    requires IsRealDate(date) && year >= 10000
    ensures Less(date + rest, NatToString(year) + tail) <==> FieldsOf(date).year <= FirstFour(year)
  {
    hide NatToString, Fixed, Less, IsCivil, ToNat;
    DateStartsWithYear(date);
    LongNumberText(year);
    var a, b, s := FieldsOf(date).year, FirstFour(year), NatToString(year);
    var x, y := "-" + date[5..] + rest, s[4..] + tail;
    assert date + rest == Fixed(a, 4) + x;
    assert s == s[..4] + s[4..];
    assert s + tail == Fixed(b, 4) + y;
    HyphenBeforeDigit(a, b, x, y);
  }

  function MonthAndDay(day: int): string {
    "-" + Fixed(CivilOf(day).month, 2) + "-" + Fixed(CivilOf(day).day, 2)
  }

  lemma LateDateText(day: int)
    requires YearOf(day) >= 1
    ensures BusinessDateText(day) == NatToString(YearOf(day)) + MonthAndDay(day)
  {
    hide NatToString, Fixed, YearOf, MonthFrom, DaysBeforeMonth, DayFromYear;
    assert CivilOf(day).year == YearOf(day);
  }

  /** The same for a date followed by anything, against the formatted time of a late instant. */
  lemma LateInstantOrder(date: string, rest: string, now: int, tail: string)
    requires IsRealDate(date) && BusinessDay(now) > LAST_DAY
    ensures BusinessYear(now) >= 10000
    ensures Less(date + rest, BusinessTime(now).date + tail) <==> FieldsOf(date).year <= FirstFour(BusinessYear(now))
  {
    hide IsRealDate, NatToString, YearOf, Less, MonthAndDay, BusinessDay, BusinessDateText, FieldsOf, FirstFour,
      ClockText;
    var day := BusinessDay(now);
    YearsByDays(day);
    BusinessDayOfLocal(now);
    LateDateText(day);
    LongYearOrder(date, rest, BusinessYear(now), MonthAndDay(day) + tail);
    assert BusinessTime(now).date + tail == NatToString(BusinessYear(now)) + (MonthAndDay(day) + tail);
  }

  lemma BusinessDayOfLocal(now: int)
    ensures (now + BUSINESS_OFFSET_MS) / MS_PER_DAY == BusinessDay(now)
  {
  }

  // ---- What "past" means ----

  /** A timed start is past once its second is over; a date-only start once its whole day is. */
  predicate IsOver(start: Start, now: int)
    requires IsStart(start)
  {
    if HasTime(start) then StartSecond(start) < BusinessSecond(now) else DayOf(start.date) < BusinessDay(now)
  }

  /** Whether text order agrees with time order for a date against an instant's formatted time. */
  predicate IsComparable(date: string, now: int)
    requires IsRealDate(date) && BusinessDay(now) >= FIRST_FOUR_DIGIT_DAY
  {
    YearsByDays(BusinessDay(now));
    BusinessDay(now) <= LAST_DAY || FieldsOf(date).year <= FirstFour(BusinessYear(now))
  }

  lemma StartsEndBeforeLateInstants(start: Start, now: int)
    requires IsStart(start) && BusinessDay(now) > LAST_DAY
    ensures StartSecond(start) < BusinessSecond(now) && IsOver(start, now)
  {
    hide IsRealDate, DayOf, IsTimeText, LastClock, ToSeconds;
    TextRoundTrip(start.date);
    if HasTime(start) {
      LastClockRange(ToSeconds(start.time.value));
    }
  }

  /** The comparison finds exactly the starts that are over and comparable with the clock. */
  lemma PastMeaning(start: Start, now: int)
    requires IsStart(start) && IsInstant(now) && BusinessDay(now) >= FIRST_FOUR_DIGIT_DAY
    ensures IsBookingStartInPast(start, now) == Returned(IsOver(start, now) && IsComparable(start.date, now))
  {
    hide IsRealDate, DayOf, IsTimeText, WallSecond, Less, BusinessTime, ToSeconds, BusinessDay, BusinessSecond,
      FirstFour, YearOf;
    if BusinessDay(now) > LAST_DAY {
      var rest := if HasTime(start) then "T" + ToSeconds(start.time.value) else "";
      var tail := if HasTime(start) then "T" + BusinessTime(now).time else "";
      LateInstantOrder(start.date, rest, now, tail);
      StartsEndBeforeLateInstants(start, now);
      assert start.date + "" == start.date && BusinessTime(now).date + "" == BusinessTime(now).date;
      assert HasTime(start) ==> start.date + rest == start.date + "T" + ToSeconds(start.time.value);
      assert HasTime(start) ==> BusinessTime(now).date + tail == BusinessTime(now).date + "T" + BusinessTime(now).time;
    } else {
      BusinessTimeNamesItsSecond(now);
      var business := BusinessTime(now);
      if HasTime(start) {
        WallOrder(start.date, ToSeconds(start.time.value), business.date, business.time);
      } else {
        TextOrderIsDayOrder(start.date, business.date);
      }
    }
  }

  /**
   * Which bookings are refused as past: a requested time or a tour's own slot decides to the second,
   * every other booking of today stays open all day.
   */
  lemma WhenBookingIsPast(unitType: string, dateFrom: string, usesRequestedTime: bool,
                          requestedStartTime: Option<string>, unitTimeSlotStart: Option<string>, now: int)
    requires IsStart(ResolveBookingStart(unitType, dateFrom, usesRequestedTime, requestedStartTime, unitTimeSlotStart))
    requires IsInstant(now) && BusinessDay(now) >= FIRST_FOUR_DIGIT_DAY
    ensures var time := if usesRequestedTime then requestedStartTime
                        else if unitType == "TOUR_DEPARTURE" then unitTimeSlotStart else None;
      var start := ResolveBookingStart(unitType, dateFrom, usesRequestedTime, requestedStartTime, unitTimeSlotStart);
      IsBookingStartInPast(start, now)
      == Returned(IsComparable(dateFrom, now) &&
                  if time.Some? && time.value != ""
                  then IsTimeText(ToSeconds(time.value))
                    && WallSecond(dateFrom, ToSeconds(time.value)) < BusinessSecond(now)
                  else DayOf(dateFrom) < BusinessDay(now))
  {
    var start := ResolveBookingStart(unitType, dateFrom, usesRequestedTime, requestedStartTime, unitTimeSlotStart);
    hide IsBookingStartInPast, IsRealDate, DayOf, IsTimeText, WallSecond, ToSeconds, IsComparable, BusinessDay,
      BusinessSecond;
    PastMeaning(start, now);
  }

  // ---- Times that no clock shows ----

  lemma LastSecondBound(instant: int)
    ensures BusinessDay(instant) <= LAST_DAY <==> BusinessSecond(instant) <= LAST_SECOND
  {
  }

  /** The moment a date and time text mean, counting hours, minutes and seconds from midnight. */
  function MeantSecond(date: string, time: string): int
    requires IsRealDate(date) && IsTimeText(time)
  {
    DayOf(date) * SECONDS_PER_DAY + NamedSecond(time)
  }

  lemma ClockSeconds(now: int)
    ensures IsClock(now) <==> FIRST_SECOND <= BusinessSecond(now) <= LAST_SECOND
  {
  }

  lemma ClockAt(second: int) returns (now: int)
    requires FIRST_SECOND <= second <= LAST_SECOND
    ensures IsClock(now) && BusinessSecond(now) == second
  {
    now := second * 1000 - BUSINESS_OFFSET_MS;
  }

  /** Whether the comparison reads the time as it is meant, at every clock. */
  ghost predicate IsReadAsMeant(date: string, time: string)
    requires IsRealDate(date) && IsTimeText(ToSeconds(time))
  {
    forall now | IsClock(now) ::
      IsBookingStartInPast(Start(date, Some(time)), now)
      == Returned(MeantSecond(date, ToSeconds(time)) < BusinessSecond(now))
  }

  lemma TimedPastMeaning(date: string, time: string, now: int)
    requires IsRealDate(date) && IsTimeText(ToSeconds(time)) && IsClock(now)
    ensures IsBookingStartInPast(Start(date, Some(time)), now)
         == Returned(WallSecond(date, ToSeconds(time)) < BusinessSecond(now))
  {
    var start := Start(date, Some(time));
    assert HasTime(start);
    BusinessTimeNamesItsSecond(now);
    hide IsBookingStartInPast, IsRealDate, WallSecond, ToSeconds, IsTimeText, BusinessDay, BusinessSecond;
    PastMeaning(start, now);
  }

  /**
   * A time is read as meant exactly when it is a clock time, or no clock falls between the last second it is not
   * after and the moment it means.
   */
  lemma WhenTimeIsReadAsMeant(date: string, time: string)
    requires IsRealDate(date) && IsTimeText(ToSeconds(time))
    ensures IsReadAsMeant(date, time)
       <==> || IsClockText(ToSeconds(time))
            || WallSecond(date, ToSeconds(time)) >= LAST_SECOND
            || MeantSecond(date, ToSeconds(time)) < FIRST_SECOND
  {
    var t := ToSeconds(time);
    LastClockRange(t);
    var last, meant := WallSecond(date, t), MeantSecond(date, t);
    assert last <= meant && (last == meant <==> IsClockText(t));
    hide IsRealDate, IsTimeText, IsClockText, WallSecond, MeantSecond, ToSeconds, IsBookingStartInPast,
      BusinessSecond, IsClock;
    forall now | IsClock(now)
      ensures IsBookingStartInPast(Start(date, Some(time)), now) == Returned(last < BusinessSecond(now))
      ensures FIRST_SECOND <= BusinessSecond(now) <= LAST_SECOND
    {
      TimedPastMeaning(date, time, now);
      ClockSeconds(now);
    }
    if last < meant && last < LAST_SECOND && FIRST_SECOND <= meant {
      var now := ClockAt(if last + 1 < FIRST_SECOND then FIRST_SECOND else last + 1);
      assert IsBookingStartInPast(Start(date, Some(time)), now) != Returned(meant < BusinessSecond(now));
    }
  }

  /** So from the year 1000 to the day before the last of 9999 exactly the clock times are read as meant. */
  lemma ClockTimesAreReadAsMeant(date: string, time: string)
    requires IsRealDate(date) && IsTimeText(ToSeconds(time))
    requires FIRST_FOUR_DIGIT_DAY <= DayOf(date) < LAST_DAY
    ensures IsReadAsMeant(date, time) <==> IsClockText(ToSeconds(time))
  {
    hide IsRealDate, DayOf, IsReadAsMeant, IsClockText, IsTimeText, ToSeconds, LastClock, NamedSecond;
    WhenTimeIsReadAsMeant(date, time);
    LastClockRange(ToSeconds(time));
  }

  /** At which instant, to the millisecond, a start in Yerevan time becomes past: when its second, or its day, ends. */
  lemma PastFromThisInstant(date: string, time: string, now: int)
    requires IsRealDate(date) && IsClock(now)
    ensures IsBookingStartInPast(Start(date, None), now)
         == Returned(now >= (DayOf(date) + 1) * 86_400_000 - 14_400_000)
    ensures
      var shown := if |time| == 5 then time + ":00" else if |time| > 8 then time[..8] else time;
      IsClockText(shown) ==>
        var second := ToNat(shown[..2]) * 3600 + ToNat(shown[3..5]) * 60 + ToNat(shown[6..]);
        IsBookingStartInPast(Start(date, Some(time)), now)
        == Returned(now >= (DayOf(date) * 86_400 + second + 1) * 1000 - 14_400_000)
  {
    BusinessTimeNamesItsSecond(now);
    hide IsBookingStartInPast, IsRealDate, DayOf, IsComparable, ToNat;
    PastMeaning(Start(date, None), now);
    ClocksCompare(date, now);
    if IsClockText(ToSeconds(time)) {
      LastClockRange(ToSeconds(time));
      TimedPastMeaning(date, time, now);
    }
  }

  lemma ClocksCompare(date: string, now: int)
    requires IsRealDate(date) && IsClock(now)
    ensures IsComparable(date, now)
  {
  }

  lemma TwentyFourHours()
    ensures ToSeconds("24:00") == "24:00:00" && IsTimeText("24:00:00") && !IsClockText("24:00:00")
    ensures LastClock("24:00:00") == SECONDS_PER_DAY - 1 && NamedSecond("24:00:00") == SECONDS_PER_DAY
  {
    var t := "24:00:00";
    assert t[..2] == "24" && t[3..5] == "00" && t[6..] == "00";
    assert ToNat("24") == 24 by { assert DropLast("24") == "2" && DropLast("2") == ""; assert ToNat("2") == 2; }
    assert ToNat("00") == 0 by { assert DropLast("00") == "0" && DropLast("0") == ""; assert ToNat("0") == 0; }
  }

  /** A start at 24:00 is taken for a date-only one: past from the very second it means. */
  lemma TwentyFourIsDateOnly(date: string, now: int)
    requires IsRealDate(date) && IsClock(now)
    ensures IsBookingStartInPast(Start(date, Some("24:00")), now) == IsBookingStartInPast(Start(date, None), now)
    ensures IsTimeText(ToSeconds("24:00"))
    ensures BusinessSecond(now) == MeantSecond(date, ToSeconds("24:00")) ==>
      IsBookingStartInPast(Start(date, Some("24:00")), now) == Returned(true)
  {
    TwentyFourHours();
    BusinessTimeNamesItsSecond(now);
    hide IsBookingStartInPast, IsRealDate, DayOf, ToSeconds, IsTimeText, LastClock, NamedSecond, IsClockText;
    TimedPastMeaning(date, "24:00", now);
    PastMeaning(Start(date, None), now);
  }
}
