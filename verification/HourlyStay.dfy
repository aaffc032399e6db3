/** The hourly hotel stay contract: whole-hour times, occupancy per hour, request and room configuration checks. */
module HourlyStay {
  import opened Outcomes
  import opened Strings
  import opened Digits
  import opened Sorting

  const HOURS_PER_DAY := 24

  // ---- Whole-hour times ----

  /** `/^([01]\d|2[0-4]):00(:00)?$/` */
  predicate IsWholeHourText(time: string) {
    && (|time| == 5 || |time| == 8)
    && (((time[0] == '0' || time[0] == '1') && IsDigit(time[1])) || (time[0] == '2' && '0' <= time[1] <= '4'))
    && time[2..5] == ":00"
    && time[5..] == (if |time| == 8 then ":00" else "")
  }

  /** The hour a time names; a null time, or one off an hour boundary, names none. */
  function ParseWholeHour(time: Option<string>): Option<nat> {
    if time.None? || !IsWholeHourText(time.value) then None
    else
      var hour := ToNat(time.value[..2]);
      if hour <= HOURS_PER_DAY then Some(hour) else None
  }

  function FormatHour(hour: nat): string {
    PadStart(NatToString(hour), 2) + ":00"
  }

  lemma HourDigits(hour: nat)
    requires hour <= HOURS_PER_DAY
    ensures var digits := ['0' + (hour / 10) as char, '0' + (hour % 10) as char];
      && FormatHour(hour) == digits + ":00" && AllDigits(digits) && ToNat(digits) == hour
  {
    assert Pow10(2) == 100;
    PadStartOfNat(hour, 2);
    FixedNames(hour, 2);
    assert Fixed(hour / 10, 1) == Fixed(hour / 10 / 10, 0) + [DigitChar(hour / 10 % 10)];
    assert Fixed(hour, 2) == [DigitChar(hour / 10), DigitChar(hour % 10)];
  }

  /** Exactly two texts name an hour: its `HH:00` form and that form with seconds. */
  lemma ParseInvertsFormat(time: string, hour: nat)
    ensures ParseWholeHour(Some(time)) == Some(hour)
       <==> hour <= HOURS_PER_DAY && (time == FormatHour(hour) || time == FormatHour(hour) + ":00")
    ensures hour <= 24 ==> FormatHour(hour) == ['0' + (hour / 10) as char, '0' + (hour % 10) as char] + ":00"
  {
    hide FormatHour, ToNat;
    if hour <= HOURS_PER_DAY {
      HourDigits(hour);
      var digits := ['0' + (hour / 10) as char, '0' + (hour % 10) as char];
      assert FormatHour(hour)[..2] == digits && (FormatHour(hour) + ":00")[..2] == digits;
      if IsWholeHourText(time) && ToNat(time[..2]) == hour {
        ToNatIsInjective(time[..2], digits);
        assert time == time[..2] + time[2..5] + time[5..];
      }
    }
  }

  // ---- Occupancy ----

  /** A timed row: the hold it was made for and, once that is booked, the booking item that owns it. */
  datatype Reservation = Reservation(holdId: nat, startHour: int, endHour: int, quantity: nat, item: Option<nat>)

  predicate IntervalsOverlap(aStart: int, aEnd: int, bStart: int, bEnd: int) {
    aStart < bEnd && bStart < aEnd
  }

  /** The rooms taken in the slot `[hour, hour + 1)`. */
  function OccupiedAt(reservations: seq<Reservation>, hour: int): nat {
    if reservations == [] then 0
    else
      var r := Last(reservations);
      OccupiedAt(DropLast(reservations), hour)
      + if IntervalsOverlap(hour, hour + 1, r.startHour, r.endHour) then r.quantity else 0
  }

  /** The busiest slot of `[startHour, endHour)`. */
  function Peak(reservations: seq<Reservation>, startHour: int, endHour: int): nat
    decreases endHour - startHour
  {
    if endHour <= startHour then 0
    else
      var before, here := Peak(reservations, startHour, endHour - 1), OccupiedAt(reservations, endHour - 1);
      if here > before then here else before
  }

  method PeakOccupiedQuantity(reservations: seq<Reservation>, startHour: int, endHour: int) returns (peak: nat)
    ensures peak == Peak(reservations, startHour, endHour)
  {
    peak := 0;
    var hour := startHour;
    while hour < endHour
      invariant hour <= endHour || hour == startHour
      invariant startHour <= hour
      invariant peak == Peak(reservations, startHour, hour)
    {
      var occupied := OccupiedAt(reservations, hour);
      peak := if occupied > peak then occupied else peak;
      hour := hour + 1;
    }
  }

  lemma {:induction false} PeakIsBusiestHour(reservations: seq<Reservation>, startHour: int, endHour: int)
    ensures forall hour :: startHour <= hour < endHour
              ==> OccupiedAt(reservations, hour) <= Peak(reservations, startHour, endHour)
    ensures Peak(reservations, startHour, endHour) == 0
         || exists hour :: startHour <= hour < endHour
              && OccupiedAt(reservations, hour) == Peak(reservations, startHour, endHour)
    decreases endHour - startHour
  {
    if startHour < endHour {
      PeakIsBusiestHour(reservations, startHour, endHour - 1);
      assert OccupiedAt(reservations, endHour - 1) <= Peak(reservations, startHour, endHour);
    }
  }

  /** The rooms physically in use at a moment of the day, on the continuous clock. */
  ghost function InUse(reservations: seq<Reservation>, t: real): nat {
    if reservations == [] then 0
    else
      var r := Last(reservations);
      InUse(DropLast(reservations), t) + if r.startHour as real <= t < r.endHour as real then r.quantity else 0
  }

  lemma {:induction false} SlotCountsItsMoments(reservations: seq<Reservation>, t: real)
    ensures InUse(reservations, t) == OccupiedAt(reservations, t.Floor)
  {
    if reservations != [] {
      SlotCountsItsMoments(DropLast(reservations), t);
    }
  }

  /** The per-hour peak is the true maximum over every moment of the request. */
  lemma PeakIsTrueMaximum(reservations: seq<Reservation>, startHour: int, endHour: int)
    requires startHour < endHour
    ensures forall t: real | startHour as real <= t < endHour as real ::
              InUse(reservations, t) <= Peak(reservations, startHour, endHour)
    ensures exists t: real | startHour as real <= t < endHour as real ::
              InUse(reservations, t) == Peak(reservations, startHour, endHour)
  {
    PeakIsBusiestHour(reservations, startHour, endHour);
    forall t: real | startHour as real <= t < endHour as real
      ensures InUse(reservations, t) <= Peak(reservations, startHour, endHour)
    {
      SlotCountsItsMoments(reservations, t);
      assert startHour <= t.Floor < endHour;
    }
    var busiest: int;
    if Peak(reservations, startHour, endHour) == 0 {
      busiest := startHour;
      assert OccupiedAt(reservations, startHour) <= 0;
    } else {
      busiest :| startHour <= busiest < endHour
              && OccupiedAt(reservations, busiest) == Peak(reservations, startHour, endHour);
    }
    SlotCountsItsMoments(reservations, busiest as real);
    assert InUse(reservations, busiest as real) == Peak(reservations, startHour, endHour);
  }

  lemma {:induction false} OccupiedConcat(a: seq<Reservation>, b: seq<Reservation>, hour: int)
    ensures OccupiedAt(a + b, hour) == OccupiedAt(a, hour) + OccupiedAt(b, hour)
  {
    if b == [] {
      assert a + b == a;
    } else {
      OccupiedConcat(a, DropLast(b), hour);
      assert DropLast(a + b) == a + DropLast(b);
    }
  }

  /** Taking one reservation out of the list takes exactly its own share out of every hour. */
  lemma OccupiedWithout(reservations: seq<Reservation>, m: nat, hour: int)
    requires m < |reservations|
    ensures OccupiedAt(reservations, hour)
         == OccupiedAt(reservations[..m] + reservations[m + 1..], hour) + OccupiedAt([reservations[m]], hour)
  {
    assert reservations == reservations[..m] + ([reservations[m]] + reservations[m + 1..]);
    OccupiedConcat(reservations[..m], [reservations[m]] + reservations[m + 1..], hour);
    OccupiedConcat([reservations[m]], reservations[m + 1..], hour);
    OccupiedConcat(reservations[..m], reservations[m + 1..], hour);
  }

  lemma {:induction false} OccupancyIgnoresOrder(a: seq<Reservation>, b: seq<Reservation>, hour: int)
    requires multiset(a) == multiset(b)
    ensures OccupiedAt(a, hour) == OccupiedAt(b, hour)
  {
    hide OccupiedAt;
    SameLength(a, b);
    if a != [] {
      var m := FindAndRemove(a, b);
      OccupiedWithout(a, 0, hour);
      assert a[..0] + a[1..] == a[1..];
      OccupiedWithout(b, m, hour);
      OccupancyIgnoresOrder(a[1..], b[..m] + b[m + 1..], hour);
    }
  }

  /** The peak does not depend on the order the reservations are listed in. */
  lemma {:induction false} PeakIgnoresOrder(a: seq<Reservation>, b: seq<Reservation>, startHour: int, endHour: int)
    requires multiset(a) == multiset(b)
    ensures Peak(a, startHour, endHour) == Peak(b, startHour, endHour)
    decreases endHour - startHour
  {
    if startHour < endHour {
      PeakIgnoresOrder(a, b, startHour, endHour - 1);
      OccupancyIgnoresOrder(a, b, endHour - 1);
    }
  }

  // ---- The room's configuration and one request against it ----

  datatype RoomHours = RoomHours(minHours: int, maxHours: int, availableFrom: Option<string>,
                                 availableUntil: Option<string>)

  datatype StayRequest = StayRequest(dateFrom: string, dateTo: string, startTime: Option<string>,
                                     endTime: Option<string>)

  datatype StayIssue = TimeInvalid | CrossMidnight | DurationOutOfRange | OutsideWindow

  datatype StayCheck = ValidStay(startHour: nat, endHour: nat, hours: int) | InvalidStay(issue: StayIssue)

  /** A missing hour in a numeric comparison: JavaScript reads null as 0. */
  function HourOrZero(hour: Option<nat>): nat {
    if hour.Some? then hour.value else 0
  }

  function ValidateHourlyStay(request: StayRequest, room: RoomHours): StayCheck {
    if request.dateFrom != request.dateTo then InvalidStay(CrossMidnight)
    else
      var start, end := ParseWholeHour(request.startTime), ParseWholeHour(request.endTime);
      if start.None? || end.None? || start.value >= HOURS_PER_DAY then InvalidStay(TimeInvalid)
      else if end.value <= start.value then InvalidStay(TimeInvalid)
      else
        var hours := end.value - start.value;
        if hours < room.minHours || hours > room.maxHours then InvalidStay(DurationOutOfRange)
        else if start.value < HourOrZero(ParseWholeHour(room.availableFrom))
             || end.value > HourOrZero(ParseWholeHour(room.availableUntil))
        then InvalidStay(OutsideWindow)
        else ValidStay(start.value, end.value, hours)
  }

  datatype HourlyConfig = HourlyConfig(
    enabled: bool, priceAmount: Option<string>, priceCurrency: Option<string>,
    minHours: Option<int>, maxHours: Option<int>, availableFrom: Option<string>, availableUntil: Option<string>)

  datatype ConfigField =
    PriceAmount | PriceCurrency | MinDurationHours | MaxDurationHours | AvailableFrom | AvailableUntil

  datatype ConfigIssue = Incomplete(field: ConfigField) | DurationRangeInvalid | WindowInvalid

  predicate IsMissing(config: HourlyConfig, field: ConfigField) {
    match field
    case PriceAmount => config.priceAmount.None?
    case PriceCurrency => config.priceCurrency.None?
    case MinDurationHours => config.minHours.None?
    case MaxDurationHours => config.maxHours.None?
    case AvailableFrom => config.availableFrom.None?
    case AvailableUntil => config.availableUntil.None?
  }

  predicate IsComplete(config: HourlyConfig) {
    forall field: ConfigField :: !IsMissing(config, field)
  }

  const REQUIRED_FIELDS := [
    PriceAmount, PriceCurrency, MinDurationHours, MaxDurationHours, AvailableFrom, AvailableUntil]

  /** One issue per missing field, in field order. */
  function MissingFields(config: HourlyConfig, fields: seq<ConfigField>): (issues: seq<ConfigIssue>)
    ensures forall issue :: issue in issues
              <==> issue.Incomplete? && issue.field in fields && IsMissing(config, issue.field)
  {
    if fields == [] then []
    else
      assert fields == DropLast(fields) + [Last(fields)];
      MissingFields(config, DropLast(fields))
      + if IsMissing(config, Last(fields)) then [Incomplete(Last(fields))] else []
  }

  lemma EveryFieldIsRequired(field: ConfigField)
    ensures field in REQUIRED_FIELDS
  {
    var position := match field
      case PriceAmount => 0 case PriceCurrency => 1 case MinDurationHours => 2
      case MaxDurationHours => 3 case AvailableFrom => 4 case AvailableUntil => 5;
    assert REQUIRED_FIELDS[position] == field;
  }

  function IssueIf(missing: bool, field: ConfigField): seq<ConfigIssue> {
    if missing then [Incomplete(field)] else []
  }

  lemma OneMoreField(config: HourlyConfig, fields: seq<ConfigField>, field: ConfigField)
    ensures MissingFields(config, fields + [field])
         == MissingFields(config, fields) + IssueIf(IsMissing(config, field), field)
  {
    assert DropLast(fields + [field]) == fields;
  }

  /** The six fields, each with what reports it, in the order of the report. */
  lemma MissingInOrder(config: HourlyConfig)
    ensures MissingFields(config, REQUIRED_FIELDS)
         == IssueIf(config.priceAmount.None?, PriceAmount) + IssueIf(config.priceCurrency.None?, PriceCurrency)
            + IssueIf(config.minHours.None?, MinDurationHours) + IssueIf(config.maxHours.None?, MaxDurationHours)
            + IssueIf(config.availableFrom.None?, AvailableFrom) + IssueIf(config.availableUntil.None?, AvailableUntil)
  {
    hide MissingFields, IssueIf;
    var one := [] + [PriceAmount];
    var two := one + [PriceCurrency];
    var three := two + [MinDurationHours];
    var four := three + [MaxDurationHours];
    var five := four + [AvailableFrom];
    assert five + [AvailableUntil] == REQUIRED_FIELDS;
    NothingMissing(config);
    OneMoreField(config, [], PriceAmount);
    assert [] + IssueIf(config.priceAmount.None?, PriceAmount) == IssueIf(config.priceAmount.None?, PriceAmount);
    OneMoreField(config, one, PriceCurrency);
    OneMoreField(config, two, MinDurationHours);
    OneMoreField(config, three, MaxDurationHours);
    OneMoreField(config, four, AvailableFrom);
    OneMoreField(config, five, AvailableUntil);
  }

  lemma NothingMissing(config: HourlyConfig)
    ensures MissingFields(config, []) == []
  {
  }

  predicate WindowFits(config: HourlyConfig)
    requires IsComplete(config)
  {
    assert !IsMissing(config, MinDurationHours);
    var from, until := ParseWholeHour(config.availableFrom), ParseWholeHour(config.availableUntil);
    from.Some? && until.Some? && from.value < HOURS_PER_DAY && from.value < until.value
    && config.minHours.value <= until.value - from.value
  }

  lemma CompleteMeansAllSix(config: HourlyConfig)
    ensures IsComplete(config)
       <==> && config.priceAmount.Some? && config.priceCurrency.Some? && config.minHours.Some?
            && config.maxHours.Some? && config.availableFrom.Some? && config.availableUntil.Some?
  {
    if IsComplete(config) {
      assert !IsMissing(config, PriceAmount) && !IsMissing(config, PriceCurrency);
      assert !IsMissing(config, MinDurationHours) && !IsMissing(config, MaxDurationHours);
      assert !IsMissing(config, AvailableFrom) && !IsMissing(config, AvailableUntil);
    }
  }

  method ValidateHourlyConfig(config: HourlyConfig) returns (issues: seq<ConfigIssue>)
    ensures !config.enabled ==> issues == []
    ensures IsComplete(config)
       <==> && config.priceAmount.Some? && config.priceCurrency.Some? && config.minHours.Some?
            && config.maxHours.Some? && config.availableFrom.Some? && config.availableUntil.Some?
    ensures config.enabled && !IsComplete(config) ==>
      issues == IssueIf(config.priceAmount.None?, PriceAmount) + IssueIf(config.priceCurrency.None?, PriceCurrency)
                + IssueIf(config.minHours.None?, MinDurationHours) + IssueIf(config.maxHours.None?, MaxDurationHours)
                + IssueIf(config.availableFrom.None?, AvailableFrom)
                + IssueIf(config.availableUntil.None?, AvailableUntil)
    ensures config.enabled && IsComplete(config) ==>
      issues == (if config.maxHours.value < config.minHours.value then [DurationRangeInvalid] else [])
                 + (if WindowFits(config) then [] else [WindowInvalid])
  {
    CompleteMeansAllSix(config);
    if !config.enabled {
      return [];
    }
    MissingInOrder(config);
    var missing := MissingFields(config, REQUIRED_FIELDS);
    assert IsComplete(config) <==> missing == [] by {
      forall field: ConfigField
        ensures IsMissing(config, field) <==> Incomplete(field) in missing
      {
        EveryFieldIsRequired(field);
      }
      if missing != [] {
        assert missing[0] in missing;
      }
    }
    if missing != [] {
      return missing;
    }
    issues := [];
    assert !IsMissing(config, MinDurationHours) && !IsMissing(config, MaxDurationHours);
    if config.maxHours.value < config.minHours.value {
      issues := issues + [DurationRangeInvalid];
    }
    var from, until := ParseWholeHour(config.availableFrom), ParseWholeHour(config.availableUntil);
    if from.None? || until.None? || from.value >= HOURS_PER_DAY || until.value <= from.value
       || until.value - from.value < config.minHours.value {
      issues := issues + [WindowInvalid];
    }
  }

  /** An enabled configuration that `ValidateHourlyConfig` has nothing to say about. */
  predicate IsCoherent(config: HourlyConfig) {
    && IsComplete(config)
    && !IsMissing(config, MinDurationHours) && !IsMissing(config, MaxDurationHours)
    && config.minHours.value <= config.maxHours.value
    && WindowFits(config)
  }

  /** The stay check never reports hours outside the day, an empty stay, or a stay outside the room's rules. */
  lemma ValidStayMeaning(request: StayRequest, room: RoomHours, start: nat, end: nat)
    ensures ValidateHourlyStay(request, room) == ValidStay(start, end, end - start)
       <==> && request.dateFrom == request.dateTo
            && request.startTime.Some? && request.startTime.value in {FormatHour(start), FormatHour(start) + ":00"}
            && request.endTime.Some? && request.endTime.value in {FormatHour(end), FormatHour(end) + ":00"}
            && start < end <= HOURS_PER_DAY
            && room.minHours <= end - start <= room.maxHours
            && HourOrZero(ParseWholeHour(room.availableFrom)) <= start
            && end <= HourOrZero(ParseWholeHour(room.availableUntil))
  {
    if request.startTime.Some? && request.endTime.Some? {
      ParseInvertsFormat(request.startTime.value, start);
      ParseInvertsFormat(request.endTime.value, end);
      var s, e := ParseWholeHour(request.startTime), ParseWholeHour(request.endTime);
      if s.Some? { ParseInvertsFormat(request.startTime.value, s.value); }
      if e.Some? { ParseInvertsFormat(request.endTime.value, e.value); }
    }
  }

  /** The text names an hour, with or without seconds. */
  predicate Names(time: Option<string>, hour: nat) {
    hour <= HOURS_PER_DAY && time.Some? && (time.value == FormatHour(hour) || time.value == FormatHour(hour) + ":00")
  }

  /** A rejection names the first broken rule: one date, then two hours in order, then the duration, then the window. */
  lemma IssueIsFirstBrokenRule(request: StayRequest, room: RoomHours)
    ensures var check := ValidateHourlyStay(request, room);
      var timesFit := exists start: nat, end: nat ::
                        Names(request.startTime, start) && Names(request.endTime, end) && start < end;
      && (check == InvalidStay(CrossMidnight) <==> request.dateFrom != request.dateTo)
      && (check == InvalidStay(TimeInvalid) <==> request.dateFrom == request.dateTo && !timesFit)
      && (forall start: nat, end: nat | request.dateFrom == request.dateTo && start < end
            && Names(request.startTime, start) && Names(request.endTime, end) ::
            && (check == InvalidStay(DurationOutOfRange) <==> !(room.minHours <= end - start <= room.maxHours))
            && (check == InvalidStay(OutsideWindow)
                <==> && room.minHours <= end - start <= room.maxHours
                     && (start < HourOrZero(ParseWholeHour(room.availableFrom))
                         || HourOrZero(ParseWholeHour(room.availableUntil)) < end)))
  {
    forall time: Option<string>, hour: nat
      ensures Names(time, hour) <==> ParseWholeHour(time) == Some(hour)
    {
      if time.Some? {
        ParseInvertsFormat(time.value, hour);
      }
    }
    hide Names, ParseWholeHour;
  }

  /** The shortest stay a room takes: a duration limit below one hour means one hour. */
  function ShortestStay(room: RoomHours): int {
    if room.minHours < 1 then 1 else room.minHours
  }

  /** Some request can pass exactly when the shortest stay fits in the window and under the longest. */
  lemma SomeStayPassesIff(room: RoomHours, date: string)
    ensures var from := HourOrZero(ParseWholeHour(room.availableFrom));
      var until := HourOrZero(ParseWholeHour(room.availableUntil));
      (exists request :: ValidateHourlyStay(request, room).ValidStay?)
      <==> from + ShortestStay(room) <= until && ShortestStay(room) <= room.maxHours
  {
    var start := HourOrZero(ParseWholeHour(room.availableFrom));
    if start + ShortestStay(room) <= HourOrZero(ParseWholeHour(room.availableUntil))
      && ShortestStay(room) <= room.maxHours {
      var end: nat := start + ShortestStay(room);
      var request := StayRequest(date, date, Some(FormatHour(start)), Some(FormatHour(end)));
      ValidStayMeaning(request, room, start, end);
      assert ValidateHourlyStay(request, room).ValidStay?;
    }
  }

  /**
   * A complete configuration that allows at least one hour is coherent exactly when it names an opening hour and some
   * request can pass it.
   */
  lemma CoherentIffSomeStayPasses(config: HourlyConfig, date: string)
    requires IsComplete(config)
    ensures !IsMissing(config, MinDurationHours) && !IsMissing(config, MaxDurationHours)
    ensures
      var room := RoomHours(config.minHours.value, config.maxHours.value, config.availableFrom, config.availableUntil);
      IsCoherent(config) && config.maxHours.value >= 1
      <==> ParseWholeHour(config.availableFrom).Some? && exists request :: ValidateHourlyStay(request, room).ValidStay?
  {
    assert !IsMissing(config, MinDurationHours) && !IsMissing(config, MaxDurationHours);
    var room := RoomHours(config.minHours.value, config.maxHours.value, config.availableFrom, config.availableUntil);
    hide ValidateHourlyStay;
    SomeStayPassesIff(room, date);
  }
}
