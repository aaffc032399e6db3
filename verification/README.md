# TravelHub domain model

A Dafny model of the hard parts of TravelHub: the booking API's domain layer (hourly room inventory,
calendar and stay semantics, booking rules, exact money, currency conversion, quotes), the small stateful
protocols around it (the web client's shared token refresh, the permission cache, keyset pagination, the
migration runner), the assistant's event-stream reader, the error tracker's redactor, and slugs.

`dafny verify dfyconfig.toml` checks everything. One module per source component:

| module | what it models |
|---|---|
| `HourlyStay`, `RoomInventory`, `StayInventory` | whole-hour stays, the per-hour peak, admission, real rooms behind the counts, and stays over many dates |
| `Gregorian`, `IsoDate`, `CalendarExpansion`, `StayDates` | days behind date texts (ECMA-262 section 21.4.1), enumeration, blackouts, charged dates |
| `BookingTimebase`, `BookingRules` | business wall-clock time, past starts, stay and advance-booking rules |
| `Decimals`, `Monetary`, `FxConversion`, `UnitRangePrice`, `BookingQuote` | decimal texts, the money object, exact division and conversion, range prices, quotes |
| `TokenRefresh`, `PermissionCache`, `Pagination`, `Migrations` | step systems with invariants over every run |
| `StreamReader`, `Redactor`, `Slugify` | transformations of texts and object graphs |
| `Arithmetic`, `Outcomes`, `Strings`, `Digits`, `Sorting` | quotients, `null` and exceptions, JavaScript string, number and sort operations |

Code that updates state in place is imperative Dafny proved against a specification function:
`RoomDay`, `UnitInventory`, `ApiClient`, `CachedPermissionRepository`, `Runner` and `Walk` are classes, and the loops of the
peak, the date enumeration, the writes over a range of dates, the rule evaluation, the configuration check and the stream reader are methods
with invariants. An `await` cuts an operation into the steps other operations may come between. A thrown
error is `Thrown`, a `null` is `None`.

## Where the code falls short of a property

The model follows the code. Each of these is a lemma with the exact condition:

- The advance minimum is documented as at least N hours after now. Clock texts have whole seconds, so a start
  up to 999 ms early is accepted (`BookingRules.TooSoonInMilliseconds`).
- Both advance limits are INT UNSIGNED columns and their texts are compared as strings. A horizon past the year
  9999 refuses every start; the rule is right exactly when today plus the limit stays within that year
  (`BookingRules.WhenTooFarIsRight`). A lead that ends later finds exactly the starts whose year is at most the
  first four digits of the year it ends in (`BookingRules.TooSoonMeaning`, `BookingTimebase.IsComparable`), so a
  lead of seventy million hours refuses no present start (`BookingRules.HugeLeadRefusesNone`). Limits past the
  last JavaScript date make the evaluation fail (`Thrown`). Hence a lead excludes past starts, and the moments at
  which a request may be booked form an interval, under the exact conditions of
  `BookingRules.LeadTimeExcludesPast` and `BookingRules.BookingMomentsFormInterval`; a past start that is accepted
  and an interrupted window are `BookingRules.HugeLeadAcceptsThePast` and `BookingRules.WindowIsInterrupted`.
- Requested times are validated as two-digit hours and minutes only, so `24:00` and `99:99` are accepted and compared
  as texts. A time is read as the moment it names, at every clock, exactly when it is a clock time
  (`BookingTimebase.ClockTimesAreReadAsMeant`; for any date `WhenTimeIsReadAsMeant`); a start at 24:00 counts as a
  date-only one (`BookingTimebase.TwentyFourIsDateOnly`).
- A permission change is documented to take effect within one cache lifetime. A reader that is slow between
  its database read and its cache write extends that: an answer can be `ttl + gap - 1` old, and this age is
  reached. One lifetime is the bound of all runs exactly when no gap exceeds one tick
  (`PermissionCache.TtlIsBoundIffWritesArePrompt`).
- Permuted role lists share a cache key, as documented. Other lists do not as long as codes hold no comma; any
  list of two or more codes shares its key with the one code of its joined text (`PermissionCache.CommasCollide`),
  and what a reader then gets is `PermissionCache.AnswersComeFromTheirEntry`.
- Division is documented for non-negative amounts only. For a negative dividend it rounds half up exactly when
  twice the numerator plus the denominator is not negative, or is a multiple of twice the denominator
  (`FxConversion.WhenDivisionIsHalfUp`); -1 divided by 1 comes out as 0.
- Reading an amount cuts digits past the currency's, so a quote outside the required pattern is compared exactly
  when every digit past the second decimal is zero (`BookingQuote.ComparisonIsExactIffNothingIsCut`, and
  `BookingQuote.CutAmountIsMistaken` for one where it is not).
- `[Circular]` also replaces data that is merely shared, and every object but an array comes back as a plain
  one: data without a visible cycle is returned masked and otherwise unchanged exactly when no container is visible twice and
  every visible one is an array or a plain object (`Redactor.RedactionIsMasking`).
- Migration files may share a version. The recorded versions stay a prefix of the list under all commands exactly
  when at most the highest version repeats (`Migrations.RecordedIsAlwaysPrefix`); otherwise two `up` runs record a
  later migration over the skipped file (`Migrations.SkippedFileIsOvertaken`).
- Cursors are stable under inserts and deletes, as documented. A row whose sort value changes during the walk, as
  a conversation's does when it is touched, is missed exactly when it jumps from ahead of the walk to behind it and
  comes twice exactly when it jumps the other way (`Pagination.WhenMovedRowIsMissed`).
- A page's requests are documented to trigger exactly one refresh. They do exactly when no request meets a first
  `UNAUTHENTICATED` answer after that refresh has finished (`TokenRefresh.OneRefreshIffNoLateAnswer`); a run with
  two refreshes is `TokenRefresh.TwoRefreshesHappen`.

## Model

| member | source | states |
|---|---|---|
| HourlyStay.ParseInvertsFormat | apps/api/src/core/domain/hourlyStay.js:52-67 | an hour is named by exactly its two-digit text with `:00`, and that text with seconds; no other text parses |
| HourlyStay.PeakOccupiedQuantity | apps/api/src/core/domain/hourlyStay.js:79-97 | the loop computes the specified busiest-slot occupancy |
| HourlyStay.PeakIsBusiestHour | apps/api/src/core/domain/hourlyStay.js:74-97 | the peak bounds every hour slot of the request and some slot reaches it |
| HourlyStay.PeakIsTrueMaximum | apps/api/src/core/domain/hourlyStay.js:13-16 | the per-hour peak is the maximum number of rooms in use over every real instant of the half-open request |
| HourlyStay.OccupancyIgnoresOrder | apps/api/src/core/domain/hourlyStay.js:82-93 | an hour's occupancy is the same for every ordering of the reservations |
| HourlyStay.PeakIgnoresOrder | apps/api/src/core/domain/hourlyStay.js:79-97 | the peak is the same for every ordering of the reservations |
| HourlyStay.ValidateHourlyConfig | apps/api/src/core/domain/hourlyStay.js:107-153 | no issues when disabled; when a field is missing one issue for each missing one of the six, in their order, and nothing else; otherwise the duration and window issues in order |
| HourlyStay.SomeStayPassesIff | apps/api/src/core/domain/hourlyStay.js:162-188 | some request passes a room's rules exactly when the shortest allowed stay fits in its window and under its longest |
| HourlyStay.CoherentIffSomeStayPasses | apps/api/src/core/domain/hourlyStay.js:99-153 | a complete configuration of at least one hour is coherent exactly when it names an opening hour and some request passes the stay check |
| HourlyStay.ValidStayMeaning | apps/api/src/core/domain/hourlyStay.js:155-188 | which requests are valid, and with which hours: one date, two named hours in order within the day, the room's duration limits and window |
| HourlyStay.IssueIsFirstBrokenRule | apps/api/src/core/domain/hourlyStay.js:162-188 | which rule each of the four rejections names: two dates, no two hours in order, a duration out of range, a stay outside the window |
| RoomInventory.RoomsInUseCount | apps/api/src/core/domain/inventoryQuantityUnitTypes.js:2-9 | during any hour a plan of interchangeable rooms uses exactly the counted number of rooms |
| RoomInventory.PlaceInRooms | apps/api/src/core/domain/hourlyStay.js:13-16 | reservations within the limit at every hour can be given that many physical rooms, overlapping stays never sharing one |
| RoomInventory.PerHourLimitIsExact | apps/api/src/core/domain/hourlyStay.js:69-97 | every hour is within the limit exactly when a real room allocation exists |
| RoomInventory.AdmissionIsExact | apps/api/src/modules/availability/services/availabilityService.js:2304-2320 | free rooms minus peak cover the request exactly when adding its rows keeps every hour within the free rooms |
| RoomInventory.DayPeakBoundsEveryHour | apps/api/src/modules/availability/services/availabilityService.js:2365-2381 | the whole-day peak is within a limit exactly when every hour is |
| RoomInventory.ReleaseUndoesHold | apps/api/src/modules/availability/repositories/mysqlHourlyInventoryRepository.js:74-110 | releasing a hold's ids removes its own rows and no others, rows already moved to a booking included |
| RoomInventory.RoomForIsExact | apps/api/src/modules/availability/services/availabilityService.js:2107-2119 | the check of every date-level write admits a quantity exactly when every hour fits in what it leaves |
| RoomInventory.EventKeepsDay | apps/api/src/modules/availability/services/availabilityService.js:2090-2127 | hourly and nightly holds, releases, bookings, blocks and cancellations each keep every hour within the free rooms and every room accounted for |
| RoomInventory.CancelledBookingIsRelease | apps/api/src/modules/availability/services/availabilityService.js:2599-2641 | booking holds and cancelling the booking leaves the date as releasing the holds would have |
| RoomInventory.RunsNeverOverbook | apps/api/src/modules/availability/services/availabilityService.js:2304-2346 | after any run the free rooms, the nightly holds and the claims add up to the capacity and no hour exceeds the free rooms |
| RoomInventory.EveryRunHasRealRooms | apps/api/src/core/domain/hourlyStay.js:13-16 | at every moment of every run all hourly stays, one row for each active hourly hold among them, fit in physical rooms disjoint from those of nightly holds and claims |
| RoomInventory.ActiveHoldOwnsItsHours | apps/api/src/modules/availability/services/availabilityService.js:2322-2346 | over whole runs: from its grant on, as long as it is active, an hourly hold owns exactly one row not yet booked, with the hours its request named |
| RoomInventory.TransferFindsEveryRow | apps/api/src/modules/availability/services/availabilityService.js:2415-2431 | a booking of active hourly holds finds as many rows to move as it has holds |
| RoomInventory.RoomDay.TryHoldHourly | apps/api/src/modules/availability/services/availabilityService.js:2304-2346 | a valid stay is granted exactly when every hour it covers has the rooms; then each of these hours, and no other, has one room more in use for every hold, and the holds are active; no change when refused |
| RoomInventory.RoomDay.TakeQuantity | apps/api/src/modules/availability/services/availabilityService.js:2804-2823 | takes the quantity exactly when every hour fits in what is left |
| RoomInventory.RoomDay.TryHoldNightly | apps/api/src/modules/availability/services/availabilityService.js:2095-2145 | on one date: granted exactly when every hour fits in the rooms left; one hold a room |
| RoomInventory.RoomDay.TryTakeCapacity | apps/api/src/modules/availability/services/availabilityService.js:2793-2840 | on one date: a block or external reservation is admitted exactly when every hour fits in the rooms left, and recorded with its quantity |
| RoomInventory.RoomDay.ReleaseActiveHolds | apps/api/src/modules/availability/services/availabilityService.js:2553-2579 | all holds must be active; nightly ones restore their number, hourly ones free their rows |
| RoomInventory.RoomDay.BookActiveHolds | apps/api/src/modules/availability/services/availabilityService.js:2414-2431 | holds of one kind become a booking item that keeps their capacity; a missing timed row changes nothing |
| RoomInventory.RoomDay.ReleaseTakenCapacity | apps/api/src/modules/availability/services/availabilityService.js:2606-2641 | what a cancelled item, released block or cancelled reservation held becomes free again |
| StayInventory.HoldIsAllOrNothing | apps/api/src/modules/availability/services/availabilityService.js:2090-2145 | a hold over dates is granted exactly when every date has the rooms at every hour; then these dates and no others lose them, otherwise nothing changes |
| StayInventory.BlockIsAllOrNothing | apps/api/src/modules/availability/services/availabilityService.js:2767-2841 | a block or external reservation over dates is made exactly when every date has the rooms at every hour; then these dates and no others have them claimed, otherwise nothing changes |
| StayInventory.StayIsAllOrNothing | apps/api/src/modules/availability/services/availabilityService.js:2066-2145 | the same for the charged dates of any stay |
| StayInventory.WriteKeepsDates | apps/api/src/modules/availability/services/availabilityService.js:2767-2841 | a write over a range keeps every date from being overbooked at any hour |
| StayInventory.InventoryIsNeverOverbooked | apps/api/src/modules/availability/services/availabilityService.js:2090-2145 | over any run of stays, hours, blocks and their ends, each over its own dates, no date is overbooked at any hour |
| StayInventory.ReleaseUndoesStay | apps/api/src/modules/availability/services/availabilityService.js:2553-2579 | releasing a granted hold gives every date back as it was |
| StayInventory.CutStayTakesTheSame | apps/api/src/modules/availability/services/availabilityService.js:2066-2145 | a lodging stay is granted exactly when its two halves are in turn, and takes the same rooms |
| StayInventory.WrittenDates | apps/api/src/modules/availability/services/availabilityService.js:2090-2133 | the loop over the dates admits and writes all of them or none |
| StayInventory.UnitInventory.TryWriteRange | apps/api/src/modules/availability/services/availabilityService.js:2090-2133 | the transaction leaves the specified dates and every date free of overbooking |
| Gregorian.DayNumberOrder | apps/api/src/core/domain/calendarExpansion.js:16-18 | calendar order is day-number order, leap rule included, and a day number names one date |
| Gregorian.CivilRoundTrip | apps/api/src/core/domain/calendarExpansion.js:53-57 | a date recovered from its day number is the same date, for every year |
| Gregorian.CalendarIsGregorian | apps/api/src/core/domain/calendarExpansion.js:53-57 | the epoch, the length of every year by the leap rule, and the days before every month in closed form |
| Gregorian.ShiftIsAddition | apps/api/src/core/domain/bookingRuleEvaluation.js:57-61 | moving the day field and renormalising adds exactly that many days, across months, years and leap days |
| IsoDate.TextOrderIsDayOrder | apps/api/src/core/domain/calendarExpansion.js:16-18 | string order and equality on real dates are chronological order and equality |
| IsoDate.DateRoundTrip | apps/api/src/validation/isoDate.js:18-21 | writing a day of the years 0000 to 9999 and reading it gives that day |
| IsoDate.TextRoundTrip | apps/api/src/validation/isoDate.js:18-21 | reading a real date and writing it gives the same text |
| IsoDate.AcceptsExactlyRealDays | apps/api/src/validation/isoDate.js:13-25 | the schema accepts exactly the texts of real days, whether or not the engine rolls 30 February over |
| IsoDate.AcceptedIsReal | apps/api/src/validation/isoDate.js:13-25 | accepted texts are exactly those with digits in place, a month of the year and a day of that month |
| CalendarExpansion.EnumerateDates | apps/api/src/core/domain/calendarExpansion.js:46-60 | the millisecond loop ends and returns the specified dates, nothing for an invalid date, an error for an inverted span |
| CalendarExpansion.EnumerationIsEveryDay | apps/api/src/core/domain/calendarExpansion.js:35-60 | every day from first to last once, in order, span plus one of them; an error exactly when inverted |
| CalendarExpansion.EnumerationOfAnyTexts | apps/api/src/core/domain/calendarExpansion.js:46-60 | for any two texts of the form in order: no dates when one names no day, and what becomes of 30 February |
| CalendarExpansion.StatusByDay | apps/api/src/core/domain/calendarExpansion.js:29-33 | a day is blocked exactly when a blackout covers it or its own row is blocked |
| CalendarExpansion.ExpansionByDays | apps/api/src/core/domain/calendarExpansion.js:72-83 | an error exactly when the span is inverted; otherwise one entry a day in order, each blocked exactly by a covering blackout or its own row |
| StayDates.PreviousDayText | apps/api/src/core/domain/accommodationDateSemantics.js:43-47 | the text before a date is the previous real day, and before the first date of year 0000 a signed year |
| StayDates.ChargedDatesByDays | apps/api/src/core/domain/accommodationDateSemantics.js:49-66 | which days a stay is charged for, and when its range is rejected, for every unit type and order of dates |
| StayDates.ChargedDatesMatchStayLength | apps/api/src/core/domain/bookingRuleEvaluation.js:39-67 | for every listing type with a stay rule the charged dates number the stay length exactly from the first legal stay on |
| StayDates.RuleUnitsMatchUnitTypes | apps/api/src/core/domain/listingTypeBookableUnitTypes.js:24-31 | the listing types measured in nights are exactly those whose unit type is lodging, those in days the vehicles; tours and attractions alone have departures |
| StayDates.BackToBackStays | apps/api/src/core/domain/accommodationDateSemantics.js:6-14 | lodging stays a-b and b-c charge disjoint dates that together, in order, are those of a-c |
| BookingTimebase.ClockOrder | apps/api/src/core/domain/bookingTimebase.js:18-20 | a two-digit time text is before a clock's text exactly when the last clock second not after it is earlier |
| BookingTimebase.WallOrder | apps/api/src/core/domain/bookingTimebase.js:18-20 | the same for date and time texts against wall-clock texts; on clock times this is chronological order |
| BookingTimebase.BusinessTimeNamesItsSecond | apps/api/src/core/domain/bookingTimebase.js:43-57 | the formatted business time reads back as the instant's own whole second |
| BookingTimebase.LongYearOrder | apps/api/src/core/domain/bookingTimebase.js:18-20 | against a text with a year of five or more digits a date is earlier exactly when its year is at most the first four of them |
| BookingTimebase.PastMeaning | apps/api/src/core/domain/bookingTimebase.js:89-105 | a start is found past exactly when the last second not after it, or its whole day, is over and its year compares with the clock's |
| BookingTimebase.WhenTimeIsReadAsMeant | apps/api/src/core/domain/bookingTimebase.js:89-105 | a validated time is read as the moment it names, at every clock, exactly when it is a clock time or no clock falls in between |
| BookingTimebase.ClockTimesAreReadAsMeant | apps/api/src/modules/booking-holds/validators/bookingHoldValidators.js:23-26 | for dates of the years 1000 to 9999, the last day aside, the accepted times read as meant are exactly the clock times |
| BookingTimebase.TwentyFourIsDateOnly | apps/api/src/modules/booking-holds/validators/bookingHoldValidators.js:23-26 | an accepted start at 24:00 is taken for a date-only one at every clock, and is past at the very second it names |
| BookingTimebase.WhenBookingIsPast | apps/api/src/core/domain/bookingTimebase.js:63-105 | which bookings are refused as past, from the request: requested time, tour slot or date alone |
| BookingTimebase.PastFromThisInstant | apps/api/src/core/domain/bookingTimebase.js:89-105 | to the millisecond of UTC, the instant from which a start at a clock time, or on a date, is past |
| BookingRules.EvaluateBookingRules | apps/api/src/core/domain/bookingRuleEvaluation.js:89-143 | the list itself: each violation is on it exactly when its own limit is set and broken, in nights, days, seconds or calendar days; the order; none without rules; an error exactly when a set limit leaves the range of dates |
| BookingRules.TooSoonMeaning | apps/api/src/core/domain/bookingRuleEvaluation.js:121-129 | for every lead and every start: an error, or too soon exactly when the start's second is before the end of the lead and their years compare |
| BookingRules.WhenTooSoonIsRight | apps/api/src/core/domain/bookingRuleEvaluation.js:22-24 | the rule finds a start at short notice exactly when its year compares with that of the end of the lead |
| BookingRules.TooSoonInMilliseconds | apps/api/src/core/domain/bookingRuleEvaluation.js:22-24 | the exact instant from which a comparable start is too soon: a whole second after the documented boundary |
| BookingRules.OnceTooSoon | apps/api/src/core/domain/bookingRuleEvaluation.js:121-129 | a start once too soon is too soon later exactly as long as its year compares |
| BookingRules.TooFarMeaning | apps/api/src/core/domain/bookingRuleEvaluation.js:131-140 | for every maximum: an error past the last date, the comparison in days up to the year 9999, and every start refused in between |
| BookingRules.WhenTooFarIsRight | apps/api/src/core/domain/bookingRuleEvaluation.js:25-26 | the rule is right about a start exactly when today plus the maximum stays within the year 9999 |
| BookingRules.OnceWithinHorizon | apps/api/src/core/domain/bookingRuleEvaluation.js:131-140 | a start once within the horizon stays so exactly as long as the horizon stays within the year 9999 |
| BookingRules.HugeHorizonRefusesAll | apps/api/src/modules/listings/validators/listingValidators.js:134-136 | an accepted maximum that today refuses every start, and one that makes the evaluation fail |
| BookingRules.HugeLeadRefusesNone | apps/api/src/modules/listings/validators/listingValidators.js:131-133 | an accepted lead that today refuses no start after the year 1001, and one that makes the evaluation fail |
| BookingRules.BookingMomentsFormInterval | apps/api/src/core/domain/bookingRuleEvaluation.js:20-26 | between two moments that allow a request all do, exactly when the end of the lead does not pass into longer years, save for a start in the last second before them |
| BookingRules.WindowIsInterrupted | apps/api/src/core/domain/bookingRuleEvaluation.js:121-129 | a start and two moments that allow it with a moment in between that does not |
| BookingRules.LeadTimeExcludesPast | apps/api/src/core/domain/bookingRuleEvaluation.js:121-129 | no start that respects a positive lead is in the past, exactly when no start of a year the lead cannot compare is over |
| BookingRules.HugeLeadAcceptsThePast | apps/api/src/modules/listings/validators/listingValidators.js:131-133 | a start of last year that an accepted lead lets through today |
| Decimals.PointTextReads | apps/api/src/core/domain/money.js:69-78 | a written amount reads back with its integer, sign and number of digits, with no needless leading zero |
| Decimals.DecimalTextMeaning | apps/api/src/core/domain/money.js:21-21 | the pattern accepts exactly an optional sign, digits and optionally a point with digits, and the number has all of them |
| Decimals.CanonicalTextIsUnique | apps/api/src/core/domain/money.js:21-21 | one integer and scale have one non-negative text without needless leading zeros |
| Monetary.ConstructedMoneyIsMoney | apps/api/src/core/domain/money.js:30-45 | constructed money has a non-blank currency without lower-case letters |
| Monetary.ShortFractionIsExact | apps/api/src/core/domain/money.js:52-66 | an amount with no more digits than the currency keeps is read without loss |
| Monetary.LongFractionIsCut | apps/api/src/core/domain/money.js:59-64 | further digits are cut off towards zero |
| Monetary.MoneyRoundTrip | apps/api/src/core/domain/money.js:52-78 | writing money and reading it back gives the same money for every count, sign and number of places |
| Monetary.TextNamesAmount | apps/api/src/core/domain/money.js:69-78 | the written text names the amount's exact value |
| FxConversion.RoundingIsHalfUp | apps/api/src/core/domain/fxConversion.js:41-47 | for exactly which integer ratios the division is half-up rounding |
| FxConversion.WhenDivisionIsHalfUp | apps/api/src/core/domain/fxConversion.js:49-74 | for exactly which dividends of either sign the text is the half-up rounding of the exact quotient |
| FxConversion.NegativeDividendIsNotRounded | apps/api/src/core/domain/fxConversion.js:41-47 | a negative dividend that is not rounded to nearest |
| FxConversion.DivisionIsExactlyRounded | apps/api/src/core/domain/fxConversion.js:56-74 | for every non-negative dividend and positive divisor the text is the half-up rounding of the real quotient |
| FxConversion.DivisionErrorBound | apps/api/src/core/domain/fxConversion.js:49-74 | exactly the asked fraction digits, and an error of at most half a unit in the last place |
| FxConversion.NormalizedRateIsPerUnit | apps/api/src/core/domain/fxConversion.js:76-85 | the normalised rate is AMD per single unit rounded half up to eight decimals |
| FxConversion.ConversionRoundsOnce | apps/api/src/core/domain/fxConversion.js:100-124 | conversion is one half-up rounding of amount over rate; re-reading the text loses nothing |
| FxConversion.ConversionErrorBound | apps/api/src/core/domain/fxConversion.js:100-124 | the result is within half a target minor unit of the exact amount |
| FxConversion.ConversionIsMonotone | apps/api/src/core/domain/fxConversion.js:100-124 | a larger amount never converts to less |
| FxConversion.WhenConversionSucceeds | apps/api/src/core/domain/fxConversion.js:106-113 | AMD is the identity whatever the rate; otherwise success needs an AMD amount, a positive rate and a currency |
| BookingQuote.ItemTotalIsRepeatedAddition | apps/api/src/core/domain/bookingQuote.js:31-33 | an item's total is its unit price added to zero once per unit |
| BookingQuote.ExpectedAmountsAreWrittenTotals | apps/api/src/core/domain/bookingQuote.js:23-28 | the pattern accepts exactly the texts written for two-decimal totals below the column limit |
| BookingQuote.QuoteIsCurrentIffSameText | apps/api/src/core/domain/bookingQuote.js:41-48 | an accepted quote is current exactly when it is the current total's text, in its currency |
| BookingQuote.ComparisonIsExactIffNothingIsCut | apps/api/src/core/domain/bookingQuote.js:41-48 | for any decimal text the check compares values with every two-decimal total exactly when no digit past the second decimal is other than zero |
| BookingQuote.CutAmountIsMistaken | apps/api/src/core/domain/bookingQuote.js:41-48 | an amount with a third decimal that is taken for a total of another value |
| UnitRangePrice.PricedMeaning | apps/api/src/core/domain/unitRangePrice.js:37-72 | a range has a price exactly when it has dates that all resolve to readable amounts in one currency; the price is their sum |
| UnitRangePrice.ResolvedIsCharged | apps/api/src/core/domain/accommodationPriceResolution.js:45-63 | a date is charged its own override when that is complete, or else the unit's price, or else the listing's |
| UnitRangePrice.ChargedAmountsAddUp | apps/api/src/core/domain/unitRangePrice.js:37-72 | the price is the sum of the values of the stored amounts charged for the dates, overrides included, exactly when all are readable |
| UnitRangePrice.FailureMeaning | apps/api/src/core/domain/unitRangePrice.js:54-64 | which of the two issues is reported, and when |
| UnitRangePrice.PriceIgnoresOrder | apps/api/src/core/domain/unitRangePrice.js:37-72 | neither the price nor the issue depends on the order of the dates |
| UnitRangePrice.PriceAddsUp | apps/api/src/core/domain/unitRangePrice.js:66-71 | the prices of two parts add up to the price of the whole |
| UnitRangePrice.PricedPartsMakePricedWhole | apps/api/src/core/domain/unitRangePrice.js:54-64 | two parts priced in one currency make a priced whole |
| UnitRangePrice.BasePriceTimesDays | apps/api/src/core/domain/unitRangePrice.js:9-14 | without overrides the price is the number of dates times the base price, the unit's own or else the listing's, whenever that is readable |
| UnitRangePrice.SpanCapBoundsDates | apps/api/src/validation/dateSpan.js:11-31 | a span within the cap charges at most 367 dates |
| UnitRangePrice.CappedSumsAreExact | apps/api/src/validation/decimalMoneyAmount.js:27-27 | over a capped range of column-sized amounts every partial sum is below 2^53, so number arithmetic is exact |
| UnitRangePrice.SplitStayCostsTheSame | apps/api/src/core/domain/unitRangePrice.js:9-14 | a lodging stay costs the same whole or cut at any night |
| TokenRefresh.StepKeepsSoundness | apps/web/src/api/client.js:61-122 | every step of any interleaving keeps the single refresh, the send counts and the token store consistent |
| TokenRefresh.SingleRefreshAtMostTwoSends | apps/web/src/api/client.js:61-66 | in every run at most one refresh is unfinished, refreshes never outnumber requests, and nothing is sent a third time |
| TokenRefresh.OneRefreshIffNoLateAnswer | apps/web/src/api/client.js:61-66 | a run posts exactly one refresh when a first UNAUTHENTICATED answer is met and none is after that refresh has finished |
| TokenRefresh.TwoRefreshesHappen | apps/web/src/api/client.js:61-66 | a run of two requests that posts two refreshes |
| TokenRefresh.ResultIsFinal | apps/web/src/api/client.js:76-88 | a handled refresh keeps its result for the rest of the run |
| TokenRefresh.WaitersShareOutcome | apps/web/src/api/client.js:110-117 | all requests that waited for one refresh are resent when it brought a token, and all fail when it did not |
| TokenRefresh.ResentWithFreshToken | apps/web/src/api/client.js:53-56 | after a refresh that brought a token the request is resent, with that token or one of a later refresh |
| TokenRefresh.ResumeFollowsRefresh | apps/web/src/api/client.js:110-117 | a waiting request is sent a second time exactly when its refresh brought a token, and fails after one send exactly when it did not |
| TokenRefresh.RefreshDecidesSends | apps/web/src/api/client.js:100-117 | over whole runs: a request that waited has been sent twice when it settles if its refresh brought a token, and otherwise once |
| TokenRefresh.StepDecreasesVariant | apps/web/src/api/client.js:93-122 | every step brings the requests closer to being settled |
| TokenRefresh.UnsettledMeansEnabled | apps/web/src/api/client.js:93-122 | while a request is unsettled some step can still happen |
| TokenRefresh.RunsSettle | apps/web/src/api/client.js:93-122 | a run has at most six steps per request, and one that cannot continue has settled every request |
| TokenRefresh.ApiClient.RequestInterceptor | apps/web/src/api/client.js:44-59 | the stored token, when there is one, replaces the header |
| TokenRefresh.ApiClient.OnSend | apps/web/src/api/client.js:44-59 | the request is in flight, sent once more, with the stored token when there is one; nothing else changes |
| TokenRefresh.ApiClient.RefreshAccessToken | apps/web/src/api/client.js:66-91 | joins the refresh in flight or posts one, changing nothing else |
| TokenRefresh.ApiClient.OnResponse | apps/web/src/api/client.js:93-121 | a first UNAUTHENTICATED answer makes the request wait for the refresh in flight or a new one; any other answer settles it; nothing else changes |
| TokenRefresh.ApiClient.OnRefreshAnswer | apps/web/src/api/client.js:76-85 | the token is stored, or cleared with one session-expired event; the refresh has that result |
| TokenRefresh.ApiClient.OnRefreshFinally | apps/web/src/api/client.js:86-88 | the refresh keeps its result and is no longer joined |
| TokenRefresh.ApiClient.OnResume | apps/web/src/api/client.js:111-117 | after a token the request is resent with the stored or the new one; after a failure it fails; nothing else changes |
| PermissionCache.PermutationsShareKey | apps/api/src/infrastructure/cache/cachedPermissionRepository.js:12-14 | permuted role lists share a key, whatever their codes hold |
| PermissionCache.KeyIsSortedCodes | apps/api/src/infrastructure/cache/cachedPermissionRepository.js:44-47 | the key is the prefix and the codes in ascending order, joined by commas |
| PermissionCache.KeysIdentifyRoleLists | apps/api/src/infrastructure/cache/cachedPermissionRepository.js:44-47 | lists of comma-free codes share a key exactly when they are permutations of each other |
| PermissionCache.CommasCollide | apps/api/src/infrastructure/cache/cachedPermissionRepository.js:44-47 | every list of two or more codes shares its key with the one-code list of its sorted, joined text |
| PermissionCache.StepKeepsSoundness | apps/api/src/infrastructure/cache/cachedPermissionRepository.js:49-70 | every step of any interleaving keeps each entry and each reader tied to a recent database answer |
| PermissionCache.AnswersComeFromTheirEntry | apps/api/src/infrastructure/cache/cachedPermissionRepository.js:49-70 | in every run, commas included, each answer was the database's to a called list with the same key less than ttl plus gap before |
| PermissionCache.AnswersAreBoundedStale | apps/api/src/infrastructure/cache/cachedPermissionRepository.js:49-70 | over comma-free codes each answer was the database's own to that list less than ttl plus gap before, cache failures and corrupt entries included |
| PermissionCache.CacheFailuresNeverReject | apps/api/src/infrastructure/cache/cachedPermissionRepository.js:16-18 | in a run whose database reads succeed no call is rejected, whatever the cache does |
| PermissionCache.ReadAnswerIsGiven | apps/api/src/infrastructure/cache/cachedPermissionRepository.js:60-70 | a call that read the database waits or answers with exactly the permissions its roles had at that moment |
| PermissionCache.WrittenAnswerIsServed | apps/api/src/infrastructure/cache/cachedPermissionRepository.js:53-69 | an answer written to the cache is given to every later call for the same codes in any order until the entry expires, and to none after, while nothing else touches the entry |
| PermissionCache.RevocationTakesEffect | apps/api/src/infrastructure/cache/cachedPermissionRepository.js:4-7 | a revoked permission is in no answer given later than that bound |
| PermissionCache.AgeBoundIsReached | apps/api/src/infrastructure/cache/cachedPermissionRepository.js:60-64 | for every lifetime and gap a run that answers a revoked permission exactly at the bound |
| PermissionCache.TtlIsBoundIffWritesArePrompt | apps/api/src/infrastructure/cache/cachedPermissionRepository.js:4-7 | the documented bound of one lifetime holds of all runs exactly when no gap exceeds one tick |
| PermissionCache.SameKeySameAnswer | apps/api/src/infrastructure/database/repositories/permissionRepository.js:21-33 | lists with one key have one database answer, so sharing an entry is right |
| PermissionCache.CachedPermissionRepository.GetPermissionKeysForRoleCodes | apps/api/src/infrastructure/cache/cachedPermissionRepository.js:49-51 | a call for no roles answers at once; any other asks the cache |
| PermissionCache.CachedPermissionRepository.OnCacheReply | apps/api/src/infrastructure/cache/cachedPermissionRepository.js:53-58 | an available, unexpired, readable entry answers the call; anything else sends it to the database |
| PermissionCache.CachedPermissionRepository.OnDatabaseReply | apps/api/src/infrastructure/cache/cachedPermissionRepository.js:60-61 | the database's answer is kept for the cache write; its failure rejects the call |
| PermissionCache.CachedPermissionRepository.OnCacheWrite | apps/api/src/infrastructure/cache/cachedPermissionRepository.js:63-69 | the call answers; an available cache holds the answer with its expiry |
| PermissionCache.CachedPermissionRepository.OnCacheWriteTimeout | apps/api/src/infrastructure/cache/cachedPermissionRepository.js:63-69 | a write whose reply is lost answers the call and may still land |
| Pagination.ResolveLimit | apps/api/src/infrastructure/database/pagination.js:32-37 | the limit is always between 1 and the maximum, and is the requested one whenever that is |
| Pagination.PastCursorMeaning | apps/api/src/modules/ai/repositories/mysqlAiConversationRepository.js:59-69 | the query returns exactly the rows with a lower sort value, or the same one and a lower id, in order |
| Pagination.PageMeaning | apps/api/src/infrastructure/database/pagination.js:49-62 | a page is the next rows past the cursor, from the top without a readable one, and has a cursor exactly when more remain |
| Pagination.PassedRowIsDelivered | apps/api/src/infrastructure/database/pagination.js:7-11 | a row every fetch from some point on finds, past the cursor then, is delivered once the walk has passed it |
| Pagination.WalkPages | apps/api/src/infrastructure/database/pagination.js:7-11 | the loop is the specified walk: with rows inserted and deleted between fetches no key is delivered twice and every row present throughout is delivered; on a fixed table the pages are the table |
| Pagination.MovedRowKeys | apps/api/src/modules/ai/repositories/mysqlAiConversationRepository.js:51-74 | when a row's key changes between two fetches the old key is delivered exactly when the walk had reached it, the new one exactly when it had not |
| Pagination.WhenMovedRowIsMissed | apps/api/src/modules/ai/repositories/mysqlAiConversationRepository.js:76-80 | a moved row is missed exactly when it jumps from ahead of the walk to behind it, and comes twice exactly when it jumps the other way |
| Pagination.TouchedRowIsMissed | apps/api/src/modules/ai/repositories/mysqlAiConversationRepository.js:76-80 | a walk that misses a touched row |
| Migrations.ParseInvertsFileName | apps/api/src/infrastructure/database/migrate.js:44-65 | a file is a migration exactly when its name is built from a four-digit version and a plain name |
| Migrations.ListingIsExact | apps/api/src/infrastructure/database/migrate.js:46-67 | the directory is rejected exactly when some up file is badly named; otherwise the list is in version order and holds each migration as often as its file is there, and nothing else |
| Sorting.SortByIsStable | apps/api/src/infrastructure/database/migrate.js:66-66 | elements with equal keys keep their order |
| Migrations.UpExtendsPrefix | apps/api/src/infrastructure/database/migrate.js:111-146 | from a recorded prefix, up runs the next migrations in order, stops at the first fault and leaves a longer prefix, a commit with a lost reply included |
| Migrations.DownShortensPrefix | apps/api/src/infrastructure/database/migrate.js:148-179 | down reverts the newest recorded migrations in reverse, stops at the first fault and leaves a shorter prefix |
| Migrations.RecordedIsAlwaysPrefix | apps/api/src/infrastructure/database/migrate.js:99-179 | the recorded migrations are a prefix of the sorted list after all commands with all faults, exactly when at most the highest version repeats |
| Migrations.SkippedFileIsOvertaken | apps/api/src/infrastructure/database/migrate.js:115-119 | with a lower version repeated, a second up records the next higher migration right after the recorded twin |
| Migrations.UnboundedUpCompletes | apps/api/src/infrastructure/database/migrate.js:10-12 | a successful unbounded up records the whole list and the next one runs nothing |
| Migrations.DownUndoesUp | apps/api/src/infrastructure/database/migrate.js:14-17 | down by n undoes a successful up by n |
| Migrations.AllCanBeRecordedIffDistinct | apps/api/src/infrastructure/database/migrate.js:69-79 | some commands record the whole list exactly when no version is used twice |
| Migrations.DuplicateVersionIsSkipped | apps/api/src/infrastructure/database/migrate.js:115-119 | of two files with one version the second fails and is then not pending, until the first is reverted and both are pending again |
| Migrations.Runner.RunOne | apps/api/src/infrastructure/database/migrate.js:99-109 | one migration changes the rows as specified; on a fault not at all, save when only the commit's reply is lost |
| Migrations.Runner.RunUp | apps/api/src/infrastructure/database/migrate.js:111-146 | the loop has the specified rows, count and outcome |
| Migrations.Runner.RunDown | apps/api/src/infrastructure/database/migrate.js:148-179 | the loop has the specified rows, count and outcome |
| Migrations.Runner.Status | apps/api/src/infrastructure/database/migrate.js:181-198 | the number pending; from a recorded prefix, the migrations after it |
| StreamReader.ReadStream | apps/web/src/api/aiStreamClient.js:41-61 | for every cut of the text into chunks the payloads are those of the whole text: of its frames, each with the text after "data: " on its first such line, up to the unfinished one |
| StreamReader.BufferHoldsNoFrame | apps/web/src/api/aiStreamClient.js:50-51 | the carried buffer never contains a blank line |
| StreamReader.NextChunk | apps/web/src/api/aiStreamClient.js:49-51 | a chunk completes exactly the frames of the carried piece with the chunk appended |
| StreamReader.YieldPayloads | apps/web/src/api/aiStreamClient.js:53-60 | a batch of frames yields their payloads in order, after the earlier ones |
| StreamReader.FirstDataLineIsYielded | apps/web/src/api/aiStreamClient.js:54-59 | the payload is what follows "data: " on the first line that starts with it, whatever comes after |
| StreamReader.FramesRoundTrip | apps/web/src/api/aiStreamClient.js:53-60 | frames, each lines around a first data line or none, are read back as their payloads exactly, and an unfinished last frame is not |
| StreamReader.EveryTextIsFrames | apps/web/src/api/aiStreamClient.js:50-51 | every text at all is such frames followed by an unfinished one |
| Strings.SplitResumes | apps/web/src/api/aiStreamClient.js:49-51 | splitting a text equals splitting its start, then resuming from the last piece |
| Redactor.Walk.Redact | apps/api/src/infrastructure/observability/sentryErrorTracker.js:22-36 | on every finite graph of arrays and objects, cycles and class instances included, the walk ends with its redaction: each object written out where it is first met, as its kind with the same slots, and "[Circular]" wherever else |
| Redactor.RedactionIsExact | apps/api/src/infrastructure/observability/sentryErrorTracker.js:22-36 | exactly one tree is the redaction of a value after what was met before, stated slot by slot, and it is the one returned |
| Redactor.RedactedIsClean | apps/api/src/infrastructure/observability/sentryErrorTracker.js:29-35 | at every depth of the output a property under one of the eleven names holds "[REDACTED]" and nothing else |
| Redactor.SecretsDoNotMatter | apps/api/src/infrastructure/observability/sentryErrorTracker.js:9-14 | graphs that differ only under these names, or in the inner state of instances, give equal outputs |
| Redactor.RedactionIsMasking | apps/api/src/infrastructure/observability/sentryErrorTracker.js:22-36 | data without a visible cycle comes back masked and otherwise unchanged exactly when nothing visible is shared and all of it is arrays and plain objects |
| Redactor.PlainTreesAreUnchanged | apps/api/src/infrastructure/observability/sentryErrorTracker.js:22-36 | a tree without sensitive keys is returned as it is exactly when it is made of arrays and plain objects |
| Redactor.SharedIsReportedCircular | apps/api/src/infrastructure/observability/sentryErrorTracker.js:24-25 | shared data without any cycle that is reported as circular |
| Slugify.FullSlugIsJoinedWords | apps/api/src/core/domain/slugify.js:23-28 | the uncut slug is the text's maximal alphanumeric words joined by single hyphens |
| Slugify.FullSlugIsOnePass | apps/api/src/core/domain/slugify.js:23-28 | the replacements together are one pass: a-z and 0-9 are kept, a gap between two of them is one hyphen, one at an end nothing |
| Slugify.SlugKeepsLetters | apps/api/src/core/domain/slugify.js:23-30 | a slug has only a-z, 0-9 and hyphens; uncut, it has every such letter and digit of the text in order |
| Slugify.SlugIsLongestFit | apps/api/src/core/domain/slugify.js:29-30 | a slug is slug-shaped and the longest slug-shaped prefix of the uncut slug within the limit |
| Slugify.SlugIsIdempotent | apps/api/src/core/domain/slugify.js:18-31 | slugifying a slug again changes nothing |
| Slugify.EmptySlugMeaning | apps/api/src/core/domain/slugify.js:23-30 | a slug is empty exactly when the text has no word character or no length is allowed |

## Left out

- Express, guards, configuration, health checks, React pages and thin HTTP wrappers: plumbing.
- Status transition and moderation tables: finite tables.
- MySQL, Redis, Sentry and the network: abstract state with failing steps. A hold's refusals before the capacity check (blackouts, booking rules, blocked rows, past starts) change nothing and are not events of `RoomInventory`; neither are the ledger, hold owners and expiry times, changes of a unit's capacity, and calendar rows a Partner writes directly.
- `hasHourlyStayStarted`, `resolveBookingMode`, `hourlyStayUnitPrice`, `Money` subtraction and comparisons: easy members.
- Rounding of JavaScript numbers: minor units are unbounded integers. `UnitRangePrice.CappedSumsAreExact` shows the range sums never reach 2^53; other amounts that large are not modelled.
- Monetary.MoneyRoundTrip: for minor units beyond 2^53, where JavaScript numbers stop being exact, the property is about integers only.
- `Money.multiply` by a fractional factor, and NaN or infinite factors.
- `Money` of different numbers of decimal places: `add` and `equals` do not compare them, and the lemmas use one number of places per currency.
- A divisor of zero in `divideRoundHalfUp`: its only caller has already required a positive one.
- Time zone data: Asia/Yerevan is a fixed UTC+4.
- BookingTimebase.BusinessTimeNamesItsSecond: only for years written with four digits; outside them the texts are not dates. `BookingTimebase.LongYearOrder` says how longer ones compare.
- BookingTimebase.PastMeaning: only for clocks from the year 1000 on, which is where the database's own begin, and for starts with a real date and, if any, a time of two-digit hours, minutes and perhaps seconds, which is what request validation asks. A stored departure time of three-digit hours is not modelled.
- BookingRules.EvaluateBookingRules: only for clocks of the years 1000 to 9999, the range of the database's DATETIME the clock is read as.
- Date texts that do not match the pattern.
- Upper-casing outside ASCII; currency codes are ASCII letters.
- `String(value)` of amounts that are JavaScript numbers: amounts are texts, as the driver returns DECIMAL columns.
- Unicode normalisation, mark removal and lower-casing in `slugify`: one parameter `fold`, assumed to leave slugs alone where it matters; a negative `maxLength`.
- JSON, base64url and UTF-8 decoding: cursors are an invertible encoding or malformed, payloads are texts, and chunks are already decoded. A payload that fails to parse would end the stream with an error.
- Cursors that decode to JSON without the sort keys: treated like malformed ones, as the repositories do.
- Other callers of the refresh endpoint and other tabs; a refresh is answered with a token or fails.
- Request configurations are values in a sequence, so two requests sharing one configuration object are not modelled.
- PermissionCache.AnswersAreBoundedStale: a cache write that lands later than the gap after its database read is outside the bound by definition of the gap.
- `redact` on sparse arrays, getters, proxies, symbol keys, a `__proto__` key and the reordering of integer-like keys.
- The SQL of the migrations, MySQL's implicit commit of DDL, files added between commands, and a missing down file (it fails like a fault before any row changes). `localeCompare` on four-digit versions is modelled as string order.
- Fractional step counts for `up` and `down`.
