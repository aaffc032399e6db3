/** One unit over all its dates: a stay, block or external reservation takes every charged date or none. */
module StayInventory {
  import opened Outcomes
  import opened Strings
  import opened IsoDate
  import opened CalendarExpansion
  import opened StayDates
  import opened RoomInventory

  /** The unit's dates; one without a row yet starts with the whole capacity. */
  datatype Inventory = Inventory(capacity: nat, days: map<string, DayState>)

  function DayOn(inventory: Inventory, date: string): DayState {
    if date in inventory.days then inventory.days[date] else EmptyDay(inventory.capacity)
  }

  function WithDay(inventory: Inventory, date: string, day: DayState): Inventory {
    inventory.(days := inventory.days[date := day])
  }

  /** Only writes that take capacity can be refused. */
  predicate Admits(day: DayState, event: Event) {
    match event
    case HoldNightly(ids) => HasRoomFor(day, |ids|)
    case TakeCapacity(_, quantity) => HasRoomFor(day, quantity)
    case _ => true
  }

  predicate AllAdmit(inventory: Inventory, dates: seq<string>, event: Event) {
    forall date <- dates :: Admits(DayOn(inventory, date), event)
  }

  function OnDates(inventory: Inventory, dates: seq<string>, event: Event): Inventory {
    if dates == [] then inventory
    else
      var before := OnDates(inventory, DropLast(dates), event);
      WithDay(before, Last(dates), Apply(DayOn(before, Last(dates)), event))
  }

  /** A write over a range, in one transaction. */
  function WriteRange(inventory: Inventory, dates: seq<string>, event: Event): (Inventory, bool) {
    if AllAdmit(inventory, dates, event) then (OnDates(inventory, dates, event), true) else (inventory, false)
  }

  predicate AreDistinct(dates: seq<string>) {
    forall i, j :: 0 <= i < j < |dates| ==> dates[i] != dates[j]
  }

  /** Each listed date is written once, every other one is left alone. */
  lemma {:induction false} DayAfterWrite(inventory: Inventory, dates: seq<string>, event: Event, date: string)
    requires AreDistinct(dates)
    ensures OnDates(inventory, dates, event).capacity == inventory.capacity
    ensures DayOn(OnDates(inventory, dates, event), date)
         == if date in dates then Apply(DayOn(inventory, date), event) else DayOn(inventory, date)
  {
    hide Apply, EmptyDay;
    if dates != [] {
      InitAndLast(dates);
      LastIsNew(dates);
      DayAfterWrite(inventory, DropLast(dates), event, date);
    }
  }

  lemma LastIsNew(dates: seq<string>)
    requires dates != [] && AreDistinct(dates)
    ensures Last(dates) !in DropLast(dates) && AreDistinct(DropLast(dates))
  {
  }

  lemma NextDate(inventory: Inventory, dates: seq<string>, event: Event, n: nat)
    requires n < |dates| && AreDistinct(dates)
    ensures var before := OnDates(inventory, dates[..n], event);
      && OnDates(inventory, dates[..n + 1], event) == WithDay(before, dates[n], Apply(DayOn(before, dates[n]), event))
      && DayOn(before, dates[n]) == DayOn(inventory, dates[n])
  {
    hide Apply, EmptyDay;
    assert DropLast(dates[..n + 1]) == dates[..n] && Last(dates[..n + 1]) == dates[n];
    assert AreDistinct(dates[..n]) && dates[n] !in dates[..n];
    DayAfterWrite(inventory, dates[..n], event, dates[n]);
  }

  lemma GrantedWhenAllAdmit(inventory: Inventory, dates: seq<string>, event: Event)
    requires forall i :: 0 <= i < |dates| ==> Admits(DayOn(inventory, dates[i]), event)
    ensures WriteRange(inventory, dates, event) == (OnDates(inventory, dates, event), true)
  {
    hide Admits, DayOn, OnDates;
  }

  lemma RefusedWhenOneDoesNot(inventory: Inventory, dates: seq<string>, event: Event, i: nat)
    requires i < |dates| && !Admits(DayOn(inventory, dates[i]), event)
    ensures WriteRange(inventory, dates, event) == (inventory, false)
  {
    hide Admits, DayOn, OnDates;
    assert dates[i] in dates;
  }

  lemma {:induction false} OnDatesConcat(inventory: Inventory, a: seq<string>, b: seq<string>, event: Event)
    ensures OnDates(inventory, a + b, event) == OnDates(OnDates(inventory, a, event), b, event)
  {
    hide Apply, DayOn;
    if b == [] {
      assert a + b == a;
    } else {
      assert DropLast(a + b) == a + DropLast(b) && Last(a + b) == Last(b);
      OnDatesConcat(inventory, a, DropLast(b), event);
    }
  }

  // ---- The dates of a stay ----

  lemma ChargedDatesAreDistinct(unitType: string, dateFrom: string, dateTo: string, rolls: bool)
    requires IsRealDate(dateFrom) && IsRealDate(dateTo) && ChargedDates(unitType, dateFrom, dateTo, rolls).Returned?
    ensures AreDistinct(ChargedDates(unitType, dateFrom, dateTo, rolls).value)
  {
    hide IsRealDate, DayOf, ChargedDates, IsAccommodationUnitType, ToIsoDate;
    LodgingUnitTypes(unitType);
    ChargedDatesByDays(unitType, dateFrom, dateTo, rolls);
    TextRoundTrip(dateFrom);
    TextRoundTrip(dateTo);
    var first, end := DayOf(dateFrom), DayOf(dateTo);
    var last := if IsAccommodationUnitType(unitType) && first != end then end - 1 else end;
    var dates := DayTexts(first, last);
    forall i, j | 0 <= i < j < |dates|
      ensures dates[i] != dates[j]
    {
      DifferentDaysDifferentTexts(first + i, first + j);
    }
  }

  ghost predicate AllConsistent(inventory: Inventory) {
    forall date :: IsConsistent(DayOn(inventory, date)) && DayOn(inventory, date).capacity == inventory.capacity
  }

  /** Whether a day has these rooms left at every hour. */
  ghost predicate FitsOn(day: DayState, rooms: nat) {
    rooms <= day.quantityAvailable && WithinLimit(day.reservations, day.quantityAvailable - rooms)
  }

  function WithNight(day: DayState, ids: set<nat>): DayState {
    day.(quantityAvailable := day.quantityAvailable - |ids|, nightlyHolds := day.nightlyHolds + ids)
  }

  /** The listed dates and no others lose the rooms. */
  ghost predicate TakesNights(before: Inventory, after: Inventory, dates: seq<string>, ids: set<nat>) {
    forall date ::
      DayOn(after, date) == if date in dates then WithNight(DayOn(before, date), ids) else DayOn(before, date)
  }

  lemma NightOnDay(day: DayState, ids: set<nat>)
    requires NeverOverbooked(day)
    ensures Admits(day, HoldNightly(ids)) <==> FitsOn(day, |ids|)
    ensures Admits(day, HoldNightly(ids)) ==> Apply(day, HoldNightly(ids)) == WithNight(day, ids)
  {
    hide HasRoomFor, WithinLimit, NeverOverbooked;
    RoomForIsExact(day, |ids|);
  }

  /**
   * A hold is granted exactly when every date has the rooms at every hour; then these dates and no others lose them.
   */
  lemma HoldIsAllOrNothing(inventory: Inventory, dates: seq<string>, ids: set<nat>)
    requires AllConsistent(inventory) && AreDistinct(dates)
    ensures var (after, granted) := WriteRange(inventory, dates, HoldNightly(ids));
      && (granted <==> forall date <- dates :: FitsOn(DayOn(inventory, date), |ids|))
      && (!granted ==> after == inventory)
      && (granted ==> TakesNights(inventory, after, dates, ids))
  {
    hide DayOn, NeverOverbooked, HoldsOwnRows, OnDates, AreDistinct, FitsOn, WithNight, Admits, Apply;
    forall date
      ensures Admits(DayOn(inventory, date), HoldNightly(ids)) <==> FitsOn(DayOn(inventory, date), |ids|)
      ensures Admits(DayOn(inventory, date), HoldNightly(ids)) ==>
        Apply(DayOn(inventory, date), HoldNightly(ids)) == WithNight(DayOn(inventory, date), ids)
      ensures DayOn(OnDates(inventory, dates, HoldNightly(ids)), date)
           == if date in dates then Apply(DayOn(inventory, date), HoldNightly(ids)) else DayOn(inventory, date)
    {
      NightOnDay(DayOn(inventory, date), ids);
      DayAfterWrite(inventory, dates, HoldNightly(ids), date);
    }
  }

  function WithClaim(day: DayState, claim: ClaimId, quantity: nat): DayState {
    day.(quantityAvailable := day.quantityAvailable - quantity, claims := day.claims[claim := quantity])
  }

  ghost predicate ClaimsRooms(before: Inventory, after: Inventory, dates: seq<string>, claim: ClaimId, quantity: nat) {
    forall date ::
      DayOn(after, date)
      == if date in dates then WithClaim(DayOn(before, date), claim, quantity) else DayOn(before, date)
  }

  lemma ClaimOnDay(day: DayState, claim: ClaimId, quantity: nat)
    requires NeverOverbooked(day)
    ensures Admits(day, TakeCapacity(claim, quantity)) <==> FitsOn(day, quantity)
    ensures Admits(day, TakeCapacity(claim, quantity)) ==>
      Apply(day, TakeCapacity(claim, quantity)) == WithClaim(day, claim, quantity)
  {
    hide HasRoomFor, WithinLimit, NeverOverbooked;
    RoomForIsExact(day, quantity);
  }

  /** A block or an external reservation is made under the same condition, and claims its rooms on each date. */
  lemma BlockIsAllOrNothing(inventory: Inventory, dates: seq<string>, claim: ClaimId, quantity: nat)
    requires AllConsistent(inventory) && AreDistinct(dates)
    ensures var (after, granted) := WriteRange(inventory, dates, TakeCapacity(claim, quantity));
      && (granted <==> forall date <- dates :: FitsOn(DayOn(inventory, date), quantity))
      && (!granted ==> after == inventory)
      && (granted ==> ClaimsRooms(inventory, after, dates, claim, quantity))
  {
    hide DayOn, NeverOverbooked, HoldsOwnRows, OnDates, AreDistinct, FitsOn, WithClaim, Admits, Apply;
    var event := TakeCapacity(claim, quantity);
    forall date
      ensures Admits(DayOn(inventory, date), event) <==> FitsOn(DayOn(inventory, date), quantity)
      ensures Admits(DayOn(inventory, date), event) ==>
        Apply(DayOn(inventory, date), event) == WithClaim(DayOn(inventory, date), claim, quantity)
      ensures DayOn(OnDates(inventory, dates, event), date)
           == if date in dates then Apply(DayOn(inventory, date), event) else DayOn(inventory, date)
    {
      ClaimOnDay(DayOn(inventory, date), claim, quantity);
      DayAfterWrite(inventory, dates, event, date);
    }
  }

  /** So it is for the charged dates of every stay. */
  lemma StayIsAllOrNothing(
    inventory: Inventory, unitType: string, dateFrom: string, dateTo: string, rolls: bool, ids: set<nat>)
    requires IsRealDate(dateFrom) && IsRealDate(dateTo) && AllConsistent(inventory)
    requires ChargedDates(unitType, dateFrom, dateTo, rolls).Returned?
    ensures var dates := ChargedDates(unitType, dateFrom, dateTo, rolls).value;
      var (after, granted) := WriteRange(inventory, dates, HoldNightly(ids));
      && (granted <==> forall date <- dates :: FitsOn(DayOn(inventory, date), |ids|))
      && (!granted ==> after == inventory)
      && (granted ==> TakesNights(inventory, after, dates, ids))
  {
    hide ChargedDates, IsRealDate, AllConsistent, WriteRange, DayOn, FitsOn, TakesNights;
    ChargedDatesAreDistinct(unitType, dateFrom, dateTo, rolls);
    HoldIsAllOrNothing(inventory, ChargedDates(unitType, dateFrom, dateTo, rolls).value, ids);
  }

  predicate HasFreshKeysOn(inventory: Inventory, dates: seq<string>, event: Event) {
    forall date <- dates :: HasFreshKeys(DayOn(inventory, date), event)
  }

  lemma WriteKeepsDates(inventory: Inventory, dates: seq<string>, event: Event)
    requires AllConsistent(inventory) && AreDistinct(dates) && HasFreshKeysOn(inventory, dates, event)
    ensures AllConsistent(WriteRange(inventory, dates, event).0)
    ensures WriteRange(inventory, dates, event).0.capacity == inventory.capacity
  {
    hide IsConsistent, HasFreshKeys, Apply, DayOn, OnDates, AllAdmit, AreDistinct;
    var after := OnDates(inventory, dates, event);
    DayAfterWrite(inventory, dates, event, "");
    forall date
      ensures IsConsistent(DayOn(after, date)) && DayOn(after, date).capacity == inventory.capacity == after.capacity
    {
      DayAfterWrite(inventory, dates, event, date);
      if date in dates {
        EventKeepsDay(DayOn(inventory, date), event);
      }
    }
  }

  /** One transaction of a run: an event over some dates. */
  datatype Write = Write(dates: seq<string>, event: Event)

  ghost predicate IsInventoryRun(states: seq<Inventory>, writes: seq<Write>) {
    && |states| == |writes| + 1
    && forall i :: 0 <= i < |writes| ==>
         && AreDistinct(writes[i].dates) && HasFreshKeysOn(states[i], writes[i].dates, writes[i].event)
         && states[i + 1] == WriteRange(states[i], writes[i].dates, writes[i].event).0
  }

  /** Over any run of stays, hours, blocks and their ends no date is ever overbooked at any hour. */
  lemma {:induction false} InventoryIsNeverOverbooked(states: seq<Inventory>, writes: seq<Write>, i: nat)
    requires IsInventoryRun(states, writes) && i < |states| && states[0].days == map[]
    ensures AllConsistent(states[i]) && states[i].capacity == states[0].capacity
  {
    hide IsConsistent, AreDistinct, HasFreshKeysOn, WriteRange;
    if i == 0 {
      EmptyDaysAreConsistent(states[0].capacity);
    } else {
      hide AllConsistent;
      InventoryIsNeverOverbooked(states, writes, i - 1);
      WriteKeepsDates(states[i - 1], writes[i - 1].dates, writes[i - 1].event);
    }
  }

  lemma EmptyDaysAreConsistent(capacity: nat)
    ensures IsConsistent(EmptyDay(capacity))
  {
  }

  // ---- Releasing a stay, and cutting it in two ----

  /** Releasing a granted hold gives every date back as it was. */
  lemma ReleaseUndoesStay(inventory: Inventory, dates: seq<string>, ids: set<nat>, date: string)
    requires AllConsistent(inventory) && AreDistinct(dates) && HasFreshKeysOn(inventory, dates, HoldNightly(ids))
    requires WriteRange(inventory, dates, HoldNightly(ids)).1
    ensures DayOn(WriteRange(WriteRange(inventory, dates, HoldNightly(ids)).0, dates, ReleaseHolds(ids)).0, date)
         == DayOn(inventory, date)
  {
    hide IsConsistent, Apply, OnDates, AreDistinct, DayOn, HasFreshKeys;
    var held := OnDates(inventory, dates, HoldNightly(ids));
    DayAfterWrite(inventory, dates, HoldNightly(ids), date);
    DayAfterWrite(held, dates, ReleaseHolds(ids), date);
    if date in dates {
      ReleaseUndoesNight(DayOn(inventory, date), ids);
    }
  }

  lemma ReleaseUndoesNight(day: DayState, ids: set<nat>)
    requires IsConsistent(day) && HasFreshKeys(day, HoldNightly(ids)) && HasRoomFor(day, |ids|)
    ensures Apply(Apply(day, HoldNightly(ids)), ReleaseHolds(ids)) == day
  {
    UnheldIdsOwnNoRows(day, ids);
    BackAndForth(day.nightlyHolds, day.hourlyHolds, ids);
    hide NeverOverbooked, HoldsOwnRows, HasFreshKeys, WithoutHolds, HasRoomFor, IsHeldBy;
    ReleaseByMembership(day.reservations, ids);
    assert Apply(day, HoldNightly(ids)) == WithNight(day, ids);
  }

  lemma BackAndForth(held: set<nat>, others: set<nat>, ids: set<nat>)
    requires ids !! held + others
    ensures ids * (held + ids) == ids && held + ids - ids == held && others - ids == others
    ensures ids <= held + ids + others
  {
  }

  /** A lodging stay is granted exactly when its two halves are, one after the other, and takes the same rooms. */
  lemma CutStayTakesTheSame(inventory: Inventory, unitType: string, a: string, b: string, c: string, rolls: bool,
                            ids: set<nat>)
    requires IsAccommodationUnitType(unitType)
    requires IsRealDate(a) && IsRealDate(b) && IsRealDate(c) && Less(a, b) && Less(b, c)
    ensures var whole := ChargedDates(unitType, a, c, rolls);
      var first, second := ChargedDates(unitType, a, b, rolls), ChargedDates(unitType, b, c, rolls);
      && whole.Returned? && first.Returned? && second.Returned?
      && var (after, granted) := WriteRange(inventory, whole.value, HoldNightly(ids));
      var (half, firstGranted) := WriteRange(inventory, first.value, HoldNightly(ids));
      var (both, secondGranted) := WriteRange(half, second.value, HoldNightly(ids));
      && (granted <==> firstGranted && secondGranted)
      && (granted ==> after == both)
  {
    BackToBackStays(unitType, a, b, c, rolls);
    BackToBackDays(unitType, a, b, c, rolls);
    var first, second := ChargedDates(unitType, a, b, rolls).value, ChargedDates(unitType, b, c, rolls).value;
    hide ChargedDates, IsRealDate, Less, IsAccommodationUnitType;
    ChargedDatesAreDistinct(unitType, a, b, rolls);
    RangesInTurn(inventory, first, second, HoldNightly(ids));
  }

  lemma BackToBackDays(unitType: string, a: string, b: string, c: string, rolls: bool)
    requires IsAccommodationUnitType(unitType)
    requires IsRealDate(a) && IsRealDate(b) && IsRealDate(c) && Less(a, b) && Less(b, c)
    ensures ChargedDates(unitType, a, b, rolls).Returned? && ChargedDates(unitType, b, c, rolls).Returned?
    ensures forall date <- ChargedDates(unitType, b, c, rolls).value ::
              date !in ChargedDates(unitType, a, b, rolls).value
  {
    BackToBackStays(unitType, a, b, c, rolls);
    hide ChargedDates, IsRealDate, Less, IsAccommodationUnitType;
  }

  /** Writing two disjoint ranges in turn is writing them together, when both are admitted. */
  lemma RangesInTurn(inventory: Inventory, first: seq<string>, second: seq<string>, event: Event)
    requires AreDistinct(first) && forall date <- second :: date !in first
    ensures var (after, granted) := WriteRange(inventory, first + second, event);
      var (half, firstGranted) := WriteRange(inventory, first, event);
      var (both, secondGranted) := WriteRange(half, second, event);
      && (granted ==> firstGranted && secondGranted && after == both)
      && (firstGranted && secondGranted ==> granted)
  {
    hide Apply, OnDates, Admits, AreDistinct, DayOn;
    OnDatesConcat(inventory, first, second, event);
    var half := OnDates(inventory, first, event);
    forall date <- second
      ensures DayOn(half, date) == DayOn(inventory, date)
    {
      DayAfterWrite(inventory, first, event, date);
    }
    assert forall date :: date in first + second <==> date in first || date in second;
  }

  // ---- The service's loop over the dates ----

  class UnitInventory {
    const capacity: nat
    var days: map<string, DayState>

    ghost function State(): Inventory
      reads this
    {
      Inventory(capacity, days)
    }

    constructor (capacity: nat)
      ensures State() == Inventory(capacity, map[]) && AllConsistent(State())
    {
      this.capacity := capacity;
      days := map[];
      new;
      EmptyDaysAreConsistent(capacity);
    }

    /** Locks, checks and writes one date after another, and commits when none refuses. */
    method TryWriteRange(dates: seq<string>, event: Event) returns (granted: bool)
      requires AllConsistent(State()) && AreDistinct(dates) && HasFreshKeysOn(State(), dates, event)
      modifies this
      ensures (State(), granted) == WriteRange(old(State()), dates, event) && AllConsistent(State())
    {
      WriteKeepsDates(State(), dates, event);
      var written: Inventory;
      written, granted := WrittenDates(Inventory(capacity, days), dates, event);
      hide AllConsistent, WriteRange;
      days := written.days;
    }
  }

  /** The transaction's own view of the dates it has written. */
  method WrittenDates(inventory: Inventory, dates: seq<string>, event: Event)
    returns (written: Inventory, granted: bool)
    requires AreDistinct(dates)
    ensures (written, granted) == WriteRange(inventory, dates, event)
    ensures written.capacity == inventory.capacity
  {
    hide Apply, Admits, DayOn, OnDates, WriteRange, AreDistinct;
    StartOfRange(inventory, event);
    assert dates[..0] == [];
    written := inventory;
    for i := 0 to |dates|
      invariant written == OnDates(inventory, dates[..i], event) && written.capacity == inventory.capacity
      invariant forall k :: 0 <= k < i ==> Admits(DayOn(inventory, dates[k]), event)
    {
      NextDate(inventory, dates, event, i);
      var day := DayOn(written, dates[i]);
      if !Admits(day, event) {
        RefusedWhenOneDoesNot(inventory, dates, event, i);
        return inventory, false;
      }
      written := WithDay(written, dates[i], Apply(day, event));
    }
    GrantedWhenAllAdmit(inventory, dates, event);
    assert dates[..|dates|] == dates;
    granted := true;
  }

  lemma StartOfRange(inventory: Inventory, event: Event)
    ensures OnDates(inventory, [], event) == inventory
  {
  }
}
