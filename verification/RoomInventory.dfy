/** One room type on one date: hourly and nightly holds sharing the same physical rooms. */
module RoomInventory {
  import opened Outcomes
  import opened Strings
  import opened HourlyStay

  // ---- Interval colouring: a per-hour limit is enough to place every stay in a real room ----

  predicate HaveDuration(reservations: seq<Reservation>) {
    forall i :: 0 <= i < |reservations| ==> reservations[i].startHour < reservations[i].endHour
  }

  ghost predicate WithinLimit(reservations: seq<Reservation>, limit: int) {
    forall hour :: OccupiedAt(reservations, hour) <= limit
  }

  predicate Overlap(a: Reservation, b: Reservation) {
    IntervalsOverlap(a.startHour, a.endHour, b.startHour, b.endHour)
  }

  predicate Covers(r: Reservation, hour: int) {
    r.startHour <= hour < r.endHour
  }

  function RoomNumbers(limit: nat): (rooms: set<nat>)
    ensures forall room: nat :: room in rooms <==> room < limit
    ensures |rooms| == limit
  {
    if limit == 0 then {} else RoomNumbers(limit - 1) + {limit - 1}
  }

  /** Every reservation has its own rooms among `0..limit`, and overlapping reservations never share one. */
  ghost predicate IsRoomPlan(reservations: seq<Reservation>, limit: nat, plan: seq<set<nat>>) {
    && |plan| == |reservations|
    && (forall i :: 0 <= i < |plan| ==> |plan[i]| == reservations[i].quantity && plan[i] <= RoomNumbers(limit))
    && (forall i, j :: 0 <= i < j < |plan| && Overlap(reservations[i], reservations[j]) ==> plan[i] !! plan[j])
  }

  /** The rooms a plan uses during one hour. */
  ghost function RoomsInUse(reservations: seq<Reservation>, plan: seq<set<nat>>, hour: int): set<nat>
    requires |plan| == |reservations|
  {
    if plan == [] then {}
    else
      RoomsInUse(DropLast(reservations), DropLast(plan), hour)
      + if Covers(Last(reservations), hour) then Last(plan) else {}
  }

  lemma {:induction false} RoomInUseMeaning(reservations: seq<Reservation>, plan: seq<set<nat>>, hour: int, room: nat)
    requires |plan| == |reservations|
    ensures room in RoomsInUse(reservations, plan, hour)
       <==> exists i :: 0 <= i < |plan| && Covers(reservations[i], hour) && room in plan[i]
  {
    if plan != [] {
      RoomInUseMeaning(DropLast(reservations), DropLast(plan), hour, room);
      if exists i :: 0 <= i < |plan| && Covers(reservations[i], hour) && room in plan[i] {
        var i :| 0 <= i < |plan| && Covers(reservations[i], hour) && room in plan[i];
        if i < |plan| - 1 {
          assert Covers(DropLast(reservations)[i], hour) && room in DropLast(plan)[i];
        }
      }
    }
  }

  /** During any hour a plan uses exactly the counted rooms, because covering stays overlap. */
  lemma {:induction false} RoomsInUseCount(reservations: seq<Reservation>, limit: nat, plan: seq<set<nat>>, hour: int)
    requires HaveDuration(reservations) && IsRoomPlan(reservations, limit, plan)
    ensures RoomsInUse(reservations, plan, hour) <= RoomNumbers(limit)
    ensures |RoomsInUse(reservations, plan, hour)| == OccupiedAt(reservations, hour)
  {
    if plan != [] {
      var before := RoomsInUse(DropLast(reservations), DropLast(plan), hour);
      RoomsInUseCount(DropLast(reservations), limit, DropLast(plan), hour);
      assert Last(plan) <= RoomNumbers(limit);
      if Covers(Last(reservations), hour) {
        forall room | room in before
          ensures room !in Last(plan)
        {
          RoomInUseMeaning(DropLast(reservations), DropLast(plan), hour, room);
          var i :| 0 <= i < |plan| - 1 && Covers(DropLast(reservations)[i], hour) && room in DropLast(plan)[i];
          assert Overlap(reservations[i], reservations[|plan| - 1]);
        }
        assert before !! Last(plan);
      }
    }
  }

  lemma {:induction false} SubsetOfSize(s: set<nat>, size: nat) returns (chosen: set<nat>)
    requires size <= |s|
    ensures chosen <= s && |chosen| == size
  {
    chosen := {};
    if size > 0 {
      var x :| x in s;
      chosen := SubsetOfSize(s - {x}, size - 1);
      chosen := chosen + {x};
    }
  }

  lemma LatestStart(reservations: seq<Reservation>) returns (m: nat)
    requires reservations != []
    ensures m < |reservations|
    ensures forall i :: 0 <= i < |reservations| ==> reservations[i].startHour <= reservations[m].startHour
  {
    m := 0;
    for n := 1 to |reservations|
      invariant m < n
      invariant forall i :: 0 <= i < n ==> reservations[i].startHour <= reservations[m].startHour
    {
      if reservations[n].startHour > reservations[m].startHour {
        m := n;
      }
    }
  }

  /** A set of stays within the limit at every hour can be placed, latest arrival last. */
  lemma {:induction false} PlaceInRooms(reservations: seq<Reservation>, limit: nat) returns (plan: seq<set<nat>>)
    requires HaveDuration(reservations) && WithinLimit(reservations, limit)
    ensures IsRoomPlan(reservations, limit, plan)
    decreases |reservations|
  {
    plan := [];
    if reservations != [] {
      var m := LatestStart(reservations);
      var latest := reservations[m];
      var others := reservations[..m] + reservations[m + 1..];
      forall hour
        ensures OccupiedAt(others, hour) + OccupiedAt([latest], hour) <= limit
      {
        OccupiedWithout(reservations, m, hour);
      }
      var placed := PlaceInRooms(others, limit);
      var chosen := FreeRooms(others, limit, placed, latest);
      plan := placed[..m] + [chosen] + placed[m..];
      PlanWithOneMore(reservations, limit, placed, m, chosen);
    }
  }

  /** Rooms for a stay that starts no earlier than those already placed. */
  lemma FreeRooms(others: seq<Reservation>, limit: nat, placed: seq<set<nat>>, latest: Reservation)
    returns (chosen: set<nat>)
    requires HaveDuration(others) && IsRoomPlan(others, limit, placed)
    requires latest.startHour < latest.endHour
    requires forall i :: 0 <= i < |others| ==> others[i].startHour <= latest.startHour
    requires OccupiedAt(others, latest.startHour) + OccupiedAt([latest], latest.startHour) <= limit
    ensures |chosen| == latest.quantity && chosen <= RoomNumbers(limit)
    ensures forall i :: 0 <= i < |others| && Overlap(others[i], latest) ==> placed[i] !! chosen
  {
    var hour := latest.startHour;
    var used := RoomsInUse(others, placed, hour);
    RoomsInUseCount(others, limit, placed, hour);
    assert OccupiedAt([latest], hour) == latest.quantity;
    assert |RoomNumbers(limit) - used| == limit - |used|;
    chosen := SubsetOfSize(RoomNumbers(limit) - used, latest.quantity);
    forall i | 0 <= i < |others| && Overlap(others[i], latest)
      ensures placed[i] !! chosen
    {
      assert Covers(others[i], hour);
      forall room | room in placed[i]
        ensures room in used
      {
        RoomInUseMeaning(others, placed, hour, room);
      }
    }
  }

  lemma PlanWithOneMore(reservations: seq<Reservation>, limit: nat, placed: seq<set<nat>>, m: nat, chosen: set<nat>)
    requires m < |reservations|
    requires IsRoomPlan(reservations[..m] + reservations[m + 1..], limit, placed)
    requires |chosen| == reservations[m].quantity && chosen <= RoomNumbers(limit)
    requires var others := reservations[..m] + reservations[m + 1..];
      forall i :: 0 <= i < |others| && Overlap(others[i], reservations[m]) ==> placed[i] !! chosen
    ensures IsRoomPlan(reservations, limit, placed[..m] + [chosen] + placed[m..])
  {
    hide RoomNumbers;
    var others, plan := reservations[..m] + reservations[m + 1..], placed[..m] + [chosen] + placed[m..];
    forall i | 0 <= i < |plan| && i != m
      ensures var k := if i < m then i else i - 1; plan[i] == placed[k] && reservations[i] == others[k]
    {
    }
    forall i, j | 0 <= i < j < |plan| && Overlap(reservations[i], reservations[j])
      ensures plan[i] !! plan[j]
    {
      var a, b := if i <= m then i else i - 1, if j <= m then j else j - 1;
      if i == m {
        assert Overlap(others[b], reservations[m]) && placed[b] !! chosen;
      } else if j == m {
        assert Overlap(others[a], reservations[m]) && placed[a] !! chosen;
      } else {
        assert Overlap(others[a], others[b]) && placed[a] !! placed[b];
      }
    }
  }

  /** The per-hour limit is exactly the condition for a real allocation of rooms to exist. */
  lemma PerHourLimitIsExact(reservations: seq<Reservation>, limit: nat)
    requires HaveDuration(reservations)
    ensures WithinLimit(reservations, limit) <==> exists plan :: IsRoomPlan(reservations, limit, plan)
  {
    if WithinLimit(reservations, limit) {
      var plan := PlaceInRooms(reservations, limit);
    }
    if exists plan :: IsRoomPlan(reservations, limit, plan) {
      var plan :| IsRoomPlan(reservations, limit, plan);
      forall hour
        ensures OccupiedAt(reservations, hour) <= limit
      {
        RoomsInUseCount(reservations, limit, plan, hour);
        RoomCountIsMonotone(RoomsInUse(reservations, plan, hour), RoomNumbers(limit));
      }
    }
  }

  lemma {:induction false} RoomCountIsMonotone(a: set<nat>, b: set<nat>)
    requires a <= b
    ensures |a| <= |b|
  {
    assert |b| == |a| + |b - a| by { assert b == a + (b - a); }
  }

  // ---- Admission ----

  /** The rows one granted hourly hold writes: a quantity-1 reservation per held room. */
  function HoldRows(startHour: int, endHour: int, holdIds: seq<nat>): (rows: seq<Reservation>)
    ensures |rows| == |holdIds|
  {
    seq(|holdIds|, i requires 0 <= i < |holdIds| => Reservation(holdIds[i], startHour, endHour, 1, None))
  }

  lemma {:induction false} HoldRowsOccupancy(startHour: int, endHour: int, holdIds: seq<nat>, hour: int)
    ensures OccupiedAt(HoldRows(startHour, endHour, holdIds), hour)
         == if startHour <= hour < endHour then |holdIds| else 0
  {
    var rows := HoldRows(startHour, endHour, holdIds);
    if holdIds != [] {
      assert DropLast(rows) == HoldRows(startHour, endHour, DropLast(holdIds));
      HoldRowsOccupancy(startHour, endHour, DropLast(holdIds), hour);
    }
  }

  /** `free - peak >= quantity` admits a stay exactly when adding it keeps every hour within the free rooms. */
  lemma AdmissionIsExact(reservations: seq<Reservation>, free: int, startHour: int, endHour: int, holdIds: seq<nat>)
    requires WithinLimit(reservations, free) && startHour < endHour
    ensures |holdIds| <= free - Peak(reservations, startHour, endHour)
       <==> WithinLimit(reservations + HoldRows(startHour, endHour, holdIds), free)
  {
    var rows := HoldRows(startHour, endHour, holdIds);
    PeakIsBusiestHour(reservations, startHour, endHour);
    forall hour
      ensures OccupiedAt(reservations + rows, hour)
           == OccupiedAt(reservations, hour) + if startHour <= hour < endHour then |holdIds| else 0
    {
      OccupiedConcat(reservations, rows, hour);
      HoldRowsOccupancy(startHour, endHour, holdIds, hour);
    }
    if WithinLimit(reservations + rows, free) {
      var busiest := startHour;
      if Peak(reservations, startHour, endHour) > 0 {
        busiest :| startHour <= busiest < endHour
          && OccupiedAt(reservations, busiest) == Peak(reservations, startHour, endHour);
      }
      assert OccupiedAt(reservations + rows, busiest) <= free;
      assert OccupiedAt(reservations, startHour) <= Peak(reservations, startHour, endHour);
    }
  }

  /** Reservations stay inside the business day, so the whole-day peak bounds every hour. */
  predicate InsideDay(reservations: seq<Reservation>) {
    forall i :: 0 <= i < |reservations|
      ==> 0 <= reservations[i].startHour < reservations[i].endHour <= HOURS_PER_DAY
  }

  lemma {:induction false} NothingOutsideDay(reservations: seq<Reservation>, hour: int)
    requires InsideDay(reservations) && !(0 <= hour < HOURS_PER_DAY)
    ensures OccupiedAt(reservations, hour) == 0
  {
    if reservations != [] {
      NothingOutsideDay(DropLast(reservations), hour);
    }
  }

  lemma DayPeakBoundsEveryHour(reservations: seq<Reservation>, limit: nat)
    requires InsideDay(reservations)
    ensures Peak(reservations, 0, HOURS_PER_DAY) <= limit <==> WithinLimit(reservations, limit)
  {
    PeakIsBusiestHour(reservations, 0, HOURS_PER_DAY);
    forall hour | !(0 <= hour < HOURS_PER_DAY)
      ensures OccupiedAt(reservations, hour) == 0
    {
      NothingOutsideDay(reservations, hour);
    }
  }

  // ---- Releasing and booking timed rows ----

  /** A row that still belongs to one of these holds. */
  predicate IsHeldBy(r: Reservation, holdIds: set<nat>) {
    r.holdId in holdIds && r.item.None?
  }

  function WithoutHolds(reservations: seq<Reservation>, holdIds: set<nat>): seq<Reservation> {
    if reservations == [] then []
    else
      WithoutHolds(DropLast(reservations), holdIds)
      + if IsHeldBy(Last(reservations), holdIds) then [] else [Last(reservations)]
  }

  function WithoutItem(reservations: seq<Reservation>, item: nat): seq<Reservation> {
    if reservations == [] then []
    else
      WithoutItem(DropLast(reservations), item)
      + if Last(reservations).item == Some(item) then [] else [Last(reservations)]
  }

  /** Moves the holds' rows onto the booking item they became. */
  function WithBooked(reservations: seq<Reservation>, holdIds: set<nat>, item: nat): (rows: seq<Reservation>)
    ensures |rows| == |reservations|
  {
    seq(|reservations|, i requires 0 <= i < |reservations| =>
      if IsHeldBy(reservations[i], holdIds) then reservations[i].(item := Some(item)) else reservations[i])
  }

  /** How many rows are moved. */
  function HeldRows(reservations: seq<Reservation>, holdIds: set<nat>): nat {
    if reservations == [] then 0
    else HeldRows(DropLast(reservations), holdIds) + if IsHeldBy(Last(reservations), holdIds) then 1 else 0
  }

  /** `kept` is some of the rows, in order: every hour is at most as busy. */
  lemma {:induction false} ReleasingOnlyFrees(reservations: seq<Reservation>, holdIds: set<nat>, hour: int)
    ensures OccupiedAt(WithoutHolds(reservations, holdIds), hour) <= OccupiedAt(reservations, hour)
    ensures forall r <- WithoutHolds(reservations, holdIds) :: r in reservations && !IsHeldBy(r, holdIds)
  {
    if reservations != [] {
      var kept := WithoutHolds(DropLast(reservations), holdIds);
      ReleasingOnlyFrees(DropLast(reservations), holdIds, hour);
      InitAndLast(reservations);
      if IsHeldBy(Last(reservations), holdIds) {
        assert WithoutHolds(reservations, holdIds) == kept;
      } else {
        assert DropLast(kept + [Last(reservations)]) == kept;
      }
    }
  }

  lemma {:induction false} CancellingOnlyFrees(reservations: seq<Reservation>, item: nat, hour: int)
    ensures OccupiedAt(WithoutItem(reservations, item), hour) <= OccupiedAt(reservations, hour)
    ensures forall r <- WithoutItem(reservations, item) :: r in reservations
  {
    if reservations != [] {
      var kept := WithoutItem(DropLast(reservations), item);
      CancellingOnlyFrees(DropLast(reservations), item, hour);
      InitAndLast(reservations);
      if Last(reservations).item == Some(item) {
        assert WithoutItem(reservations, item) == kept;
      } else {
        assert DropLast(kept + [Last(reservations)]) == kept;
      }
    }
  }

  lemma {:induction false} BookingKeepsOccupancy(reservations: seq<Reservation>, holdIds: set<nat>, item: nat,
                                                 hour: int)
    ensures OccupiedAt(WithBooked(reservations, holdIds, item), hour) == OccupiedAt(reservations, hour)
  {
    if reservations != [] {
      BookingKeepsOccupancy(DropLast(reservations), holdIds, item, hour);
      assert DropLast(WithBooked(reservations, holdIds, item)) == WithBooked(DropLast(reservations), holdIds, item);
    }
  }

  /** Cancelling the item a hold's rows were moved to removes the rows a release would have removed. */
  lemma {:induction false} CancellingBookedRows(reservations: seq<Reservation>, holdIds: set<nat>, item: nat)
    requires forall r <- reservations :: r.item != Some(item)
    ensures WithoutItem(WithBooked(reservations, holdIds, item), item) == WithoutHolds(reservations, holdIds)
  {
    if reservations != [] {
      var booked := WithBooked(reservations, holdIds, item);
      InitAndLast(reservations);
      CancellingBookedRows(DropLast(reservations), holdIds, item);
      assert DropLast(booked) == WithBooked(DropLast(reservations), holdIds, item);
    }
  }

  lemma {:induction false} ReleaseConcat(a: seq<Reservation>, b: seq<Reservation>, holdIds: set<nat>)
    ensures WithoutHolds(a + b, holdIds) == WithoutHolds(a, holdIds) + WithoutHolds(b, holdIds)
  {
    if b == [] {
      assert a + b == a;
    } else {
      var kept := if IsHeldBy(Last(b), holdIds) then [] else [Last(b)];
      assert DropLast(a + b) == a + DropLast(b) && Last(a + b) == Last(b);
      ReleaseConcat(a, DropLast(b), holdIds);
      assert WithoutHolds(b, holdIds) == WithoutHolds(DropLast(b), holdIds) + kept;
      assert WithoutHolds(a + b, holdIds) == WithoutHolds(a + DropLast(b), holdIds) + kept;
      hide WithoutHolds;
    }
  }

  lemma {:induction false} ReleaseByMembership(reservations: seq<Reservation>, holdIds: set<nat>)
    ensures (forall r <- reservations :: !IsHeldBy(r, holdIds)) ==> WithoutHolds(reservations, holdIds) == reservations
    ensures (forall r <- reservations :: IsHeldBy(r, holdIds)) ==> WithoutHolds(reservations, holdIds) == []
  {
    hide IsHeldBy;
    if reservations != [] {
      ReleaseByMembership(DropLast(reservations), holdIds);
      InitAndLast(reservations);
    }
  }

  lemma HoldRowsAreHeld(startHour: int, endHour: int, holdIds: seq<nat>, ids: set<nat>)
    requires forall id <- holdIds :: id in ids
    ensures forall r <- HoldRows(startHour, endHour, holdIds) :: IsHeldBy(r, ids)
  {
  }

  /**
   * Releasing a hold removes its own rows and no others, booked rows of the same hold included: it undoes the grant
   * exactly.
   */
  lemma ReleaseUndoesHold(before: seq<Reservation>, after: seq<Reservation>, startHour: int, endHour: int,
                          holdIds: seq<nat>, released: set<nat>)
    requires forall id :: id in released <==> id in holdIds
    requires forall r <- before :: !IsHeldBy(r, released)
    requires forall r <- after :: !IsHeldBy(r, released)
    ensures WithoutHolds(before + HoldRows(startHour, endHour, holdIds) + after, released) == before + after
  {
    hide HoldRows, WithoutHolds, IsHeldBy;
    var rows := HoldRows(startHour, endHour, holdIds);
    HoldRowsAreHeld(startHour, endHour, holdIds, released);
    ReleaseConcat(before + rows, after, released);
    ReleaseConcat(before, rows, released);
    ReleaseByMembership(before, released);
    ReleaseByMembership(rows, released);
    ReleaseByMembership(after, released);
    assert before + [] == before;
  }

  // ---- The date's inventory over a whole run ----

  /** What takes date-level capacity besides holds. */
  datatype ClaimId = BookedItem(item: nat) | ManualBlock(block: nat) | ExternalReservation(reservation: nat)

  /** One unit on one date: the calendar row, the timed rows, the active holds, and the claims with their quantities. */
  datatype DayState = DayState(
    capacity: nat, quantityAvailable: int, reservations: seq<Reservation>,
    nightlyHolds: set<nat>, hourlyHolds: set<nat>, claims: map<ClaimId, nat>)

  datatype Event =
    | HoldHourly(request: StayRequest, room: RoomHours, holdIds: seq<nat>)
    | HoldNightly(nightlyIds: set<nat>)
    | ReleaseHolds(released: set<nat>)
    | BookHolds(booked: set<nat>, item: nat)
    | TakeCapacity(claim: ClaimId, quantity: nat)
    | ReleaseClaim(claim: ClaimId)

  /** The check every date-level capacity write makes. */
  predicate HasRoomFor(day: DayState, quantity: nat) {
    day.quantityAvailable - Peak(day.reservations, 0, HOURS_PER_DAY) >= quantity
  }

  function IdsOf(holdIds: seq<nat>): set<nat> {
    set id | id in holdIds
  }

  function Apply(day: DayState, event: Event): DayState {
    match event
    case HoldHourly(request, room, holdIds) =>
      (match ValidateHourlyStay(request, room)
       case InvalidStay(_) => day
       case ValidStay(startHour, endHour, _) =>
         if day.quantityAvailable - Peak(day.reservations, startHour, endHour) < |holdIds| then day
         else day.(reservations := day.reservations + HoldRows(startHour, endHour, holdIds),
                   hourlyHolds := day.hourlyHolds + IdsOf(holdIds)))
    case HoldNightly(ids) =>
      if !HasRoomFor(day, |ids|) then day
      else day.(quantityAvailable := day.quantityAvailable - |ids|, nightlyHolds := day.nightlyHolds + ids)
    case ReleaseHolds(ids) =>
      if !(ids <= day.nightlyHolds + day.hourlyHolds) then day
      else day.(quantityAvailable := day.quantityAvailable + |ids * day.nightlyHolds|,
                reservations := WithoutHolds(day.reservations, ids),
                nightlyHolds := day.nightlyHolds - ids, hourlyHolds := day.hourlyHolds - ids)
    case BookHolds(ids, item) =>
      if ids <= day.nightlyHolds
      then day.(claims := day.claims[BookedItem(item) := |ids|], nightlyHolds := day.nightlyHolds - ids)
      else if ids <= day.hourlyHolds && HeldRows(day.reservations, ids) == |ids|
      then day.(reservations := WithBooked(day.reservations, ids, item), hourlyHolds := day.hourlyHolds - ids)
      else day
    case TakeCapacity(claim, quantity) =>
      if !HasRoomFor(day, quantity) then day
      else day.(quantityAvailable := day.quantityAvailable - quantity, claims := day.claims[claim := quantity])
    case ReleaseClaim(claim) =>
      if claim in day.claims
      then day.(quantityAvailable := day.quantityAvailable + day.claims[claim], claims := day.claims - {claim})
      else if claim.BookedItem? then day.(reservations := WithoutItem(day.reservations, claim.item))
      else day
  }

  /** The database gives every hold, booking item, block and external reservation a key of its own. */
  predicate HasFreshKeys(day: DayState, event: Event) {
    match event
    case HoldHourly(_, _, ids) =>
      && (forall id <- ids :: id !in day.nightlyHolds && id !in day.hourlyHolds)
      && forall i, j :: 0 <= i < j < |ids| ==> ids[i] != ids[j]
    case HoldNightly(ids) => ids !! day.nightlyHolds + day.hourlyHolds
    case BookHolds(_, item) => BookedItem(item) !in day.claims && forall r <- day.reservations :: r.item != Some(item)
    case TakeCapacity(claim, _) => claim !in day.claims
    case _ => true
  }

  ghost function Total(claims: map<ClaimId, nat>): nat {
    if claims == map[] then 0
    else
      var claim :| claim in claims;
      claims[claim] + Total(claims - {claim})
  }

  lemma {:induction false} TotalWithout(claims: map<ClaimId, nat>, claim: ClaimId)
    requires claim in claims
    ensures Total(claims) == claims[claim] + Total(claims - {claim})
    decreases |claims|
  {
    var first :| first in claims && Total(claims) == claims[first] + Total(claims - {first});
    if first != claim {
      TotalWithout(claims - {first}, claim);
      TotalWithout(claims - {claim}, first);
      assert claims - {first} - {claim} == claims - {claim} - {first};
    }
  }

  lemma TotalWith(claims: map<ClaimId, nat>, claim: ClaimId, quantity: nat)
    requires claim !in claims
    ensures Total(claims[claim := quantity]) == Total(claims) + quantity
  {
    TotalWithout(claims[claim := quantity], claim);
    assert claims[claim := quantity] - {claim} == claims;
  }

  /** Every room is free, held for nights, or claimed; and the timed rows fit in the free ones at every hour. */
  ghost predicate NeverOverbooked(day: DayState) {
    && 0 <= day.quantityAvailable
    && day.quantityAvailable + |day.nightlyHolds| + Total(day.claims) == day.capacity
    && InsideDay(day.reservations)
    && WithinLimit(day.reservations, day.quantityAvailable)
  }

  /** Holds are of one kind; every active hourly hold owns exactly one row not yet booked, and no other hold any. */
  ghost predicate HoldsOwnRows(day: DayState) {
    && day.nightlyHolds !! day.hourlyHolds
    && forall id: nat :: HeldRows(day.reservations, {id}) == if id in day.hourlyHolds then 1 else 0
  }

  ghost predicate IsConsistent(day: DayState) {
    NeverOverbooked(day) && HoldsOwnRows(day)
  }

  lemma SetSizes(held: set<nat>, ids: set<nat>)
    ensures |held - ids| + |held * ids| == |held|
    ensures ids !! held ==> |held + ids| == |held| + |ids|
    ensures ids <= held ==> |held * ids| == |ids|
  {
    assert held == (held - ids) + held * ids;
    if ids <= held {
      assert held * ids == ids;
    }
  }

  lemma SubsetOfRows(rows: seq<Reservation>, all: seq<Reservation>)
    requires InsideDay(all) && forall r <- rows :: r in all
    ensures InsideDay(rows)
  {
    forall i | 0 <= i < |rows|
      ensures 0 <= rows[i].startHour < rows[i].endHour <= HOURS_PER_DAY
    {
      assert rows[i] in all;
    }
  }

  /** Taking date-level capacity is admitted exactly when every hour still fits in what is left. */
  lemma RoomForIsExact(day: DayState, quantity: nat)
    requires NeverOverbooked(day)
    ensures HasRoomFor(day, quantity)
       <==> quantity <= day.quantityAvailable && WithinLimit(day.reservations, day.quantityAvailable - quantity)
  {
    hide OccupiedAt, WithinLimit;
    if quantity <= day.quantityAvailable {
      DayPeakBoundsEveryHour(day.reservations, day.quantityAvailable - quantity);
    }
  }

  lemma HourlyHoldKeepsDay(day: DayState, event: Event)
    requires event.HoldHourly? && NeverOverbooked(day)
    ensures NeverOverbooked(Apply(day, event))
  {
    hide OccupiedAt, Peak, ParseWholeHour, FormatHour, Total;
    var check := ValidateHourlyStay(event.request, event.room);
    if check.ValidStay? {
      ValidStayMeaning(event.request, event.room, check.startHour, check.endHour);
      AdmissionIsExact(day.reservations, day.quantityAvailable, check.startHour, check.endHour, event.holdIds);
    }
  }

  lemma ReleaseKeepsDay(day: DayState, event: Event)
    requires event.ReleaseHolds? && NeverOverbooked(day)
    ensures NeverOverbooked(Apply(day, event))
  {
    hide OccupiedAt, WithoutHolds, Total, IsHeldBy;
    var ids := event.released;
    SetSizes(day.nightlyHolds, ids);
    assert ids * day.nightlyHolds == day.nightlyHolds * ids;
    var kept := WithoutHolds(day.reservations, ids);
    forall hour
      ensures OccupiedAt(kept, hour) <= OccupiedAt(day.reservations, hour)
    {
      ReleasingOnlyFrees(day.reservations, ids, hour);
    }
    ReleasingOnlyFrees(day.reservations, ids, 0);
    SubsetOfRows(kept, day.reservations);
  }

  lemma BookingKeepsDay(day: DayState, event: Event)
    requires event.BookHolds? && NeverOverbooked(day) && HasFreshKeys(day, event)
    ensures NeverOverbooked(Apply(day, event))
  {
    hide OccupiedAt, HeldRows, Total, IsHeldBy;
    SetSizes(day.nightlyHolds, event.booked);
    TotalWith(day.claims, BookedItem(event.item), |event.booked|);
    forall hour
      ensures OccupiedAt(WithBooked(day.reservations, event.booked, event.item), hour)
           == OccupiedAt(day.reservations, hour)
    {
      BookingKeepsOccupancy(day.reservations, event.booked, event.item, hour);
    }
  }

  lemma ClaimReleaseKeepsDay(day: DayState, event: Event)
    requires event.ReleaseClaim? && NeverOverbooked(day)
    ensures NeverOverbooked(Apply(day, event))
  {
    hide OccupiedAt, WithoutItem, Total;
    if event.claim in day.claims {
      TotalWithout(day.claims, event.claim);
    } else if event.claim.BookedItem? {
      var kept := WithoutItem(day.reservations, event.claim.item);
      forall hour
        ensures OccupiedAt(kept, hour) <= OccupiedAt(day.reservations, hour)
      {
        CancellingOnlyFrees(day.reservations, event.claim.item, hour);
      }
      CancellingOnlyFrees(day.reservations, event.claim.item, 0);
      SubsetOfRows(kept, day.reservations);
    }
  }

  lemma TakenRoomsAreAccountedFor(day: DayState, quantity: nat, held: set<nat>, claims: map<ClaimId, nat>)
    requires NeverOverbooked(day) && HasRoomFor(day, quantity)
    requires |held| + Total(claims) == |day.nightlyHolds| + Total(day.claims) + quantity
    ensures NeverOverbooked(
              day.(quantityAvailable := day.quantityAvailable - quantity, nightlyHolds := held, claims := claims))
  {
    hide OccupiedAt, Total, InsideDay, WithinLimit, HasRoomFor;
    RoomForIsExact(day, quantity);
  }

  lemma TakingKeepsDay(day: DayState, event: Event)
    requires (event.HoldNightly? || event.TakeCapacity?) && NeverOverbooked(day) && HasFreshKeys(day, event)
    ensures NeverOverbooked(Apply(day, event))
  {
    hide NeverOverbooked, Total, HasRoomFor;
    match event
    case HoldNightly(ids) =>
      SetSizes(day.nightlyHolds, ids);
      if HasRoomFor(day, |ids|) {
        TakenRoomsAreAccountedFor(day, |ids|, day.nightlyHolds + ids, day.claims);
      }
    case TakeCapacity(claim, quantity) =>
      TotalWith(day.claims, claim, quantity);
      if HasRoomFor(day, quantity) {
        TakenRoomsAreAccountedFor(day, quantity, day.nightlyHolds, day.claims[claim := quantity]);
      }
  }

  lemma {:induction false} HeldRowsConcat(a: seq<Reservation>, b: seq<Reservation>, ids: set<nat>)
    ensures HeldRows(a + b, ids) == HeldRows(a, ids) + HeldRows(b, ids)
  {
    hide IsHeldBy;
    if b == [] {
      assert a + b == a;
    } else {
      assert DropLast(a + b) == a + DropLast(b) && Last(a + b) == Last(b);
      HeldRowsConcat(a, DropLast(b), ids);
    }
  }

  lemma {:induction false} HeldInHoldRows(startHour: int, endHour: int, holdIds: seq<nat>, id: nat)
    requires forall i, j :: 0 <= i < j < |holdIds| ==> holdIds[i] != holdIds[j]
    ensures HeldRows(HoldRows(startHour, endHour, holdIds), {id}) == if id in holdIds then 1 else 0
  {
    if holdIds != [] {
      InitAndLast(holdIds);
      assert DropLast(HoldRows(startHour, endHour, holdIds)) == HoldRows(startHour, endHour, DropLast(holdIds));
      HeldInHoldRows(startHour, endHour, DropLast(holdIds), id);
      assert Last(holdIds) !in DropLast(holdIds);
    }
  }

  lemma {:induction false} HeldAfterRelease(rows: seq<Reservation>, ids: set<nat>, id: nat)
    ensures HeldRows(WithoutHolds(rows, ids), {id}) == if id in ids then 0 else HeldRows(rows, {id})
  {
    if rows != [] {
      HeldAfterRelease(DropLast(rows), ids, id);
      var kept := if IsHeldBy(Last(rows), ids) then [] else [Last(rows)];
      assert WithoutHolds(rows, ids) == WithoutHolds(DropLast(rows), ids) + kept;
      HeldRowsConcat(WithoutHolds(DropLast(rows), ids), kept, {id});
      assert kept != [] ==> DropLast(kept) == [];
    }
  }

  lemma {:induction false} HeldAfterBooking(rows: seq<Reservation>, ids: set<nat>, item: nat, id: nat)
    ensures HeldRows(WithBooked(rows, ids, item), {id}) == if id in ids then 0 else HeldRows(rows, {id})
  {
    if rows != [] {
      HeldAfterBooking(DropLast(rows), ids, item, id);
      assert DropLast(WithBooked(rows, ids, item)) == WithBooked(DropLast(rows), ids, item);
    }
  }

  lemma {:induction false} HeldAfterCancel(rows: seq<Reservation>, item: nat, id: nat)
    ensures HeldRows(WithoutItem(rows, item), {id}) == HeldRows(rows, {id})
  {
    if rows != [] {
      HeldAfterCancel(DropLast(rows), item, id);
      var kept := if Last(rows).item == Some(item) then [] else [Last(rows)];
      assert WithoutItem(rows, item) == WithoutItem(DropLast(rows), item) + kept;
      HeldRowsConcat(WithoutItem(DropLast(rows), item), kept, {id});
      assert kept != [] ==> DropLast(kept) == [];
    }
  }

  lemma {:induction false} HeldWithout(rows: seq<Reservation>, ids: set<nat>, id: nat)
    requires id in ids
    ensures HeldRows(rows, ids) == HeldRows(rows, ids - {id}) + HeldRows(rows, {id})
  {
    if rows != [] {
      HeldWithout(DropLast(rows), ids, id);
    }
  }

  lemma {:induction false} NothingHeld(rows: seq<Reservation>)
    ensures HeldRows(rows, {}) == 0
  {
    if rows != [] {
      NothingHeld(DropLast(rows));
    }
  }

  /** Every active hourly hold still has its row, so moving rows to a booking never comes up short. */
  lemma {:induction false} TransferFindsEveryRow(day: DayState, ids: set<nat>)
    requires HoldsOwnRows(day) && ids <= day.hourlyHolds
    ensures HeldRows(day.reservations, ids) == |ids|
    decreases |ids|
  {
    hide HeldRows;
    if ids == {} {
      NothingHeld(day.reservations);
    } else {
      var id :| id in ids;
      HeldWithout(day.reservations, ids, id);
      TransferFindsEveryRow(day, ids - {id});
      assert HeldRows(day.reservations, {id}) == 1;
    }
  }

  lemma {:induction false} HeldRowCounts(rows: seq<Reservation>, r: Reservation)
    requires r in rows && r.item.None?
    ensures HeldRows(rows, {r.holdId}) >= 1
  {
    InitAndLast(rows);
    if r in DropLast(rows) {
      HeldRowCounts(DropLast(rows), r);
    }
  }

  lemma UnheldIdsOwnNoRows(day: DayState, ids: set<nat>)
    requires HoldsOwnRows(day) && ids !! day.hourlyHolds
    ensures forall r <- day.reservations :: !IsHeldBy(r, ids)
  {
    hide HeldRows;
    forall r <- day.reservations
      ensures !IsHeldBy(r, ids)
    {
      if r.item.None? {
        HeldRowCounts(day.reservations, r);
        assert HeldRows(day.reservations, {r.holdId}) == if r.holdId in day.hourlyHolds then 1 else 0;
      }
    }
  }

  /** How an event changes the rows one hold owns. */
  lemma EventMovesHeldRows(day: DayState, event: Event, id: nat)
    requires HoldsOwnRows(day) && HasFreshKeys(day, event)
    ensures HeldRows(Apply(day, event).reservations, {id}) == if id in Apply(day, event).hourlyHolds then 1 else 0
  {
    hide Peak, HeldRows, WithoutHolds, WithoutItem, WithBooked, HoldRows, ValidateHourlyStay, HasRoomFor;
    assert HeldRows(day.reservations, {id}) == if id in day.hourlyHolds then 1 else 0;
    match event
    case HoldHourly(request, room, ids) =>
      var check := ValidateHourlyStay(request, room);
      if check.ValidStay? {
        HeldRowsConcat(day.reservations, HoldRows(check.startHour, check.endHour, ids), {id});
        HeldInHoldRows(check.startHour, check.endHour, ids, id);
      }
    case HoldNightly(_) =>
    case ReleaseHolds(ids) => HeldAfterRelease(day.reservations, ids, id);
    case BookHolds(ids, item) => HeldAfterBooking(day.reservations, ids, item, id);
    case TakeCapacity(_, _) =>
    case ReleaseClaim(claim) =>
      if claim.BookedItem? {
        HeldAfterCancel(day.reservations, claim.item, id);
      }
  }

  lemma EventKeepsHolds(day: DayState, event: Event)
    requires HoldsOwnRows(day) && HasFreshKeys(day, event)
    ensures HoldsOwnRows(Apply(day, event))
  {
    forall id: nat
      ensures HeldRows(Apply(day, event).reservations, {id}) == if id in Apply(day, event).hourlyHolds then 1 else 0
    {
      EventMovesHeldRows(day, event, id);
    }
    hide Peak, HeldRows, WithoutHolds, WithoutItem, WithBooked, HoldRows, ValidateHourlyStay, HasRoomFor;
  }

  lemma EventKeepsDay(day: DayState, event: Event)
    requires IsConsistent(day) && HasFreshKeys(day, event)
    ensures IsConsistent(Apply(day, event)) && Apply(day, event).capacity == day.capacity
  {
    EventKeepsHolds(day, event);
    match event
    case HoldHourly(_, _, _) => HourlyHoldKeepsDay(day, event);
    case HoldNightly(_) => TakingKeepsDay(day, event);
    case ReleaseHolds(_) => ReleaseKeepsDay(day, event);
    case BookHolds(_, _) => BookingKeepsDay(day, event);
    case TakeCapacity(_, _) => TakingKeepsDay(day, event);
    case ReleaseClaim(_) => ClaimReleaseKeepsDay(day, event);
  }

  lemma CancelledNights(day: DayState, ids: set<nat>, item: nat)
    requires HoldsOwnRows(day) && HasFreshKeys(day, BookHolds(ids, item)) && ids <= day.nightlyHolds
    ensures Apply(Apply(day, BookHolds(ids, item)), ReleaseClaim(BookedItem(item))) == Apply(day, ReleaseHolds(ids))
  {
    UnheldIdsOwnNoRows(day, ids);
    NoneShared(day.hourlyHolds, ids);
    assert BookedItem(item) !in day.claims;
    hide HoldsOwnRows, HasFreshKeys, Peak, HeldRows, WithoutHolds, ValidateHourlyStay, HoldRows, IsHeldBy, HasRoomFor;
    ReleaseByMembership(day.reservations, ids);
    SetSizes(day.nightlyHolds, ids);
    assert ids * day.nightlyHolds == day.nightlyHolds * ids;
    assert ids <= day.nightlyHolds + day.hourlyHolds;
    var booked := day.(claims := day.claims[BookedItem(item) := |ids|], nightlyHolds := day.nightlyHolds - ids);
    assert Apply(day, BookHolds(ids, item)) == booked;
    var free := day.(quantityAvailable := day.quantityAvailable + |ids|, nightlyHolds := day.nightlyHolds - ids);
    assert Apply(day, ReleaseHolds(ids)) == free;
    assert booked.claims - {BookedItem(item)} == day.claims;
    assert Apply(booked, ReleaseClaim(BookedItem(item))) == free;
  }

  lemma CancelledHours(day: DayState, ids: set<nat>, item: nat)
    requires day.nightlyHolds !! day.hourlyHolds && HasFreshKeys(day, BookHolds(ids, item))
    requires ids <= day.hourlyHolds && !(ids <= day.nightlyHolds) && HeldRows(day.reservations, ids) == |ids|
    ensures Apply(Apply(day, BookHolds(ids, item)), ReleaseClaim(BookedItem(item))) == Apply(day, ReleaseHolds(ids))
  {
    CancellingBookedRows(day.reservations, ids, item);
    assert BookedItem(item) !in day.claims;
    hide HeldRows, WithoutHolds, WithoutItem, WithBooked, IsHeldBy, HasFreshKeys, Apply;
    var booked := day.(reservations := WithBooked(day.reservations, ids, item), hourlyHolds := day.hourlyHolds - ids);
    BookedHours(day, ids, item);
    ReleasedItem(booked, item);
    ReleasedHours(day, ids);
  }

  lemma BookedHours(day: DayState, ids: set<nat>, item: nat)
    requires ids <= day.hourlyHolds && !(ids <= day.nightlyHolds) && HeldRows(day.reservations, ids) == |ids|
    ensures Apply(day, BookHolds(ids, item))
         == day.(reservations := WithBooked(day.reservations, ids, item), hourlyHolds := day.hourlyHolds - ids)
  {
    hide Peak, HeldRows, WithoutHolds, WithoutItem, WithBooked, ValidateHourlyStay, HoldRows, HasRoomFor;
  }

  lemma ReleasedItem(day: DayState, item: nat)
    requires BookedItem(item) !in day.claims
    ensures Apply(day, ReleaseClaim(BookedItem(item))) == day.(reservations := WithoutItem(day.reservations, item))
  {
    hide Peak, HeldRows, WithoutHolds, WithoutItem, WithBooked, ValidateHourlyStay, HoldRows, HasRoomFor;
  }

  lemma ReleasedHours(day: DayState, ids: set<nat>)
    requires day.nightlyHolds !! day.hourlyHolds && ids <= day.hourlyHolds
    ensures Apply(day, ReleaseHolds(ids))
         == day.(reservations := WithoutHolds(day.reservations, ids), hourlyHolds := day.hourlyHolds - ids)
  {
    hide Peak, HeldRows, WithoutHolds, WithoutItem, WithBooked, ValidateHourlyStay, HoldRows, HasRoomFor;
    NoneShared(day.nightlyHolds, ids);
  }

  lemma NoneShared(held: set<nat>, ids: set<nat>)
    requires held !! ids
    ensures |ids * held| == 0 && held - ids == held
  {
    assert ids * held == {};
  }

  /** Booking holds and cancelling the booking leaves the date as releasing the holds would have. */
  lemma CancelledBookingIsRelease(day: DayState, ids: set<nat>, item: nat)
    requires IsConsistent(day) && HasFreshKeys(day, BookHolds(ids, item))
    requires ids <= day.nightlyHolds || ids <= day.hourlyHolds
    ensures Apply(Apply(day, BookHolds(ids, item)), ReleaseClaim(BookedItem(item))) == Apply(day, ReleaseHolds(ids))
  {
    assert day.nightlyHolds !! day.hourlyHolds;
    hide HoldsOwnRows, HasFreshKeys, Apply, HeldRows, NeverOverbooked;
    if ids <= day.nightlyHolds {
      CancelledNights(day, ids, item);
    } else {
      TransferFindsEveryRow(day, ids);
      CancelledHours(day, ids, item);
    }
  }

  ghost predicate IsRun(days: seq<DayState>, events: seq<Event>) {
    && |days| == |events| + 1
    && forall i :: 0 <= i < |events| ==> HasFreshKeys(days[i], events[i]) && days[i + 1] == Apply(days[i], events[i])
  }

  function EmptyDay(capacity: nat): DayState {
    DayState(capacity, capacity, [], {}, {}, map[])
  }

  /** No run of holds, bookings, blocks and their ends ever overbooks an hour, and every room is accounted for. */
  lemma {:induction false} RunsNeverOverbook(days: seq<DayState>, events: seq<Event>, i: nat)
    requires IsRun(days, events) && i < |days| && days[0] == EmptyDay(days[0].capacity)
    ensures IsConsistent(days[i]) && days[i].capacity == days[0].capacity
  {
    if i > 0 {
      hide IsConsistent, HasFreshKeys, Apply, EmptyDay;
      RunsNeverOverbook(days, events, i - 1);
      EventKeepsDay(days[i - 1], events[i - 1]);
    }
  }

  /**
   * At every moment of every run all hourly stays, one row for each active hourly hold among them, fit in physical
   * rooms that nightly holds and claims leave over.
   */
  lemma EveryRunHasRealRooms(days: seq<DayState>, events: seq<Event>, i: nat)
    returns (plan: seq<set<nat>>, nightlyRooms: set<nat>)
    requires IsRun(days, events) && i < |days| && days[0] == EmptyDay(days[0].capacity)
    ensures IsRoomPlan(days[i].reservations, days[0].capacity, plan)
    ensures nightlyRooms <= RoomNumbers(days[0].capacity)
    ensures |nightlyRooms| == |days[i].nightlyHolds| + Total(days[i].claims)
    ensures forall k :: 0 <= k < |plan| ==> plan[k] !! nightlyRooms
    ensures forall id: nat :: HeldRows(days[i].reservations, {id}) == if id in days[i].hourlyHolds then 1 else 0
  {
    RunsNeverOverbook(days, events, i);
    hide IsRun, HeldRows;
    var day := days[i];
    plan := PlaceInRooms(day.reservations, day.quantityAvailable);
    nightlyRooms := RoomNumbers(day.capacity) - RoomNumbers(day.quantityAvailable);
    assert RoomNumbers(day.capacity) == RoomNumbers(day.quantityAvailable) + nightlyRooms;
  }

  // ---- What a granted hourly hold leaves behind ----

  /** Hours a request's texts name are the hours the check returns. */
  lemma NamedHours(request: StayRequest, room: RoomHours, start: nat, end: nat)
    requires Names(request.startTime, start) && Names(request.endTime, end)
    ensures var check := ValidateHourlyStay(request, room);
      check.ValidStay? ==> check.startHour == start < check.endHour == end <= HOURS_PER_DAY
  {
    ParseInvertsFormat(request.startTime.value, start);
    ParseInvertsFormat(request.endTime.value, end);
    hide FormatHour, ParseWholeHour;
  }

  /** In every hour of its stay, and in no other, a hold takes one room for each of its ids. */
  lemma HoldRowsAdd(reservations: seq<Reservation>, startHour: int, endHour: int, holdIds: seq<nat>, hour: int)
    ensures OccupiedAt(reservations + HoldRows(startHour, endHour, holdIds), hour)
         == OccupiedAt(reservations, hour) + if startHour <= hour < endHour then |holdIds| else 0
  {
    OccupiedConcat(reservations, HoldRows(startHour, endHour, holdIds), hour);
    HoldRowsOccupancy(startHour, endHour, holdIds, hour);
  }

  /** The limit with a hold added, hour by hour. */
  lemma LimitWithHold(reservations: seq<Reservation>, startHour: int, endHour: int, holdIds: seq<nat>, limit: int)
    requires WithinLimit(reservations, limit)
    ensures WithinLimit(reservations + HoldRows(startHour, endHour, holdIds), limit)
       <==> forall hour :: startHour <= hour < endHour ==> OccupiedAt(reservations, hour) + |holdIds| <= limit
  {
    hide OccupiedAt;
    var all := reservations + HoldRows(startHour, endHour, holdIds);
    forall hour
      ensures OccupiedAt(all, hour)
           == OccupiedAt(reservations, hour) + if startHour <= hour < endHour then |holdIds| else 0
    {
      HoldRowsAdd(reservations, startHour, endHour, holdIds, hour);
    }
    if WithinLimit(all, limit) {
      forall hour | startHour <= hour < endHour
        ensures OccupiedAt(reservations, hour) + |holdIds| <= limit
      {
        assert OccupiedAt(all, hour) <= limit;
      }
    } else {
      var hour :| OccupiedAt(all, hour) > limit;
      assert OccupiedAt(reservations, hour) <= limit;
      assert startHour <= hour < endHour && OccupiedAt(reservations, hour) + |holdIds| > limit;
    }
  }

  lemma {:induction false} UnreleasedRowStays(rows: seq<Reservation>, ids: set<nat>, r: Reservation)
    requires r in rows && !IsHeldBy(r, ids)
    ensures r in WithoutHolds(rows, ids)
  {
    InitAndLast(rows);
    if r in DropLast(rows) {
      UnreleasedRowStays(DropLast(rows), ids, r);
    }
  }

  lemma {:induction false} UncancelledRowStays(rows: seq<Reservation>, item: nat, r: Reservation)
    requires r in rows && r.item != Some(item)
    ensures r in WithoutItem(rows, item)
  {
    InitAndLast(rows);
    if r in DropLast(rows) {
      UncancelledRowStays(DropLast(rows), item, r);
    }
  }

  lemma UnbookedRowStays(rows: seq<Reservation>, ids: set<nat>, item: nat, r: Reservation)
    requires r in rows && !IsHeldBy(r, ids)
    ensures r in WithBooked(rows, ids, item)
  {
    var i :| 0 <= i < |rows| && rows[i] == r;
    assert WithBooked(rows, ids, item)[i] == r;
  }

  /** While a hold stays active no event moves or removes its row. */
  lemma EventKeepsHeldRow(day: DayState, event: Event, r: Reservation)
    requires r in day.reservations && r.item.None?
    requires r.holdId in day.hourlyHolds && r.holdId in Apply(day, event).hourlyHolds
    ensures r in Apply(day, event).reservations
  {
    hide Peak, HeldRows, WithoutHolds, WithoutItem, WithBooked, HoldRows, ValidateHourlyStay, HasRoomFor;
    match event
    case HoldHourly(_, _, _) =>
    case HoldNightly(_) =>
    case ReleaseHolds(ids) =>
      if r.holdId !in ids {
        UnreleasedRowStays(day.reservations, ids, r);
      }
    case BookHolds(ids, item) =>
      if r.holdId !in ids {
        UnbookedRowStays(day.reservations, ids, item, r);
      }
    case TakeCapacity(_, _) =>
    case ReleaseClaim(claim) =>
      if claim.BookedItem? {
        UncancelledRowStays(day.reservations, claim.item, r);
      }
  }

  lemma HoldWritesRow(day: DayState, request: StayRequest, room: RoomHours, ids: seq<nat>, start: nat, end: nat,
                      id: nat)
    requires Names(request.startTime, start) && Names(request.endTime, end)
    requires id in ids && id !in day.hourlyHolds && id in Apply(day, HoldHourly(request, room, ids)).hourlyHolds
    ensures Reservation(id, start, end, 1, None) in Apply(day, HoldHourly(request, room, ids)).reservations
  {
    NamedHours(request, room, start, end);
    hide Names, ValidateHourlyStay, Peak;
    var k :| 0 <= k < |ids| && ids[k] == id;
    assert HoldRows(start, end, ids)[k] == Reservation(id, start, end, 1, None);
  }

  /** From its grant on, as long as it is active, an hourly hold owns exactly one row, with the hours it asked for. */
  lemma {:induction false} ActiveHoldOwnsItsHours(
    days: seq<DayState>, events: seq<Event>, i: nat, j: nat, id: nat, start: nat, end: nat)
    requires IsRun(days, events) && days[0] == EmptyDay(days[0].capacity) && i < j < |days|
    requires events[i].HoldHourly? && id in events[i].holdIds
    requires Names(events[i].request.startTime, start) && Names(events[i].request.endTime, end)
    requires forall k :: i < k <= j ==> id in days[k].hourlyHolds
    ensures Reservation(id, start, end, 1, None) in days[j].reservations
    ensures HeldRows(days[j].reservations, {id}) == 1
    decreases j
  {
    hide Names, HeldRows, NeverOverbooked, Apply;
    RunsNeverOverbook(days, events, j);
    assert HeldRows(days[j].reservations, {id}) == if id in days[j].hourlyHolds then 1 else 0;
    if j == i + 1 {
      HoldWritesRow(days[i], events[i].request, events[i].room, events[i].holdIds, start, end, id);
    } else {
      ActiveHoldOwnsItsHours(days, events, i, j - 1, id, start, end);
      EventKeepsHeldRow(days[j - 1], events[j - 1], Reservation(id, start, end, 1, None));
    }
  }

  lemma TransferIsSafe(day: DayState, ids: set<nat>, item: nat)
    requires HoldsOwnRows(day)
    ensures ids <= day.hourlyHolds ==> HeldRows(day.reservations, ids) == |ids|
    ensures ids <= day.nightlyHolds ==> day.hourlyHolds - ids == day.hourlyHolds
    ensures ids <= day.hourlyHolds ==> day.nightlyHolds - ids == day.nightlyHolds
    ensures forall hour ::
      OccupiedAt(WithBooked(day.reservations, ids, item), hour) == OccupiedAt(day.reservations, hour)
  {
    if ids <= day.hourlyHolds {
      TransferFindsEveryRow(day, ids);
      NoneShared(day.nightlyHolds, ids);
    }
    if ids <= day.nightlyHolds {
      NoneShared(day.hourlyHolds, ids);
    }
    hide HeldRows, OccupiedAt;
    forall hour
      ensures OccupiedAt(WithBooked(day.reservations, ids, item), hour) == OccupiedAt(day.reservations, hour)
    {
      BookingKeepsOccupancy(day.reservations, ids, item, hour);
    }
  }

  lemma ReleasedState(day: DayState, ids: set<nat>)
    ensures Apply(day, ReleaseHolds(ids))
         == if !(ids <= day.nightlyHolds + day.hourlyHolds) then day
            else DayState(
              day.capacity, day.quantityAvailable + |ids * day.nightlyHolds|, WithoutHolds(day.reservations, ids),
              day.nightlyHolds - ids, day.hourlyHolds - ids, day.claims)
  {
    hide WithoutHolds;
  }

  /** The rows a release leaves, row by row. */
  lemma ReleasedRows(rows: seq<Reservation>, ids: set<nat>)
    ensures forall r <- rows :: r in WithoutHolds(rows, ids) <==> !(r.holdId in ids && r.item == None)
  {
    ReleasingOnlyFrees(rows, ids, 0);
    forall r <- rows
      ensures r in WithoutHolds(rows, ids) <==> !(r.holdId in ids && r.item == None)
    {
      if !IsHeldBy(r, ids) {
        UnreleasedRowStays(rows, ids, r);
      }
    }
  }

  lemma CancelledRows(rows: seq<Reservation>, item: nat)
    ensures forall r <- rows :: r in WithoutItem(rows, item) <==> r.item != Some(item)
  {
    forall r <- rows
      ensures r in WithoutItem(rows, item) <==> r.item != Some(item)
    {
      if r.item != Some(item) {
        UncancelledRowStays(rows, item, r);
      } else {
        CancelledRowGoes(rows, item, r);
      }
    }
  }

  lemma {:induction false} CancelledRowGoes(rows: seq<Reservation>, item: nat, r: Reservation)
    requires r.item == Some(item)
    ensures r !in WithoutItem(rows, item)
  {
    if rows != [] {
      CancelledRowGoes(DropLast(rows), item, r);
    }
  }

  // ---- The stateful service operations ----

  /** The two writes that take capacity, when there is room and when there is not. */
  lemma TakenState(day: DayState, event: Event)
    ensures event.HoldNightly? ==>
      Apply(day, event)
      == if !HasRoomFor(day, |event.nightlyIds|) then day
         else day.(quantityAvailable := day.quantityAvailable - |event.nightlyIds|,
                   nightlyHolds := day.nightlyHolds + event.nightlyIds)
    ensures event.TakeCapacity? ==>
      Apply(day, event)
      == if !HasRoomFor(day, event.quantity) then day
         else day.(quantityAvailable := day.quantityAvailable - event.quantity,
                   claims := day.claims[event.claim := event.quantity])
  {
    hide HasRoomFor;
  }

  /** The locked rows of one unit and date. */
  class RoomDay {
    const capacity: nat
    var quantityAvailable: int
    var reservations: seq<Reservation>
    var nightlyHolds: set<nat>
    var hourlyHolds: set<nat>
    var claims: map<ClaimId, nat>

    ghost function State(): DayState
      reads this
    {
      DayState(capacity, quantityAvailable, reservations, nightlyHolds, hourlyHolds, claims)
    }

    constructor (capacity: nat)
      ensures State() == EmptyDay(capacity) && IsConsistent(State())
    {
      this.capacity := capacity;
      quantityAvailable := capacity;
      reservations := [];
      nightlyHolds := {};
      hourlyHolds := {};
      claims := map[];
      new;
      assert WithinLimit(reservations, quantityAvailable);
    }

    method TryHoldHourly(request: StayRequest, room: RoomHours, holdIds: seq<nat>) returns (granted: bool)
      requires IsConsistent(State()) && HasFreshKeys(State(), HoldHourly(request, room, holdIds))
      modifies this`reservations, this`hourlyHolds
      ensures State() == Apply(old(State()), HoldHourly(request, room, holdIds)) && IsConsistent(State())
      ensures var check := ValidateHourlyStay(request, room);
        granted
        <==> && check.ValidStay?
             && forall hour :: check.startHour <= hour < check.endHour ==>
                  OccupiedAt(old(reservations), hour) + |holdIds| <= quantityAvailable
      ensures granted ==>
        forall start: nat, end: nat, hour: int | Names(request.startTime, start) && Names(request.endTime, end) ::
          OccupiedAt(reservations, hour)
          == OccupiedAt(old(reservations), hour) + if start <= hour < end then |holdIds| else 0
      ensures granted ==> hourlyHolds == old(hourlyHolds) + set id | id in holdIds
      ensures !granted ==> reservations == old(reservations) && hourlyHolds == old(hourlyHolds)
    {
      hide Total, OccupiedAt, Peak, ParseWholeHour, FormatHour, HoldsOwnRows, HasFreshKeys, Names, InsideDay;
      EventKeepsDay(State(), HoldHourly(request, room, holdIds));
      var check := ValidateHourlyStay(request, room);
      if check.InvalidStay? {
        return false;
      }
      ValidStayMeaning(request, room, check.startHour, check.endHour);
      AdmissionIsExact(reservations, quantityAvailable, check.startHour, check.endHour, holdIds);
      LimitWithHold(reservations, check.startHour, check.endHour, holdIds, quantityAvailable);
      hide WithinLimit;
      forall start: nat, end: nat, hour: int | Names(request.startTime, start) && Names(request.endTime, end)
        ensures OccupiedAt(reservations + HoldRows(check.startHour, check.endHour, holdIds), hour)
             == OccupiedAt(reservations, hour) + if start <= hour < end then |holdIds| else 0
      {
        NamedHours(request, room, start, end);
        HoldRowsAdd(reservations, start, end, holdIds, hour);
      }
      hide ValidateHourlyStay;
      var peak := PeakOccupiedQuantity(reservations, check.startHour, check.endHour);
      if quantityAvailable - peak < |holdIds| {
        return false;
      }
      reservations := reservations + HoldRows(check.startHour, check.endHour, holdIds);
      hourlyHolds := hourlyHolds + IdsOf(holdIds);
      granted := true;
    }

    /** Takes date-level capacity when the rooms timed rows leave over suffice. */
    method TakeQuantity(quantity: nat) returns (taken: bool)
      requires NeverOverbooked(State())
      modifies this`quantityAvailable
      ensures taken <==> HasRoomFor(old(State()), quantity)
      ensures taken
           <==> quantity <= old(quantityAvailable) && WithinLimit(reservations, old(quantityAvailable) - quantity)
      ensures quantityAvailable == old(quantityAvailable) - if taken then quantity else 0
    {
      RoomForIsExact(State(), quantity);
      var peak := PeakOccupiedQuantity(reservations, 0, HOURS_PER_DAY);
      if quantityAvailable - peak < quantity {
        return false;
      }
      quantityAvailable := quantityAvailable - quantity;
      taken := true;
    }

    method TryHoldNightly(holdIds: set<nat>) returns (granted: bool)
      requires IsConsistent(State()) && HasFreshKeys(State(), HoldNightly(holdIds))
      modifies this`quantityAvailable, this`nightlyHolds
      ensures State() == Apply(old(State()), HoldNightly(holdIds)) && IsConsistent(State())
      ensures granted
           <==> |holdIds| <= old(quantityAvailable) && WithinLimit(reservations, old(quantityAvailable) - |holdIds|)
      ensures quantityAvailable == old(quantityAvailable) - if granted then |holdIds| else 0
      ensures nightlyHolds == old(nightlyHolds) + if granted then holdIds else {}
    {
      EventKeepsDay(State(), HoldNightly(holdIds));
      TakenState(State(), HoldNightly(holdIds));
      hide HasRoomFor, WithinLimit, NeverOverbooked, HoldsOwnRows, HasFreshKeys, Apply;
      ghost var before := State();
      granted := TakeQuantity(|holdIds|);
      if !granted {
        assert State() == before && nightlyHolds + {} == nightlyHolds;
        return;
      }
      nightlyHolds := nightlyHolds + holdIds;
    }

    method TryTakeCapacity(claim: ClaimId, quantity: nat) returns (granted: bool)
      requires IsConsistent(State()) && HasFreshKeys(State(), TakeCapacity(claim, quantity))
      modifies this`quantityAvailable, this`claims
      ensures quantityAvailable == old(quantityAvailable) - if granted then quantity else 0
      ensures claims == old(claims) + if granted then map[claim := quantity] else map[]
      ensures State() == Apply(old(State()), TakeCapacity(claim, quantity)) && IsConsistent(State())
      ensures granted
           <==> quantity <= old(quantityAvailable) && WithinLimit(reservations, old(quantityAvailable) - quantity)
    {
      EventKeepsDay(State(), TakeCapacity(claim, quantity));
      TakenState(State(), TakeCapacity(claim, quantity));
      hide HasRoomFor, WithinLimit, NeverOverbooked, HoldsOwnRows, HasFreshKeys, Apply;
      ghost var before := State();
      granted := TakeQuantity(quantity);
      if !granted {
        assert State() == before && claims + map[] == claims;
        return;
      }
      claims := claims[claim := quantity];
    }

    /** Every hold must still be active; nightly ones give their capacity back, hourly ones their rows. */
    method ReleaseActiveHolds(holdIds: set<nat>) returns (ok: bool)
      requires IsConsistent(State())
      modifies this
      ensures State() == Apply(old(State()), ReleaseHolds(holdIds)) && IsConsistent(State())
      ensures ok <==> holdIds <= old(nightlyHolds) + old(hourlyHolds)
      ensures quantityAvailable == old(quantityAvailable) + if ok then |holdIds * old(nightlyHolds)| else 0
      ensures nightlyHolds == old(nightlyHolds) - if ok then holdIds else {}
      ensures hourlyHolds == old(hourlyHolds) - if ok then holdIds else {}
      ensures forall r <- old(reservations) :: r in reservations <==> !(ok && r.holdId in holdIds && r.item == None)
    {
      EventKeepsDay(State(), ReleaseHolds(holdIds));
      ReleasedRows(reservations, holdIds);
      ReleasedState(State(), holdIds);
      hide IsConsistent, WithoutHolds, Apply;
      if !(holdIds <= nightlyHolds + hourlyHolds) {
        return false;
      }
      quantityAvailable := quantityAvailable + |holdIds * nightlyHolds|;
      reservations := WithoutHolds(reservations, holdIds);
      nightlyHolds := nightlyHolds - holdIds;
      hourlyHolds := hourlyHolds - holdIds;
      ok := true;
    }

    /** The holds of one booking item are of one kind; hourly ones must all still have their rows. */
    method BookActiveHolds(holdIds: set<nat>, item: nat) returns (ok: bool)
      requires IsConsistent(State()) && HasFreshKeys(State(), BookHolds(holdIds, item))
      modifies this
      ensures State() == Apply(old(State()), BookHolds(holdIds, item)) && IsConsistent(State())
      ensures ok <==> holdIds <= old(nightlyHolds) || holdIds <= old(hourlyHolds)
      ensures quantityAvailable == old(quantityAvailable)
      ensures forall hour :: OccupiedAt(reservations, hour) == OccupiedAt(old(reservations), hour)
      ensures nightlyHolds == old(nightlyHolds) - if ok then holdIds else {}
      ensures hourlyHolds == old(hourlyHolds) - if ok then holdIds else {}
      ensures !ok ==> State() == old(State())
    {
      TransferIsSafe(State(), holdIds, item);
      EventKeepsDay(State(), BookHolds(holdIds, item));
      hide IsConsistent, HeldRows;
      if holdIds <= nightlyHolds {
        claims := claims[BookedItem(item) := |holdIds|];
        nightlyHolds := nightlyHolds - holdIds;
        return true;
      }
      if !(holdIds <= hourlyHolds) {
        return false;
      }
      var transferred := HeldRows(reservations, holdIds);
      if transferred != |holdIds| {
        return false;
      }
      reservations := WithBooked(reservations, holdIds, item);
      hourlyHolds := hourlyHolds - holdIds;
      ok := true;
    }

    /** A cancelled booking item, a released block or a cancelled external reservation. */
    method ReleaseTakenCapacity(claim: ClaimId)
      requires IsConsistent(State())
      modifies this
      ensures State() == Apply(old(State()), ReleaseClaim(claim)) && IsConsistent(State())
      ensures quantityAvailable == old(quantityAvailable) + if claim in old(claims) then old(claims)[claim] else 0
      ensures claims == old(claims) - {claim}
      ensures forall r <- old(reservations) ::
        r in reservations <==> claim in old(claims) || !claim.BookedItem? || r.item != Some(claim.item)
    {
      EventKeepsDay(State(), ReleaseClaim(claim));
      if claim.BookedItem? {
        CancelledRows(reservations, claim.item);
      }
      hide IsConsistent;
      if claim in claims {
        quantityAvailable := quantityAvailable + claims[claim];
        claims := claims - {claim};
      } else if claim.BookedItem? {
        reservations := WithoutItem(reservations, claim.item);
      }
    }
  }
}
