/**
 * A parking lot: floors of slots, each slot taking one vehicle type. A vehicle parks in
 * the first free slot of its type, scanning the floors in order and each floor's slots
 * in order; leaving frees the first occupied slot with the given number; a ticket is
 * charged an hourly fee that depends on the vehicle type.
 */
module Parking {
  import opened Wrappers
  import opened JavaLang

  datatype VehicleType = Car | Bike | Truck

  /** The name of an enum constant. */
  function TypeName(t: VehicleType): string {
    match t
    case Car => "CAR"
    case Bike => "BIKE"
    case Truck => "TRUCK"
  }

  /** A vehicle is never changed once made, so it is a value. */
  datatype Vehicle = Vehicle(licenceNumber: string, vehicleType: VehicleType)

  // ---------------------------------------------------------------------------
  // Slots
  // ---------------------------------------------------------------------------

  /** The fields of a slot at one moment. */
  datatype SlotState = SlotState(slotNumber: string, supported: VehicleType, occupied: bool, parked: Option<Vehicle>)

  /** A slot is occupied exactly when it holds a vehicle. */
  predicate Consistent(st: SlotState) {
    st.occupied <==> st.parked.Some?
  }

  /** The slot after `parkVehicleInTheSlot(v)`. */
  function ParkedIn(st: SlotState, v: Vehicle): (r: SlotState)
    ensures Consistent(r) && r.occupied && r.parked == Some(v)
    ensures r.slotNumber == st.slotNumber && r.supported == st.supported
  {
    st.(occupied := true, parked := Some(v))
  }

  /** The slot after `unparkVehicleInTheSlot()`. */
  function Emptied(st: SlotState): (r: SlotState)
    ensures Consistent(r) && !r.occupied
    ensures r.slotNumber == st.slotNumber && r.supported == st.supported
  {
    st.(occupied := false, parked := None)
  }

  /** Parking in an empty slot and then emptying it gives back the slot as it was. */
  lemma ParkThenUnpark(st: SlotState, v: Vehicle)
    requires Consistent(st) && !st.occupied
    ensures Emptied(ParkedIn(st, v)) == st
  {
    assert st.parked == None;
  }

  class ParkingSlot {
    const slotNumber: string
    const supported: VehicleType
    var occupied: bool
    var parked: Option<Vehicle>

    function State(): SlotState
      reads this
    {
      SlotState(slotNumber, supported, occupied, parked)
    }

    /** A new slot is empty. */
    constructor(slotNumber: string, supported: VehicleType)
      ensures State() == SlotState(slotNumber, supported, false, None)
    {
      this.slotNumber := slotNumber;
      this.supported := supported;
      occupied := false;
      parked := None;
    }

    /** `parkVehicleInTheSlot`: the slot is occupied and holds `v`, whatever it held before. */
    method Park(v: Vehicle)
      modifies this
      ensures State() == ParkedIn(old(State()), v)
    {
      occupied := true;
      parked := Some(v);
    }

    /** `unparkVehicleInTheSlot`: the slot is empty. */
    method Unpark()
      modifies this
      ensures State() == Emptied(old(State()))
    {
      occupied := false;
      parked := None;
    }
  }

  class ParkingFloor {
    const floorNumber: int32
    var slots: seq<ParkingSlot>

    /** A new floor has no slots. */
    constructor(floorNumber: int32)
      ensures this.floorNumber == floorNumber && slots == []
    {
      this.floorNumber := floorNumber;
      slots := [];
    }

    /** `addSlot`: appends the slot. */
    method AddSlot(slot: ParkingSlot)
      modifies this
      ensures slots == old(slots) + [slot]
    {
      slots := slots + [slot];
    }
  }

  // ---------------------------------------------------------------------------
  // The scan over floors and slots
  // ---------------------------------------------------------------------------

  /** Slot `(a, b)` comes before slot `(i, j)` in the scan: an earlier floor, or an earlier slot on the same floor. */
  predicate Before(a: int, b: int, i: int, j: int) {
    a < i || (a == i && b < j)
  }

  /** No slot of `view` satisfies `p`. */
  predicate NoMatch(view: seq<seq<SlotState>>, p: SlotState -> bool) {
    forall i, j :: 0 <= i < |view| && 0 <= j < |view[i]| ==> !p(view[i][j])
  }

  /** Slot `(i, j)` satisfies `p` and no slot before it does. */
  predicate IsFirst(view: seq<seq<SlotState>>, p: SlotState -> bool, i: int, j: int) {
    && 0 <= i < |view| && 0 <= j < |view[i]| && p(view[i][j])
    && forall a, b :: 0 <= a < |view| && 0 <= b < |view[a]| && Before(a, b, i, j) ==> !p(view[a][b])
  }

  /** The scan from slot `(i, j)` on: the first slot there that satisfies `p`. */
  function ScanFrom(view: seq<seq<SlotState>>, p: SlotState -> bool, i: nat, j: nat): Option<(int, int)>
    decreases |view| - i, if i < |view| then |view[i]| - j else 0
  {
    if i >= |view| then None
    else if j >= |view[i]| then ScanFrom(view, p, i + 1, 0)
    else if p(view[i][j]) then Some((i, j))
    else ScanFrom(view, p, i, j + 1)
  }

  /** The first slot of the whole lot that satisfies `p`, floors first, then slots. */
  function FirstMatch(view: seq<seq<SlotState>>, p: SlotState -> bool): Option<(int, int)> {
    ScanFrom(view, p, 0, 0)
  }

  lemma {:induction false} ScanFromFinds(view: seq<seq<SlotState>>, p: SlotState -> bool, i: nat, j: nat)
    requires i < |view| ==> j <= |view[i]|
    requires forall a, b :: 0 <= a < |view| && 0 <= b < |view[a]| && Before(a, b, i, j) ==> !p(view[a][b])
    ensures var r := ScanFrom(view, p, i, j);
      && (r.None? ==> NoMatch(view, p))
      && (r.Some? ==> IsFirst(view, p, r.value.0, r.value.1))
    decreases |view| - i, if i < |view| then |view[i]| - j else 0
  {
    if i >= |view| {
    } else if j >= |view[i]| {
      ScanFromFinds(view, p, i + 1, 0);
    } else if !p(view[i][j]) {
      ScanFromFinds(view, p, i, j + 1);
    }
  }

  /** Two slots that are both first for `p` are the same slot. */
  lemma IsFirstUnique(view: seq<seq<SlotState>>, p: SlotState -> bool, i: int, j: int, k: int, l: int)
    requires IsFirst(view, p, i, j) && IsFirst(view, p, k, l)
    ensures i == k && j == l
  {
  }

  /**
   * The scan finds nothing exactly when no slot satisfies `p`, and otherwise finds the
   * slot that satisfies `p` with none before it.
   */
  lemma FirstMatchSpec(view: seq<seq<SlotState>>, p: SlotState -> bool)
    ensures FirstMatch(view, p).None? <==> NoMatch(view, p)
    ensures FirstMatch(view, p).Some? ==> IsFirst(view, p, FirstMatch(view, p).value.0, FirstMatch(view, p).value.1)
    ensures forall i, j :: IsFirst(view, p, i, j) ==> FirstMatch(view, p) == Some((i, j))
  {
    ScanFromFinds(view, p, 0, 0);
    forall i, j | IsFirst(view, p, i, j)
      ensures FirstMatch(view, p) == Some((i, j))
    {
      IsFirstUnique(view, p, i, j, FirstMatch(view, p).value.0, FirstMatch(view, p).value.1);
    }
  }

  /** The condition of `parkVehicle`: an unoccupied slot of the vehicle's type. */
  function Fits(t: VehicleType): SlotState -> bool {
    (st: SlotState) => !st.occupied && st.supported == t
  }

  /** The condition of `unparkVehicle`: an occupied slot with this number. */
  function Holds(slotNumber: string): SlotState -> bool {
    (st: SlotState) => st.slotNumber == slotNumber && st.occupied
  }

  /** Every slot is occupied exactly when it holds a vehicle. */
  predicate AllConsistent(view: seq<seq<SlotState>>) {
    forall i, j :: 0 <= i < |view| && 0 <= j < |view[i]| ==> Consistent(view[i][j])
  }

  // ---------------------------------------------------------------------------
  // Tickets and fees
  // ---------------------------------------------------------------------------

  /** A ticket records the vehicle, its slot and the entry time in milliseconds. */
  datatype Ticket = Ticket(vehicle: Vehicle, slot: ParkingSlot, startTime: int64)

  /** The hourly rate of the pricing strategy for each type. */
  function Rate(t: VehicleType): int {
    match t
    case Car => 20
    case Bike => 10
    case Truck => 50
  }

  /** `calculateFee`: the rate times the duration, a `long` product. */
  function Fee(t: VehicleType, duration: int64): (r: int)
    ensures 0 <= duration <= LongMax / 50 ==> r == Rate(t) * duration
  {
    Wrap64(Rate(t) * duration)
  }

  /** Longer stays never cost less, as long as the product fits in a `long`. */
  lemma FeeMonotone(t: VehicleType, d: int64, e: int64)
    requires 0 <= d <= e <= LongMax / 50
    ensures Fee(t, d) <= Fee(t, e)
  {
    assert Rate(t) * d <= Rate(t) * e by {
      assert 0 < Rate(t);
    }
  }

  /** The duration billed: a stay measured as 0 is billed as 1. */
  function Billed(duration: int64): (r: int64)
    ensures r != 0
  {
    if duration == 0 then 1 else duration
  }

  /** The milliseconds in one hour. */
  const MillisPerHour: int := 3_600_000

  /** `calculateFare` as written: the milliseconds between entry and `now` are passed as the number of hours. */
  function FareAsWritten(ticket: Ticket, now: int64): int {
    Fee(ticket.vehicle.vehicleType, Billed(Wrap64(now - ticket.startTime)))
  }

  /** `calculateFare` as intended: the whole hours between entry and `now`, at least one. */
  function Fare(ticket: Ticket, now: int64): int {
    Fee(ticket.vehicle.vehicleType, Billed(Div(Wrap64(now - ticket.startTime), MillisPerHour)))
  }

  /** A two-second stay of a car is billed as 2000 hours as written. */
  lemma TwoSecondStay(slot: ParkingSlot)
    ensures var ticket := Ticket(Vehicle("KA-01-AB-4321", Car), slot, 0);
      FareAsWritten(ticket, 2_000) == 40_000 && Fare(ticket, 2_000) == 20
  {
  }

  /**
   * A stay of `now - startTime` milliseconds is charged the rate for its whole hours,
   * and a stay of less than an hour the rate for one hour.
   */
  lemma FareByHours(ticket: Ticket, now: int64)
    requires 0 <= ticket.startTime <= now
    ensures var hours := (now - ticket.startTime) / MillisPerHour;
      Fare(ticket, now) == Rate(ticket.vehicle.vehicleType) * (if hours == 0 then 1 else hours)
  {
    var elapsed := now - ticket.startTime;
    assert Wrap64(elapsed) == elapsed;
    assert Div(elapsed, MillisPerHour) == elapsed / MillisPerHour;
  }

  /** The fare never falls as the exit time moves later. */
  lemma FareMonotone(ticket: Ticket, now: int64, later: int64)
    requires 0 <= ticket.startTime <= now <= later
    ensures Fare(ticket, now) <= Fare(ticket, later)
  {
    FareByHours(ticket, now);
    FareByHours(ticket, later);
    var h := (now - ticket.startTime) / MillisPerHour;
    var k := (later - ticket.startTime) / MillisPerHour;
    assert h <= k;
    var rate := Rate(ticket.vehicle.vehicleType);
    assert rate * (if h == 0 then 1 else h) <= rate * (if k == 0 then 1 else k) by {
      assert 0 < rate;
    }
  }

  // ---------------------------------------------------------------------------
  // The lot
  // ---------------------------------------------------------------------------

  /** The message of the exception `parkVehicle` throws when no slot fits. */
  function NoSlot(t: VehicleType): string {
    "No available slot for vehicle type: " + TypeName(t)
  }

  /** The message of the exception `unparkVehicle` throws when no slot matches. */
  const NotFound: string := "Slot not found or already empty"

  /** The states of a floor's slots, in order. */
  function Row(slots: seq<ParkingSlot>): (r: seq<SlotState>)
    reads slots
    ensures |r| == |slots| && forall j :: 0 <= j < |slots| ==> r[j] == slots[j].State()
  {
    seq(|slots|, j requires 0 <= j < |slots| reads slots => slots[j].State())
  }

  class ParkingLot {
    var floors: seq<ParkingFloor>

    /** Every slot of every floor. */
    function Slots(): set<ParkingSlot>
      reads this, floors
    {
      set i, j | 0 <= i < |floors| && 0 <= j < |floors[i].slots| :: floors[i].slots[j]
    }

    /** The state of each slot, floor by floor. */
    function View(): (r: seq<seq<SlotState>>)
      reads this, floors, Slots()
      ensures |r| == |floors|
      ensures forall i :: 0 <= i < |floors| ==> r[i] == Row(floors[i].slots)
    {
      seq(|floors|, i requires 0 <= i < |floors| reads this, floors, Slots() =>
        assert forall j :: 0 <= j < |floors[i].slots| ==> floors[i].slots[j] in Slots();
        Row(floors[i].slots))
    }

    /** A new lot has no floors. */
    constructor()
      ensures floors == []
    {
      floors := [];
    }

    /** `addFloor`: appends the floor. */
    method AddFloor(floor: ParkingFloor)
      modifies this
      ensures floors == old(floors) + [floor]
    {
      floors := floors + [floor];
    }

    /** The nested loops of `parkVehicle` and `unparkVehicle`: the first slot that satisfies `p`. */
    method FindFirst(p: SlotState -> bool) returns (found: Option<(int, int)>)
      ensures found == FirstMatch(View(), p)
    {
      ghost var view := View();
      var i := 0;
      while i < |floors|
        invariant 0 <= i <= |floors|
        invariant FirstMatch(view, p) == ScanFrom(view, p, i, 0)
      {
        var slots := floors[i].slots;
        assert view[i] == Row(slots);
        var j := 0;
        while j < |slots|
          invariant 0 <= j <= |slots|
          invariant FirstMatch(view, p) == ScanFrom(view, p, i, j)
        {
          if p(slots[j].State()) {
            return Some((i, j));
          }
          j := j + 1;
        }
        i := i + 1;
      }
      return None;
    }

    /**
     * `parkVehicle`: parks `v` in the first unoccupied slot of its type and issues a
     * ticket stamped `now`; fails and changes nothing when there is no such slot.
     */
    method ParkVehicle(v: Vehicle, now: int64) returns (r: Result<Ticket, string>)
      modifies Slots()
      ensures var k := FirstMatch(old(View()), Fits(v.vehicleType));
        k.None? ==> r == Err(NoSlot(v.vehicleType)) && unchanged(Slots())
      ensures var k := FirstMatch(old(View()), Fits(v.vehicleType));
        k.Some? ==> (0 <= k.value.0 < |floors| && 0 <= k.value.1 < |floors[k.value.0].slots|
          && var s := floors[k.value.0].slots[k.value.1];
          && r == Ok(Ticket(v, s, now))
          && s.State() == ParkedIn(old(s.State()), v)
          && forall x :: x in Slots() && x != s ==> unchanged(x))
      ensures AllConsistent(old(View())) ==> AllConsistent(View())
    {
      ghost var before := View();
      var found := FindFirst(Fits(v.vehicleType));
      FirstMatchSpec(before, Fits(v.vehicleType));
      if found.None? {
        return Err(NoSlot(v.vehicleType));
      }
      var (i, j) := found.value;
      var slot := floors[i].slots[j];
      assert slot in Slots();
      slot.Park(v);
      r := Ok(Ticket(v, slot, now));
      KeepsConsistent(before, slot);
    }

    /**
     * `unparkVehicle`: empties the first occupied slot numbered `slotNumber`; fails and
     * changes nothing when there is none.
     */
    method UnparkVehicle(slotNumber: string) returns (r: Result<(), string>)
      modifies Slots()
      ensures var k := FirstMatch(old(View()), Holds(slotNumber));
        k.None? ==> r == Err(NotFound) && unchanged(Slots())
      ensures var k := FirstMatch(old(View()), Holds(slotNumber));
        k.Some? ==> (0 <= k.value.0 < |floors| && 0 <= k.value.1 < |floors[k.value.0].slots|
          && var s := floors[k.value.0].slots[k.value.1];
          && r.Ok?
          && s.State() == Emptied(old(s.State()))
          && forall x :: x in Slots() && x != s ==> unchanged(x))
      ensures AllConsistent(old(View())) ==> AllConsistent(View())
    {
      ghost var before := View();
      var found := FindFirst(Holds(slotNumber));
      FirstMatchSpec(before, Holds(slotNumber));
      if found.None? {
        return Err(NotFound);
      }
      var (i, j) := found.value;
      var slot := floors[i].slots[j];
      assert slot in Slots();
      slot.Unpark();
      r := Ok(());
      KeepsConsistent(before, slot);
    }

    /** Changing one slot into a consistent state, and nothing else, keeps every slot consistent. */
    twostate lemma KeepsConsistent(before: seq<seq<SlotState>>, new s: ParkingSlot)
      requires old(allocated(s))
      requires before == old(View()) && floors == old(floors)
      requires forall f :: f in floors ==> f.slots == old(f.slots)
      requires Consistent(s.State())
      requires forall x :: x in old(Slots()) && x != s ==> unchanged(x)
      ensures AllConsistent(before) ==> AllConsistent(View())
    {
      if AllConsistent(before) {
        forall i, j | 0 <= i < |floors| && 0 <= j < |floors[i].slots|
          ensures Consistent(View()[i][j])
        {
          var x := floors[i].slots[j];
          assert floors[i] in floors;
          assert x in old(Slots());
          if x != s {
            assert x.State() == old(x.State());
            assert old(x.State()) == before[i][j];
          }
        }
      }
    }
  }
}
