/**
 * A vehicle rental service. Branches offer some of the vehicle types CAR, BIKE and VAN;
 * each vehicle is booked by the hour over one 24-hour day; a booking takes the cheapest
 * vehicle of the requested type that is free for the whole period, and a listing shows
 * every free vehicle of the branch, cheapest first.
 */
module VehicleRental {
  import opened Wrappers
  import opened JavaLang

  datatype VehicleType = Car | Bike | Van

  /** The name of an enum constant. */
  function Name(t: VehicleType): string {
    match t
    case Car => "CAR"
    case Bike => "BIKE"
    case Van => "VAN"
  }

  /** `VehicleType.valueOf`: the constant with exactly this name; `None` where Java throws `IllegalArgumentException`. */
  function ValueOf(name: string): (r: Option<VehicleType>)
    ensures r.Some? ==> Name(r.value) == name
    ensures r.None? ==> forall t :: Name(t) != name
  {
    if name == "CAR" then Some(Car)
    else if name == "BIKE" then Some(Bike)
    else if name == "VAN" then Some(Van)
    else None
  }

  // ---------------------------------------------------------------------------
  // The hours of one vehicle
  // ---------------------------------------------------------------------------

  /** The length of the `timeSlots` array: one flag per hour of the day. */
  const Hours: int := 24

  /**
   * The hours `start .. end - 1` index the array. An empty period always qualifies, since
   * the loops over it never touch the array.
   */
  predicate InDay(start: int, end: int) {
    start >= end || (0 <= start && end <= Hours)
  }

  /** No hour of `[start, end)` is booked. */
  predicate Free(slots: seq<bool>, start: int, end: int)
    requires |slots| == Hours && InDay(start, end)
  {
    forall i :: start <= i < end ==> !slots[i]
  }

  /** The day after booking `[start, end)`. */
  function Booked(slots: seq<bool>, start: int, end: int): (r: seq<bool>)
    requires |slots| == Hours && InDay(start, end)
    ensures |r| == Hours
    ensures forall i :: start <= i < end ==> r[i]
    ensures forall i :: 0 <= i < Hours && !(start <= i < end) ==> r[i] == slots[i]
  {
    seq(Hours, i requires 0 <= i < Hours => slots[i] || start <= i < end)
  }

  /** A non-empty period that has just been booked is no longer free. */
  lemma BookThenUnavailable(slots: seq<bool>, start: int, end: int)
    requires |slots| == Hours && InDay(start, end) && start < end
    ensures !Free(Booked(slots, start, end), start, end)
  {
    assert Booked(slots, start, end)[start];
  }

  /** Booking one period leaves the availability of every period that does not overlap it as it was. */
  lemma BookKeepsDisjoint(slots: seq<bool>, start: int, end: int, from: int, to: int)
    requires |slots| == Hours && InDay(start, end) && InDay(from, to)
    requires end <= from || to <= start
    ensures Free(Booked(slots, start, end), from, to) == Free(slots, from, to)
  {
  }

  /** Booking the same period twice is the same as booking it once. */
  lemma BookIdempotent(slots: seq<bool>, start: int, end: int)
    requires |slots| == Hours && InDay(start, end)
    ensures Booked(Booked(slots, start, end), start, end) == Booked(slots, start, end)
  {
  }

  class Vehicle {
    const id: string
    const vtype: VehicleType
    const price: int32
    /** Hour `i` of the day is booked iff `timeSlots[i]`. */
    const timeSlots: array<bool>

    /** A new vehicle has its own array, with every hour free. */
    constructor(id: string, vtype: VehicleType, price: int32)
      ensures this.id == id && this.vtype == vtype && this.price == price
      ensures fresh(timeSlots) && timeSlots.Length == Hours
      ensures Free(timeSlots[..], 0, Hours)
    {
      this.id := id;
      this.vtype := vtype;
      this.price := price;
      timeSlots := new bool[Hours](_ => false);
    }

    /** `isAvailable`: scans `[start, end)` and answers whether no hour of it is booked. */
    method IsAvailable(start: int32, end: int32) returns (r: bool)
      requires timeSlots.Length == Hours && InDay(start, end)
      ensures r == Free(timeSlots[..], start, end)
    {
      var i: int := start;
      while i < end
        invariant start <= i <= (if start < end then end else start)
        invariant forall j :: start <= j < i ==> !timeSlots[j]
      {
        if timeSlots[i] {
          return false;
        }
        i := i + 1;
      }
      return true;
    }

    /** `book`: marks every hour of `[start, end)` booked and no other. */
    method Book(start: int32, end: int32)
      requires timeSlots.Length == Hours && InDay(start, end)
      modifies timeSlots
      ensures timeSlots[..] == Booked(old(timeSlots[..]), start, end)
    {
      var i: int := start;
      while i < end
        invariant start <= i <= (if start < end then end else start)
        invariant forall j :: 0 <= j < Hours ==> timeSlots[j] == (old(timeSlots[j]) || start <= j < i)
      {
        timeSlots[i] := true;
        i := i + 1;
      }
      ghost var booked := Booked(old(timeSlots[..]), start, end);
      assert forall j :: 0 <= j < Hours ==> timeSlots[..][j] == booked[j];
    }
  }

  /** Vehicle `v` is free for `[start, end)`. */
  predicate IsFree(v: Vehicle, start: int, end: int)
    reads v.timeSlots
    requires v.timeSlots.Length == Hours && InDay(start, end)
  {
    Free(v.timeSlots[..], start, end)
  }

  /** Every vehicle of `vs` has a day-long array. */
  predicate DayLong(vs: seq<Vehicle>) {
    forall i :: 0 <= i < |vs| ==> vs[i].timeSlots.Length == Hours
  }

  /** The arrays of the vehicles of `vs`. */
  function SlotsOf(vs: seq<Vehicle>): set<array<bool>> {
    set i | 0 <= i < |vs| :: vs[i].timeSlots
  }

  /** The vehicles of `vs` free for all of `[start, end)`, in list order. */
  function Available(vs: seq<Vehicle>, start: int, end: int): (r: seq<Vehicle>)
    reads SlotsOf(vs)
    requires DayLong(vs) && InDay(start, end)
  {
    if vs == [] then []
    else
      var front := vs[..|vs| - 1];
      var last := vs[|vs| - 1];
      assert forall i :: 0 <= i < |front| ==> front[i] == vs[i];
      Available(front, start, end) + (if IsFree(last, start, end) then [last] else [])
  }

  /** `Available` keeps exactly the free vehicles of the list. */
  lemma {:induction false} AvailableMembers(vs: seq<Vehicle>, start: int, end: int)
    requires DayLong(vs) && InDay(start, end)
    ensures var r := Available(vs, start, end);
      && (forall i :: 0 <= i < |r| ==> r[i] in vs && IsFree(r[i], start, end))
      && (forall i :: 0 <= i < |vs| && IsFree(vs[i], start, end) ==> vs[i] in r)
    decreases |vs|
  {
    if vs != [] {
      var front := vs[..|vs| - 1];
      assert forall i :: 0 <= i < |front| ==> front[i] == vs[i];
      AvailableMembers(front, start, end);
      assert vs == front + [vs[|vs| - 1]];
    }
  }

  // ---------------------------------------------------------------------------
  // Sorting by price
  // ---------------------------------------------------------------------------

  /** Prices never decrease along `vs`. */
  predicate SortedByPrice(vs: seq<Vehicle>) {
    forall i, j :: 0 <= i < j < |vs| ==> vs[i].price <= vs[j].price
  }

  /** No price in `vs` exceeds `p`. */
  predicate PricesAtMost(vs: seq<Vehicle>, p: int) {
    forall i :: 0 <= i < |vs| ==> vs[i].price <= p
  }

  /** Puts `x` after every element of `s` that is not dearer than it. */
  function InsertLast(s: seq<Vehicle>, x: Vehicle): (r: seq<Vehicle>)
    ensures |r| == |s| + 1
    ensures multiset(r) == multiset(s) + multiset{x}
  {
    if s == [] || s[|s| - 1].price <= x.price then s + [x]
    else
      assert s == s[..|s| - 1] + [s[|s| - 1]];
      InsertLast(s[..|s| - 1], x) + [s[|s| - 1]]
  }

  /**
   * `list.sort(Comparator.comparingInt(v -> v.price))`: a stable sort by price, here an
   * insertion sort that adds the elements in list order.
   */
  function SortByPrice(vs: seq<Vehicle>): (r: seq<Vehicle>)
    ensures |r| == |vs|
    ensures multiset(r) == multiset(vs)
  {
    if vs == [] then []
    else
      assert vs == vs[..|vs| - 1] + [vs[|vs| - 1]];
      InsertLast(SortByPrice(vs[..|vs| - 1]), vs[|vs| - 1])
  }

  lemma {:induction false} InsertLastBounded(s: seq<Vehicle>, x: Vehicle, p: int)
    requires PricesAtMost(s, p) && x.price <= p
    ensures PricesAtMost(InsertLast(s, x), p)
    decreases |s|
  {
    if !(s == [] || s[|s| - 1].price <= x.price) {
      InsertLastBounded(s[..|s| - 1], x, p);
    }
  }

  lemma {:induction false} InsertLastSorted(s: seq<Vehicle>, x: Vehicle)
    requires SortedByPrice(s)
    ensures SortedByPrice(InsertLast(s, x))
    decreases |s|
  {
    if !(s == [] || s[|s| - 1].price <= x.price) {
      var front := s[..|s| - 1];
      InsertLastSorted(front, x);
      InsertLastBounded(front, x, s[|s| - 1].price);
    }
  }

  lemma {:induction false} InsertLastHead(s: seq<Vehicle>, x: Vehicle)
    requires SortedByPrice(s)
    ensures InsertLast(s, x)[0] == if s == [] || x.price < s[0].price then x else s[0]
    decreases |s|
  {
    if !(s == [] || s[|s| - 1].price <= x.price) {
      InsertLastHead(s[..|s| - 1], x);
    }
  }

  /** The sort puts prices in non-decreasing order. */
  lemma {:induction false} SortByPriceSorted(vs: seq<Vehicle>)
    ensures SortedByPrice(SortByPrice(vs))
    decreases |vs|
  {
    if vs != [] {
      SortByPriceSorted(vs[..|vs| - 1]);
      InsertLastSorted(SortByPrice(vs[..|vs| - 1]), vs[|vs| - 1]);
    }
  }

  /** The earliest element of `xs` among those of the lowest price. */
  function Cheapest(xs: seq<Vehicle>): (r: Vehicle)
    requires xs != []
    ensures r in xs && forall i :: 0 <= i < |xs| ==> r.price <= xs[i].price
  {
    if |xs| == 1 then xs[0]
    else
      var c := Cheapest(xs[..|xs| - 1]);
      assert xs == xs[..|xs| - 1] + [xs[|xs| - 1]];
      if xs[|xs| - 1].price < c.price then xs[|xs| - 1] else c
  }

  /** Because the sort is stable, its first element is the earliest of the cheapest. */
  lemma {:induction false} SortHeadIsCheapest(vs: seq<Vehicle>)
    requires vs != []
    ensures SortByPrice(vs)[0] == Cheapest(vs)
    decreases |vs|
  {
    var front := vs[..|vs| - 1];
    if front != [] {
      SortHeadIsCheapest(front);
      SortByPriceSorted(front);
      InsertLastHead(SortByPrice(front), vs[|vs| - 1]);
    }
  }

  /**
   * `vs[k]` is the vehicle a booking for `[start, end)` should take: it is free, no free
   * vehicle of `vs` is cheaper, and every free vehicle listed before it is dearer.
   */
  ghost predicate FirstCheapestAt(vs: seq<Vehicle>, k: int, start: int, end: int)
    reads SlotsOf(vs)
    requires DayLong(vs) && InDay(start, end)
  {
    && 0 <= k < |vs| && IsFree(vs[k], start, end)
    && (forall j :: 0 <= j < |vs| && IsFree(vs[j], start, end) ==> vs[k].price <= vs[j].price)
    && (forall j :: 0 <= j < k && IsFree(vs[j], start, end) ==> vs[k].price < vs[j].price)
  }

  /** The first cheapest of a list stays so, or gives way to an appended vehicle that is cheaper still. */
  lemma ExtendFirstCheapest(vs: seq<Vehicle>, kf: int, k: int, start: int, end: int)
    requires DayLong(vs) && InDay(start, end) && vs != []
    requires FirstCheapestAt(vs[..|vs| - 1], kf, start, end)
    requires k == kf || (k == |vs| - 1 && vs[k].price < vs[kf].price)
    requires IsFree(vs[k], start, end)
    requires IsFree(vs[|vs| - 1], start, end) ==> vs[k].price <= vs[|vs| - 1].price
    ensures FirstCheapestAt(vs, k, start, end)
  {
    var front := vs[..|vs| - 1];
    assert forall j :: 0 <= j < |front| ==> front[j] == vs[j];
  }

  /** Appending a vehicle to a list makes it the cheapest only when it is strictly cheaper. */
  lemma CheapestSnoc(xs: seq<Vehicle>, x: Vehicle)
    requires xs != []
    ensures Cheapest(xs + [x]) == if x.price < Cheapest(xs).price then x else Cheapest(xs)
  {
    assert (xs + [x])[..|xs|] == xs;
  }

  /** When the last vehicle is the only free one, it is the first cheapest. */
  lemma OnlyLastFree(vs: seq<Vehicle>, start: int, end: int)
    requires DayLong(vs) && InDay(start, end) && vs != []
    requires Available(vs[..|vs| - 1], start, end) == [] && IsFree(vs[|vs| - 1], start, end)
    ensures FirstCheapestAt(vs, |vs| - 1, start, end)
  {
    var front := vs[..|vs| - 1];
    AvailableMembers(front, start, end);
    forall j | 0 <= j < |front|
      ensures !IsFree(vs[j], start, end)
    {
      assert front[j] == vs[j];
    }
  }

  /** The earliest of the cheapest free vehicles is the first cheapest of the whole list. */
  lemma {:induction false} CheapestAvailable(vs: seq<Vehicle>, start: int, end: int) returns (k: int)
    requires DayLong(vs) && InDay(start, end)
    requires Available(vs, start, end) != []
    ensures FirstCheapestAt(vs, k, start, end) && vs[k] == Cheapest(Available(vs, start, end))
    decreases |vs|
  {
    var front := vs[..|vs| - 1];
    var last := vs[|vs| - 1];
    assert DayLong(front);
    var af := Available(front, start, end);
    assert Available(vs, start, end) == af + (if IsFree(last, start, end) then [last] else []);
    if !IsFree(last, start, end) {
      k := CheapestAvailable(front, start, end);
      assert front[k] == vs[k];
      ExtendFirstCheapest(vs, k, k, start, end);
      assert Available(vs, start, end) == af;
    } else if af == [] {
      k := |vs| - 1;
      OnlyLastFree(vs, start, end);
      assert Available(vs, start, end) == [last];
    } else {
      var kf := CheapestAvailable(front, start, end);
      assert front[kf] == vs[kf];
      CheapestSnoc(af, last);
      k := if last.price < vs[kf].price then |vs| - 1 else kf;
      ExtendFirstCheapest(vs, kf, k, start, end);
    }
  }

  // ---------------------------------------------------------------------------
  // Branches
  // ---------------------------------------------------------------------------

  /**
   * A `Branch` object. It is held by the service's map alone, so it is a value here;
   * the vehicles in its lists are shared with the bookings and stay objects.
   */
  datatype Branch = Branch(name: string, supportedTypes: set<VehicleType>, vehiclesByType: map<VehicleType, seq<Vehicle>>)

  /** The list of vehicles of type `t`, empty when the map has no entry for it. */
  function ListOf(b: Branch, t: VehicleType): seq<Vehicle> {
    if t in b.vehiclesByType then b.vehiclesByType[t] else []
  }

  /** Each list holds vehicles of its own, supported type, each with a day-long array. */
  predicate WellFormed(b: Branch) {
    forall t :: t in b.vehiclesByType ==>
      t in b.supportedTypes && DayLong(b.vehiclesByType[t])
      && forall i :: 0 <= i < |b.vehiclesByType[t]| ==> b.vehiclesByType[t][i].vtype == t
  }

  /** The arrays of all the vehicles of the branch. */
  function BranchSlots(b: Branch): set<array<bool>> {
    set t, i | t in b.vehiclesByType && 0 <= i < |b.vehiclesByType[t]| :: b.vehiclesByType[t][i].timeSlots
  }

  lemma ListSlots(b: Branch, t: VehicleType)
    ensures SlotsOf(ListOf(b, t)) <= BranchSlots(b)
  {
  }

  /**
   * `Branch.addVehicle`: refuses (`None`) a vehicle of an unsupported type; otherwise
   * appends it to the list of its type and leaves every other list as it was.
   */
  function AddToBranch(b: Branch, v: Vehicle): (r: Option<Branch>)
    ensures r.None? <==> v.vtype !in b.supportedTypes
    ensures r.Some? ==> r.value.name == b.name && r.value.supportedTypes == b.supportedTypes
    ensures r.Some? ==> r.value.vehiclesByType.Keys == b.vehiclesByType.Keys + {v.vtype}
    ensures r.Some? ==> ListOf(r.value, v.vtype) == ListOf(b, v.vtype) + [v]
    ensures r.Some? ==> forall t :: t != v.vtype ==> ListOf(r.value, t) == ListOf(b, t)
  {
    if v.vtype !in b.supportedTypes then None
    else Some(b.(vehiclesByType := b.vehiclesByType[v.vtype := ListOf(b, v.vtype) + [v]]))
  }

  /** Adding a vehicle of a supported type with a day-long array keeps the branch well formed. */
  lemma AddKeepsWellFormed(b: Branch, v: Vehicle)
    requires WellFormed(b) && v.timeSlots.Length == Hours && v.vtype in b.supportedTypes
    ensures WellFormed(AddToBranch(b, v).value)
  {
  }

  lemma AvailableStep(vs: seq<Vehicle>, i: int, start: int, end: int)
    requires DayLong(vs) && InDay(start, end) && 0 <= i < |vs|
    ensures Available(vs[..i + 1], start, end)
      == Available(vs[..i], start, end) + (if IsFree(vs[i], start, end) then [vs[i]] else [])
  {
    assert vs[..i + 1][..i] == vs[..i];
  }

  /** `Branch.getAvailableVehicles`: the vehicles of type `t` free for `[start, end)`, in list order. */
  method GetAvailableVehicles(b: Branch, t: VehicleType, start: int32, end: int32) returns (result: seq<Vehicle>)
    requires WellFormed(b) && InDay(start, end)
    ensures result == Available(ListOf(b, t), start, end)
  {
    result := [];
    if t !in b.vehiclesByType {
      return;
    }
    var vs := b.vehiclesByType[t];
    var i := 0;
    while i < |vs|
      invariant 0 <= i <= |vs|
      invariant result == Available(vs[..i], start, end)
    {
      assert forall a :: a in SlotsOf(vs[..i]) ==> allocated(a);
      var free := vs[i].IsAvailable(start, end);
      AvailableStep(vs, i, start, end);
      if free {
        result := result + [vs[i]];
      }
      i := i + 1;
    }
    assert vs[..i] == vs;
  }

  /**
   * The loop of `displayVehicles` that collects the free vehicles of every supported type,
   * visiting the types in an unspecified order, as a `HashSet` yields them.
   */
  method GatherAvailable(b: Branch, start: int32, end: int32) returns (result: seq<Vehicle>, ghost order: seq<VehicleType>)
    requires WellFormed(b) && InDay(start, end)
    ensures Enumerates(order, b.supportedTypes) && result == Gathered(b, order, start, end)
  {
    assert forall a :: a in BranchSlots(b) ==> allocated(a);
    result, order := [], [];
    var todo := b.supportedTypes;
    while todo != {}
      invariant todo <= b.supportedTypes
      invariant Enumerates(order, b.supportedTypes - todo)
      invariant result == old(Gathered(b, order, start, end))
      decreases todo
    {
      var t :| t in todo;
      ListSlots(b, t);
      ghost var free := Available(ListOf(b, t), start, end);
      assert Gathered(b, order + [t], start, end) == result + free by {
        assert (order + [t])[..|order|] == order;
      }
      assert forall a :: a in SlotsOf(ListOf(b, t)) ==> allocated(a);
      var available := GetAvailableVehicles(b, t, start, end);
      assert available == free;
      result := result + available;
      assert Enumerates(order + [t], b.supportedTypes - (todo - {t})) by {
        assert t !in order;
      }
      order := order + [t];
      todo := todo - {t};
    }
  }

  /** The vehicle that a booking of type `t` for `[start, end)` takes belongs to the branch. */
  lemma ChosenInBranch(b: Branch, t: VehicleType, start: int, end: int)
    requires WellFormed(b) && InDay(start, end)
    requires Available(ListOf(b, t), start, end) != []
    ensures var c := SortByPrice(Available(ListOf(b, t), start, end))[0];
      && c in ListOf(b, t) && c.vtype == t
      && c.timeSlots.Length == Hours && c.timeSlots in BranchSlots(b)
  {
    var vs := ListOf(b, t);
    var a := Available(vs, start, end);
    var c := SortByPrice(a)[0];
    assert c in multiset(SortByPrice(a));
    assert c in a;
    AvailableMembers(vs, start, end);
    var i :| 0 <= i < |vs| && vs[i] == c;
    assert b.vehiclesByType[t][i].timeSlots in BranchSlots(b);
  }

  /**
   * The part of `bookVehicle` after the branch and the type are known: takes the first
   * vehicle of the free ones sorted by price, books it, and answers the price of the
   * period; answers -1 and books nothing when none is free.
   */
  method BookCheapest(b: Branch, t: VehicleType, start: int32, end: int32) returns (r: int32)
    requires WellFormed(b) && InDay(start, end)
    modifies SlotsOf(ListOf(b, t))
    ensures var a := old(Available(ListOf(b, t), start, end));
      a == [] ==> r == -1 && unchanged(SlotsOf(ListOf(b, t)))
    ensures var a := old(Available(ListOf(b, t), start, end));
      a != [] ==> var c := SortByPrice(a)[0];
        && c in ListOf(b, t)
        && c.timeSlots.Length == Hours
        && r == Wrap32(c.price * Wrap32(end - start))
        && c.timeSlots[..] == Booked(old(c.timeSlots[..]), start, end)
        && forall x :: x in SlotsOf(ListOf(b, t)) && x != c.timeSlots ==> unchanged(x)
  {
    ghost var expected := Available(ListOf(b, t), start, end);
    assert forall a :: a in SlotsOf(ListOf(b, t)) ==> allocated(a);
    var available := GetAvailableVehicles(b, t, start, end);
    assert available == expected;
    if available == [] {
      return -1;
    }
    var sorted := SortByPrice(available);
    var toBook := sorted[0];
    ChosenInBranch(b, t, start, end);
    assert toBook.timeSlots in SlotsOf(ListOf(b, t)) by {
      var i :| 0 <= i < |ListOf(b, t)| && ListOf(b, t)[i] == toBook;
    }
    toBook.Book(start, end);
    r := Wrap32(toBook.price * Wrap32(end - start));
  }

  /** The free vehicles of each type of `order` in turn, each type's list in its own order. */
  function Gathered(b: Branch, order: seq<VehicleType>, start: int, end: int): seq<Vehicle>
    reads BranchSlots(b)
    requires WellFormed(b) && InDay(start, end)
  {
    if order == [] then []
    else
      ListSlots(b, order[|order| - 1]);
      Gathered(b, order[..|order| - 1], start, end) + Available(ListOf(b, order[|order| - 1]), start, end)
  }

  /** `order` lists every type of `types` once and nothing else, as an iteration over a set does. */
  predicate Enumerates(order: seq<VehicleType>, types: set<VehicleType>) {
    (forall t :: t in order <==> t in types)
    && forall i, j :: 0 <= i < j < |order| ==> order[i] != order[j]
  }

  /** Whatever the order of the types, the vehicles gathered are exactly the free vehicles of those types. */
  lemma {:induction false} GatheredMembers(b: Branch, order: seq<VehicleType>, start: int, end: int)
    requires WellFormed(b) && InDay(start, end)
    ensures forall v :: v in Gathered(b, order, start, end) <==>
      (v.vtype in order && v in ListOf(b, v.vtype) && IsFree(v, start, end))
    decreases |order|
  {
    if order != [] {
      var front := order[..|order| - 1];
      var t := order[|order| - 1];
      GatheredMembers(b, front, start, end);
      AvailableMembers(ListOf(b, t), start, end);
      assert forall u :: u in order <==> u in front || u == t by {
        assert order == front + [t];
      }
      forall v: Vehicle | v in ListOf(b, t)
        ensures v.vtype == t
      {
        var j :| 0 <= j < |ListOf(b, t)| && ListOf(b, t)[j] == v;
      }
    }
  }

  /** The ids of `vs`, in order. */
  function Ids(vs: seq<Vehicle>): (r: seq<string>)
    ensures |r| == |vs| && forall i :: 0 <= i < |vs| ==> r[i] == vs[i].id
  {
    if vs == [] then [] else Ids(vs[..|vs| - 1]) + [vs[|vs| - 1].id]
  }

  /** The loop of `displayVehicles` that lists the ids of the sorted vehicles. */
  method CollectIds(vs: seq<Vehicle>) returns (ids: seq<string>)
    ensures ids == Ids(vs)
  {
    ids := [];
    var i := 0;
    while i < |vs|
      invariant 0 <= i <= |vs|
      invariant ids == Ids(vs[..i])
    {
      assert vs[..i + 1][..i] == vs[..i];
      ids := ids + [vs[i].id];
      i := i + 1;
    }
    assert vs[..i] == vs;
  }

  /** The vehicle `bookVehicle` takes, or `None` where it answers -1. */
  function Choice(branches: map<string, Branch>, branchName: string, typeName: string, start: int, end: int): (r: Option<Vehicle>)
    reads if branchName in branches then BranchSlots(branches[branchName]) else {}
    requires branchName in branches ==> WellFormed(branches[branchName])
    requires InDay(start, end)
    ensures r.Some? ==> (branchName in branches
      && r.value.timeSlots.Length == Hours && r.value.timeSlots in BranchSlots(branches[branchName]))
  {
    if branchName !in branches then None
    else match ValueOf(typeName)
      case None => None
      case Some(t) =>
        ListSlots(branches[branchName], t);
        var available := Available(ListOf(branches[branchName], t), start, end);
        if available == [] then None
        else
          ChosenInBranch(branches[branchName], t, start, end);
          Some(SortByPrice(available)[0])
  }

  /**
   * A booking takes nothing for an unknown branch or type or when no vehicle of the type
   * is free; otherwise it takes the first cheapest free vehicle of that type.
   */
  lemma ChoiceIsFirstCheapest(branches: map<string, Branch>, branchName: string, typeName: string, start: int, end: int)
    requires branchName in branches ==> WellFormed(branches[branchName])
    requires InDay(start, end)
    ensures var c := Choice(branches, branchName, typeName, start, end);
      c.None? <==> (branchName !in branches || ValueOf(typeName).None?
        || forall v :: v in ListOf(branches[branchName], ValueOf(typeName).value) ==> !IsFree(v, start, end))
    ensures var c := Choice(branches, branchName, typeName, start, end);
      c.Some? ==> (c.value.vtype == ValueOf(typeName).value
        && exists k :: (FirstCheapestAt(ListOf(branches[branchName], c.value.vtype), k, start, end)
          && ListOf(branches[branchName], c.value.vtype)[k] == c.value))
  {
    if branchName in branches && ValueOf(typeName).Some? {
      var b := branches[branchName];
      var t := ValueOf(typeName).value;
      var available := Available(ListOf(b, t), start, end);
      if available != [] {
        SortHeadIsCheapest(available);
        ChosenInBranch(b, t, start, end);
        var k := CheapestAvailable(ListOf(b, t), start, end);
        AvailableMembers(ListOf(b, t), start, end);
        assert IsFree(ListOf(b, t)[k], start, end);
      } else {
        AvailableMembers(ListOf(b, t), start, end);
        forall v | v in ListOf(b, t)
          ensures !IsFree(v, start, end)
        {
          var j :| 0 <= j < |ListOf(b, t)| && ListOf(b, t)[j] == v;
        }
      }
    }
  }

  // ---------------------------------------------------------------------------
  // The service
  // ---------------------------------------------------------------------------

  /** The set of the constants named by `names`; `None` if any name is not a constant. */
  function ParseTypes(names: seq<string>): (r: Option<set<VehicleType>>)
  {
    if names == [] then Some({})
    else match (ParseTypes(names[..|names| - 1]), ValueOf(names[|names| - 1]))
      case (Some(s), Some(t)) => Some(s + {t})
      case _ => None
  }

  /** `ParseTypes` succeeds iff every name is a constant, and then holds exactly the named constants. */
  lemma {:induction false} ParseTypesNames(names: seq<string>)
    ensures ParseTypes(names).Some? <==> forall i :: 0 <= i < |names| ==> ValueOf(names[i]).Some?
    ensures ParseTypes(names).Some? ==> forall t :: t in ParseTypes(names).value <==> Name(t) in names
    decreases |names|
  {
    if names != [] {
      var front := names[..|names| - 1];
      ParseTypesNames(front);
      assert names == front + [names[|names| - 1]];
      if ParseTypes(names).Some? {
        forall t | Name(t) in names
          ensures t in ParseTypes(names).value
        {
          var i :| 0 <= i < |names| && names[i] == Name(t);
          if i < |names| - 1 {
            assert front[i] == Name(t);
          } else {
            assert ValueOf(Name(t)) == Some(t) by {
              match t
              case Car =>
              case Bike =>
              case Van =>
            }
          }
        }
      } else if ParseTypes(front).Some? {
        assert ValueOf(names[|names| - 1]).None?;
      } else {
        var i :| 0 <= i < |front| && ValueOf(front[i]).None?;
        assert names[i] == front[i];
      }
    }
  }

  /** A name that is not a constant makes every longer list unparseable too. */
  lemma {:induction false} ParseTypesStaysNone(names: seq<string>, n: nat)
    requires n <= |names| && ParseTypes(names[..n]).None?
    ensures ParseTypes(names).None?
    decreases |names| - n
  {
    if n < |names| {
      assert names[..n + 1][..n] == names[..n];
      ParseTypesStaysNone(names, n + 1);
    } else {
      assert names[..n] == names;
    }
  }

  class VehicleRentalService {
    /** The branches by name. */
    var branches: map<string, Branch>

    /** Every branch is filed under its own name and is well formed. */
    ghost predicate Valid()
      reads this
    {
      forall n :: n in branches ==> branches[n].name == n && WellFormed(branches[n])
    }

    constructor()
      ensures Valid() && branches == map[]
    {
      branches := map[];
    }

    /**
     * `addBranch`: refuses a name already in use, and a list naming anything but a
     * vehicle type; otherwise adds a branch with those types and no vehicles.
     */
    method AddBranch(name: string, types: seq<string>) returns (ok: bool)
      requires Valid()
      modifies this
      ensures Valid()
      ensures ok <==> name !in old(branches) && ParseTypes(types).Some?
      ensures ok ==> branches == old(branches)[name := Branch(name, ParseTypes(types).value, map[])]
      ensures !ok ==> branches == old(branches)
    {
      if name in branches {
        return false;
      }
      var supported: set<VehicleType> := {};
      var i := 0;
      while i < |types|
        invariant 0 <= i <= |types|
        invariant ParseTypes(types[..i]) == Some(supported)
      {
        assert types[..i + 1][..i] == types[..i];
        var t := ValueOf(types[i]);
        if t.None? {
          ParseTypesStaysNone(types, i + 1);
          return false;
        }
        supported := supported + {t.value};
        i := i + 1;
      }
      assert types[..i] == types;
      branches := branches[name := Branch(name, supported, map[])];
      return true;
    }

    /**
     * `addVehicle`: refuses an unknown branch, an unknown type and a type the branch does
     * not support; otherwise appends a new vehicle, free all day, to the branch.
     */
    method AddVehicle(branchName: string, typeName: string, id: string, price: int32) returns (ok: bool)
      requires Valid()
      modifies this
      ensures Valid()
      ensures ok <==> (branchName in old(branches) && ValueOf(typeName).Some?
        && ValueOf(typeName).value in old(branches)[branchName].supportedTypes)
      ensures !ok ==> branches == old(branches)
      ensures ok ==> var t := ValueOf(typeName).value;
        var b := old(branches)[branchName];
        branchName in branches && |ListOf(branches[branchName], t)| == |ListOf(b, t)| + 1
        && var v := ListOf(branches[branchName], t)[|ListOf(b, t)|];
        fresh(v) && fresh(v.timeSlots) && v.id == id && v.vtype == t && v.price == price
        && Free(v.timeSlots[..], 0, Hours)
        && branches == old(branches)[branchName := AddToBranch(b, v).value]
    {
      if branchName !in branches {
        return false;
      }
      var branch := branches[branchName];
      var t := ValueOf(typeName);
      if t.None? {
        return false;
      }
      var vehicle := new Vehicle(id, t.value, price);
      var added := AddToBranch(branch, vehicle);
      if added.None? {
        return false;
      }
      AddKeepsWellFormed(branch, vehicle);
      branches := branches[branchName := added.value];
      return true;
    }

    /**
     * `bookVehicle`: answers -1 and books nothing for an unknown branch or type or when
     * no vehicle of the type is free for `[start, end)`; otherwise books that period on
     * the first cheapest free vehicle, leaves every other array alone, and answers its
     * price times `end - start` in `int` arithmetic.
     */
    method BookVehicle(branchName: string, typeName: string, start: int32, end: int32) returns (r: int32)
      requires Valid() && InDay(start, end)
      modifies if branchName in branches then BranchSlots(branches[branchName]) else {}
      ensures var c := old(Choice(branches, branchName, typeName, start, end));
        c.None? ==> r == -1 && unchanged(if branchName in branches then BranchSlots(branches[branchName]) else {})
      ensures var c := old(Choice(branches, branchName, typeName, start, end));
        c.Some? ==> (r == Wrap32(c.value.price * Wrap32(end - start))
          && c.value.timeSlots[..] == Booked(old(c.value.timeSlots[..]), start, end)
          && forall a :: a in BranchSlots(branches[branchName]) && a != c.value.timeSlots ==> unchanged(a))
    {
      ghost var choice := Choice(branches, branchName, typeName, start, end);
      if branchName !in branches {
        return -1;
      }
      var branch := branches[branchName];
      var vt := ValueOf(typeName);
      if vt.None? {
        return -1;
      }
      ListSlots(branch, vt.value);
      r := BookCheapest(branch, vt.value, start, end);
    }

    /**
     * `displayVehicles`: the ids of every free vehicle of a supported type, with prices
     * in non-decreasing order; none for an unknown branch. The supported types are
     * visited in an unspecified order, as a `HashSet` yields them.
     */
    method DisplayVehicles(branchName: string, start: int32, end: int32) returns (ids: seq<string>)
      requires Valid() && InDay(start, end)
      ensures branchName !in branches ==> ids == []
      ensures branchName in branches ==> exists order ::
        Enumerates(order, branches[branchName].supportedTypes)
        && ids == Ids(SortByPrice(Gathered(branches[branchName], order, start, end)))
    {
      if branchName !in branches {
        return [];
      }
      var branch := branches[branchName];
      assert forall a :: a in BranchSlots(branch) ==> allocated(a);
      var result, order := GatherAvailable(branch, start, end);
      var sorted := SortByPrice(result);
      ids := CollectIds(sorted);
    }
  }
}
