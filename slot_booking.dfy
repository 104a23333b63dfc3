/**
 * Booking of non-overlapping slots on a 12-hour clock. A slot runs from a start time to an
 * end time, each written `h:00 AM` or `h:00 PM`. A slot is validated, both times are
 * converted to hours of the day, and the slot is booked when its half-open interval
 * meets no booked one. Java's exceptions are the `Err` cases of `BookingError`.
 */
module SlotBooking {
  import opened Wrappers
  import opened JavaLang

  /** A requested or booked slot: its start and end times as written. */
  datatype Slot = Slot(startDate: string, endDate: string)

  /** The exceptions `bookTime` can end with. */
  datatype BookingError =
    | InvalidBookingTime
    | BookingConflict(conflicting: Slot)
    | NumberFormat
    | IndexOutOfBounds

  /**
   * The checks `validate` makes on a time split at `:` into exactly two parts: the hour
   * parses (else `NumberFormatException`) and lies in 1..12; the rest, split at single
   * whitespace characters, is `00` followed by exactly `AM` or `PM`. Reading a part that
   * is not there is an `ArrayIndexOutOfBoundsException`; the meridian is not read when
   * the minutes are wrong.
   */
  function TimeValid(hourText: string, rest: string): (r: Result<bool, BookingError>)
    ensures r == Ok(true) ==> exists h :: ParseInt(hourText) == Some(h) && 1 <= h <= 12
  {
    var hour := ParseInt(hourText);
    if hour.None? then Err(NumberFormat)
    else
      var m := Split(rest, IsWhitespace);
      if |m| == 0 then Err(IndexOutOfBounds)
      else if m[0] != "00" then Ok(false)
      else if |m| < 2 then Err(IndexOutOfBounds)
      else Ok(1 <= hour.value <= 12 && (m[1] == "AM" || m[1] == "PM"))
  }

  /**
   * `BookingValidation.validate`: `false` when the start time does not split into exactly
   * two parts at `:`; otherwise `true` when both times pass `TimeValid`, and an
   * `InvalidBookingTimeException` when either fails (an end time without exactly two parts
   * fails too). Exceptions of the start time's checks come before those of the end time's.
   */
  function Validate(slot: Slot): (r: Result<bool, BookingError>)
    ensures r == Ok(false) <==> |Split(slot.startDate, IsColon)| != 2
    ensures r == Ok(true) ==> |Split(slot.endDate, IsColon)| == 2
  {
    var sp := Split(slot.startDate, IsColon);
    if |sp| != 2 then Ok(false)
    else
      var sv := TimeValid(sp[0], sp[1]);
      if sv.Err? then Err(sv.error)
      else
        var ep := Split(slot.endDate, IsColon);
        var ev := if |ep| != 2 then Ok(false) else TimeValid(ep[0], ep[1]);
        if ev.Err? then Err(ev.error)
        else if sv.value && ev.value then Ok(true)
        else Err(InvalidBookingTime)
  }

  /** The hour of the day of `h` o'clock: `AM` in any case is the morning, every other meridian the afternoon. */
  function Hour24(h: int32, meridian: string): int32 {
    if EqualsIgnoreCase(meridian, "AM") then (if h == 12 then 0 else h)
    else if h == 12 then 12 else Wrap32(h + 12)
  }

  /**
   * `convertTo24HourFormat`: the hour before the first `:`, with the meridian taken as the
   * second piece after splitting the rest at runs of whitespace. A missing part is an
   * `ArrayIndexOutOfBoundsException` and an hour that does not parse a `NumberFormatException`.
   */
  function Convert(time: string): Result<int32, BookingError> {
    var parts := Split(time, IsColon);
    if |parts| == 0 then Err(IndexOutOfBounds)
    else
      var hour := ParseInt(parts[0]);
      if hour.None? then Err(NumberFormat)
      else if |parts| < 2 then Err(IndexOutOfBounds)
      else
        var mm := SplitRuns(parts[1], IsWhitespace);
        if |mm| < 2 then Err(IndexOutOfBounds)
        else Ok(Hour24(hour.value, mm[1]))
  }

  /** A slot's hours of the day, from its start to its end. */
  datatype Interval = Interval(start: int32, end: int32)

  /** Two half-open hour intervals share an hour: neither ends before the other starts. */
  predicate Overlaps(a: Interval, b: Interval) {
    !(a.end <= b.start || a.start >= b.end)
  }

  /** Overlap does not depend on which interval is the new one. */
  lemma OverlapsSymmetric(a: Interval, b: Interval)
    ensures Overlaps(a, b) == Overlaps(b, a)
  {
  }

  /** The hours of a slot: its start time converted, then its end time, the first exception winning. */
  function SlotHours(slot: Slot): (r: Result<Interval, BookingError>)
    ensures r.Ok? <==> Convert(slot.startDate).Ok? && Convert(slot.endDate).Ok?
    ensures r.Ok? ==> r.value == Interval(Convert(slot.startDate).value, Convert(slot.endDate).value)
  {
    var s := Convert(slot.startDate);
    if s.Err? then Err(s.error)
    else
      var e := Convert(slot.endDate);
      if e.Err? then Err(e.error) else Ok(Interval(s.value, e.value))
  }

  /** A booked slot whose hours are known and clear of the new interval. */
  predicate ClearOf(hours: Result<Interval, BookingError>, n: Interval) {
    hours.Ok? && !Overlaps(n, hours.value)
  }

  /**
   * The walk of `bookTime` over the booked slots from `from` on, for a way `hoursOf` of
   * reading a slot's hours: the first slot whose hours cannot be read ends it with that
   * exception, the first overlapping one with a conflict.
   */
  function Scan(slots: seq<Slot>, hoursOf: Slot -> Result<Interval, BookingError>, n: Interval, from: nat): (r: Result<(), BookingError>)
    requires from <= |slots|
    ensures r.Ok? <==> forall i :: from <= i < |slots| ==> ClearOf(hoursOf(slots[i]), n)
    ensures r.Err? ==> exists i :: from <= i < |slots| && (hoursOf(slots[i]) == Err(r.error) || r.error == BookingConflict(slots[i]))
    decreases |slots| - from
  {
    if from == |slots| then Ok(())
    else
      var h := hoursOf(slots[from]);
      if h.Err? then Err(h.error)
      else if Overlaps(n, h.value) then Err(BookingConflict(slots[from]))
      else Scan(slots, hoursOf, n, from + 1)
  }

  /** The part of `bookTime` after validation: read the new slot's hours, walk the bookings, then append. */
  function BookValidated(slots: seq<Slot>, slot: Slot): (r: Result<seq<Slot>, BookingError>)
    ensures r.Ok? <==> SlotHours(slot).Ok? && Scan(slots, SlotHours, SlotHours(slot).value, 0).Ok?
    ensures r.Ok? ==> r.value == slots + [slot]
  {
    var n := SlotHours(slot);
    if n.Err? then Err(n.error)
    else
      var scan := Scan(slots, SlotHours, n.value, 0);
      if scan.Err? then Err(scan.error) else Ok(slots + [slot])
  }

  /** `bookTime` as written: a `false` from `validate` is ignored and booking goes on. */
  function BookAsWritten(slots: seq<Slot>, slot: Slot): (r: Result<seq<Slot>, BookingError>)
    ensures Validate(slot).Err? ==> r == Err(Validate(slot).error)
    ensures Validate(slot).Ok? ==> r == BookValidated(slots, slot)
  {
    var v := Validate(slot);
    if v.Err? then Err(v.error) else BookValidated(slots, slot)
  }

  /** `bookTime` with a `false` from `validate` treated as an invalid time, as the validation intends. */
  function Book(slots: seq<Slot>, slot: Slot): (r: Result<seq<Slot>, BookingError>)
    ensures r.Ok? ==> Validate(slot) == Ok(true) && r.value == slots + [slot]
    ensures Validate(slot) == Ok(false) ==> r == Err(InvalidBookingTime)
    ensures Validate(slot) == Ok(true) ==> r == BookValidated(slots, slot)
  {
    var v := Validate(slot);
    if v.Err? then Err(v.error)
    else if !v.value then Err(InvalidBookingTime)
    else BookValidated(slots, slot)
  }

  /** Every booked slot's hours can be read, and no two booked intervals share an hour. */
  ghost predicate Disjoint(slots: seq<Slot>, hoursOf: Slot -> Result<Interval, BookingError>) {
    && (forall i :: 0 <= i < |slots| ==> hoursOf(slots[i]).Ok?)
    && (forall i, j :: 0 <= i < |slots| && 0 <= j < |slots| && i != j ==> !Overlaps(hoursOf(slots[i]).value, hoursOf(slots[j]).value))
  }

  /** Appending a slot that the walk found clear of every booking keeps the bookings pairwise disjoint. */
  lemma ScanKeepsDisjoint(slots: seq<Slot>, hoursOf: Slot -> Result<Interval, BookingError>, slot: Slot)
    requires Disjoint(slots, hoursOf) && hoursOf(slot).Ok?
    requires Scan(slots, hoursOf, hoursOf(slot).value, 0).Ok?
    ensures Disjoint(slots + [slot], hoursOf)
  {
    var r := slots + [slot];
    var n := hoursOf(slot).value;
    forall i, j | 0 <= i < |r| && 0 <= j < |r| && i != j
      ensures !Overlaps(hoursOf(r[i]).value, hoursOf(r[j]).value)
    {
      if i == |slots| {
        assert ClearOf(hoursOf(slots[j]), n);
      } else if j == |slots| {
        assert ClearOf(hoursOf(slots[i]), n);
        OverlapsSymmetric(n, hoursOf(slots[i]).value);
      } else {
        assert r[i] == slots[i] && r[j] == slots[j];
      }
    }
  }

  /** A successful booking keeps the bookings pairwise disjoint. */
  lemma BookKeepsDisjoint(slots: seq<Slot>, slot: Slot)
    requires Disjoint(slots, SlotHours) && Book(slots, slot).Ok?
    ensures Disjoint(Book(slots, slot).value, SlotHours)
  {
    ScanKeepsDisjoint(slots, SlotHours, slot);
  }

  /** When every booking before `k` is clear and the one at `k` overlaps, the walk ends in a conflict. */
  lemma {:induction false} ScanConflict(slots: seq<Slot>, hoursOf: Slot -> Result<Interval, BookingError>, n: Interval, from: nat, k: nat)
    requires from <= k < |slots|
    requires forall i :: from <= i < k ==> ClearOf(hoursOf(slots[i]), n)
    requires hoursOf(slots[k]).Ok? && Overlaps(n, hoursOf(slots[k]).value)
    ensures Scan(slots, hoursOf, n, from).Err? && Scan(slots, hoursOf, n, from).error.BookingConflict?
    decreases k - from
  {
    if from < k {
      assert ClearOf(hoursOf(slots[from]), n);
      ScanConflict(slots, hoursOf, n, from + 1, k);
    }
  }

  /** Once a slot with a non-empty interval is booked, booking it again is a conflict. */
  lemma BookTwiceConflicts(slots: seq<Slot>, slot: Slot)
    requires Book(slots, slot).Ok?
    requires SlotHours(slot).value.start < SlotHours(slot).value.end
    ensures Book(Book(slots, slot).value, slot).Err?
    ensures Book(Book(slots, slot).value, slot).error.BookingConflict?
  {
    var r := slots + [slot];
    var n := SlotHours(slot).value;
    assert r[|slots|] == slot;
    ScanConflict(r, SlotHours, n, 0, |slots|);
  }

  /** A time `h:00 <meridian>`, the form the validation is written for. */
  function ClockTime(h: int32, meridian: string): string {
    IntToString(h) + ":00 " + meridian
  }

  /** A meridian word: non-empty, with no `:` and no whitespace. */
  predicate IsWord(m: string) {
    m != "" && !HasDelim(m, IsColon) && !HasDelim(m, IsWhitespace)
  }

  /** The text of a number holds no `:` and no whitespace. */
  lemma NumberHasNoDelim(h: int)
    ensures !HasDelim(IntToString(h), IsColon) && !HasDelim(IntToString(h), IsWhitespace)
  {
    var s := IntToString(h);
    var digits := NatToString(if h < 0 then -h else h);
    AllDigitsAt(digits);
    forall i | 0 <= i < |s|
      ensures !IsColon(s[i]) && !IsWhitespace(s[i])
    {
      if h < 0 && i > 0 {
        assert s[i] == digits[i - 1];
      }
    }
    HasDelimAt(s, IsColon);
    HasDelimAt(s, IsWhitespace);
  }

  /** `h:00 <meridian>` splits into the hour text and `00 <meridian>`, and the latter into `00` and the meridian. */
  lemma ClockTimeParts(h: int32, meridian: string)
    requires IsWord(meridian)
    ensures Split(ClockTime(h, meridian), IsColon) == [IntToString(h), "00 " + meridian]
    ensures Split("00 " + meridian, IsWhitespace) == ["00", meridian]
    ensures SplitRuns("00 " + meridian, IsWhitespace) == ["00", meridian]
    ensures ParseInt(IntToString(h)) == Some(h as int)
  {
    NumberHasNoDelim(h);
    var rest := "00 " + meridian;
    assert rest[3..] == meridian;
    MinutesHaveNoColon(meridian);
    assert ClockTime(h, meridian) == IntToString(h) + [':'] + rest;
    SplitAtOne(IntToString(h), ':', rest, IsColon);
    assert rest == "00" + [' '] + meridian;
    SplitAtOne("00", ' ', meridian, IsWhitespace);
    ParseIntToString(h);
  }

  /** `convertTo24HourFormat` of `h:00 <meridian>` is `Hour24(h, meridian)`: 12 AM is 0, h AM is h, 12 PM is 12, h PM is h + 12. */
  lemma ConvertClockTime(h: int32, meridian: string)
    requires IsWord(meridian)
    ensures Convert(ClockTime(h, meridian)) == Ok(Hour24(h, meridian))
    ensures 1 <= h <= 12 && EqualsIgnoreCase(meridian, "AM") ==> Convert(ClockTime(h, meridian)) == Ok(if h == 12 then 0 else h)
    ensures 1 <= h <= 12 && !EqualsIgnoreCase(meridian, "AM") ==> Convert(ClockTime(h, meridian)) == Ok(if h == 12 then 12 else h + 12)
  {
    ClockTimeParts(h, meridian);
  }

  /** On the 24 valid clock times the conversion is one-to-one onto the hours 0..23. */
  lemma Hour24Bijective(h1: int32, m1: string, h2: int32, m2: string)
    requires 1 <= h1 <= 12 && 1 <= h2 <= 12
    requires m1 in {"AM", "PM"} && m2 in {"AM", "PM"}
    ensures 0 <= Hour24(h1, m1) <= 23
    ensures Hour24(h1, m1) == Hour24(h2, m2) ==> h1 == h2 && m1 == m2
  {
    assert EqualsIgnoreCase("AM", "AM");
    assert ToLowerCase("PM") != ToLowerCase("AM") by {
      assert ToLowerCase("PM")[0] == 'p';
    }
  }

  /**
   * `validate` on two times of the form `h:00 <meridian>` accepts exactly when both hours
   * are in 1..12 and both meridians are exactly `AM` or `PM`, and throws otherwise.
   */
  lemma ValidateClockTimes(h1: int32, m1: string, h2: int32, m2: string)
    requires IsWord(m1) && IsWord(m2)
    ensures Validate(Slot(ClockTime(h1, m1), ClockTime(h2, m2))) ==
      if 1 <= h1 <= 12 && 1 <= h2 <= 12 && m1 in {"AM", "PM"} && m2 in {"AM", "PM"} then Ok(true) else Err(InvalidBookingTime)
  {
    ClockTimeParts(h1, m1);
    ClockTimeParts(h2, m2);
  }

  /** `00 <meridian>` holds no `:` when the meridian holds none. */
  lemma MinutesHaveNoColon(meridian: string)
    requires !HasDelim(meridian, IsColon)
    ensures !HasDelim("00 " + meridian, IsColon)
  {
    var rest := "00 " + meridian;
    HasDelimAt(meridian, IsColon);
    HasDelimAt(rest, IsColon);
    assert forall i :: 3 <= i < |rest| ==> rest[i] == meridian[i - 3];
  }

  /**
   * A start time `h:00 <meridian>:<tail>` with a second `:` makes `validate` answer `false`,
   * yet it converts to the hour of `h:00 <meridian>`; so `bookTime` as written books it
   * exactly as it books any validated slot, while the corrected booking rejects it.
   */
  lemma ExtraColonStart(slots: seq<Slot>, h: int32, meridian: string, tail: string, endDate: string)
    requires IsWord(meridian) && tail != "" && !HasDelim(tail, IsColon)
    ensures var slot := Slot(ClockTime(h, meridian) + ":" + tail, endDate);
      && Validate(slot) == Ok(false)
      && Convert(slot.startDate) == Ok(Hour24(h, meridian))
      && BookAsWritten(slots, slot) == BookValidated(slots, slot)
      && Book(slots, slot) == Err(InvalidBookingTime)
  {
    var rest := "00 " + meridian;
    var start := ClockTime(h, meridian) + ":" + tail;
    assert Split(start, IsColon) == [IntToString(h), rest, tail] by {
      NumberHasNoDelim(h);
      MinutesHaveNoColon(meridian);
      assert start == IntToString(h) + [':'] + rest + [':'] + tail;
      SplitAtTwo(IntToString(h), ':', rest, ':', tail, IsColon);
    }
    assert Validate(Slot(start, endDate)) == Ok(false);
    assert ParseInt(IntToString(h)) == Some(h as int) && SplitRuns(rest, IsWhitespace) == ["00", meridian] by {
      ClockTimeParts(h, meridian);
    }
  }

  /** The slot `10:00 AM` to `11:00 AM` of the walkthrough. */
  function Morning(): Slot {
    Slot(ClockTime(10, "AM"), ClockTime(11, "AM"))
  }

  /** The slot `13:00 AM` to `14:00 AM` of the walkthrough. */
  function LateMorning(): Slot {
    Slot(ClockTime(13, "AM"), ClockTime(14, "AM"))
  }

  /** The walkthrough's slots, written out. */
  lemma WalkthroughText()
    ensures Morning() == Slot("10:00 AM", "11:00 AM")
    ensures LateMorning() == Slot("13:00 AM", "14:00 AM")
  {
  }

  /** `AM` is a meridian word and the walkthrough's hours convert to themselves. */
  lemma WalkthroughTimes()
    ensures IsWord("AM") && Hour24(10, "AM") == 10 && Hour24(11, "AM") == 11
  {
    assert EqualsIgnoreCase("AM", "AM");
    HasDelimAt("AM", IsColon);
    HasDelimAt("AM", IsWhitespace);
  }

  /** What booking does with the slots of the walkthrough. */
  lemma WalkthroughBookings()
    ensures Book([], Morning()) == Ok([Morning()])
    ensures Book([Morning()], Morning()) == Err(BookingConflict(Morning()))
    ensures Book([Morning()], LateMorning()) == Err(InvalidBookingTime)
  {
    WalkthroughTimes();
    assert Validate(Morning()) == Ok(true) by {
      ValidateClockTimes(10, "AM", 11, "AM");
    }
    assert SlotHours(Morning()) == Ok(Interval(10, 11)) by {
      ConvertClockTime(10, "AM");
      ConvertClockTime(11, "AM");
    }
    assert Validate(LateMorning()) == Err(InvalidBookingTime) by {
      ValidateClockTimes(13, "AM", 14, "AM");
    }
    assert Overlaps(Interval(10, 11), Interval(10, 11));
    var empty: seq<Slot> := [];
    assert Scan(empty, SlotHours, Interval(10, 11), 0) == Ok(());
    assert BookValidated(empty, Morning()) == Ok(empty + [Morning()]);
    assert empty + [Morning()] == [Morning()];
  }

  /**
   * For instance `10:00 AM:x` to `11:00 AM`: `validate` answers `false`, and as written the
   * slot is booked all the same, as the hours 10 to 11.
   */
  lemma MalformedStartIsBooked()
    ensures var slot := Slot(ClockTime(10, "AM") + ":x", ClockTime(11, "AM"));
      && Validate(slot) == Ok(false)
      && SlotHours(slot) == Ok(Interval(10, 11))
      && BookAsWritten([], slot) == Ok([slot])
      && Book([], slot) == Err(InvalidBookingTime)
  {
    var slot := Slot(ClockTime(10, "AM") + ":x", ClockTime(11, "AM"));
    WalkthroughTimes();
    assert Validate(slot) == Ok(false) && Convert(slot.startDate) == Ok(10)
        && BookAsWritten([], slot) == BookValidated([], slot) && Book([], slot) == Err(InvalidBookingTime) by {
      HasDelimAt("x", IsColon);
      assert slot == Slot(ClockTime(10, "AM") + ":" + "x", ClockTime(11, "AM"));
      ExtraColonStart([], 10, "AM", "x", ClockTime(11, "AM"));
    }
    assert Convert(slot.endDate) == Ok(11) by {
      ConvertClockTime(11, "AM");
    }
    var empty: seq<Slot> := [];
    assert Scan(empty, SlotHours, Interval(10, 11), 0) == Ok(());
    assert BookValidated(empty, slot) == Ok(empty + [slot]);
    assert empty + [slot] == [slot];
  }

  /**
   * The loop of `bookTime`: the hours of each booking are read in turn by `hoursOf` (for
   * `bookTime`, its start and then its end converted) and checked against `n`.
   */
  method ScanBookings(slots: seq<Slot>, hoursOf: Slot -> Result<Interval, BookingError>, n: Interval) returns (r: Result<(), BookingError>)
    ensures r == Scan(slots, hoursOf, n, 0)
  {
    var i := 0;
    while i < |slots|
      invariant 0 <= i <= |slots|
      invariant Scan(slots, hoursOf, n, 0) == Scan(slots, hoursOf, n, i)
    {
      var existing := hoursOf(slots[i]);
      if existing.Err? {
        return Err(existing.error);
      }
      if !(n.end <= existing.value.start || n.start >= existing.value.end) {
        return Err(BookingConflict(slots[i]));
      }
      i := i + 1;
    }
    return Ok(());
  }

  class SlotBookingManager {
    const bookingType: string
    /** The booked slots in booking order. */
    var slots: seq<Slot>

    constructor(bookingType: string, slots: seq<Slot>)
      ensures this.bookingType == bookingType && this.slots == slots
    {
      this.bookingType := bookingType;
      this.slots := slots;
    }

    /**
     * `bookTime`: validates the slot, converts its times, walks the bookings in order and
     * appends the slot when nothing got in the way; on an exception nothing changes.
     */
    method BookTime(slot: Slot) returns (r: Result<(), BookingError>)
      modifies this
      ensures var b := Book(old(slots), slot);
        && r == (if b.Ok? then Ok(()) else Err(b.error))
        && slots == (if b.Ok? then b.value else old(slots))
    {
      var v := Validate(slot);
      if v.Err? {
        return Err(v.error);
      }
      if !v.value {
        return Err(InvalidBookingTime);
      }
      var newStart := Convert(slot.startDate);
      if newStart.Err? {
        return Err(newStart.error);
      }
      var newEnd := Convert(slot.endDate);
      if newEnd.Err? {
        return Err(newEnd.error);
      }
      var scan := ScanBookings(slots, SlotHours, Interval(newStart.value, newEnd.value));
      if scan.Err? {
        return Err(scan.error);
      }
      slots := slots + [slot];
      r := Ok(());
    }

    /** `bookings`: the booked slots, in booking order. */
    method Bookings() returns (r: seq<Slot>)
      ensures r == slots
    {
      r := slots;
    }
  }

  /**
   * The walkthrough: `10:00 AM` to `11:00 AM` is booked, the same slot again is a
   * conflict, and `13:00 AM` to `14:00 AM` fails validation.
   */
  method Demo() returns (first: Result<(), BookingError>, again: Result<(), BookingError>, late: Result<(), BookingError>)
    ensures first == Ok(())
    ensures again == Err(BookingConflict(Morning()))
    ensures late == Err(InvalidBookingTime)
  {
    var manager := new SlotBookingManager("interview", []);
    WalkthroughBookings();
    assert manager.slots == [];
    first := manager.BookTime(Morning());
    assert first == Ok(()) && manager.slots == [Morning()];
    again := manager.BookTime(Morning());
    assert manager.slots == [Morning()];
    late := manager.BookTime(LateMorning());
  }
}
