/**
 * Greedy interview scheduling: every attendee in turn gets the first free combination of
 * a time slot, an interviewer and a room, where free means that neither the interviewer
 * nor the room already holds that slot. Attendees for whom no combination is free stay
 * unscheduled.
 */
module InterviewSchedule {
  import opened Wrappers

  datatype Timeslot = Timeslot(startTime: int, endTime: int)

  datatype Interview = Interview(attendee: int, interviewer: string, room: string, slot: Timeslot)

  /** The slots offered, in the order they are tried. */
  const AvailableSlots: seq<Timeslot> := [Timeslot(9, 11), Timeslot(11, 13), Timeslot(15, 17)]

  /** `getOrDefault(key, new ArrayList<>())`: the slots recorded for `key`. */
  function Recorded(m: map<string, seq<Timeslot>>, key: string): seq<Timeslot> {
    if key in m then m[key] else []
  }

  /** `noneMatch` over the recorded slots, comparing start and end times. */
  function NoneMatch(ts: seq<Timeslot>, slot: Timeslot): (r: bool)
    ensures r <==> slot !in ts
  {
    ts == [] || (!(ts[0].startTime == slot.startTime && ts[0].endTime == slot.endTime) && NoneMatch(ts[1..], slot))
  }

  /** `isAvailable`: no slot with the same start and end is recorded for `key`. */
  function IsAvailable(m: map<string, seq<Timeslot>>, key: string, slot: Timeslot): (r: bool)
    ensures r <==> slot !in Recorded(m, key)
  {
    NoneMatch(Recorded(m, key), slot)
  }

  /** `computeIfAbsent(key, s -> new ArrayList<>()).add(slot)`. */
  function Record(m: map<string, seq<Timeslot>>, key: string, slot: Timeslot): map<string, seq<Timeslot>> {
    m[key := Recorded(m, key) + [slot]]
  }

  /** Recording a slot for `key` appends it to that key's slots, creating the list if needed, and leaves other keys alone. */
  lemma RecordKeeps(m: map<string, seq<Timeslot>>, key: string, slot: Timeslot, k: string)
    ensures Record(m, key, slot).Keys == m.Keys + {key}
    ensures Recorded(Record(m, key, slot), k) == if k == key then Recorded(m, k) + [slot] else Recorded(m, k)
  {
  }

  /** Both the interviewer and the room are available in the slot. */
  predicate Free(interviewerSchedule: map<string, seq<Timeslot>>, roomSchedule: map<string, seq<Timeslot>>, slot: Timeslot, interviewer: string, room: string) {
    IsAvailable(interviewerSchedule, interviewer, slot) && IsAvailable(roomSchedule, room, slot)
  }

  /** A combination, by its positions in the lists of slots, interviewers and rooms. */
  datatype Choice = Choice(slot: nat, interviewer: nat, room: nat)

  /** The lists the search walks, and what is already booked. */
  datatype Offer = Offer(
    slots: seq<Timeslot>, interviewers: seq<string>, rooms: seq<string>,
    interviewerSchedule: map<string, seq<Timeslot>>, roomSchedule: map<string, seq<Timeslot>>)

  /** `c` names an offered combination that is free. */
  predicate FreeAt(o: Offer, c: Choice) {
    && c.slot < |o.slots| && c.interviewer < |o.interviewers| && c.room < |o.rooms|
    && Free(o.interviewerSchedule, o.roomSchedule, o.slots[c.slot], o.interviewers[c.interviewer], o.rooms[c.room])
  }

  /** The order of the nested loops: by slot, then by interviewer, then by room. */
  predicate Earlier(a: Choice, b: Choice) {
    || a.slot < b.slot
    || (a.slot == b.slot && a.interviewer < b.interviewer)
    || (a.slot == b.slot && a.interviewer == b.interviewer && a.room < b.room)
  }

  /** `c` is free and no free combination comes before it. */
  ghost predicate IsFirstFree(o: Offer, c: Choice) {
    FreeAt(o, c) && forall d :: FreeAt(o, d) ==> !Earlier(d, c)
  }

  /** There is at most one first free combination. */
  lemma FirstFreeUnique(o: Offer, c: Choice, d: Choice)
    requires IsFirstFree(o, c) && IsFirstFree(o, d)
    ensures c == d
  {
    assert !Earlier(c, d) && !Earlier(d, c);
  }

  /** The innermost loop: the first room from `from` on that is free with `interviewer` in `slot`. */
  function FirstRoom(o: Offer, slot: Timeslot, interviewer: string, from: nat): (r: Option<nat>)
    requires from <= |o.rooms|
    ensures r.Some? ==> from <= r.value < |o.rooms| && Free(o.interviewerSchedule, o.roomSchedule, slot, interviewer, o.rooms[r.value])
    ensures r.Some? ==> forall k :: from <= k < r.value ==> !Free(o.interviewerSchedule, o.roomSchedule, slot, interviewer, o.rooms[k])
    ensures r.None? ==> forall k :: from <= k < |o.rooms| ==> !Free(o.interviewerSchedule, o.roomSchedule, slot, interviewer, o.rooms[k])
    decreases |o.rooms| - from
  {
    if from == |o.rooms| then None
    else if Free(o.interviewerSchedule, o.roomSchedule, slot, interviewer, o.rooms[from]) then Some(from)
    else FirstRoom(o, slot, interviewer, from + 1)
  }

  /** The middle loop: the first interviewer from `from` on with a free room in `slot`, and that room. */
  function FirstInterviewer(o: Offer, slot: Timeslot, from: nat): (r: Option<(nat, nat)>)
    requires from <= |o.interviewers|
    ensures r.Some? ==> from <= r.value.0 < |o.interviewers| && FirstRoom(o, slot, o.interviewers[r.value.0], 0) == Some(r.value.1)
    ensures r.Some? ==> forall k :: from <= k < r.value.0 ==> FirstRoom(o, slot, o.interviewers[k], 0).None?
    ensures r.None? ==> forall k :: from <= k < |o.interviewers| ==> FirstRoom(o, slot, o.interviewers[k], 0).None?
    decreases |o.interviewers| - from
  {
    if from == |o.interviewers| then None
    else
      var room := FirstRoom(o, slot, o.interviewers[from], 0);
      if room.Some? then Some((from, room.value)) else FirstInterviewer(o, slot, from + 1)
  }

  /** The outer loop: the first slot from `from` on with a free interviewer and room. */
  function FirstSlot(o: Offer, from: nat): (r: Option<Choice>)
    requires from <= |o.slots|
    ensures r.Some? ==> from <= r.value.slot < |o.slots|
    ensures r.Some? ==> FirstInterviewer(o, o.slots[r.value.slot], 0) == Some((r.value.interviewer, r.value.room))
    ensures r.Some? ==> forall k :: from <= k < r.value.slot ==> FirstInterviewer(o, o.slots[k], 0).None?
    ensures r.None? ==> forall k :: from <= k < |o.slots| ==> FirstInterviewer(o, o.slots[k], 0).None?
    decreases |o.slots| - from
  {
    if from == |o.slots| then None
    else
      var pick := FirstInterviewer(o, o.slots[from], 0);
      if pick.Some? then Some(Choice(from, pick.value.0, pick.value.1)) else FirstSlot(o, from + 1)
  }

  /** The combination the three nested loops stop at. */
  function FirstFree(o: Offer): (r: Option<Choice>)
    ensures r.Some? ==> FreeAt(o, r.value)
  {
    var r := FirstSlot(o, 0);
    if r.Some? then
      assert FirstRoom(o, o.slots[r.value.slot], o.interviewers[r.value.interviewer], 0) == Some(r.value.room);
      r
    else r
  }

  /** The nested loops find the first free combination in their order, and find none only when none is free. */
  lemma FirstFreeIsFirst(o: Offer)
    ensures FirstFree(o).Some? ==> IsFirstFree(o, FirstFree(o).value)
    ensures FirstFree(o).None? <==> forall c :: !FreeAt(o, c)
    ensures forall c :: IsFirstFree(o, c) ==> FirstFree(o) == Some(c)
  {
    var r := FirstFree(o);
    forall d | FreeAt(o, d)
      ensures r.Some? && !Earlier(d, r.value)
    {
      var slot := o.slots[d.slot];
      assert FirstRoom(o, slot, o.interviewers[d.interviewer], 0).Some?;
      assert FirstInterviewer(o, slot, 0).Some?;
      if r.Some? && d.slot == r.value.slot && d.interviewer == r.value.interviewer {
        assert FirstRoom(o, slot, o.interviewers[d.interviewer], 0) == Some(r.value.room);
      }
    }
    if r.Some? {
      var c := r.value;
      assert FirstRoom(o, o.slots[c.slot], o.interviewers[c.interviewer], 0) == Some(c.room);
      assert FreeAt(o, c);
      forall d | IsFirstFree(o, d)
        ensures c == d
      {
        FirstFreeUnique(o, c, d);
      }
    }
  }

  /** What has been decided so far: the interviews, the attendees left, and each interviewer's and room's slots. */
  datatype Plan = Plan(
    schedule: seq<Interview>, unscheduled: set<int>,
    interviewerSchedule: map<string, seq<Timeslot>>, roomSchedule: map<string, seq<Timeslot>>)

  /** The search over the plan's bookings. */
  function OfferFor(p: Plan, slots: seq<Timeslot>, interviewers: seq<string>, rooms: seq<string>): Offer {
    Offer(slots, interviewers, rooms, p.interviewerSchedule, p.roomSchedule)
  }

  /**
   * One attendee: with no free combination nothing changes; otherwise the first free one
   * is booked for the attendee, recorded for its interviewer and room, and the attendee is
   * no longer unscheduled.
   */
  function Step(p: Plan, attendee: int, slots: seq<Timeslot>, interviewers: seq<string>, rooms: seq<string>): (r: Plan)
    ensures || r == p
            || (&& |r.schedule| == |p.schedule| + 1 && r.schedule[..|p.schedule|] == p.schedule
                && r.schedule[|p.schedule|].attendee == attendee && r.unscheduled == p.unscheduled - {attendee})
  {
    match FirstFree(OfferFor(p, slots, interviewers, rooms))
    case None => p
    case Some(c) =>
      var slot, interviewer, room := slots[c.slot], interviewers[c.interviewer], rooms[c.room];
      Plan(p.schedule + [Interview(attendee, interviewer, room, slot)], p.unscheduled - {attendee},
        Record(p.interviewerSchedule, interviewer, slot), Record(p.roomSchedule, room, slot))
  }

  /**
   * An attendee's step books the first free combination in the order slot, interviewer,
   * room, and changes nothing when no combination is free.
   */
  lemma StepTakesFirstFree(p: Plan, attendee: int, slots: seq<Timeslot>, interviewers: seq<string>, rooms: seq<string>)
    ensures (forall c :: !FreeAt(OfferFor(p, slots, interviewers, rooms), c)) ==> Step(p, attendee, slots, interviewers, rooms) == p
    ensures forall c | IsFirstFree(OfferFor(p, slots, interviewers, rooms), c) ::
      var slot, interviewer, room := slots[c.slot], interviewers[c.interviewer], rooms[c.room];
      Step(p, attendee, slots, interviewers, rooms) ==
        Plan(p.schedule + [Interview(attendee, interviewer, room, slot)], p.unscheduled - {attendee},
          Record(p.interviewerSchedule, interviewer, slot), Record(p.roomSchedule, room, slot))
  {
    FirstFreeIsFirst(OfferFor(p, slots, interviewers, rooms));
  }

  /** The loop over the attendees, in order. */
  function Greedy(attendees: seq<int>, slots: seq<Timeslot>, interviewers: seq<string>, rooms: seq<string>, p: Plan): Plan
    decreases |attendees|
  {
    if attendees == [] then p
    else Greedy(attendees[1..], slots, interviewers, rooms, Step(p, attendees[0], slots, interviewers, rooms))
  }

  /** Nothing scheduled yet: every attendee is unscheduled and nothing is booked. */
  function Initial(attendees: seq<int>): Plan {
    Plan([], set a | a in attendees, map[], map[])
  }

  /** Every interview is recorded for its interviewer and room, and no interviewer or room holds a slot twice. */
  ghost predicate NoDoubleBooking(p: Plan) {
    && (forall j :: 0 <= j < |p.schedule| ==>
          p.schedule[j].slot in Recorded(p.interviewerSchedule, p.schedule[j].interviewer)
          && p.schedule[j].slot in Recorded(p.roomSchedule, p.schedule[j].room))
    && (forall j, k :: 0 <= j < k < |p.schedule| && p.schedule[j].slot == p.schedule[k].slot ==>
          p.schedule[j].interviewer != p.schedule[k].interviewer && p.schedule[j].room != p.schedule[k].room)
  }

  /** One attendee's step keeps interviewers and rooms from being booked twice in a slot. */
  lemma StepKeepsNoDoubleBooking(p: Plan, attendee: int, slots: seq<Timeslot>, interviewers: seq<string>, rooms: seq<string>)
    requires NoDoubleBooking(p)
    ensures NoDoubleBooking(Step(p, attendee, slots, interviewers, rooms))
  {
    var o := OfferFor(p, slots, interviewers, rooms);
    if FirstFree(o).Some? {
      var c := FirstFree(o).value;
      var slot, interviewer, room := slots[c.slot], interviewers[c.interviewer], rooms[c.room];
      var iS, rS := Record(p.interviewerSchedule, interviewer, slot), Record(p.roomSchedule, room, slot);
      var s := p.schedule + [Interview(attendee, interviewer, room, slot)];
      assert Step(p, attendee, slots, interviewers, rooms) == Plan(s, p.unscheduled - {attendee}, iS, rS);
      var n := |p.schedule|;
      assert slot !in Recorded(p.interviewerSchedule, interviewer) && slot !in Recorded(p.roomSchedule, room);
      forall j | 0 <= j < |s|
        ensures s[j].slot in Recorded(iS, s[j].interviewer) && s[j].slot in Recorded(rS, s[j].room)
      {
        RecordKeeps(p.interviewerSchedule, interviewer, slot, s[j].interviewer);
        RecordKeeps(p.roomSchedule, room, slot, s[j].room);
        if j < n {
          assert s[j] == p.schedule[j];
        }
      }
      forall j, k | 0 <= j < k < |s| && s[j].slot == s[k].slot
        ensures s[j].interviewer != s[k].interviewer && s[j].room != s[k].room
      {
        assert s[j] == p.schedule[j];
        if k < n {
          assert s[k] == p.schedule[k];
        }
      }
      assert NoDoubleBooking(Plan(s, p.unscheduled - {attendee}, iS, rS));
    }
  }

  /** The whole greedy pass, from any plan without double bookings, leaves none. */
  lemma {:induction false} GreedyKeepsNoDoubleBooking(attendees: seq<int>, slots: seq<Timeslot>, interviewers: seq<string>, rooms: seq<string>, p: Plan)
    requires NoDoubleBooking(p)
    ensures NoDoubleBooking(Greedy(attendees, slots, interviewers, rooms, p))
    decreases |attendees|
  {
    if attendees != [] {
      StepKeepsNoDoubleBooking(p, attendees[0], slots, interviewers, rooms);
      GreedyKeepsNoDoubleBooking(attendees[1..], slots, interviewers, rooms, Step(p, attendees[0], slots, interviewers, rooms));
    }
  }

  /** No interviewer and no room is given the same slot twice by the schedule. */
  lemma ScheduleHasNoDoubleBooking(attendees: seq<int>, slots: seq<Timeslot>, interviewers: seq<string>, rooms: seq<string>)
    ensures NoDoubleBooking(Greedy(attendees, slots, interviewers, rooms, Initial(attendees)))
  {
    GreedyKeepsNoDoubleBooking(attendees, slots, interviewers, rooms, Initial(attendees));
  }

  /** No attendee has two interviews. */
  predicate ScheduledOnce(s: seq<Interview>) {
    forall j, k :: 0 <= j < k < |s| ==> s[j].attendee != s[k].attendee
  }

  /** No attendee occurs twice. */
  predicate Distinct(xs: seq<int>) {
    forall j, k :: 0 <= j < k < |xs| ==> xs[j] != xs[k]
  }

  /** One step for an attendee without an interview keeps everyone scheduled at most once. */
  lemma StepSchedulesOnce(p: Plan, attendee: int, slots: seq<Timeslot>, interviewers: seq<string>, rooms: seq<string>)
    requires ScheduledOnce(p.schedule)
    requires forall j :: 0 <= j < |p.schedule| ==> p.schedule[j].attendee != attendee
    ensures var s := Step(p, attendee, slots, interviewers, rooms).schedule;
      ScheduledOnce(s) && forall j :: 0 <= j < |s| ==> s[j] in p.schedule || s[j].attendee == attendee
  {
    var s := Step(p, attendee, slots, interviewers, rooms).schedule;
    var n := |p.schedule|;
    if s != p.schedule {
      forall j | 0 <= j < n
        ensures s[j] == p.schedule[j]
      {
        assert s[..n][j] == s[j];
      }
    }
  }

  /**
   * Processing distinct attendees, none of them already scheduled, keeps everyone
   * scheduled at most once and schedules no one from elsewhere.
   */
  lemma {:induction false} GreedySchedulesOnce(attendees: seq<int>, slots: seq<Timeslot>, interviewers: seq<string>, rooms: seq<string>, p: Plan)
    requires Distinct(attendees) && ScheduledOnce(p.schedule)
    requires forall j :: 0 <= j < |p.schedule| ==> p.schedule[j].attendee !in attendees
    ensures var r := Greedy(attendees, slots, interviewers, rooms, p).schedule;
      ScheduledOnce(r) && forall j :: 0 <= j < |r| ==> r[j] in p.schedule || r[j].attendee in attendees
    decreases |attendees|
  {
    if attendees != [] {
      var a, rest := attendees[0], attendees[1..];
      var q := Step(p, a, slots, interviewers, rooms);
      StepSchedulesOnce(p, a, slots, interviewers, rooms);
      forall x | x in rest
        ensures x in attendees && x != a
      {
        var k :| 0 <= k < |rest| && rest[k] == x;
        assert attendees[k + 1] == x;
      }
      assert Distinct(rest) by {
        forall j, k | 0 <= j < k < |rest|
          ensures rest[j] != rest[k]
        {
          assert rest[j] == attendees[j + 1] && rest[k] == attendees[k + 1];
        }
      }
      GreedySchedulesOnce(rest, slots, interviewers, rooms, q);
    }
  }

  /** With distinct attendees, nobody is scheduled twice. */
  lemma EachScheduledOnce(attendees: seq<int>, slots: seq<Timeslot>, interviewers: seq<string>, rooms: seq<string>)
    requires Distinct(attendees)
    ensures ScheduledOnce(Greedy(attendees, slots, interviewers, rooms, Initial(attendees)).schedule)
  {
    GreedySchedulesOnce(attendees, slots, interviewers, rooms, Initial(attendees));
  }

  /** `unscheduledAttendees` holds exactly the attendees with no interview so far. */
  ghost predicate TracksUnscheduled(p: Plan, all: set<int>) {
    forall a :: a in p.unscheduled <==> a in all && forall j :: 0 <= j < |p.schedule| ==> p.schedule[j].attendee != a
  }

  /** The greedy pass keeps the unscheduled set exact. */
  lemma {:induction false} GreedyTracksUnscheduled(attendees: seq<int>, slots: seq<Timeslot>, interviewers: seq<string>, rooms: seq<string>, p: Plan, all: set<int>)
    requires TracksUnscheduled(p, all)
    ensures TracksUnscheduled(Greedy(attendees, slots, interviewers, rooms, p), all)
    decreases |attendees|
  {
    if attendees != [] {
      var a := attendees[0];
      var q := Step(p, a, slots, interviewers, rooms);
      if q != p {
        var n := |p.schedule|;
        forall x
          ensures x in q.unscheduled <==> x in all && forall j :: 0 <= j < |q.schedule| ==> q.schedule[j].attendee != x
        {
          assert forall j :: 0 <= j < n ==> q.schedule[j] == p.schedule[j];
        }
      }
      GreedyTracksUnscheduled(attendees[1..], slots, interviewers, rooms, q, all);
    }
  }

  /** At the end, the attendees left unscheduled are exactly those without an interview. */
  lemma UnscheduledAreThoseWithoutInterview(attendees: seq<int>, slots: seq<Timeslot>, interviewers: seq<string>, rooms: seq<string>, a: int)
    ensures var r := Greedy(attendees, slots, interviewers, rooms, Initial(attendees));
      a in r.unscheduled <==> a in attendees && forall j :: 0 <= j < |r.schedule| ==> r.schedule[j].attendee != a
  {
    GreedyTracksUnscheduled(attendees, slots, interviewers, rooms, Initial(attendees), set x | x in attendees);
  }

  /** The three nested loops of the assignment, leaving them at the first free combination. */
  method FindFree(o: Offer) returns (c: Option<Choice>)
    ensures c == FirstFree(o)
  {
    var s := 0;
    while s < |o.slots|
      invariant 0 <= s <= |o.slots|
      invariant FirstSlot(o, 0) == FirstSlot(o, s)
    {
      var i := 0;
      while i < |o.interviewers|
        invariant 0 <= i <= |o.interviewers|
        invariant FirstInterviewer(o, o.slots[s], 0) == FirstInterviewer(o, o.slots[s], i)
      {
        var r := 0;
        while r < |o.rooms|
          invariant 0 <= r <= |o.rooms|
          invariant FirstRoom(o, o.slots[s], o.interviewers[i], 0) == FirstRoom(o, o.slots[s], o.interviewers[i], r)
        {
          if IsAvailable(o.interviewerSchedule, o.interviewers[i], o.slots[s]) && IsAvailable(o.roomSchedule, o.rooms[r], o.slots[s]) {
            return Some(Choice(s, i, r));
          }
          r := r + 1;
        }
        i := i + 1;
      }
      s := s + 1;
    }
    return None;
  }

  /**
   * The assignment loop of `main`: each attendee in turn gets the first free combination,
   * which is added to the schedule and recorded for its interviewer and room.
   */
  method ScheduleInterviews(attendees: seq<int>, slots: seq<Timeslot>, interviewers: seq<string>, rooms: seq<string>)
    returns (schedule: seq<Interview>, unscheduled: set<int>,
             interviewerSchedule: map<string, seq<Timeslot>>, roomSchedule: map<string, seq<Timeslot>>)
    ensures Plan(schedule, unscheduled, interviewerSchedule, roomSchedule) == Greedy(attendees, slots, interviewers, rooms, Initial(attendees))
  {
    schedule := [];
    unscheduled := set a | a in attendees;
    interviewerSchedule := map[];
    roomSchedule := map[];
    var n := 0;
    while n < |attendees|
      invariant 0 <= n <= |attendees|
      invariant Greedy(attendees[n..], slots, interviewers, rooms, Plan(schedule, unscheduled, interviewerSchedule, roomSchedule))
        == Greedy(attendees, slots, interviewers, rooms, Initial(attendees))
    {
      var attendee := attendees[n];
      ghost var p := Plan(schedule, unscheduled, interviewerSchedule, roomSchedule);
      var c := FindFree(Offer(slots, interviewers, rooms, interviewerSchedule, roomSchedule));
      if c.Some? {
        var slot, interviewer, room := slots[c.value.slot], interviewers[c.value.interviewer], rooms[c.value.room];
        schedule := schedule + [Interview(attendee, interviewer, room, slot)];
        interviewerSchedule := Record(interviewerSchedule, interviewer, slot);
        roomSchedule := Record(roomSchedule, room, slot);
        unscheduled := unscheduled - {attendee};
      }
      assert Plan(schedule, unscheduled, interviewerSchedule, roomSchedule) == Step(p, attendee, slots, interviewers, rooms);
      assert attendees[n..][1..] == attendees[n + 1..];
      n := n + 1;
    }
  }

  /** The attendees, interviewers and rooms of `main`. */
  const MainAttendees: seq<int> := [1, 2, 3, 4, 5]
  const MainInterviewers: seq<string> := ["A", "B"]
  const MainRooms: seq<string> := ["R1", "R2"]

  /** The plan of `main` after its first `k` attendees. */
  function MainPlan(k: nat): Plan
    requires k <= 5
  {
    var t1, t2, t3 := Timeslot(9, 11), Timeslot(11, 13), Timeslot(15, 17);
    var i1, i2, i3 := Interview(1, "A", "R1", t1), Interview(2, "B", "R2", t1), Interview(3, "A", "R1", t2);
    var i4, i5 := Interview(4, "B", "R2", t2), Interview(5, "A", "R1", t3);
    var all: set<int> := {1, 2, 3, 4, 5};
    var a1 := Record(map[], "A", t1);
    var a2 := Record(a1, "B", t1);
    var a3 := Record(a2, "A", t2);
    var a4 := Record(a3, "B", t2);
    var r1 := Record(map[], "R1", t1);
    var r2 := Record(r1, "R2", t1);
    var r3 := Record(r2, "R1", t2);
    var r4 := Record(r3, "R2", t2);
    if k == 0 then Plan([], all, map[], map[])
    else if k == 1 then Plan([i1], all - {1}, a1, r1)
    else if k == 2 then Plan([i1, i2], all - {1} - {2}, a2, r2)
    else if k == 3 then Plan([i1, i2, i3], all - {1} - {2} - {3}, a3, r3)
    else if k == 4 then Plan([i1, i2, i3, i4], all - {1} - {2} - {3} - {4}, a4, r4)
    else Plan([i1, i2, i3, i4, i5], all - {1} - {2} - {3} - {4} - {5}, Record(a4, "A", t3), Record(r4, "R1", t3))
  }

  /** The search over a plan of `main`. */
  function MainOffer(k: nat): Offer
    requires k <= 5
  {
    OfferFor(MainPlan(k), AvailableSlots, MainInterviewers, MainRooms)
  }

  /** Attendee 1 gets interviewer `A` and room `R1` at 9. */
  lemma MainStep1()
    ensures Step(MainPlan(0), 1, AvailableSlots, MainInterviewers, MainRooms) == MainPlan(1)
  {
    assert FirstRoom(MainOffer(0), Timeslot(9, 11), "A", 0) == Some(0);
    assert FirstFree(MainOffer(0)) == Some(Choice(0, 0, 0));
  }

  /** Attendee 2 gets `B` and `R2` at 9: `A` and `R1` are taken. */
  lemma MainStep2()
    ensures Step(MainPlan(1), 2, AvailableSlots, MainInterviewers, MainRooms) == MainPlan(2)
  {
    var o := MainOffer(1);
    assert FirstRoom(o, Timeslot(9, 11), "A", 0) == None;
    assert FirstRoom(o, Timeslot(9, 11), "B", 0) == Some(1);
    assert FirstFree(o) == Some(Choice(0, 1, 1));
  }

  /** Attendee 3 gets `A` and `R1` at 11: everyone is taken at 9. */
  lemma MainStep3()
    ensures Step(MainPlan(2), 3, AvailableSlots, MainInterviewers, MainRooms) == MainPlan(3)
  {
    var o := MainOffer(2);
    assert FirstRoom(o, Timeslot(9, 11), "A", 0) == None;
    assert FirstRoom(o, Timeslot(9, 11), "B", 0) == None;
    assert FirstRoom(o, Timeslot(11, 13), "A", 0) == Some(0);
    assert FirstFree(o) == Some(Choice(1, 0, 0));
  }

  /** Attendee 4 gets `B` and `R2` at 11. */
  lemma MainStep4()
    ensures Step(MainPlan(3), 4, AvailableSlots, MainInterviewers, MainRooms) == MainPlan(4)
  {
    var o := MainOffer(3);
    assert FirstRoom(o, Timeslot(9, 11), "A", 0) == None;
    assert FirstRoom(o, Timeslot(9, 11), "B", 0) == None;
    assert FirstRoom(o, Timeslot(11, 13), "A", 0) == None;
    assert FirstRoom(o, Timeslot(11, 13), "B", 0) == Some(1);
    assert FirstFree(o) == Some(Choice(1, 1, 1));
  }

  /** Attendee 5 gets `A` and `R1` at 15. */
  lemma MainStep5()
    ensures Step(MainPlan(4), 5, AvailableSlots, MainInterviewers, MainRooms) == MainPlan(5)
  {
    var o := MainOffer(4);
    assert FirstRoom(o, Timeslot(9, 11), "A", 0) == None;
    assert FirstRoom(o, Timeslot(9, 11), "B", 0) == None;
    assert FirstRoom(o, Timeslot(11, 13), "A", 0) == None;
    assert FirstRoom(o, Timeslot(11, 13), "B", 0) == None;
    assert FirstRoom(o, Timeslot(15, 17), "A", 0) == Some(0);
    assert FirstFree(o) == Some(Choice(2, 0, 0));
  }

  /** The pass from the plan after `k` attendees over the remaining ones ends at the last plan. */
  lemma {:induction false} MainRest(k: nat)
    requires k <= 5
    ensures Greedy(MainAttendees[k..], AvailableSlots, MainInterviewers, MainRooms, MainPlan(k)) == MainPlan(5)
    decreases 5 - k
  {
    if k < 5 {
      if k == 0 { MainStep1(); }
      else if k == 1 { MainStep2(); }
      else if k == 2 { MainStep3(); }
      else if k == 3 { MainStep4(); }
      else { MainStep5(); }
      assert MainAttendees[k..][0] == k + 1 && MainAttendees[k..][1..] == MainAttendees[k + 1..];
      MainRest(k + 1);
    }
  }

  /**
   * The run of `main`: two attendees fit in each of the first two slots, the fifth gets
   * the third slot, and nobody is left unscheduled.
   */
  lemma MainSchedule()
    ensures var r := Greedy(MainAttendees, AvailableSlots, MainInterviewers, MainRooms, Initial(MainAttendees));
      && r.schedule == [
        Interview(1, "A", "R1", Timeslot(9, 11)), Interview(2, "B", "R2", Timeslot(9, 11)),
        Interview(3, "A", "R1", Timeslot(11, 13)), Interview(4, "B", "R2", Timeslot(11, 13)),
        Interview(5, "A", "R1", Timeslot(15, 17))]
      && r.unscheduled == {}
  {
    assert Initial(MainAttendees) == MainPlan(0) by {
      assert forall a :: a in MainAttendees <==> a in {1, 2, 3, 4, 5};
    }
    MainRest(0);
    assert MainAttendees[0..] == MainAttendees;
    MainPlanFinal();
  }

  /** The last plan of `main`, written out. */
  lemma MainPlanFinal()
    ensures MainPlan(5).schedule == [
        Interview(1, "A", "R1", Timeslot(9, 11)), Interview(2, "B", "R2", Timeslot(9, 11)),
        Interview(3, "A", "R1", Timeslot(11, 13)), Interview(4, "B", "R2", Timeslot(11, 13)),
        Interview(5, "A", "R1", Timeslot(15, 17))]
    ensures MainPlan(5).unscheduled == {}
  {
    var all: set<int> := {1, 2, 3, 4, 5};
    assert all - {1} - {2} - {3} - {4} - {5} == {} by {
      assert forall x :: x !in all - {1} - {2} - {3} - {4} - {5};
    }
  }
}
