/**
 * Occupied intervals of one professional on one day (the `blockedRanges` of
 * `generateTimeSlots` and `getAvailableEmployees`) and the two conflict tests
 * run against them.
 */
module Occupancy {
  import opened Wrappers
  import opened Clock
  import opened Professionals

  /** A half-open minute interval [start, end). */
  datatype Interval = Interval(start: int, end: int)

  /** The interval of a blocked time; None when its time or its duration is `NaN`. */
  function BlockInterval(bt: BlockedTime): Option<Interval>
  {
    match (ToMinutes(bt.time), ParseNumber(bt.duration))
    case (Some(s), Some(d)) => Some(Interval(s, s + d))
    case _ => None
  }

  /** The interval of an appointment; None when its time or its duration is `NaN`. */
  function AppointmentInterval(a: Appointment): Option<Interval>
  {
    match (ToMinutes(a.time), a.duration)
    case (Some(s), Some(d)) => Some(Interval(s, s + d))
    case _ => None
  }

  /** The intervals the blocked times contribute, in order, skipping those that do not parse. */
  function BlockIntervals(bts: seq<BlockedTime>): seq<Interval>
  {
    if bts == [] then []
    else
      var init := BlockIntervals(bts[..|bts| - 1]);
      match BlockInterval(bts[|bts| - 1])
      case Some(iv) => init + [iv]
      case None => init
  }

  /** The appointment stands for an occupied interval of this employee on this day. */
  predicate Occupies(a: Appointment, employeeId: string, day: int)
  {
    a.employeeId == employeeId && a.date == day && a.status != Canceled
  }

  /** `appointments.filter(...)`: the employee's appointments on the day that are not canceled. */
  function DayAppointments(appts: seq<Appointment>, employeeId: string, day: int): seq<Appointment>
  {
    if appts == [] then []
    else
      var init := DayAppointments(appts[..|appts| - 1], employeeId, day);
      var a := appts[|appts| - 1];
      if Occupies(a, employeeId, day) then init + [a] else init
  }

  /** The intervals the appointments contribute, in order, skipping those that do not parse. */
  function AppointmentIntervals(appts: seq<Appointment>): seq<Interval>
  {
    if appts == [] then []
    else
      var init := AppointmentIntervals(appts[..|appts| - 1]);
      match AppointmentInterval(appts[|appts| - 1])
      case Some(iv) => init + [iv]
      case None => init
  }

  /** The occupied intervals: the blocks first, then the day's non-canceled appointments. */
  function Occupied(e: Employee, appts: seq<Appointment>, day: int): seq<Interval>
  {
    BlockIntervals(e.blockedTimes) + AppointmentIntervals(DayAppointments(appts, e.id, day))
  }

  /**
   * The two loops that fill `blockedRanges`: first the parsable blocked
   * times, then the parsable appointments of the day that are not canceled.
   */
  method OccupiedIntervals(e: Employee, appts: seq<Appointment>, day: int) returns (ranges: seq<Interval>)
    ensures ranges == Occupied(e, appts, day)
  {
    ranges := [];
    for i := 0 to |e.blockedTimes|
      invariant ranges == BlockIntervals(e.blockedTimes[..i])
    {
      assert e.blockedTimes[..i + 1][..i] == e.blockedTimes[..i];
      match BlockInterval(e.blockedTimes[i])
      case Some(iv) => ranges := ranges + [iv];
      case None =>
    }
    assert e.blockedTimes[..|e.blockedTimes|] == e.blockedTimes;
    var forDay: seq<Appointment> := [];
    for i := 0 to |appts|
      invariant forDay == DayAppointments(appts[..i], e.id, day)
    {
      assert appts[..i + 1][..i] == appts[..i];
      if Occupies(appts[i], e.id, day) {
        forDay := forDay + [appts[i]];
      }
    }
    assert appts[..|appts|] == appts;
    var fromAppointments: seq<Interval> := [];
    for i := 0 to |forDay|
      invariant fromAppointments == AppointmentIntervals(forDay[..i])
    {
      assert forDay[..i + 1][..i] == forDay[..i];
      match AppointmentInterval(forDay[i])
      case Some(iv) => fromAppointments := fromAppointments + [iv];
      case None =>
    }
    assert forDay[..|forDay|] == forDay;
    ranges := ranges + fromAppointments;
  }

  /** Slot [t, t + d) against an occupied interval: `!(slotEnd <= b.start || t >= b.end)`. */
  predicate Overlaps(t: int, d: int, b: Interval)
  {
    !(t + d <= b.start || t >= b.end)
  }

  /** Point test of `getAvailableEmployees`: `!(t < b.start || t >= b.end)`. */
  predicate Covers(b: Interval, t: int)
  {
    !(t < b.start || t >= b.end)
  }

  /** `blockedRanges.find(...)` is truthy: some occupied interval overlaps the slot. */
  predicate SlotConflict(t: int, d: int, ranges: seq<Interval>)
  {
    exists i :: 0 <= i < |ranges| && Overlaps(t, d, ranges[i])
  }

  /** Some occupied interval contains the minute `t`. */
  predicate PointConflict(t: int, ranges: seq<Interval>)
  {
    exists i :: 0 <= i < |ranges| && Covers(ranges[i], t)
  }

  /** The minute `x` lies in the interval. */
  predicate Contains(b: Interval, x: int)
  {
    b.start <= x < b.end
  }

  /**
   * For a proper slot and a proper interval the source's test is interval
   * intersection: they overlap exactly when some minute lies in both.
   */
  lemma OverlapIsSharedMinute(t: int, d: int, b: Interval)
    requires d > 0 && b.start < b.end
    ensures Overlaps(t, d, b) <==> exists x :: Contains(Interval(t, t + d), x) && Contains(b, x)
  {
    if Overlaps(t, d, b) {
      var x := if t < b.start then b.start else t;
      assert Contains(Interval(t, t + d), x) && Contains(b, x);
    }
  }

  /** Touching end points are no conflict: a slot ending where the interval starts, or starting where it ends, is free of it. */
  lemma TouchingIsNoConflict(b: Interval, d: int)
    ensures !Overlaps(b.end, d, b)
    ensures !Overlaps(b.start - d, d, b)
  {
  }

  /**
   * The worked example: a 30-minute appointment at 09:00 conflicts with the
   * slot from 08:45 and does not block the slot from 09:30.
   */
  lemma NineOClockExample(employeeId: string, day: int)
    ensures var a := Appointment(employeeId, day, ToTimeString(540), Some(30), Confirmed);
            AppointmentInterval(a) == Some(Interval(540, 570)) &&
            Overlaps(525, 30, Interval(540, 570)) && !Overlaps(570, 30, Interval(540, 570))
  {
    TimeStringRoundTrip(540);
  }

  /** The point test is the slot test for a one-minute slot. */
  lemma PointIsUnitSlot(b: Interval, t: int)
    ensures Covers(b, t) <==> Overlaps(t, 1, b)
  {
  }

  /** Whether a slot conflicts depends only on which intervals are occupied, not on their order; so sorting `blockedRanges` changes nothing but which conflict is found first. */
  lemma ConflictIgnoresOrder(t: int, d: int, r1: seq<Interval>, r2: seq<Interval>)
    requires multiset(r1) == multiset(r2)
    ensures SlotConflict(t, d, r1) <==> SlotConflict(t, d, r2)
    ensures PointConflict(t, r1) <==> PointConflict(t, r2)
  {
    forall iv ensures iv in r1 <==> iv in r2 {
      assert iv in r1 <==> iv in multiset(r1);
      assert iv in r2 <==> iv in multiset(r2);
    }
    if SlotConflict(t, d, r1) {
      var i :| 0 <= i < |r1| && Overlaps(t, d, r1[i]);
      assert r1[i] in r2;
    }
    if SlotConflict(t, d, r2) {
      var i :| 0 <= i < |r2| && Overlaps(t, d, r2[i]);
      assert r2[i] in r1;
    }
    if PointConflict(t, r1) {
      var i :| 0 <= i < |r1| && Covers(r1[i], t);
      assert r1[i] in r2;
    }
    if PointConflict(t, r2) {
      var i :| 0 <= i < |r2| && Covers(r2[i], t);
      assert r2[i] in r1;
    }
  }

  /** An interval is occupied exactly when a parsable block or a parsable, non-canceled appointment of that employee on that day gives it. */
  lemma {:induction false} OccupiedMembership(e: Employee, appts: seq<Appointment>, day: int, iv: Interval)
    ensures iv in Occupied(e, appts, day) <==>
              (exists k :: 0 <= k < |e.blockedTimes| && BlockInterval(e.blockedTimes[k]) == Some(iv)) ||
              (exists k :: 0 <= k < |appts| && Occupies(appts[k], e.id, day) && AppointmentInterval(appts[k]) == Some(iv))
  {
    BlockIntervalsMembership(e.blockedTimes, iv);
    AppointmentIntervalsMembership(DayAppointments(appts, e.id, day), iv);
    DayAppointmentsMembership(appts, e.id, day);
    var fd := DayAppointments(appts, e.id, day);
    if exists k :: 0 <= k < |fd| && AppointmentInterval(fd[k]) == Some(iv) {
      var k :| 0 <= k < |fd| && AppointmentInterval(fd[k]) == Some(iv);
      assert fd[k] in fd;
      var j :| 0 <= j < |appts| && appts[j] == fd[k];
      assert Occupies(appts[j], e.id, day);
    }
    if exists k :: 0 <= k < |appts| && Occupies(appts[k], e.id, day) && AppointmentInterval(appts[k]) == Some(iv) {
      var k :| 0 <= k < |appts| && Occupies(appts[k], e.id, day) && AppointmentInterval(appts[k]) == Some(iv);
      assert appts[k] in fd;
    }
  }

  lemma {:induction false} BlockIntervalsMembership(bts: seq<BlockedTime>, iv: Interval)
    ensures iv in BlockIntervals(bts) <==> exists k :: 0 <= k < |bts| && BlockInterval(bts[k]) == Some(iv)
  {
    if bts != [] {
      var init := bts[..|bts| - 1];
      BlockIntervalsMembership(init, iv);
      assert forall k :: 0 <= k < |init| ==> init[k] == bts[k];
    }
  }

  lemma {:induction false} AppointmentIntervalsMembership(appts: seq<Appointment>, iv: Interval)
    ensures iv in AppointmentIntervals(appts) <==> exists k :: 0 <= k < |appts| && AppointmentInterval(appts[k]) == Some(iv)
  {
    if appts != [] {
      var init := appts[..|appts| - 1];
      AppointmentIntervalsMembership(init, iv);
      assert forall k :: 0 <= k < |init| ==> init[k] == appts[k];
    }
  }

  lemma {:induction false} DayAppointmentsMembership(appts: seq<Appointment>, employeeId: string, day: int)
    ensures forall a :: a in DayAppointments(appts, employeeId, day) <==> a in appts && Occupies(a, employeeId, day)
  {
    if appts != [] {
      var init := appts[..|appts| - 1];
      DayAppointmentsMembership(init, employeeId, day);
      assert appts == init + [appts[|appts| - 1]];
    }
  }

  /** Adding a canceled appointment anywhere in the input changes no occupied interval. */
  lemma CanceledIsIgnored(e: Employee, xs: seq<Appointment>, a: Appointment, ys: seq<Appointment>, day: int)
    requires a.status == Canceled
    ensures Occupied(e, xs + [a] + ys, day) == Occupied(e, xs + ys, day)
  {
    DayAppointmentsSplit(xs, [a] + ys, e.id, day);
    DayAppointmentsSplit([a], ys, e.id, day);
    DayAppointmentsSplit(xs, ys, e.id, day);
    assert xs + [a] + ys == xs + ([a] + ys);
    assert DayAppointments([a], e.id, day) == [] by {
      assert [a][..0] == [];
      assert !Occupies(a, e.id, day);
    }
    calc {
      DayAppointments(xs + [a] + ys, e.id, day);
      DayAppointments(xs, e.id, day) + DayAppointments([a] + ys, e.id, day);
      DayAppointments(xs, e.id, day) + (DayAppointments([a], e.id, day) + DayAppointments(ys, e.id, day));
      DayAppointments(xs + ys, e.id, day);
    }
  }

  lemma {:induction false} DayAppointmentsSplit(xs: seq<Appointment>, ys: seq<Appointment>, employeeId: string, day: int)
    ensures DayAppointments(xs + ys, employeeId, day) == DayAppointments(xs, employeeId, day) + DayAppointments(ys, employeeId, day)
    decreases |ys|
  {
    if ys == [] {
      assert xs + ys == xs;
    } else {
      var ys' := ys[..|ys| - 1];
      DayAppointmentsSplit(xs, ys', employeeId, day);
      assert (xs + ys)[..|xs + ys| - 1] == xs + ys';
      assert (xs + ys)[|xs + ys| - 1] == ys[|ys| - 1];
    }
  }
}
