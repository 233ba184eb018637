/**
 * `getAvailableEmployees`: the professionals offering the service who can be
 * booked at one chosen clock time. Unlike `generateTimeSlots` it tests the
 * chosen minute alone: inside the work window, and inside no occupied
 * interval.
 */
module Lookup {
  import opened Wrappers
  import opened Clock
  import opened Professionals
  import opened Occupancy
  import opened Grid

  /**
   * One turn of the professional loop of `getAvailableEmployees`: not on leave, the chosen minute inside
   * `[workStart, workEnd)`, and no occupied interval containing it. A chosen
   * time or a window end that is `NaN` fails the comparisons, so nobody is
   * free then.
   */
  predicate FreeAt(p: Professional, appts: seq<Appointment>, day: int, selected: Option<nat>)
  {
    && !OnLeave(p.employee, day)
    && selected.Some? && WorkStart(p.employee).Some? && WorkEnd(p.employee).Some?
    && WorkStart(p.employee).value <= selected.value < WorkEnd(p.employee).value
    && !PointConflict(selected.value, Occupied(p.employee, appts, day))
  }

  /** The professionals free at the chosen minute, in the order they are listed. */
  function FreeProfessionalsAt(ps: seq<Professional>, appts: seq<Appointment>, day: int, selected: Option<nat>): seq<ProfessionalRef>
  {
    Chosen(ps, p => FreeAt(p, appts, day, selected))
  }

  /** A reference is returned exactly when it belongs to a professional offering the service who is free at the chosen minute. */
  lemma FreeProfessionalsIff(ps: seq<Professional>, appts: seq<Appointment>, day: int,
                             selected: Option<nat>, r: ProfessionalRef)
    ensures r in FreeProfessionalsAt(ps, appts, day, selected) <==>
              exists i :: 0 <= i < |ps| && Ref(ps[i]) == r && FreeAt(ps[i], appts, day, selected)
  {
    ChosenIff(ps, p => FreeAt(p, appts, day, selected), r);
  }

  /** One visit of the loop: the result gains the professional exactly when they are free. */
  lemma FreeProfessionalsSnoc(done: seq<Professional>, p: Professional, appts: seq<Appointment>, day: int, selected: Option<nat>)
    ensures FreeProfessionalsAt(done + [p], appts, day, selected) ==
              FreeProfessionalsAt(done, appts, day, selected) + if FreeAt(p, appts, day, selected) then [Ref(p)] else []
  {
    ChosenSnoc(done, p, q => FreeAt(q, appts, day, selected));
  }

  /**
   * `getAvailableEmployees` after its fetches: the service
   * filter, then one visit per professional, appending those free at the
   * chosen time.
   */
  method GetAvailableEmployees(employees: seq<Employee>, appointments: seq<Appointment>, serviceId: string,
                               day: int, time: string)
    returns (available: seq<ProfessionalRef>)
    ensures available == FreeProfessionalsAt(ProfessionalsFor(employees, serviceId), appointments, day, ToMinutes(time))
  {
    var selected := ToMinutes(time);
    var ps := ProfessionalsFor(employees, serviceId);
    available := [];
    for i := 0 to |ps|
      invariant available == FreeProfessionalsAt(ps[..i], appointments, day, selected)
    {
      var p := ps[i];
      FreeProfessionalsSnoc(ps[..i], p, appointments, day, selected);
      assert ps[..i + 1] == ps[..i] + [p];
      if OnLeave(p.employee, day) {
        continue;
      }
      var ws, we := WorkStart(p.employee), WorkEnd(p.employee);
      if selected.Some? && ws.Some? && we.Some? && selected.value >= ws.value && selected.value < we.value {
        var ranges := OccupiedIntervals(p.employee, appointments, day);
        if !PointConflict(selected.value, ranges) {
          available := available + [Ref(p)];
        }
      }
    }
    assert ps[..|ps|] == ps;
  }

  /** A professional free for the whole slot at a grid start is free at that start minute. */
  lemma SlotFreeIsPointFree(p: Professional, appts: seq<Appointment>, day: int, t: nat)
    requires FreeForSlot(p, appts, day, t)
    ensures FreeAt(p, appts, day, Some(t))
  {
    CandidateStartsOnGrid(p, t);
    var ranges := Occupied(p.employee, appts, day);
    forall i | 0 <= i < |ranges| ensures !Covers(ranges[i], t) {
      assert !Overlaps(t, p.serviceDuration, ranges[i]);
    }
  }

  /** Every professional listed at a generated time is returned by the lookup at that time. */
  lemma ListedAreReturned(ps: seq<Professional>, appts: seq<Appointment>, day: int, t: nat, r: ProfessionalRef)
    requires r in AvailableAt(ps, appts, day, t)
    ensures r in FreeProfessionalsAt(ps, appts, day, Some(t))
  {
    ListedIff(ps, appts, day, t, r);
    var i :| 0 <= i < |ps| && Ref(ps[i]) == r && FreeForSlot(ps[i], appts, day, t);
    SlotFreeIsPointFree(ps[i], appts, day, t);
    FreeProfessionalsIff(ps, appts, day, Some(t), r);
  }

  /** Works 09:00-10:00, offers a 30-minute service, and has a block from 09:15 lasting 30 minutes. */
  function BlockedAtQuarterPast(): Professional
  {
    Professional(Employee("e1", "Ana", [ServiceOffer("s1", 30)],
                          WorkTime(ToTimeString(540), ToTimeString(600)),
                          [BlockedTime(ToTimeString(555), NatToString(30), "")], []), 30)
  }

  lemma QuarterPastWindow()
    ensures WorkStart(BlockedAtQuarterPast().employee) == Some(540)
    ensures WorkEnd(BlockedAtQuarterPast().employee) == Some(600)
  {
    TimeStringRoundTrip(540);
    TimeStringRoundTrip(600);
  }

  lemma QuarterPastBlock()
    ensures Occupied(BlockedAtQuarterPast().employee, [], 0) == [Interval(555, 585)]
  {
    var bts := BlockedAtQuarterPast().employee.blockedTimes;
    QuarterPastInterval();
    assert bts[..0] == [];
    assert BlockIntervals(bts) == [] + [Interval(555, 585)];
  }

  lemma QuarterPastInterval()
    ensures BlockInterval(BlockedTime(ToTimeString(555), NatToString(30), "")) == Some(Interval(555, 585))
  {
    TimeStringRoundTrip(555);
    NatToStringDigits(30);
  }

  /**
   * The converse fails: working 09:00-10:00 on a 30-minute service with a
   * block from 09:15 to 09:45, the professional is free at the minute 09:00
   * but not for the slot starting there.
   */
  lemma PointFreeIsNotSlotFree()
    ensures FreeAt(BlockedAtQuarterPast(), [], 0, Some(540)) && !FreeForSlot(BlockedAtQuarterPast(), [], 0, 540)
  {
    var p := BlockedAtQuarterPast();
    var ranges := Occupied(p.employee, [], 0);
    QuarterPastWindow();
    QuarterPastBlock();
    assert !OnLeave(p.employee, 0) by { assert p.employee.unavailableDates == []; }
    assert Overlaps(540, p.serviceDuration, ranges[0]);
    assert SlotConflict(540, p.serviceDuration, ranges);
    assert !PointConflict(540, ranges) by { assert !Covers(ranges[0], 540); }
  }
}
