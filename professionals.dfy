/**
 * The records the availability engine reads (already fetched), and the
 * selection of the professionals who perform a given service.
 */
module Professionals {
  import opened Wrappers
  import opened Clock

  /** One entry of `business_services`: a service and how long it takes this professional. */
  datatype ServiceOffer = ServiceOffer(serviceId: string, duration: int)

  /** `work_time`: the daily working window as clock strings. */
  datatype WorkTime = WorkTime(start: string, end: string)

  /** One entry of `blocked_times`; `duration` is a string, read with `Number`. */
  datatype BlockedTime = BlockedTime(time: string, duration: string, description: string)

  /** One entry of `unavailable_dates`: a leave range, both ends inclusive (None: a date that does not parse). */
  datatype UnavailableDate = UnavailableDate(dateStart: Option<int>, dateEnd: Option<int>, reason: string)

  /** `BusinessEmployee`. */
  datatype Employee = Employee(
    id: string,
    name: string,
    services: seq<ServiceOffer>,
    workTime: WorkTime,
    blockedTimes: seq<BlockedTime>,
    unavailableDates: seq<UnavailableDate>)

  datatype AppointmentStatus = Pending | Confirmed | Canceled

  /** `BusinessEmployeeAppointment`; `duration` is None where `Number(duration)` is `NaN`. */
  datatype Appointment = Appointment(
    employeeId: string,
    date: int,
    time: string,
    duration: Option<int>,
    status: AppointmentStatus)

  /** An employee together with their own duration for the chosen service (`{...emp, serviceDuration}`). */
  datatype Professional = Professional(employee: Employee, serviceDuration: int)

  /** The `{ id, name }` pair the engine reports for a professional. */
  datatype ProfessionalRef = ProfessionalRef(id: string, name: string)

  function Ref(p: Professional): ProfessionalRef
  {
    ProfessionalRef(p.employee.id, p.employee.name)
  }

  /** The references of the professionals satisfying `free`, in their order (a `for` loop that pushes `{ id, name }`). */
  function Chosen(ps: seq<Professional>, free: Professional -> bool): seq<ProfessionalRef>
  {
    if ps == [] then []
    else Chosen(ps[..|ps| - 1], free) + if free(ps[|ps| - 1]) then [Ref(ps[|ps| - 1])] else []
  }

  /** A reference is chosen exactly when it belongs to a professional satisfying `free`. */
  lemma {:induction false} ChosenIff(ps: seq<Professional>, free: Professional -> bool, r: ProfessionalRef)
    ensures r in Chosen(ps, free) <==> exists i :: 0 <= i < |ps| && Ref(ps[i]) == r && free(ps[i])
  {
    if ps != [] {
      var init := ps[..|ps| - 1];
      ChosenIff(init, free, r);
      assert forall i :: 0 <= i < |init| ==> init[i] == ps[i];
    }
  }

  /** Visiting one more professional appends their reference exactly when they satisfy `free`. */
  lemma ChosenSnoc(done: seq<Professional>, p: Professional, free: Professional -> bool)
    ensures Chosen(done + [p], free) == Chosen(done, free) + if free(p) then [Ref(p)] else []
  {
    assert (done + [p])[..|done|] == done;
  }

  /** The employee performs the service: some entry of `business_services` names it. */
  predicate OffersService(e: Employee, serviceId: string)
  {
    exists i :: 0 <= i < |e.services| && e.services[i].serviceId == serviceId
  }

  /** `business_services.find(...)`: the first entry for the service, if any. */
  function FindOffer(offers: seq<ServiceOffer>, serviceId: string): (r: Option<ServiceOffer>)
    ensures r.None? <==> forall i :: 0 <= i < |offers| ==> offers[i].serviceId != serviceId
    ensures r.Some? ==> exists i :: 0 <= i < |offers| && offers[i] == r.value && r.value.serviceId == serviceId &&
                          forall j :: 0 <= j < i ==> offers[j].serviceId != serviceId
  {
    if offers == [] then None
    else if offers[0].serviceId == serviceId then Some(offers[0])
    else
      var r := FindOffer(offers[1..], serviceId);
      assert forall i :: 1 <= i < |offers| ==> offers[i] == offers[1..][i - 1];
      r
  }

  /** The filter of `getEmployeesService`: the employees that perform the service, in their order. */
  function EmployeesOffering(employees: seq<Employee>, serviceId: string): (r: seq<Employee>)
    ensures |r| <= |employees|
  {
    if employees == [] then []
    else
      var rest := EmployeesOffering(employees[1..], serviceId);
      if OffersService(employees[0], serviceId) then [employees[0]] + rest else rest
  }

  /** An employee is kept exactly when they are in the input and offer the service. */
  lemma {:induction false} EmployeesOfferingMembership(employees: seq<Employee>, serviceId: string)
    ensures forall e :: e in EmployeesOffering(employees, serviceId) <==> e in employees && OffersService(e, serviceId)
  {
    if employees != [] {
      EmployeesOfferingMembership(employees[1..], serviceId);
      assert forall e :: e in employees <==> e == employees[0] || e in employees[1..];
    }
  }

  /**
   * The filter keeps order and multiplicity: filtering a concatenation filters
   * each part (and `EmployeesOfferingSingle` gives a single employee), which
   * together determine the result.
   */
  lemma {:induction false} EmployeesOfferingSplit(xs: seq<Employee>, ys: seq<Employee>, serviceId: string)
    ensures EmployeesOffering(xs + ys, serviceId) == EmployeesOffering(xs, serviceId) + EmployeesOffering(ys, serviceId)
  {
    if xs == [] {
      assert xs + ys == ys;
    } else {
      var head := if OffersService(xs[0], serviceId) then [xs[0]] else [];
      var left, right := EmployeesOffering(xs[1..], serviceId), EmployeesOffering(ys, serviceId);
      assert EmployeesOffering(xs + ys, serviceId) == head + EmployeesOffering(xs[1..] + ys, serviceId) by {
        EmployeesOfferingCons(xs + ys, serviceId);
        assert (xs + ys)[0] == xs[0];
        assert (xs + ys)[1..] == xs[1..] + ys;
      }
      assert EmployeesOffering(xs, serviceId) == head + left by {
        EmployeesOfferingCons(xs, serviceId);
      }
      assert EmployeesOffering(xs[1..] + ys, serviceId) == left + right by {
        EmployeesOfferingSplit(xs[1..], ys, serviceId);
      }
      assert head + (left + right) == (head + left) + right;
    }
  }

  /** The filter takes its first employee or not, then filters the rest. */
  lemma EmployeesOfferingCons(xs: seq<Employee>, serviceId: string)
    requires xs != []
    ensures EmployeesOffering(xs, serviceId) ==
            (if OffersService(xs[0], serviceId) then [xs[0]] else []) + EmployeesOffering(xs[1..], serviceId)
  {
  }

  /** A single employee is kept exactly when they offer the service. */
  lemma EmployeesOfferingSingle(e: Employee, serviceId: string)
    ensures EmployeesOffering([e], serviceId) == if OffersService(e, serviceId) then [e] else []
  {
    assert [e][1..] == [];
  }

  /** One step of the `map` in `generateTimeSlots`: null, or the employee with the duration of the first matching entry. */
  function AsProfessional(e: Employee, serviceId: string): Option<Professional>
  {
    match FindOffer(e.services, serviceId)
    case None => None
    case Some(offer) => Some(Professional(e, offer.duration))
  }

  function EmployeesOf(ps: seq<Professional>): (es: seq<Employee>)
    ensures |es| == |ps| && forall i :: 0 <= i < |ps| ==> es[i] == ps[i].employee
  {
    if ps == [] then [] else [ps[0].employee] + EmployeesOf(ps[1..])
  }

  /**
   * `employees.map(...).filter(Boolean)`: the professionals who perform the
   * service, each carrying their own duration for it, in the employees' order.
   */
  function ProfessionalsFor(employees: seq<Employee>, serviceId: string): (ps: seq<Professional>)
  {
    if employees == [] then []
    else
      var rest := ProfessionalsFor(employees[1..], serviceId);
      match AsProfessional(employees[0], serviceId)
      case None => rest
      case Some(p) => [p] + rest
  }

  /** A professional is in the result exactly when some employee of the input maps to them. */
  lemma {:induction false} ProfessionalsForMembership(employees: seq<Employee>, serviceId: string)
    ensures forall p :: p in ProfessionalsFor(employees, serviceId) <==>
              exists e :: e in employees && AsProfessional(e, serviceId) == Some(p)
  {
    if employees != [] {
      ProfessionalsForMembership(employees[1..], serviceId);
      assert forall e :: e in employees <==> e == employees[0] || e in employees[1..];
    }
  }

  /**
   * `map(...).filter(Boolean)` keeps order and multiplicity: a concatenation
   * maps part by part (and `ProfessionalsForSingle` gives a single employee).
   */
  lemma {:induction false} ProfessionalsForSplit(xs: seq<Employee>, ys: seq<Employee>, serviceId: string)
    ensures ProfessionalsFor(xs + ys, serviceId) == ProfessionalsFor(xs, serviceId) + ProfessionalsFor(ys, serviceId)
  {
    if xs == [] {
      assert xs + ys == ys;
    } else {
      var head := match AsProfessional(xs[0], serviceId) case None => [] case Some(p) => [p];
      var left, right := ProfessionalsFor(xs[1..], serviceId), ProfessionalsFor(ys, serviceId);
      assert ProfessionalsFor(xs + ys, serviceId) == head + ProfessionalsFor(xs[1..] + ys, serviceId) by {
        ProfessionalsForCons(xs + ys, serviceId);
        assert (xs + ys)[0] == xs[0];
        assert (xs + ys)[1..] == xs[1..] + ys;
      }
      assert ProfessionalsFor(xs, serviceId) == head + left by {
        ProfessionalsForCons(xs, serviceId);
      }
      assert ProfessionalsFor(xs[1..] + ys, serviceId) == left + right by {
        ProfessionalsForSplit(xs[1..], ys, serviceId);
      }
      assert head + (left + right) == (head + left) + right;
    }
  }

  /** The map keeps the first employee's professional, if any, then maps the rest. */
  lemma ProfessionalsForCons(xs: seq<Employee>, serviceId: string)
    requires xs != []
    ensures ProfessionalsFor(xs, serviceId) ==
            (match AsProfessional(xs[0], serviceId) case None => [] case Some(p) => [p]) + ProfessionalsFor(xs[1..], serviceId)
  {
  }

  /** A single employee gives their professional, or nothing when they do not offer the service. */
  lemma ProfessionalsForSingle(e: Employee, serviceId: string)
    ensures ProfessionalsFor([e], serviceId) == match AsProfessional(e, serviceId)
                                               case None => []
                                               case Some(p) => [p]
  {
    assert [e][1..] == [];
  }

  /** The professionals are exactly the filtered employees, and each carries the duration of the first matching entry. */
  lemma {:induction false} ProfessionalsMatchFilter(employees: seq<Employee>, serviceId: string)
    ensures EmployeesOf(ProfessionalsFor(employees, serviceId)) == EmployeesOffering(employees, serviceId)
    ensures forall p :: p in ProfessionalsFor(employees, serviceId) ==>
              FindOffer(p.employee.services, serviceId) == Some(ServiceOffer(serviceId, p.serviceDuration))
  {
    if employees != [] {
      ProfessionalsMatchFilter(employees[1..], serviceId);
      var e := employees[0];
      var rest := ProfessionalsFor(employees[1..], serviceId);
      match AsProfessional(e, serviceId)
      case None =>
        assert !OffersService(e, serviceId);
      case Some(p) =>
        assert OffersService(e, serviceId);
        assert EmployeesOf([p] + rest) == [e] + EmployeesOf(rest);
    }
  }

  /** The employee is on leave: one of their ranges contains the day (`unavailable_dates.find(...)`). */
  predicate OnLeave(e: Employee, day: int)
  {
    exists i :: 0 <= i < |e.unavailableDates| && DateInRange(day, e.unavailableDates[i].dateStart, e.unavailableDates[i].dateEnd)
  }

  /** `unavailable_dates.find((range) => isDateInRange(...))`: the first leave range holding the day, if any. */
  function FindLeave(ranges: seq<UnavailableDate>, day: int): (r: Option<UnavailableDate>)
    ensures r.None? <==> forall i :: 0 <= i < |ranges| ==> !DateInRange(day, ranges[i].dateStart, ranges[i].dateEnd)
    ensures r.Some? ==> exists i :: 0 <= i < |ranges| && ranges[i] == r.value &&
                          DateInRange(day, r.value.dateStart, r.value.dateEnd) &&
                          forall j :: 0 <= j < i ==> !DateInRange(day, ranges[j].dateStart, ranges[j].dateEnd)
  {
    if ranges == [] then None
    else if DateInRange(day, ranges[0].dateStart, ranges[0].dateEnd) then Some(ranges[0])
    else
      var r := FindLeave(ranges[1..], day);
      assert forall i :: 1 <= i < |ranges| ==> ranges[i] == ranges[1..][i - 1];
      r
  }

  /** `if (unavailable) continue`: a found range is an object, so truthy; the professional is skipped exactly when on leave. */
  lemma OnLeaveIsFound(e: Employee, day: int)
    ensures OnLeave(e, day) <==> FindLeave(e.unavailableDates, day).Some?
  {
  }

  function WorkStart(e: Employee): Option<nat> { ToMinutes(e.workTime.start) }

  function WorkEnd(e: Employee): Option<nat> { ToMinutes(e.workTime.end) }
}
