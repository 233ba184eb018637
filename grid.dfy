/**
 * The per-professional pieces of `generateTimeSlots`: the candidate start
 * times on the professional's duration grid, when a professional is free for
 * a slot, who is listed at a time, and the union of all candidate times.
 */
module Grid {
  import opened Wrappers
  import opened Clock
  import opened Professionals
  import opened Occupancy

  /**
   * The starts visited by `for (let t = ws; t + d <= we; t += d)`. That loop
   * never ends when d <= 0 and ws + d <= we; the function gives [] there and the
   * methods that run the loop exclude the case (`LoopEnds`).
   */
  function Starts(ws: nat, we: int, d: int): seq<nat>
    decreases if d > 0 then we - ws else 0
  {
    if d <= 0 || ws + d > we then [] else [ws] + Starts(ws + d, we, d)
  }

  /** The loop `for (t = ws; t + d <= we; t += d)` terminates. */
  predicate LoopEnds(ws: int, we: int, d: int)
  {
    d > 0 || ws + d > we
  }

  /**
   * Outside `LoopEnds` the loop never stops: after any number `k` of turns,
   * `t = ws + k * d` still passes the guard `t + d <= we`.
   */
  lemma {:induction false} GuardHoldsForever(ws: int, we: int, d: int, k: nat)
    requires !LoopEnds(ws, we, d)
    ensures (ws + k * d) + d <= we
  {
    if k > 0 {
      GuardHoldsForever(ws, we, d, k - 1);
      assert ws + k * d == (ws + (k - 1) * d) + d;
    }
  }

  lemma DivModUnique(a: int, d: int, q: int, r: int)
    requires d > 0 && 0 <= r < d && a == q * d + r
    ensures a % d == r
  {
    var q', r' := a / d, a % d;
    assert a == q' * d + r';
    if q > q' {
      assert q * d - q' * d == (q - q') * d;
      MulAtLeast(q - q', d);
    } else if q < q' {
      assert q' * d - q * d == (q' - q) * d;
      MulAtLeast(q' - q, d);
    }
  }

  lemma MulAtLeast(k: int, d: int)
    requires k >= 1 && d > 0
    ensures k * d >= d
  {
  }

  lemma ModStep(a: int, d: int)
    requires d > 0
    ensures (a + d) % d == a % d
  {
    assert a == (a / d) * d + a % d;
    assert a + d == (a / d + 1) * d + a % d;
    DivModUnique(a + d, d, a / d + 1, a % d);
  }

  /**
   * Slot bounds: a start is visited exactly when it lies on the duration grid
   * anchored at the window start and the whole slot fits in the window (no
   * partial trailing slot).
   */
  lemma {:induction false} StartsMembership(ws: nat, we: int, d: int, x: int)
    ensures x in Starts(ws, we, d) <==> d > 0 && ws <= x && x + d <= we && (x - ws) % d == 0
    decreases if d > 0 then we - ws else 0
  {
    if d > 0 && ws + d <= we {
      StartsMembership(ws + d, we, d, x);
      ModStep(x - ws - d, d);
      if ws < x < ws + d {
        DivModUnique(x - ws, d, 0, x - ws);
      }
    }
  }

  lemma {:induction false} StartsLower(ws: nat, we: int, d: int, x: int)
    requires x in Starts(ws, we, d)
    ensures ws <= x
    decreases if d > 0 then we - ws else 0
  {
    if x != ws {
      StartsLower(ws + d, we, d, x);
    }
  }

  /** The candidate starts of one professional (the slot loop of `generateTimeSlots` and its `allSlots` loop); none when the window does not parse. */
  function CandidateStarts(p: Professional): seq<nat>
  {
    match (WorkStart(p.employee), WorkEnd(p.employee))
    case (Some(ws), Some(we)) => Starts(ws, we, p.serviceDuration)
    case _ => []
  }

  /**
   * One turn of a slot loop at start `t`: `t` is the next start, and no start
   * lies strictly between `t` and `t + d`.
   */
  lemma StartsStep(cs: seq<nat>, visited: seq<nat>, t: nat, we: int, d: int)
    requires d > 0 && t + d <= we
    requires cs == visited + Starts(t, we, d)
    requires forall x :: x in visited ==> x < t
    ensures cs == (visited + [t]) + Starts(t + d, we, d)
    ensures t in cs
    ensures forall x :: t < x < t + d ==> x !in cs
  {
    assert Starts(t, we, d) == [t] + Starts(t + d, we, d);
    forall x | t < x < t + d ensures x !in cs {
      if x in Starts(t + d, we, d) {
        StartsLower(t + d, we, d, x);
      }
    }
  }

  /** The professional's slot loops terminate. */
  predicate Terminates(p: Professional)
  {
    match (WorkStart(p.employee), WorkEnd(p.employee))
    case (Some(ws), Some(we)) => LoopEnds(ws, we, p.serviceDuration)
    case _ => true
  }

  predicate AllTerminate(ps: seq<Professional>)
  {
    forall i :: 0 <= i < |ps| ==> Terminates(ps[i])
  }

  /** The slot starting at `t` lies on the professional's grid inside their window. */
  predicate OnGrid(p: Professional, t: int)
  {
    match (WorkStart(p.employee), WorkEnd(p.employee))
    case (Some(ws), Some(we)) =>
      var d := p.serviceDuration;
      d > 0 && ws <= t && t + d <= we && (t - ws) % d == 0
    case _ => false
  }

  /** The candidate starts are exactly the grid times of the professional's window. */
  lemma CandidateStartsOnGrid(p: Professional, t: int)
    ensures t in CandidateStarts(p) <==> OnGrid(p, t)
  {
    match (WorkStart(p.employee), WorkEnd(p.employee))
    case (Some(ws), Some(we)) => StartsMembership(ws, we, p.serviceDuration, t);
    case _ =>
  }

  /** The professional is listed at `t` (not on leave, the slot on the grid, and no occupied interval met). */
  predicate FreeForSlot(p: Professional, appts: seq<Appointment>, day: int, t: int)
  {
    && !OnLeave(p.employee, day)
    && t in CandidateStarts(p)
    && !SlotConflict(t, p.serviceDuration, Occupied(p.employee, appts, day))
  }

  /** `professionalsAvailable` at `t`: the professionals free for the slot, in processing order. */
  function AvailableAt(ps: seq<Professional>, appts: seq<Appointment>, day: int, t: int): seq<ProfessionalRef>
  {
    Chosen(ps, p => FreeForSlot(p, appts, day, t))
  }

  lemma AvailableAtSnoc(done: seq<Professional>, p: Professional, appts: seq<Appointment>, day: int, t: int)
    ensures AvailableAt(done + [p], appts, day, t) ==
            AvailableAt(done, appts, day, t) + (if FreeForSlot(p, appts, day, t) then [Ref(p)] else [])
  {
    ChosenSnoc(done, p, q => FreeForSlot(q, appts, day, t));
  }

  /** Who is listed at `t`: exactly the references of the professionals free for that slot. */
  lemma ListedIff(ps: seq<Professional>, appts: seq<Appointment>, day: int, t: int, r: ProfessionalRef)
    ensures r in AvailableAt(ps, appts, day, t) <==>
              exists i :: 0 <= i < |ps| && Ref(ps[i]) == r && FreeForSlot(ps[i], appts, day, t)
  {
    ChosenIff(ps, p => FreeForSlot(p, appts, day, t), r);
  }

  /** The union of the candidate starts of all the professionals, on leave or not (the `allSlots` flatMap). */
  function CandidateTimes(ps: seq<Professional>): set<nat>
  {
    if ps == [] then {}
    else
      var starts := CandidateStarts(ps[|ps| - 1]);
      CandidateTimes(ps[..|ps| - 1]) + set i | 0 <= i < |starts| :: starts[i]
  }

  /** The union of grids: a time is a candidate exactly when it is a candidate start of some professional. */
  lemma CandidateTimesIff(ps: seq<Professional>, t: nat)
    ensures t in CandidateTimes(ps) <==> exists i :: 0 <= i < |ps| && t in CandidateStarts(ps[i])
  {
    if t in CandidateTimes(ps) {
      var i := CandidateTimesSound(ps, t);
    }
    if exists i :: 0 <= i < |ps| && t in CandidateStarts(ps[i]) {
      var i :| 0 <= i < |ps| && t in CandidateStarts(ps[i]);
      CandidateTimesComplete(ps, i, t);
    }
  }

  lemma {:induction false} CandidateTimesSound(ps: seq<Professional>, t: nat) returns (i: nat)
    requires t in CandidateTimes(ps)
    ensures i < |ps| && t in CandidateStarts(ps[i])
  {
    var init, last := ps[..|ps| - 1], ps[|ps| - 1];
    var starts := CandidateStarts(last);
    if t in CandidateTimes(init) {
      i := CandidateTimesSound(init, t);
      assert ps[i] == init[i];
    } else {
      var j :| 0 <= j < |starts| && starts[j] == t;
      i := |ps| - 1;
    }
  }

  lemma {:induction false} CandidateTimesComplete(ps: seq<Professional>, i: nat, t: nat)
    requires i < |ps| && t in CandidateStarts(ps[i])
    ensures t in CandidateTimes(ps)
  {
    var init, last := ps[..|ps| - 1], ps[|ps| - 1];
    var starts := CandidateStarts(last);
    if i < |init| {
      assert init[i] == ps[i];
      CandidateTimesComplete(init, i, t);
    } else {
      var j :| 0 <= j < |starts| && starts[j] == t;
    }
  }

  /** Output times: a time is a candidate exactly when it lies on the grid of some professional, on leave or not. */
  lemma CandidateTimesOnGrid(ps: seq<Professional>, t: nat)
    ensures t in CandidateTimes(ps) <==> exists i :: 0 <= i < |ps| && OnGrid(ps[i], t)
  {
    CandidateTimesIff(ps, t);
    forall i | 0 <= i < |ps| ensures t in CandidateStarts(ps[i]) <==> OnGrid(ps[i], t) {
      CandidateStartsOnGrid(ps[i], t);
    }
  }

  /** A time at which anyone is listed is a candidate time. */
  lemma {:induction false} ListedIsCandidate(ps: seq<Professional>, appts: seq<Appointment>, day: int, t: nat)
    requires AvailableAt(ps, appts, day, t) != []
    ensures t in CandidateTimes(ps)
  {
    var init := ps[..|ps| - 1];
    if AvailableAt(init, appts, day, t) != [] {
      ListedIsCandidate(init, appts, day, t);
    }
  }

  /**
   * The `allSlots` callback: the candidate starts of one professional, in loop order.
   * The source pushes `toTimeString(t)`; the model keeps `t`, which that
   * string determines and is determined by (`Clock.TimeStringInjective`).
   * With a window end or start that is `NaN` the loop guard fails at once.
   */
  method GridStarts(p: Professional) returns (starts: seq<nat>)
    requires Terminates(p)
    ensures starts == CandidateStarts(p)
  {
    starts := [];
    var ws, we, d := WorkStart(p.employee), WorkEnd(p.employee), p.serviceDuration;
    if ws.Some? && we.Some? {
      var t := ws.value;
      while t + d <= we.value
        invariant LoopEnds(t, we.value, d)
        invariant Starts(ws.value, we.value, d) == starts + Starts(t, we.value, d)
        decreases we.value - t
      {
        starts := starts + [t];
        t := t + d;
      }
    }
  }

  /** `professionals.flatMap(...)`: every professional's starts, one after the other. */
  function FlatStarts(ps: seq<Professional>): seq<nat>
  {
    if ps == [] then [] else FlatStarts(ps[..|ps| - 1]) + CandidateStarts(ps[|ps| - 1])
  }

  /** The concatenated starts hold exactly the candidate times. */
  lemma {:induction false} FlatStartsMembership(ps: seq<Professional>, t: nat)
    ensures t in FlatStarts(ps) <==> t in CandidateTimes(ps)
  {
    if ps != [] {
      var init, starts := ps[..|ps| - 1], CandidateStarts(ps[|ps| - 1]);
      FlatStartsMembership(init, t);
      assert t in starts <==> t in (set i | 0 <= i < |starts| :: starts[i]);
    }
  }

  /**
   * The `allSlots` flatMap, its callback run professional by
   * professional.
   */
  method AllStarts(ps: seq<Professional>) returns (all: seq<nat>)
    requires AllTerminate(ps)
    ensures all == FlatStarts(ps)
  {
    all := [];
    for i := 0 to |ps|
      invariant all == FlatStarts(ps[..i])
    {
      var starts := GridStarts(ps[i]);
      assert ps[..i + 1][..i] == ps[..i];
      all := all + starts;
    }
    assert ps[..|ps|] == ps;
  }
}
