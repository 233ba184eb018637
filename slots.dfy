/**
 * `generateTimeSlots`: the map from times to available professionals, filled
 * professional by professional, completed with the unavailable times and
 * returned sorted by minutes.
 *
 * The source keys its `Map` by the clock string `toTimeString(t)`. The model
 * keys it by the minutes `t` themselves: `toTimeString` is injective
 * (`Clock.TimeStringInjective`), so the two maps have the same entries in the
 * same insertion order, and the string is produced when an entry is output.
 */
module Slots {
  import opened Wrappers
  import opened Clock
  import opened Professionals
  import opened Occupancy
  import opened Grid

  /** The reason given for a time at which nobody is free. */
  const NoProfessional: string := "Nenhum profissional disponível"

  /** A value of `timeSlotMap`. */
  datatype SlotInfo = SlotInfo(available: bool, reason: Option<string>, professionalsAvailable: seq<ProfessionalRef>)

  /** One element of the result, `{ time, ...data }`. */
  datatype TimeSlot = TimeSlot(time: string, available: bool, reason: Option<string>, professionalsAvailable: seq<ProfessionalRef>)

  function Entry(time: string, info: SlotInfo): TimeSlot
  {
    TimeSlot(time, info.available, info.reason, info.professionalsAvailable)
  }

  /** What the map holds for time `t` once every professional is processed and the gaps are filled. */
  function InfoAt(ps: seq<Professional>, appts: seq<Appointment>, day: int, t: nat): SlotInfo
  {
    var listed := AvailableAt(ps, appts, day, t);
    if listed != [] then SlotInfo(true, None, listed) else SlotInfo(false, Some(NoProfessional), [])
  }

  /** The result element for time `t`. */
  function SlotAt(ps: seq<Professional>, appts: seq<Appointment>, day: int, t: nat): TimeSlot
  {
    Entry(ToTimeString(t), InfoAt(ps, appts, day, t))
  }

  /** The minutes of a result element, as the final sort reads them. */
  function MinuteOf(s: TimeSlot): nat
  {
    KeyMinute(s.time)
  }

  /** Every element is either available with professionals and no reason, or unavailable with the reason and nobody. */
  predicate Partitioned(s: TimeSlot)
  {
    || (s.available && s.reason == None && s.professionalsAvailable != [])
    || (!s.available && s.reason == Some(NoProfessional) && s.professionalsAvailable == [])
  }

  // ----- the Map, as the loops see it -----

  ghost predicate Distinct(xs: seq<nat>)
  {
    forall i, j :: 0 <= i < j < |xs| ==> xs[i] != xs[j]
  }

  /** `order` lists the keys of `table` once each, in insertion order, as a JavaScript `Map` keeps them. */
  ghost predicate OrderMatches(table: map<nat, SlotInfo>, order: seq<nat>)
  {
    Distinct(order) && forall t :: t in table <==> t in order
  }

  /** The map holds exactly the times at which `listed` is non-empty, each marked available with that list. */
  ghost predicate Tracks(table: map<nat, SlotInfo>, order: seq<nat>, listed: nat -> seq<ProfessionalRef>)
  {
    && OrderMatches(table, order)
    && (forall t: nat :: t in table <==> listed(t) != [])
    && (forall t :: t in table ==> table[t] == SlotInfo(true, None, listed(t)))
  }

  lemma TracksSame(table: map<nat, SlotInfo>, order: seq<nat>, f: nat -> seq<ProfessionalRef>, g: nat -> seq<ProfessionalRef>)
    requires Tracks(table, order, f)
    requires forall t: nat :: f(t) == g(t)
    ensures Tracks(table, order, g)
  {
  }

  /** The professionals listed at `t` while the starts below `bound` have seen one more professional. */
  ghost function Expected(before: seq<Professional>, after: seq<Professional>, bound: int,
                          appts: seq<Appointment>, day: int, t: nat): seq<ProfessionalRef>
  {
    if t < bound then AvailableAt(after, appts, day, t) else AvailableAt(before, appts, day, t)
  }

  /**
   * The free branch of the slot loop: recording professional `r` as free at `t` creates the entry
   * or appends to it, and keeps the map in step with the list that gained `r`.
   */
  lemma {:induction false} RecordKeepsTracks(table: map<nat, SlotInfo>, order: seq<nat>,
                                             f: nat -> seq<ProfessionalRef>, g: nat -> seq<ProfessionalRef>,
                                             t: nat, r: ProfessionalRef)
    requires Tracks(table, order, f)
    requires forall x: nat :: x != t ==> g(x) == f(x)
    requires g(t) == f(t) + [r]
    ensures t !in table ==> Tracks(table[t := SlotInfo(true, None, [r])], order + [t], g)
    ensures t in table ==>
              Tracks(table[t := table[t].(available := true, reason := None,
                                          professionalsAvailable := table[t].professionalsAvailable + [r])], order, g)
  {
    if t !in table {
      assert f(t) == [];
      assert t !in order;
    }
  }

  /** A professional on leave, or without a grid, adds nobody to any list. */
  lemma IdleAddsNobody(done: seq<Professional>, p: Professional, appts: seq<Appointment>, day: int)
    requires OnLeave(p.employee, day) || CandidateStarts(p) == []
    ensures forall x: nat :: AvailableAt(done + [p], appts, day, x) == AvailableAt(done, appts, day, x)
  {
    forall x: nat ensures AvailableAt(done + [p], appts, day, x) == AvailableAt(done, appts, day, x) {
      AvailableAtSnoc(done, p, appts, day, x);
    }
  }

  /** Before the first start nothing has changed; after the last, the new professional is counted everywhere. */
  lemma ExpectedAtEnds(done: seq<Professional>, p: Professional, appts: seq<Appointment>, day: int,
                       visited: seq<nat>, t: nat, we: int)
    requires CandidateStarts(p) == visited + Starts(t, we, p.serviceDuration)
    requires forall x :: x in visited ==> x < t
    ensures visited == [] ==>
              forall x: nat :: Expected(done, done + [p], t, appts, day, x) == AvailableAt(done, appts, day, x)
    ensures Starts(t, we, p.serviceDuration) == [] ==>
              forall x: nat :: Expected(done, done + [p], t, appts, day, x) == AvailableAt(done + [p], appts, day, x)
  {
    forall x: nat ensures x < t ==> Expected(done, done + [p], t, appts, day, x) == AvailableAt(done + [p], appts, day, x)
                  ensures x >= t ==> Expected(done, done + [p], t, appts, day, x) == AvailableAt(done, appts, day, x)
                  ensures visited == [] || Starts(t, we, p.serviceDuration) == [] ==>
                            AvailableAt(done + [p], appts, day, x) ==
                            AvailableAt(done, appts, day, x) + (if FreeForSlot(p, appts, day, x) then [Ref(p)] else [])
    {
      AvailableAtSnoc(done, p, appts, day, x);
      if x in Starts(t, we, p.serviceDuration) {
        StartsLower(t, we, p.serviceDuration, x);
      }
    }
    if visited == [] {
      forall x: nat | x < t ensures !FreeForSlot(p, appts, day, x) {
        if x in Starts(t, we, p.serviceDuration) {
          StartsLower(t, we, p.serviceDuration, x);
        }
      }
    }
  }

  /** One step of the slot loop at start `t`: only the list at `t` can change, and it gains `p` exactly when they are free there. */
  lemma ExpectedStep(done: seq<Professional>, p: Professional, appts: seq<Appointment>, day: int,
                     visited: seq<nat>, t: nat, we: int)
    requires p.serviceDuration > 0 && t + p.serviceDuration <= we
    requires CandidateStarts(p) == visited + Starts(t, we, p.serviceDuration)
    requires forall x :: x in visited ==> x < t
    ensures forall x: nat :: x != t ==>
              Expected(done, done + [p], t + p.serviceDuration, appts, day, x) == Expected(done, done + [p], t, appts, day, x)
    ensures Expected(done, done + [p], t + p.serviceDuration, appts, day, t) ==
              Expected(done, done + [p], t, appts, day, t) + (if FreeForSlot(p, appts, day, t) then [Ref(p)] else [])
    ensures CandidateStarts(p) == (visited + [t]) + Starts(t + p.serviceDuration, we, p.serviceDuration)
  {
    StartsStep(CandidateStarts(p), visited, t, we, p.serviceDuration);
    forall x: nat
      ensures AvailableAt(done + [p], appts, day, x) ==
                AvailableAt(done, appts, day, x) + (if FreeForSlot(p, appts, day, x) then [Ref(p)] else [])
    {
      AvailableAtSnoc(done, p, appts, day, x);
    }
  }

  /**
   * The body of `for (const pro of professionals)`: skip a professional on
   * leave; build their occupied intervals; visit every start of their grid and
   * record them as available wherever the slot is free.
   */
  method MarkProfessional(table: map<nat, SlotInfo>, order: seq<nat>, ghost done: seq<Professional>,
                          p: Professional, appts: seq<Appointment>, day: int)
    returns (table': map<nat, SlotInfo>, order': seq<nat>)
    requires Terminates(p)
    requires Tracks(table, order, (t: nat) => AvailableAt(done, appts, day, t))
    ensures Tracks(table', order', (t: nat) => AvailableAt(done + [p], appts, day, t))
  {
    table', order' := table, order;
    if OnLeave(p.employee, day) {
      IdleAddsNobody(done, p, appts, day);
      TracksSame(table, order, (t: nat) => AvailableAt(done, appts, day, t), (t: nat) => AvailableAt(done + [p], appts, day, t));
      return;
    }
    var ws, we := WorkStart(p.employee), WorkEnd(p.employee);
    var ranges := OccupiedIntervals(p.employee, appts, day);
    if ws.Some? && we.Some? {
      table', order' := VisitStarts(table, order, done, p, appts, day, ranges, ws.value, we.value);
    } else {
      IdleAddsNobody(done, p, appts, day);
      TracksSame(table, order, (t: nat) => AvailableAt(done, appts, day, t), (t: nat) => AvailableAt(done + [p], appts, day, t));
    }
  }

  /**
   * The slot loop `for (t = ws; t + d <= we; t += d)` of a
   * professional not on leave: every start whose slot meets no occupied
   * interval records the professional.
   */
  method VisitStarts(table: map<nat, SlotInfo>, order: seq<nat>, ghost done: seq<Professional>,
                     p: Professional, appts: seq<Appointment>, day: int, ranges: seq<Interval>, ws: nat, we: nat)
    returns (table': map<nat, SlotInfo>, order': seq<nat>)
    requires !OnLeave(p.employee, day) && ranges == Occupied(p.employee, appts, day)
    requires CandidateStarts(p) == Starts(ws, we, p.serviceDuration) && LoopEnds(ws, we, p.serviceDuration)
    requires Tracks(table, order, (t: nat) => AvailableAt(done, appts, day, t))
    ensures Tracks(table', order', (t: nat) => AvailableAt(done + [p], appts, day, t))
  {
    var d := p.serviceDuration;
    table', order' := table, order;
    var t := ws;
    ghost var visited: seq<nat> := [];
    ExpectedAtEnds(done, p, appts, day, visited, t, we);
    TracksSame(table, order, (x: nat) => AvailableAt(done, appts, day, x), (x: nat) => Expected(done, done + [p], t, appts, day, x));
    while t + d <= we
      invariant LoopEnds(t, we, d)
      invariant CandidateStarts(p) == visited + Starts(t, we, d)
      invariant forall x :: x in visited ==> x < t
      invariant Tracks(table', order', (x: nat) => Expected(done, done + [p], t, appts, day, x))
      decreases we - t
    {
      table', order' := VisitStart(table', order', done, p, appts, day, ranges, visited, t, we);
      visited := visited + [t];
      t := t + d;
    }
    ExpectedAtEnds(done, p, appts, day, visited, t, we);
    TracksSame(table', order', (x: nat) => Expected(done, done + [p], t, appts, day, x), (x: nat) => AvailableAt(done + [p], appts, day, x));
  }

  /** At a start of the grid of a professional not on leave, the slot is free exactly when it meets no occupied interval. */
  lemma StartFree(p: Professional, appts: seq<Appointment>, day: int, visited: seq<nat>, t: nat, we: int)
    requires !OnLeave(p.employee, day)
    requires p.serviceDuration > 0 && t + p.serviceDuration <= we
    requires CandidateStarts(p) == visited + Starts(t, we, p.serviceDuration)
    ensures FreeForSlot(p, appts, day, t) <==> !SlotConflict(t, p.serviceDuration, Occupied(p.employee, appts, day))
  {
    assert Starts(t, we, p.serviceDuration)[0] == t;
  }

  /** One turn of the slot loop at start `t`: record `p` there when the slot meets no occupied interval. */
  method VisitStart(table: map<nat, SlotInfo>, order: seq<nat>, ghost done: seq<Professional>,
                    p: Professional, appts: seq<Appointment>, day: int, ranges: seq<Interval>,
                    ghost visited: seq<nat>, t: nat, we: nat)
    returns (table': map<nat, SlotInfo>, order': seq<nat>)
    requires !OnLeave(p.employee, day) && ranges == Occupied(p.employee, appts, day)
    requires p.serviceDuration > 0 && t + p.serviceDuration <= we
    requires CandidateStarts(p) == visited + Starts(t, we, p.serviceDuration)
    requires forall x :: x in visited ==> x < t
    requires Tracks(table, order, (x: nat) => Expected(done, done + [p], t, appts, day, x))
    ensures Tracks(table', order', (x: nat) => Expected(done, done + [p], t + p.serviceDuration, appts, day, x))
    ensures CandidateStarts(p) == (visited + [t]) + Starts(t + p.serviceDuration, we, p.serviceDuration)
  {
    StartsStep(CandidateStarts(p), visited, t, we, p.serviceDuration);
    if !SlotConflict(t, p.serviceDuration, ranges) {
      FreeStartRecords(table, order, done, p, appts, day, visited, t, we);
      if t !in table {
        table' := table[t := SlotInfo(true, None, [Ref(p)])];
        order' := order + [t];
      } else {
        var existing := table[t];
        table' := table[t := existing.(available := true, reason := None,
                                       professionalsAvailable := existing.professionalsAvailable + [Ref(p)])];
        order' := order;
      }
    } else {
      BusyStartSkips(table, order, done, p, appts, day, visited, t, we);
      table', order' := table, order;
    }
  }

  /** At a free start, creating or extending the entry for `t` moves the map one start further. */
  lemma FreeStartRecords(table: map<nat, SlotInfo>, order: seq<nat>, done: seq<Professional>,
                         p: Professional, appts: seq<Appointment>, day: int, visited: seq<nat>, t: nat, we: nat)
    requires !OnLeave(p.employee, day) && !SlotConflict(t, p.serviceDuration, Occupied(p.employee, appts, day))
    requires p.serviceDuration > 0 && t + p.serviceDuration <= we
    requires CandidateStarts(p) == visited + Starts(t, we, p.serviceDuration)
    requires forall x :: x in visited ==> x < t
    requires Tracks(table, order, (x: nat) => Expected(done, done + [p], t, appts, day, x))
    ensures t !in table ==>
              Tracks(table[t := SlotInfo(true, None, [Ref(p)])], order + [t],
                     (x: nat) => Expected(done, done + [p], t + p.serviceDuration, appts, day, x))
    ensures t in table ==>
              Tracks(table[t := table[t].(available := true, reason := None,
                                          professionalsAvailable := table[t].professionalsAvailable + [Ref(p)])], order,
                     (x: nat) => Expected(done, done + [p], t + p.serviceDuration, appts, day, x))
  {
    ExpectedStep(done, p, appts, day, visited, t, we);
    StartFree(p, appts, day, visited, t, we);
    RecordKeepsTracks(table, order, (x: nat) => Expected(done, done + [p], t, appts, day, x),
                      (x: nat) => Expected(done, done + [p], t + p.serviceDuration, appts, day, x), t, Ref(p));
  }

  /** At a start whose slot meets an occupied interval, the map already matches one start further. */
  lemma BusyStartSkips(table: map<nat, SlotInfo>, order: seq<nat>, done: seq<Professional>,
                       p: Professional, appts: seq<Appointment>, day: int, visited: seq<nat>, t: nat, we: nat)
    requires SlotConflict(t, p.serviceDuration, Occupied(p.employee, appts, day))
    requires p.serviceDuration > 0 && t + p.serviceDuration <= we
    requires CandidateStarts(p) == visited + Starts(t, we, p.serviceDuration)
    requires forall x :: x in visited ==> x < t
    requires Tracks(table, order, (x: nat) => Expected(done, done + [p], t, appts, day, x))
    ensures Tracks(table, order, (x: nat) => Expected(done, done + [p], t + p.serviceDuration, appts, day, x))
  {
    ExpectedStep(done, p, appts, day, visited, t, we);
    TracksSame(table, order, (x: nat) => Expected(done, done + [p], t, appts, day, x),
               (x: nat) => Expected(done, done + [p], t + p.serviceDuration, appts, day, x));
  }

  // ----- completing, sorting and printing the map -----

  /** `Array.from(new Set(xs))`: the first occurrence of every element, in order. */
  function Unique(xs: seq<nat>): seq<nat>
  {
    if xs == [] then []
    else
      var u := Unique(xs[..|xs| - 1]);
      if xs[|xs| - 1] in u then u else u + [xs[|xs| - 1]]
  }

  /** `Unique` keeps every element and repeats none. */
  lemma {:induction false} UniqueFacts(xs: seq<nat>)
    ensures forall x :: x in Unique(xs) <==> x in xs
    ensures Distinct(Unique(xs))
  {
    if xs != [] {
      var init, last := xs[..|xs| - 1], xs[|xs| - 1];
      assert xs == init + [last];
      UniqueFacts(init);
    }
  }

  /** What the filling loop over `allSlots` stores for a time nobody is free at. */
  const Unavailable: SlotInfo := SlotInfo(false, Some(NoProfessional), [])

  /** The elements of `all` that are not keys of `table`, in order. */
  function Missing(table: map<nat, SlotInfo>, all: seq<nat>): seq<nat>
  {
    if all == [] then []
    else Missing(table, all[..|all| - 1]) + (if all[|all| - 1] in table then [] else [all[|all| - 1]])
  }

  lemma {:induction false} MissingMembership(table: map<nat, SlotInfo>, all: seq<nat>, x: nat)
    ensures x in Missing(table, all) <==> x in all && x !in table
  {
    if all != [] {
      var init, last := all[..|all| - 1], all[|all| - 1];
      assert all == init + [last];
      MissingMembership(table, init, x);
    }
  }

  /** The filling loop over `allSlots`: every time of `all` the map lacks is added as unavailable, at the end and once; the rest is untouched. */
  method FillUnavailable(table: map<nat, SlotInfo>, order: seq<nat>, all: seq<nat>)
    returns (table': map<nat, SlotInfo>, order': seq<nat>)
    ensures forall t :: t in table' <==> t in table || t in all
    ensures forall t :: t in table' ==> table'[t] == if t in table then table[t] else Unavailable
    ensures order' == order + Unique(Missing(table, all))
  {
    table', order' := table, order;
    assert all[..0] == [] && order + [] == order;
    for i := 0 to |all|
      invariant forall t :: t in table' <==> t in table || t in all[..i]
      invariant forall t :: t in table' ==> table'[t] == if t in table then table[t] else Unavailable
      invariant order' == order + Unique(Missing(table, all[..i]))
    {
      table', order' := FillOne(table, order, all, i, table', order');
    }
    assert all[..|all|] == all;
  }

  /** One turn of the filling loop: the time `all[i]` is added as unavailable unless the map has it. */
  method FillOne(table: map<nat, SlotInfo>, order: seq<nat>, all: seq<nat>, i: nat,
                 current: map<nat, SlotInfo>, currentOrder: seq<nat>)
    returns (table': map<nat, SlotInfo>, order': seq<nat>)
    requires i < |all|
    requires forall t :: t in current <==> t in table || t in all[..i]
    requires forall t :: t in current ==> current[t] == if t in table then table[t] else Unavailable
    requires currentOrder == order + Unique(Missing(table, all[..i]))
    ensures forall t :: t in table' <==> t in table || t in all[..i + 1]
    ensures forall t :: t in table' ==> table'[t] == if t in table then table[t] else Unavailable
    ensures order' == order + Unique(Missing(table, all[..i + 1]))
  {
    var t := all[i];
    PrefixMembership(all, i);
    FillOrderStep(table, order, all, i, currentOrder);
    table', order' := current, currentOrder;
    if t !in current {
      table' := current[t := Unavailable];
      order' := currentOrder + [t];
    }
  }

  /** The insertion order after one more turn of the filling loop. */
  lemma FillOrderStep(table: map<nat, SlotInfo>, order: seq<nat>, all: seq<nat>, i: nat, currentOrder: seq<nat>)
    requires i < |all|
    requires currentOrder == order + Unique(Missing(table, all[..i]))
    ensures all[i] in table || all[i] in all[..i] ==> currentOrder == order + Unique(Missing(table, all[..i + 1]))
    ensures !(all[i] in table || all[i] in all[..i]) ==> currentOrder + [all[i]] == order + Unique(Missing(table, all[..i + 1]))
  {
    FillStep(table, all, i);
    var added := Unique(Missing(table, all[..i]));
    assert (order + added) + [all[i]] == order + (added + [all[i]]);
  }

  /** The keys appended by `FillUnavailable` keep the insertion order in step with the completed map. */
  lemma FilledKeysMatch(table: map<nat, SlotInfo>, order: seq<nat>, all: seq<nat>, table': map<nat, SlotInfo>)
    requires OrderMatches(table, order)
    requires forall t :: t in table' <==> t in table || t in all
    ensures OrderMatches(table', order + Unique(Missing(table, all)))
  {
    forall x: nat ensures x in Missing(table, all) <==> x in all && x !in table {
      MissingMembership(table, all, x);
    }
    UniqueFacts(Missing(table, all));
    AppendedKeysMatch(table, order, Unique(Missing(table, all)), table');
  }

  /** Appending keys the map did not have, each once, keeps the insertion order in step with the grown map. */
  lemma AppendedKeysMatch(table: map<nat, SlotInfo>, order: seq<nat>, added: seq<nat>, table': map<nat, SlotInfo>)
    requires OrderMatches(table, order)
    requires Distinct(added) && forall t :: t in added ==> t !in table
    requires forall t :: t in table' <==> t in table || t in added
    ensures OrderMatches(table', order + added)
  {
    var o := order + added;
    forall i, j | 0 <= i < j < |o| ensures o[i] != o[j] {
      if i < |order| && j >= |order| {
        assert o[i] in order && o[j] in added;
      }
    }
  }

  lemma PrefixMembership(all: seq<nat>, i: nat)
    requires i < |all|
    ensures forall x :: x in all[..i + 1] <==> x in all[..i] || x == all[i]
  {
    assert all[..i + 1] == all[..i] + [all[i]];
  }

  /** How one more element of `all` extends the unique missing keys. */
  lemma FillStep(table: map<nat, SlotInfo>, all: seq<nat>, i: nat)
    requires i < |all|
    ensures Unique(Missing(table, all[..i + 1])) ==
              if all[i] in table || all[i] in all[..i] then Unique(Missing(table, all[..i]))
              else Unique(Missing(table, all[..i])) + [all[i]]
  {
    var xs, y := all[..i], all[i];
    assert all[..i + 1] == xs + [y];
    var m := Missing(table, xs);
    MissingSnoc(table, xs, y);
    if y in table {
      assert Missing(table, xs + [y]) == m;
    } else {
      assert Missing(table, xs + [y]) == m + [y];
      MissingMembership(table, xs, y);
      UniqueSnoc(m, y);
    }
  }

  lemma MissingSnoc(table: map<nat, SlotInfo>, xs: seq<nat>, y: nat)
    ensures y in table ==> Missing(table, xs + [y]) == Missing(table, xs)
    ensures y !in table ==> Missing(table, xs + [y]) == Missing(table, xs) + [y]
  {
    assert (xs + [y])[..|xs|] == xs;
    if y in table {
      assert Missing(table, xs) + [] == Missing(table, xs);
    }
  }

  lemma UniqueSnoc(xs: seq<nat>, y: nat)
    ensures Unique(xs + [y]) == if y in xs then Unique(xs) else Unique(xs) + [y]
  {
    assert (xs + [y])[..|xs|] == xs;
    UniqueFacts(xs);
  }

  predicate Ascending(xs: seq<nat>)
  {
    forall i, j :: 0 <= i < j < |xs| ==> xs[i] <= xs[j]
  }

  /** Inserts `x` in front of the first element not smaller than it. */
  function InsertByTime(x: nat, xs: seq<nat>): seq<nat>
  {
    if xs == [] || x <= xs[0] then [x] + xs else [xs[0]] + InsertByTime(x, xs[1..])
  }

  /**
   * The final `sort(([a], [b]) => toMinutes(a) - toMinutes(b))` of the map's
   * entries, on their keys (reading a printed key's minutes back gives the key,
   * `Clock.TimeStringRoundTrip`): an insertion sort.
   */
  function SortByTime(xs: seq<nat>): seq<nat>
  {
    if xs == [] then [] else InsertByTime(xs[0], SortByTime(xs[1..]))
  }

  /** Inserting adds exactly one occurrence of `x`. */
  lemma {:induction false} InsertPermutes(x: nat, xs: seq<nat>)
    ensures multiset(InsertByTime(x, xs)) == multiset(xs) + multiset{x}
  {
    if xs != [] && x > xs[0] {
      InsertPermutes(x, xs[1..]);
      assert xs == [xs[0]] + xs[1..];
    }
  }

  /** Inserting into an ascending sequence keeps it ascending. */
  lemma {:induction false} InsertAscending(x: nat, xs: seq<nat>)
    requires Ascending(xs)
    ensures Ascending(InsertByTime(x, xs))
  {
    if xs != [] && x > xs[0] {
      var head, tail := xs[0], xs[1..];
      InsertAscending(x, tail);
      InsertPermutes(x, tail);
      var rest := InsertByTime(x, tail);
      forall k | 0 <= k < |rest| ensures head <= rest[k] {
        assert rest[k] in multiset(rest);
        if rest[k] != x {
          assert rest[k] in tail;
        }
      }
    }
  }

  /** The sort returns an ascending permutation of the keys. */
  lemma {:induction false} SortSorts(xs: seq<nat>)
    ensures Ascending(SortByTime(xs))
    ensures multiset(SortByTime(xs)) == multiset(xs)
  {
    if xs != [] {
      SortSorts(xs[1..]);
      InsertAscending(xs[0], SortByTime(xs[1..]));
      InsertPermutes(xs[0], SortByTime(xs[1..]));
      assert xs == [xs[0]] + xs[1..];
    }
  }

  /** `.map(([time, data]) => ({ time, ...data }))` on the sorted keys. */
  function Output(table: map<nat, SlotInfo>, keys: seq<nat>): seq<TimeSlot>
    requires forall i :: 0 <= i < |keys| ==> keys[i] in table
  {
    seq(|keys|, i requires 0 <= i < |keys| => Entry(ToTimeString(keys[i]), table[keys[i]]))
  }

  // ----- the reference result -----

  /** A set of times holding `y` has a smallest element (by descent from `y`). */
  lemma {:induction false} LeastExists(s: set<nat>, y: nat)
    requires y in s
    ensures exists m :: m in s && forall x :: x in s ==> m <= x
    decreases y
  {
    if exists z :: z in s && z < y {
      var z :| z in s && z < y;
      LeastExists(s, z);
    } else {
      assert forall x :: x in s ==> y <= x;
    }
  }

  /** The smallest element of a non-empty set of times. */
  ghost function Least(s: set<nat>): (m: nat)
    requires s != {}
    ensures m in s && forall x :: x in s ==> m <= x
  {
    var y :| y in s;
    LeastExists(s, y);
    var m :| m in s && forall x :: x in s ==> m <= x;
    m
  }

  /** The elements of a finite set of times in strictly ascending order. */
  ghost function SortedTimes(s: set<nat>): (r: seq<nat>)
    ensures forall x :: x in r <==> x in s
    ensures forall i, j :: 0 <= i < j < |r| ==> r[i] < r[j]
    decreases |s|
  {
    if s == {} then []
    else
      var m := Least(s);
      var rest := SortedTimes(s - {m});
      assert forall i :: 0 <= i < |rest| ==> m < rest[i] by {
        forall i | 0 <= i < |rest| ensures m < rest[i] {
          assert rest[i] in rest;
        }
      }
      [m] + rest
  }

  /** A strictly ascending listing of a set is its `SortedTimes`. */
  lemma {:induction false} SortedTimesUnique(xs: seq<nat>, s: set<nat>)
    requires StrictlyAscending(xs)
    requires forall x :: x in xs <==> x in s
    ensures xs == SortedTimes(s)
    decreases |s|
  {
    if xs == [] {
      assert s == {};
    } else {
      assert xs[0] in s;
      ListingHead(xs, s);
      var m, tail := xs[0], xs[1..];
      SortedTimesUnique(tail, s - {m});
      assert xs == [m] + tail;
    }
  }

  /** The first element of a strictly ascending listing is the least, and the rest lists the others. */
  lemma ListingHead(xs: seq<nat>, s: set<nat>)
    requires xs != [] && StrictlyAscending(xs)
    requires forall x :: x in xs <==> x in s
    ensures s != {} && xs[0] == Least(s)
    ensures StrictlyAscending(xs[1..])
    ensures forall x :: x in xs[1..] <==> x in s - {xs[0]}
  {
    assert xs[0] in xs;
    var m := Least(s);
    assert m in xs;
    var tail := xs[1..];
    forall x ensures x in tail <==> x in s - {xs[0]} {
      if x in tail {
        var j :| 0 <= j < |tail| && tail[j] == x;
        assert xs[j + 1] == x;
      }
      if x in s - {xs[0]} {
        var j :| 0 <= j < |xs| && xs[j] == x;
        assert tail[j - 1] == x;
      }
    }
  }

  /** The result the source promises: one element per candidate time, in ascending order. */
  function SlotsAt(ps: seq<Professional>, appts: seq<Appointment>, day: int, ts: seq<nat>): seq<TimeSlot>
  {
    seq(|ts|, i requires 0 <= i < |ts| => SlotAt(ps, appts, day, ts[i]))
  }

  // ----- generateTimeSlots -----

  /** The map once every professional is processed and the gaps are filled: one entry per candidate time, holding `InfoAt`. */
  ghost predicate Completed(table: map<nat, SlotInfo>, order: seq<nat>, ps: seq<Professional>, appts: seq<Appointment>, day: int)
  {
    && OrderMatches(table, order)
    && (forall t :: t in table <==> t in CandidateTimes(ps))
    && (forall t :: t in table ==> table[t] == InfoAt(ps, appts, day, t))
  }

  /** Filling the candidate times into the map of listed professionals completes it. */
  lemma FilledIsCompleted(ps: seq<Professional>, appts: seq<Appointment>, day: int,
                          table: map<nat, SlotInfo>, order: seq<nat>, table': map<nat, SlotInfo>)
    requires Tracks(table, order, (t: nat) => AvailableAt(ps, appts, day, t))
    requires forall t :: t in table' <==> t in table || t in Unique(FlatStarts(ps))
    requires forall t :: t in table' ==> table'[t] == if t in table then table[t] else Unavailable
    ensures Completed(table', order + Unique(Missing(table, Unique(FlatStarts(ps)))), ps, appts, day)
  {
    var all := Unique(FlatStarts(ps));
    UniqueFacts(FlatStarts(ps));
    FilledKeysMatch(table, order, all, table');
    forall t: nat
      ensures t in table' <==> t in CandidateTimes(ps)
      ensures t in table' ==> table'[t] == InfoAt(ps, appts, day, t)
    {
      FlatStartsMembership(ps, t);
      if AvailableAt(ps, appts, day, t) != [] {
        ListedIsCandidate(ps, appts, day, t);
        assert t in table;
      } else {
        assert t !in table;
      }
    }
  }

  predicate StrictlyAscending(xs: seq<nat>)
  {
    forall i, j :: 0 <= i < j < |xs| ==> xs[i] < xs[j]
  }

  /** Inserting a new element keeps a strictly ascending sequence strictly ascending. */
  lemma {:induction false} InsertStrict(x: nat, xs: seq<nat>)
    requires StrictlyAscending(xs) && x !in xs
    ensures StrictlyAscending(InsertByTime(x, xs))
  {
    if xs != [] && x > xs[0] {
      var head, tail := xs[0], xs[1..];
      assert xs == [head] + tail;
      InsertStrict(x, tail);
      InsertPermutes(x, tail);
      var rest := InsertByTime(x, tail);
      forall k | 0 <= k < |rest| ensures head < rest[k] {
        assert rest[k] in multiset(rest);
        if rest[k] != x {
          assert rest[k] in tail;
        }
      }
    }
  }

  /** Sorting keys that are all different gives a strictly ascending sequence of the same keys. */
  lemma {:induction false} SortStrict(xs: seq<nat>)
    requires Distinct(xs)
    ensures StrictlyAscending(SortByTime(xs))
    ensures forall x :: x in SortByTime(xs) <==> x in xs
  {
    SortSorts(xs);
    forall x ensures x in SortByTime(xs) <==> x in xs {
      assert x in SortByTime(xs) <==> x in multiset(SortByTime(xs));
      assert x in xs <==> x in multiset(xs);
    }
    if xs != [] {
      var tail := xs[1..];
      assert xs == [xs[0]] + tail;
      SortStrict(tail);
      assert xs[0] !in tail;
      InsertStrict(xs[0], SortByTime(tail));
    }
  }

  /** The printed entries of a completed map are the reference elements. */
  lemma OutputIsSlotsAt(table: map<nat, SlotInfo>, order: seq<nat>, ps: seq<Professional>, appts: seq<Appointment>, day: int,
                        keys: seq<nat>)
    requires Completed(table, order, ps, appts, day)
    requires forall i :: 0 <= i < |keys| ==> keys[i] in table
    ensures Output(table, keys) == SlotsAt(ps, appts, day, keys)
  {
  }

  /**
   * `generateTimeSlots` after its fetches: one element per
   * candidate time of the professionals offering the service, in ascending
   * order, each holding the professionals free for the slot starting there.
   */
  method GenerateTimeSlots(employees: seq<Employee>, appointments: seq<Appointment>, serviceId: string, day: int)
    returns (slots: seq<TimeSlot>)
    requires AllTerminate(ProfessionalsFor(employees, serviceId))
    ensures var ps := ProfessionalsFor(employees, serviceId);
            slots == SlotsAt(ps, appointments, day, SortedTimes(CandidateTimes(ps)))
  {
    var ps := ProfessionalsFor(employees, serviceId);
    var table: map<nat, SlotInfo> := map[];
    var order: seq<nat> := [];
    for i := 0 to |ps|
      invariant Tracks(table, order, (t: nat) => AvailableAt(ps[..i], appointments, day, t))
    {
      assert ps[..i + 1] == ps[..i] + [ps[i]];
      table, order := MarkProfessional(table, order, ps[..i], ps[i], appointments, day);
    }
    assert ps[..|ps|] == ps;
    var all := AllStarts(ps);
    var unique := Unique(all);
    ghost var (listedTable, listedOrder) := (table, order);
    table, order := FillUnavailable(table, order, unique);
    FilledIsCompleted(ps, appointments, day, listedTable, listedOrder, table);
    var sorted := SortByTime(order);
    SortStrict(order);
    SortedTimesUnique(sorted, CandidateTimes(ps));
    slots := Output(table, sorted);
    OutputIsSlotsAt(table, order, ps, appointments, day, sorted);
  }

  /**
   * What a caller of `generateTimeSlots` sees: the elements' times are the
   * candidate times, each once and in strictly ascending order; every element
   * lists exactly the professionals free for the slot at its time, is marked
   * available exactly when that list is non-empty, and carries the reason
   * exactly when it is not available.
   */
  lemma ResultShape(ps: seq<Professional>, appts: seq<Appointment>, day: int, slots: seq<TimeSlot>)
    requires slots == SlotsAt(ps, appts, day, SortedTimes(CandidateTimes(ps)))
    ensures forall i :: 0 <= i < |slots| ==> slots[i].time == ToTimeString(MinuteOf(slots[i]))
    ensures forall i :: 0 <= i < |slots| ==> slots[i].professionalsAvailable == AvailableAt(ps, appts, day, MinuteOf(slots[i]))
    ensures forall i :: 0 <= i < |slots| ==> (slots[i].available <==> slots[i].professionalsAvailable != [])
    ensures forall i :: 0 <= i < |slots| ==> Partitioned(slots[i])
    ensures forall i, j :: 0 <= i < j < |slots| ==> MinuteOf(slots[i]) < MinuteOf(slots[j])
    ensures forall t: nat :: t in CandidateTimes(ps) <==> exists i :: 0 <= i < |slots| && MinuteOf(slots[i]) == t
  {
    var ts := SortedTimes(CandidateTimes(ps));
    forall i | 0 <= i < |slots|
      ensures MinuteOf(slots[i]) == ts[i]
      ensures slots[i].time == ToTimeString(ts[i])
      ensures slots[i].professionalsAvailable == AvailableAt(ps, appts, day, ts[i])
      ensures slots[i].available <==> slots[i].professionalsAvailable != []
      ensures Partitioned(slots[i])
    {
      SlotShape(ps, appts, day, ts[i]);
    }
    forall t: nat | t in CandidateTimes(ps) ensures exists i :: 0 <= i < |slots| && MinuteOf(slots[i]) == t {
      var i :| 0 <= i < |ts| && ts[i] == t;
      assert MinuteOf(slots[i]) == t;
    }
  }

  /** The element for `t` reads back as `t`, and lists exactly the professionals free at `t`. */
  lemma SlotShape(ps: seq<Professional>, appts: seq<Appointment>, day: int, t: nat)
    ensures MinuteOf(SlotAt(ps, appts, day, t)) == t
    ensures SlotAt(ps, appts, day, t).time == ToTimeString(t)
    ensures SlotAt(ps, appts, day, t).professionalsAvailable == AvailableAt(ps, appts, day, t)
    ensures SlotAt(ps, appts, day, t).available <==> AvailableAt(ps, appts, day, t) != []
    ensures Partitioned(SlotAt(ps, appts, day, t))
  {
    TimeStringRoundTrip(t);
  }
}
