# Booking availability, modelled and proved in Dafny

This project models the availability engine of an online booking site for
service businesses (`src/utils/business.ts`). A customer picks a service and a
day. The engine then lists the start times of that day and, for each of them,
the professionals who can perform the service then. It also answers the
narrower question "who is free at this exact time?" and builds the list of
bookable days.

What is modelled:

- **Clock arithmetic** (`Clock`). `toMinutes` splits `"HH:MM"` at `':'` and
  reads both fields with `Number`. `toTimeString` prints the hours and the
  minutes zero-padded to two digits. The JavaScript runtime pieces they use
  (`split`, `Number` on digit strings, `String`, `padStart`) are written out.
  A field that is not a number gives `NaN`, which the model writes as `None`.
  `isDateInRange` is an inclusive test on day numbers.
- **Who offers the service** (`Professionals`). This is the filter of
  `getEmployeesService`, and the `map`/`filter` that pairs each employee with
  the duration of the first matching service entry.
- **Occupied intervals and conflict tests** (`Occupancy`). The blocked times
  and the non-canceled appointments of the day become half-open minute
  intervals. Entries whose time or duration is `NaN` are skipped. Slot
  generation tests interval overlap, so touching end points do not conflict.
  The lookup tests a single minute.
- **Slot grid** (`Grid`). A professional's starts are `ws, ws+d, ...` while
  `t + d <= we`. The candidate times are the union of the grids of every
  professional offering the service, including those on leave.
- **`generateTimeSlots`** (`Slots`). The time map is filled professional by
  professional. The candidate times nobody can take are then added as
  unavailable, and the entries are returned sorted by time.
  `GenerateTimeSlots` is proved equal to a reference value: one element per
  candidate time, in strictly ascending order, listing exactly the
  professionals free for that slot. `ResultShape` derives the promised
  shape: either available with a non-empty list and no reason, or
  unavailable with the reason `Nenhum profissional disponível` and nobody.
- **`getAvailableEmployees`** (`Lookup`). The chosen minute must lie in
  `[workStart, workEnd)` and inside no occupied interval. Anyone listed by the
  generator at a time is returned by the lookup at that time
  (`ListedAreReturned`). The converse fails, with a concrete counterexample
  (`PointFreeIsNotSlotFree`): the lookup tests one minute, not the whole slot.
- **`generateDates`** (`Dates`). At most 60 consecutive days, and none for a
  count of zero or less.

The source keys its time map by the printed string `toTimeString(t)`. The
model keys it by the minutes `t`. Printing is injective
(`Clock.TimeStringInjective`) and reading a printed time back gives its
minutes (`Clock.TimeStringRoundTrip`). So both maps have the same entries in
the same insertion order, and the final sort by `toMinutes` of the key is a
sort by the minutes. The string is produced when an entry is output.

The fetched records (employees, appointments) are parameters. The chosen day
is a day number, and so are the appointment dates and the leave ranges.

## Model

| member | source | states |
|---|---|---|
| Clock.ToMinutes | src/utils/business.ts:229-232 | definition of `toMinutes`: split at `':'`, read both fields with `Number`, give `h * 60 + m`, or `NaN` (none) when a field does not parse; its partners are `TimeStringRoundTrip` and `TimeStringParses` |
| Clock.ToTimeString | src/utils/business.ts:234-238 | definition of `toTimeString`: `String` of the hours and of the minutes, each padded to two digits, joined by `':'`; its partners are `TimeStringRoundTrip` and `TimeStringInjective` |
| Clock.DateInRange | src/utils/business.ts:240-248 | definition of `isDateInRange` on day numbers: both ends inclusive, and a range with an end that does not parse (an Invalid Date, so every comparison is false) holds no day; its partner is `DateInRangeInclusive` |
| Clock.DateInRangeInclusive | src/utils/business.ts:240-248 | a one-day range holds that day alone, and a range whose start lies after its end holds no day |
| Clock.Split | src/utils/business.ts:230 | definition of one-character `split`: the fields between the separators, in order, empty ones included; its partners are `SplitJoin`, `SplitFieldsFree`, `SplitAfterField` and `SplitWithoutSep` |
| Clock.Join | src/utils/business.ts:230 | definition of `parts.join(sep)`, used to state what `split` undoes; its partner is `SplitJoin` |
| Clock.ParseNumber | src/utils/business.ts:230 | definition of `Number` on a string: the decimal value of a digit string, 0 for the empty string, `NaN` (none) otherwise; its partners are `LeadingZeros`, `ZerosValue` and `NatToStringDigits` |
| Clock.DigitsValue | src/utils/business.ts:230 | definition of the decimal value of a digit string, most significant digit first, with the empty string 0; its partners are `LeadingZeros`, `ZerosValue` and `NatToStringDigits` |
| Clock.NatToString | src/utils/business.ts:235-236 | definition of `String` on a whole number: its decimal digits; its partner is `NatToStringDigits` |
| Clock.PadStart2 | src/utils/business.ts:235-236 | definition of `padStart(2, '0')`; its partner is `PadStart2Shape` |
| Clock.Field | src/utils/business.ts:235-236 | definition of one printed field, `String(n).padStart(2, '0')`; its partners are `FieldDigits` and `TimeStringParses` |
| Clock.KeyMinute | src/utils/business.ts:408 | definition of the sort key, `toMinutes` of a map key, with a key that does not parse read as 0; its partner is `KeyMinutePrinted` |
| Clock.KeyMinutePrinted | src/utils/business.ts:408 | the sort key of a printed time is that time, so sorting by `toMinutes` of the keys sorts by minutes |
| Clock.TimeStringRoundTrip | src/utils/business.ts:229-238 | for every minute count, `toMinutes(toTimeString(m))` is `m`, hours of 24 and above included |
| Clock.TimeStringInjective | src/utils/business.ts:234-238 | two minute counts that print the same are equal, so the string-keyed map and the minute-keyed map have the same entries |
| Clock.TimeStringParses | src/utils/business.ts:229-238 | two padded fields joined by `':'` split into exactly those two fields, which parse to `h * 60 + m` |
| Clock.SplitJoin | src/utils/business.ts:230 | joining the fields of `split(sep)` with `sep` gives back the string |
| Clock.SplitFieldsFree | src/utils/business.ts:230 | no field of `split(sep)` contains the separator |
| Clock.SplitAfterField | src/utils/business.ts:230 | a separator-free field followed by the separator is split off as the first field |
| Clock.SplitWithoutSep | src/utils/business.ts:230 | a string without the separator splits into itself alone |
| Clock.NatToStringDigits | src/utils/business.ts:235-236 | `String(n)` is a non-empty digit string whose decimal value is `n` |
| Clock.PadStart2Shape | src/utils/business.ts:235-236 | `padStart(2, '0')` has length at least two, ends with the original string and adds only zeros in front |
| Clock.LeadingZeros | src/utils/business.ts:229-238 | zeros in front of a digit string do not change its value, so `Number("09")` is 9 |
| Clock.ZerosValue | src/utils/business.ts:230 | a string of zeros, including the empty one, has the value 0 |
| Clock.FieldDigits | src/utils/business.ts:235-236 | a printed field is a digit string of length two or more whose value is the number printed |
| Professionals.FindOffer | src/utils/business.ts:264 | the result is none exactly when no entry names the service, and otherwise the first entry naming it |
| Professionals.AsProfessional | src/utils/business.ts:263-270 | definition of the `map` callback: null when no service entry matches, otherwise the employee with the duration of the first matching entry; its partners are `ProfessionalsFor` and `ProfessionalsMatchFilter` |
| Professionals.OffersService | src/utils/business.ts:102 | definition of `business_services.some(s => s.business_service_id === service_id)`; its partners are `EmployeesOfferingMembership` and `FindOffer` |
| Professionals.EmployeesOffering | src/utils/business.ts:102 | definition of the filter, keeping the employees that offer the service in input order, never more than the input; its partners are `EmployeesOfferingMembership`, `EmployeesOfferingSplit` and `EmployeesOfferingSingle` |
| Professionals.EmployeesOfferingMembership | src/utils/business.ts:102 | an employee is kept exactly when they are in the input and some service entry names the service |
| Professionals.EmployeesOfferingSplit | src/utils/business.ts:102 | filtering a concatenation is concatenating the filtered parts, so the filter keeps order and multiplicity |
| Professionals.EmployeesOfferingSingle | src/utils/business.ts:102 | a single employee is kept exactly when they offer the service |
| Professionals.EmployeesOfferingCons | src/utils/business.ts:102 | proof step: the filter takes its first employee or not, then filters the rest |
| Professionals.ProfessionalsFor | src/utils/business.ts:262-271 | definition of `map(...).filter(Boolean)`, keeping the non-null results in input order; its partners are `ProfessionalsForMembership`, `ProfessionalsForSplit`, `ProfessionalsForSingle` and `ProfessionalsMatchFilter` |
| Professionals.ProfessionalsForMembership | src/utils/business.ts:262-271 | a professional is in the result exactly when some employee maps to them (not null) |
| Professionals.ProfessionalsForSplit | src/utils/business.ts:262-271 | mapping and filtering a concatenation is concatenating the results of the parts, so order and multiplicity are kept |
| Professionals.ProfessionalsForSingle | src/utils/business.ts:262-271 | a single employee gives their professional, or nothing when `find` finds no matching entry |
| Professionals.ProfessionalsForCons | src/utils/business.ts:262-271 | proof step: the first employee's professional, if any, comes before the rest's |
| Professionals.ProfessionalsMatchFilter | src/utils/business.ts:262-271 | the professionals are exactly the employees kept by the service filter, in order, and each carries the duration of the first matching entry |
| Professionals.EmployeesOf | src/utils/business.ts:262-271 | the employees of the professionals, one per professional and in order |
| Professionals.OnLeave | src/utils/business.ts:288-289 | definition of the leave test: some leave range of the employee holds the day; its partner is `OnLeaveIsFound` |
| Professionals.FindLeave | src/utils/business.ts:288 | `unavailable_dates.find(...)` gives none exactly when no range holds the day, and otherwise the first range that holds it |
| Professionals.OnLeaveIsFound | src/utils/business.ts:288-289 | the professional is skipped (`if (unavailable) continue`) exactly when on leave, since a found range is always truthy |
| Professionals.WorkStart | src/utils/business.ts:291-292 | definition of `toMinutes(pro.work_time.start)`; its partner is `CandidateStartsOnGrid` |
| Professionals.WorkEnd | src/utils/business.ts:291-292 | definition of `toMinutes(pro.work_time.end)`; its partner is `CandidateStartsOnGrid` |
| Professionals.Ref | src/utils/business.ts:359 | definition of the pushed `{ id: pro.id, name: pro.name }` |
| Professionals.Chosen | src/utils/business.ts:504-506 | definition of a loop that pushes the reference of each visited professional passing a test, in visiting order; its partners are `ChosenIff` and `ChosenSnoc` |
| Professionals.ChosenIff | src/utils/business.ts:504-506 | a reference is pushed exactly when it belongs to a visited professional who passes the test |
| Professionals.ChosenSnoc | src/utils/business.ts:504-506 | proof step: visiting one more professional appends their reference exactly when they pass the test |
| Occupancy.BlockInterval | src/utils/business.ts:302-310 | definition: a blocked time gives `[start, start + duration)` when both its time and its duration parse, and nothing otherwise; its partner is `BlockIntervalsMembership` |
| Occupancy.AppointmentInterval | src/utils/business.ts:330-338 | definition: an appointment gives `[start, start + duration)` when both its time and its duration parse, and nothing otherwise; its partner is `AppointmentIntervalsMembership` |
| Occupancy.Occupies | src/utils/business.ts:318 | definition of the filter's test: that employee's, on that day, not canceled; its partner is `DayAppointmentsMembership` |
| Occupancy.DayAppointments | src/utils/business.ts:318 | definition of the `appointments.filter(...)`: that employee's, on that day, not canceled, in order; its partners are `DayAppointmentsMembership`, `DayAppointmentsSplit` and `CanceledIsIgnored` |
| Occupancy.Overlaps | src/utils/business.ts:352 | definition of the slot test: the slot does not end at or before the interval's start, nor start at or after its end; its partners are `OverlapIsSharedMinute` and `TouchingIsNoConflict` |
| Occupancy.Covers | src/utils/business.ts:501 | definition of the point test: the minute is neither before the interval's start nor at or after its end; its partner is `PointIsUnitSlot` |
| Occupancy.SlotConflict | src/utils/business.ts:352 | definition of a truthy `blockedRanges.find(...)` for a slot: some occupied interval overlaps it; its partners are `ConflictIgnoresOrder` and `OverlapIsSharedMinute` |
| Occupancy.PointConflict | src/utils/business.ts:501 | definition of a truthy `blockedRanges.find(...)` for a minute: some occupied interval covers it; its partners are `ConflictIgnoresOrder` and `PointIsUnitSlot` |
| Occupancy.BlockIntervals | src/utils/business.ts:301-311 | definition of the intervals the blocked-time loop pushes, in order, skipping entries that do not parse; its partner is `BlockIntervalsMembership` |
| Occupancy.AppointmentIntervals | src/utils/business.ts:329-339 | definition of the intervals the appointment loop pushes, in order, skipping entries that do not parse; its partner is `AppointmentIntervalsMembership` |
| Occupancy.Occupied | src/utils/business.ts:299-339 | definition of `blockedRanges`: the parsable blocks, then the parsable non-canceled appointments of the employee on the day, in order; its partners are `OccupiedIntervals` and `OccupiedMembership` |
| Occupancy.OccupiedIntervals | src/utils/business.ts:299-339 | the loops build exactly the occupied intervals: blocks first, then the day's appointments, in order, skipping `NaN` entries |
| Occupancy.OccupiedMembership | src/utils/business.ts:301-339 | an interval is occupied exactly when a parsable block, or a parsable non-canceled appointment of that employee on that day, gives it |
| Occupancy.BlockIntervalsMembership | src/utils/business.ts:301-311 | an interval comes from the blocks exactly when some block with a parsable time and duration gives it |
| Occupancy.AppointmentIntervalsMembership | src/utils/business.ts:329-339 | an interval comes from the appointments exactly when some parsable appointment gives it |
| Occupancy.DayAppointmentsMembership | src/utils/business.ts:318 | an appointment is kept exactly when it is that employee's, on that day and not canceled |
| Occupancy.DayAppointmentsSplit | src/utils/business.ts:318 | filtering a concatenation is concatenating the filtered parts |
| Occupancy.CanceledIsIgnored | src/utils/business.ts:318 | adding a canceled appointment anywhere changes no occupied interval |
| Occupancy.OverlapIsSharedMinute | src/utils/business.ts:352 | for a proper slot and interval, the conflict test holds exactly when some minute lies in both |
| Occupancy.TouchingIsNoConflict | src/utils/business.ts:352 | a slot ending where an interval starts, or starting where it ends, does not conflict with it |
| Occupancy.NineOClockExample | src/utils/business.ts:329-352 | a 30-minute appointment at 09:00 is [540, 570); it conflicts with the slot from 08:45 and not with the one from 09:30 |
| Occupancy.PointIsUnitSlot | src/utils/business.ts:501 | the lookup's point test is the slot test for a one-minute slot |
| Occupancy.ConflictIgnoresOrder | src/utils/business.ts:341-352 | whether a slot or a minute conflicts does not depend on the order of the intervals, so sorting them changes no answer |
| Grid.LoopEnds | src/utils/business.ts:344 | definition of when the slot loop terminates: a positive duration, or a first guard that already fails; its partners are `GuardHoldsForever` and `GridStarts` |
| Grid.Starts | src/utils/business.ts:344 | definition of the times `for (let t = ws; t + d <= we; t += d)` visits, where that loop ends; its partners are `StartsMembership`, `StartsLower`, `StartsStep` and `GridStarts` |
| Grid.GuardHoldsForever | src/utils/business.ts:344 | when `d <= 0` and `ws + d <= we` the loop never ends: after any number of turns the guard still holds |
| Grid.Terminates | src/utils/business.ts:379-386 | definition: the professional's slot loop terminates, or their window does not parse; its partners are `GridStarts` and `GuardHoldsForever` |
| Grid.AllTerminate | src/utils/business.ts:376-389 | definition: every professional's slot loop terminates; the requires of `GenerateTimeSlots` and `AllStarts` |
| Grid.StartsMembership | src/utils/business.ts:344 | `t` is a start of the loop exactly when `d > 0`, `ws <= t`, `t + d <= we` and `(t - ws) % d == 0` |
| Grid.StartsLower | src/utils/business.ts:344 | no start lies below the first |
| Grid.StartsStep | src/utils/business.ts:344 | one turn of the loop moves `t` from the remaining starts to the visited ones, and no start lies strictly between `t` and `t + d` |
| Grid.CandidateStarts | src/utils/business.ts:379-386 | definition of the starts of one professional's slot loop once the window parses, none otherwise; its partners are `CandidateStartsOnGrid` and `GridStarts` |
| Grid.OnGrid | src/utils/business.ts:344 | definition of `t` lying on the professional's grid inside a window that parses; its partners are `StartsMembership` and `CandidateStartsOnGrid` |
| Grid.CandidateStartsOnGrid | src/utils/business.ts:344 | `t` is a start of a professional exactly when their window parses and `t` lies on their grid |
| Grid.AvailableAt | src/utils/business.ts:355-366 | definition of `professionalsAvailable` at `t`: the references of the professionals free for the slot at `t`, in processing order; its partner is `ListedIff` |
| Grid.AvailableAtSnoc | src/utils/business.ts:355-366 | proof step: processing one more professional appends them to the list at `t` exactly when they are free for the slot at `t` |
| Grid.FreeForSlot | src/utils/business.ts:288-366 | definition of who is recorded at `t`: not on leave, `t` a start of their slot loop, and their slot meeting no occupied interval; its partners are `ListedIff` and `StartFree` |
| Grid.ListedIff | src/utils/business.ts:286-372 | a reference is listed at `t` exactly when it belongs to a professional who is not on leave, has `t` on their grid, and whose slot meets no occupied interval |
| Grid.CandidateTimes | src/utils/business.ts:376-389 | definition of the `allSlots` set: the union of the candidate starts of every professional, on leave or not; its partners are `CandidateTimesIff` and `FlatStartsMembership` |
| Grid.CandidateTimesIff | src/utils/business.ts:376-389 | a time is a candidate exactly when it is a start of some professional |
| Grid.CandidateTimesSound | src/utils/business.ts:376-389 | every candidate time is a start of some professional, whom the lemma returns |
| Grid.CandidateTimesComplete | src/utils/business.ts:376-389 | every start of every professional is a candidate time, on leave or not |
| Grid.CandidateTimesOnGrid | src/utils/business.ts:376-389 | a time is a candidate exactly when it lies on the grid of some professional |
| Grid.ListedIsCandidate | src/utils/business.ts:376-389 | a time at which anyone is listed is a candidate time |
| Grid.GridStarts | src/utils/business.ts:379-386 | the loop of one professional pushes exactly their starts, in order |
| Grid.FlatStarts | src/utils/business.ts:378-387 | definition of the `allSlots` `flatMap`: every professional's starts, one after the other; its partners are `FlatStartsMembership` and `AllStarts` |
| Grid.FlatStartsMembership | src/utils/business.ts:376-389 | a time is in the `flatMap` exactly when it is a candidate time |
| Grid.AllStarts | src/utils/business.ts:376-389 | the `flatMap` over the professionals gives their starts concatenated, in order |
| Slots.RecordKeepsTracks | src/utils/business.ts:355-368 | creating the entry for `t`, or appending to it, keeps the map equal to the lists that gained the professional at `t` |
| Slots.IdleAddsNobody | src/utils/business.ts:288-289 | a professional on leave, or with no start, adds nobody at any time |
| Slots.ExpectedAtEnds | src/utils/business.ts:344 | before the first start no list has changed; after the last start every list counts the new professional |
| Slots.ExpectedStep | src/utils/business.ts:344-372 | one turn at `t` changes only the list at `t`, which gains the professional exactly when they are free there |
| Slots.StartFree | src/utils/business.ts:352-355 | at a start of a professional not on leave, the slot is free exactly when it meets no occupied interval |
| Slots.FreeStartRecords | src/utils/business.ts:355-368 | at a free start, the new or extended entry puts the map one start further |
| Slots.BusyStartSkips | src/utils/business.ts:369-371 | at a start that conflicts, the unchanged map is already one start further |
| Slots.VisitStart | src/utils/business.ts:345-371 | one turn of the slot loop moves the map from the lists before `t` to the lists up to `t` |
| Slots.VisitStarts | src/utils/business.ts:343-372 | the slot loop of a professional not on leave turns a map of the lists without them into the lists with them |
| Slots.MarkProfessional | src/utils/business.ts:286-373 | one turn of the professional loop turns a map of the lists before the professional into the lists after them |
| Slots.Unique | src/utils/business.ts:376-377 | definition of `Array.from(new Set(xs))`: the first occurrence of each element, in order; its partners are `UniqueFacts` and `UniqueSnoc` |
| Slots.UniqueFacts | src/utils/business.ts:376-377 | `Array.from(new Set(xs))` keeps every element and repeats none |
| Slots.UniqueSnoc | src/utils/business.ts:376-377 | one more element is appended to the unique list exactly when it is new |
| Slots.Missing | src/utils/business.ts:395-396 | definition of the times of `allSlots` for which `!timeSlotMap.has(slot)` holds, in order; its partners are `MissingMembership` and `FillUnavailable` |
| Slots.MissingMembership | src/utils/business.ts:395-396 | a time is missing exactly when it is among all the times and not a key of the map |
| Slots.MissingSnoc | src/utils/business.ts:395-396 | proof step: one more time is appended to the missing ones exactly when the map lacks it |
| Slots.FillStep | src/utils/business.ts:395-403 | one more time adds itself to the keys being appended, unless the map or an earlier time already has it |
| Slots.FillOrderStep | src/utils/business.ts:395-403 | the insertion order after one more turn of the filling loop |
| Slots.FillOne | src/utils/business.ts:396-403 | one turn adds the time as unavailable exactly when the map lacks it, and leaves the other entries alone |
| Slots.FillUnavailable | src/utils/business.ts:395-404 | the map gains exactly the missing times, each unavailable and appended once in order, and its other entries are untouched |
| Slots.AppendedKeysMatch | src/utils/business.ts:395-404 | appending new keys once each keeps the insertion order listing every key exactly once |
| Slots.FilledKeysMatch | src/utils/business.ts:395-404 | after filling, the insertion order lists every key of the map exactly once |
| Slots.FilledIsCompleted | src/utils/business.ts:375-404 | after filling, the keys are exactly the candidate times, each holding available with its list or unavailable with nobody |
| Slots.SortByTime | src/utils/business.ts:407-408 | definition of the final sort, as an insertion sort on the keys; its partners are `SortSorts`, `SortStrict` and `SortedTimesUnique` |
| Slots.InsertByTime | src/utils/business.ts:407-408 | definition of one insertion step of the sort; its partners are `InsertPermutes`, `InsertAscending` and `InsertStrict` |
| Slots.InsertPermutes | src/utils/business.ts:407-408 | inserting adds exactly one occurrence of the key |
| Slots.InsertAscending | src/utils/business.ts:407-408 | inserting into an ascending list keeps it ascending |
| Slots.InsertStrict | src/utils/business.ts:407-408 | inserting a new key into a strictly ascending list keeps it strictly ascending |
| Slots.SortSorts | src/utils/business.ts:407-408 | the sort returns an ascending permutation of its input |
| Slots.SortStrict | src/utils/business.ts:407-408 | sorting distinct keys gives a strictly ascending list of the same keys |
| Slots.Entry | src/utils/business.ts:409 | definition of `{ time, ...data }` |
| Slots.InfoAt | src/utils/business.ts:355-403 | definition of the map entry at `t` after both loops: available with the listed professionals, or unavailable with the reason and nobody; its partners are `FilledIsCompleted` and `SlotShape` |
| Slots.SlotAt | src/utils/business.ts:409 | definition of the element printed from the entry at `t`; its partner is `SlotShape` |
| Slots.MinuteOf | src/utils/business.ts:408 | definition of an element's minutes as the sort reads them; its partners are `SlotShape` and `ResultShape` |
| Slots.Partitioned | src/utils/business.ts:357-401 | definition of the two shapes an entry takes: available with professionals and no reason, or unavailable with the reason and nobody; its partner is `ResultShape` |
| Slots.Output | src/utils/business.ts:409 | definition of the `.map` at the end: each sorted key printed and spread with its entry; the claim about it is `OutputIsSlotsAt` |
| Slots.OutputIsSlotsAt | src/utils/business.ts:407-409 | the printed entries of a completed map are the reference elements |
| Slots.LeastExists | src/utils/business.ts:406-408 | a set of times holding some time has a smallest element |
| Slots.Least | src/utils/business.ts:406-408 | the result belongs to the set and is at most every element of it |
| Slots.SortedTimes | src/utils/business.ts:406-408 | a listing of the set's elements in strictly ascending order |
| Slots.ListingHead | src/utils/business.ts:406-408 | the first element of a strictly ascending listing is the least, and the rest lists the others |
| Slots.SortedTimesUnique | src/utils/business.ts:406-408 | any strictly ascending listing of a set is its `SortedTimes`, so the sorted result is determined |
| Slots.SlotsAt | src/utils/business.ts:406-409 | definition of the reference list: one element per given time, holding the free professionals there; the claims about it are `GenerateTimeSlots`, `ResultShape` and `SlotShape` |
| Slots.GenerateTimeSlots | src/utils/business.ts:286-409 | the result is one element per candidate time in strictly ascending order, each holding exactly the professionals free for its slot |
| Slots.ResultShape | src/utils/business.ts:286-409 | every element is available with a non-empty list and no reason, or unavailable with the reason and nobody; its list is exactly the free professionals; the times ascend strictly and are exactly the candidate times |
| Slots.SlotShape | src/utils/business.ts:355-409 | the element for `t` prints `t`, reads back as `t`, and is available exactly when someone is free |
| Lookup.FreeAt | src/utils/business.ts:461-506 | definition of who the lookup returns: not on leave, the minute in `[workStart, workEnd)`, and no occupied interval covering it, with a `NaN` time or window end failing; its partners are `FreeProfessionalsIff` and `SlotFreeIsPointFree` |
| Lookup.FreeProfessionalsAt | src/utils/business.ts:456-510 | definition of `availableProfessionals`: the references of the professionals free at the chosen minute, in order; its partners are `FreeProfessionalsIff` and `GetAvailableEmployees` |
| Lookup.FreeProfessionalsIff | src/utils/business.ts:459-508 | a reference is returned exactly when it belongs to a professional who is not on leave, whose window contains the minute, and whose occupied intervals do not |
| Lookup.FreeProfessionalsSnoc | src/utils/business.ts:504-506 | proof step: visiting one more professional appends them exactly when they are free at the minute |
| Lookup.GetAvailableEmployees | src/utils/business.ts:440-510 | the loop returns exactly the free professionals, in order |
| Lookup.SlotFreeIsPointFree | src/utils/business.ts:469-501 | a professional free for the slot at a grid start is free at that minute |
| Lookup.ListedAreReturned | src/utils/business.ts:459-508 | everyone the generator lists at a time is returned by the lookup at that time |
| Lookup.BlockedAtQuarterPast | src/utils/business.ts:465-483 | definition of the example professional: 30-minute service, working 09:00-10:00, with a 30-minute block at 09:15; its partners are `QuarterPastWindow`, `QuarterPastBlock` and `PointFreeIsNotSlotFree` |
| Lookup.QuarterPastWindow | src/utils/business.ts:465-466 | the example professional works from minute 540 to minute 600 |
| Lookup.QuarterPastInterval | src/utils/business.ts:474-482 | a 30-minute block at 09:15 is the interval [555, 585) |
| Lookup.QuarterPastBlock | src/utils/business.ts:471-483 | the example professional's only occupied interval is [555, 585) |
| Lookup.PointFreeIsNotSlotFree | src/utils/business.ts:469-501 | the converse fails: working 09:00-10:00 with a block 09:15-09:45, a 30-minute service is free at 09:00 for the lookup but not as a slot |
| Dates.GenerateDates | src/utils/business.ts:175-187 | at most 60 dates, none for a count of zero or less, exactly `days` when it is at most 60, and the consecutive days from the start |

## Left out

- Appointment dates: the source matches an appointment to the chosen date by text (`appt.date === date`), while leave ranges go through `new Date` and a reset to midnight. The model compares day numbers in both places. So it does not capture that the source never matches an appointment whose date is written differently, such as `"2024-5-9"` or `"2024-05-09T00:00"` for `"2024-05-09"`.
- Service ids: the service filter compares `business_service_id === service_id`, and the map compares `String(..) === String(..)`. Both are one string equality in `Professionals.ProfessionalsMatchFilter`, which matches the declared types, where both ids are strings. Ids of other runtime types are not modelled.
- Fetching, `async`/`await`, `Promise.all`, the business lookup by slug and its early return of `[]`: the fetched records are parameters.
- Logging (`console.log`, `console.warn`, `console.error`) and the `try`/`catch` blocks around the fetches.
- The JavaScript `Date` parsing, the São Paulo timezone arithmetic and the labels `generateDates` formats: they depend on the host clock. Dates are day numbers.
- `Number` beyond the empty string and decimal digit strings. Signs, decimals, exponents and white space are read as `NaN`. This concerns only what goes through `Number` in the model: the clock fields and the durations of blocked times. So fractional or negative times and blocked-time durations are not modelled. Service and appointment durations are integers of either sign, and `LoopEnds` and `AppointmentInterval` handle negative ones. Fractional day counts in `generateDates` are not modelled either.
- Service durations are given as numbers, so `Number(match.duration)` is not written out.
- Appointment durations are given already read, as a whole number or `NaN`. So `Number(appt.duration)` is not written out, neither in `generateTimeSlots` (line 331) nor in the lookup (line 491).
- Slots.GenerateTimeSlots: requires that no professional's slot loop diverges, that is, no window that parses with `duration <= 0 && workStart + duration <= workEnd` (`Grid.LoopEnds`). This includes an empty window with duration 0 and an inverted window with a negative duration. The source loops forever there (`Grid.GuardHoldsForever`).
- Grid.GridStarts and Grid.AllStarts: require the same, for the same reason.
- Slots.MarkProfessional: keys the map by minutes rather than by `toTimeString(t)`. `Clock.TimeStringInjective` shows the two keyings agree.
- The in-place sort `blockedRanges.sort` only changes which conflict is reported in a log line. `Occupancy.ConflictIgnoresOrder` shows it changes no answer.
- The `description` of an occupied interval is kept only in the blocked-time record.
- The aliasing of `existing`: the model writes the updated entry back into the map. Nothing else holds a reference to it.
- `Array.prototype.sort` is replaced by an insertion sort on distinct keys. `Slots.SortedTimesUnique` shows that any sort by minutes gives the same result.
- `OnLeave` takes leave ranges whose ends are already day numbers, or none for an end that does not parse. So the `Date` reset to local midnight is not written out.
