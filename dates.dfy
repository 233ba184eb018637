/**
 * The day-count logic of `generateDates`: at most sixty consecutive days from
 * the start date. Days are day numbers; the labels the source formats for
 * each day are not part of this model.
 */
module Dates {
  /** The cap `Math.min(days, 60)` puts on the number of dates. */
  const MaxDays: int := 60

  /**
   * `generateDates(startDate, days)`: the loop `for (i = 0; i < maxDays; i++)`
   * pushes the day `startDate + i`. A count of zero or less gives no dates.
   */
  method GenerateDates(start: int, days: int) returns (dates: seq<int>)
    ensures |dates| <= MaxDays
    ensures days <= 0 ==> dates == []
    ensures 0 <= days <= MaxDays ==> |dates| == days
    ensures days >= MaxDays ==> |dates| == MaxDays
    ensures forall i :: 0 <= i < |dates| ==> dates[i] == start + i
  {
    var maxDays := if days < MaxDays then days else MaxDays;
    dates := [];
    var i := 0;
    while i < maxDays
      invariant 0 <= i && (i <= maxDays || i == 0)
      invariant |dates| == i
      invariant forall k :: 0 <= k < i ==> dates[k] == start + k
    {
      dates := dates + [start + i];
      i := i + 1;
    }
  }
}
