/**
 * The loop of `get_occurrences_in_period` (src/data/transaction.rs): walking
 * a cycle from a start date, keeping the dates inside a period and stopping
 * after a limit. Its properties are proved in WalkProperties.
 */
module Walks {
  import opened Wrappers
  import opened Text
  import opened Calendar
  import Cycles

  /**
   * The occurrences met walking the cycle from `cur`: the walk stops after
   * `limit` (the end date, or today) or after `periodEnd`, and keeps the
   * dates that lie in `[periodStart, periodEnd]`.
   */
  function Walk(c: Cycles.Cycle, cur: Date, limit: Date, periodStart: Date, periodEnd: Date): seq<Date>
    decreases Rank(limit) - Rank(cur)
  {
    if Less(limit, cur) || Less(periodEnd, cur) then []
    else
      var here := if LessEq(periodStart, cur) then [cur] else [];
      match Cycles.Next(c, cur)
      case None => here
      case Some(n) =>
        here + Walk(c, n, limit, periodStart, periodEnd)
  }

  /** One turn of the loop: keep `cur` when it is in the period, then go on from the next date. */
  lemma WalkStep(c: Cycles.Cycle, cur: Date, limit: Date, periodStart: Date, periodEnd: Date)
    requires LessEq(cur, limit) && LessEq(cur, periodEnd)
    ensures Walk(c, cur, limit, periodStart, periodEnd) ==
      (if LessEq(periodStart, cur) then [cur] else [])
      + (match Cycles.Next(c, cur)
         case None => []
         case Some(n) => Walk(c, n, limit, periodStart, periodEnd))
  {
    var here := if LessEq(periodStart, cur) then [cur] else [];
    if Cycles.Next(c, cur).None? {
      assert here + [] == here;
    }
  }

  /** The loop of `get_occurrences_in_period`, from the start date. */
  method WalkLoop(c: Cycles.Cycle, start: Date, limit: Date, periodStart: Date, periodEnd: Date)
    returns (occurrences: seq<Date>)
    ensures occurrences == Walk(c, start, limit, periodStart, periodEnd)
  {
    occurrences := [];
    var current := start;
    ghost var all := Walk(c, start, limit, periodStart, periodEnd);
    while true
      invariant occurrences + Walk(c, current, limit, periodStart, periodEnd) == all
      decreases Rank(limit) - Rank(current)
    {
      if Less(limit, current) {
        break;
      }
      ghost var kept := occurrences;
      if LessEq(periodStart, current) && LessEq(current, periodEnd) {
        occurrences := occurrences + [current];
      } else if Less(periodEnd, current) {
        break;
      }
      var next := Cycles.Next(c, current);
      LoopTurn(c, current, limit, periodStart, periodEnd, kept, occurrences, all);
      if next.None? {
        break;
      }
      current := next.value;
    }
  }

  /** One turn of the loop keeps `occurrences + Walk(current) == all`. */
  lemma LoopTurn(c: Cycles.Cycle, cur: Date, limit: Date, periodStart: Date, periodEnd: Date,
                 kept: seq<Date>, occurrences: seq<Date>, all: seq<Date>)
    requires LessEq(cur, limit) && LessEq(cur, periodEnd)
    requires kept + Walk(c, cur, limit, periodStart, periodEnd) == all
    requires occurrences == kept + (if LessEq(periodStart, cur) then [cur] else [])
    ensures occurrences + (match Cycles.Next(c, cur)
                           case None => []
                           case Some(n) => Walk(c, n, limit, periodStart, periodEnd)) == all
  {
    WalkStep(c, cur, limit, periodStart, periodEnd);
    ConcatAssociative(kept, if LessEq(periodStart, cur) then [cur] else [],
      match Cycles.Next(c, cur)
      case None => []
      case Some(n) => Walk(c, n, limit, periodStart, periodEnd));
  }

}
