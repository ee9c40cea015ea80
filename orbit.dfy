/**
 * The orbit of a date under a cycle: the dates reached by stepping the
 * cycle's `next` again and again (src/data/cycle.rs). The occurrence walk
 * of a transaction is characterised against it.
 */
module Orbits {
  import opened Wrappers
  import opened Calendar
  import Cycles

  /** The date `k` cycle steps after `d`, if the cycle goes that far. */
  function Iterate(c: Cycles.Cycle, d: Date, k: nat): Option<Date>
    decreases k
  {
    if k == 0 then Some(d)
    else
      match Cycles.Next(c, d)
      case None => None
      case Some(n) => Iterate(c, n, k - 1)
  }

  /** One step of the orbit: the first step is the cycle's next date, which comes strictly later. */
  lemma IterateStep(c: Cycles.Cycle, d: Date, k: nat) returns (n: Date)
    requires k > 0 && Iterate(c, d, k).Some?
    ensures Cycles.Next(c, d) == Some(n)
    ensures Iterate(c, d, k) == Iterate(c, n, k - 1)
    ensures Rank(d) < Rank(n)
  {
    n := Cycles.Next(c, d).value;
  }
}
