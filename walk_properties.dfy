/**
 * What the occurrence walk computes: every kept date lies between the
 * start, the limit and the period's bounds, the dates increase strictly,
 * and they are exactly the points of the cycle's orbit that satisfy those
 * bounds, so stopping the loop early loses nothing.
 */
module WalkProperties {
  import opened Wrappers
  import opened Calendar
  import Cycles
  import opened Orbits
  import opened Walks

  /** Every step goes forward, so all later points of the orbit are on or after `d`. */
  lemma {:induction false} IterateForward(c: Cycles.Cycle, d: Date, k: nat)
    requires Iterate(c, d, k).Some?
    ensures Rank(d) <= Rank(Iterate(c, d, k).value)
    decreases k
  {
    if k == 0 {
      assert Iterate(c, d, k).value == d;
    } else {
      var n := IterateStep(c, d, k);
      IterateForward(c, n, k - 1);
      assert Iterate(c, d, k).value == Iterate(c, n, k - 1).value;
    }
  }

  /** Every kept date lies between `cur` and the limit, and inside the period. */
  lemma {:induction false} WalkBounds(c: Cycles.Cycle, cur: Date, limit: Date, periodStart: Date, periodEnd: Date)
    ensures var r := Walk(c, cur, limit, periodStart, periodEnd);
      forall i :: 0 <= i < |r| ==>
        LessEq(cur, r[i]) && LessEq(r[i], limit) && LessEq(periodStart, r[i]) && LessEq(r[i], periodEnd)
    decreases Rank(limit) - Rank(cur)
  {
    if LessEq(cur, limit) && LessEq(cur, periodEnd) {
      WalkStep(c, cur, limit, periodStart, periodEnd);
      if Cycles.Next(c, cur).Some? {
        var n := Cycles.Next(c, cur).value;
        WalkBounds(c, n, limit, periodStart, periodEnd);
        var rest := Walk(c, n, limit, periodStart, periodEnd);
        forall i | 0 <= i < |rest|
          ensures LessEq(cur, rest[i])
        {
        }
      }
    }
  }

  /**
   * Stopping early loses nothing: the walk holds exactly the points of the
   * cycle's orbit from `cur` that are not after `limit` and lie in the period.
   */
  lemma {:induction false} WalkIsFilteredOrbit(c: Cycles.Cycle, cur: Date, limit: Date, periodStart: Date, periodEnd: Date, d: Date)
    ensures d in Walk(c, cur, limit, periodStart, periodEnd) <==>
      (exists k: nat :: Iterate(c, cur, k) == Some(d))
      && LessEq(d, limit) && LessEq(periodStart, d) && LessEq(d, periodEnd)
    decreases Rank(limit) - Rank(cur)
  {
    var r := Walk(c, cur, limit, periodStart, periodEnd);
    WalkBounds(c, cur, limit, periodStart, periodEnd);
    if d in r {
      WalkIsFilteredOrbitSound(c, cur, limit, periodStart, periodEnd, d);
    }
    if (exists k: nat :: Iterate(c, cur, k) == Some(d))
      && LessEq(d, limit) && LessEq(periodStart, d) && LessEq(d, periodEnd)
    {
      var k: nat :| Iterate(c, cur, k) == Some(d);
      WalkIsFilteredOrbitComplete(c, cur, limit, periodStart, periodEnd, d, k);
    }
  }

  /** Everything the walk keeps is a point of the orbit (the bounds come with `Walk`'s contract). */
  lemma {:induction false} WalkIsFilteredOrbitSound(c: Cycles.Cycle, cur: Date, limit: Date, periodStart: Date, periodEnd: Date, d: Date)
    requires d in Walk(c, cur, limit, periodStart, periodEnd)
    ensures exists k: nat :: Iterate(c, cur, k) == Some(d)
    decreases Rank(limit) - Rank(cur)
  {
    if d == cur {
      assert Iterate(c, cur, 0) == Some(d);
    } else {
      WalkStep(c, cur, limit, periodStart, periodEnd);
      var n := Cycles.Next(c, cur).value;
      WalkIsFilteredOrbitSound(c, n, limit, periodStart, periodEnd, d);
      var k: nat :| Iterate(c, n, k) == Some(d);
      assert Iterate(c, cur, k + 1) == Some(d);
    }
  }

  /** Every point of the orbit within the limit and the period is kept: stopping early loses nothing. */
  lemma {:induction false} WalkIsFilteredOrbitComplete(c: Cycles.Cycle, cur: Date, limit: Date, periodStart: Date, periodEnd: Date, d: Date, k: nat)
    requires Iterate(c, cur, k) == Some(d)
    requires LessEq(d, limit) && LessEq(periodStart, d) && LessEq(d, periodEnd)
    ensures d in Walk(c, cur, limit, periodStart, periodEnd)
    decreases k
  {
    assert Rank(cur) <= Rank(d) by {
      IterateForward(c, cur, k);
    }
    WalkStep(c, cur, limit, periodStart, periodEnd);
    if k == 0 {
      assert d == cur;
    } else {
      var n := Cycles.Next(c, cur).value;
      assert Iterate(c, n, k - 1) == Some(d);
      WalkIsFilteredOrbitComplete(c, n, limit, periodStart, periodEnd, d, k - 1);
      var here := if LessEq(periodStart, cur) then [cur] else [];
      var rest := Walk(c, n, limit, periodStart, periodEnd);
      assert Walk(c, cur, limit, periodStart, periodEnd) == here + rest;
      assert d in rest;
    }
  }

  /** The occurrences come out in strictly increasing order. */
  lemma {:induction false} WalkIncreasing(c: Cycles.Cycle, cur: Date, limit: Date, periodStart: Date, periodEnd: Date)
    ensures var r := Walk(c, cur, limit, periodStart, periodEnd);
      forall i, j :: 0 <= i < j < |r| ==> Less(r[i], r[j])
    decreases Rank(limit) - Rank(cur)
  {
    if LessEq(cur, limit) && LessEq(cur, periodEnd) && Cycles.Next(c, cur).Some? {
      var n := Cycles.Next(c, cur).value;
      WalkStep(c, cur, limit, periodStart, periodEnd);
      WalkIncreasing(c, n, limit, periodStart, periodEnd);
      WalkBounds(c, n, limit, periodStart, periodEnd);
      var rest := Walk(c, n, limit, periodStart, periodEnd);
      var here := if LessEq(periodStart, cur) then [cur] else [];
      forall i | 0 <= i < |rest|
        ensures Less(cur, rest[i])
      {
      }
      PrependIncreasing(here, rest, cur);
    }
  }

  lemma PrependIncreasing(here: seq<Date>, rest: seq<Date>, cur: Date)
    requires here == [] || here == [cur]
    requires forall i :: 0 <= i < |rest| ==> Less(cur, rest[i])
    requires forall i, j :: 0 <= i < j < |rest| ==> Less(rest[i], rest[j])
    ensures var r := here + rest; forall i, j :: 0 <= i < j < |r| ==> Less(r[i], r[j])
  {
    var r := here + rest;
    forall i, j | 0 <= i < j < |r|
      ensures Less(r[i], r[j])
    {
      if here == [] {
        assert r[i] == rest[i] && r[j] == rest[j];
      } else if i == 0 {
        assert r[j] == rest[j - 1];
      } else {
        assert r[i] == rest[i - 1] && r[j] == rest[j - 1];
      }
    }
  }
}
