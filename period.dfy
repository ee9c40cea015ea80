/** Reporting windows and their concrete date bounds relative to "now" (src/data/period.rs). */
module Periods {
  import opened Wrappers
  import opened Calendar

  datatype Period = Day | Week | Month | Year | All

  /** The display names, in declaration order (`Period::PERIODS`). */
  const Labels: seq<string> := ["Day", "Week", "Month", "Year", "All"]

  /** The discriminant, `*self as usize`. */
  function Index(p: Period): (i: nat)
    ensures i < |Labels|
  {
    match p
    case Day => 0
    case Week => 1
    case Month => 2
    case Year => 3
    case All => 4
  }

  /** `Period::as_str` (and `Display`). */
  function Label(p: Period): string {
    Labels[Index(p)]
  }

  /** `Period::as_slice`: every period, in declaration order. */
  function AllPeriods(): seq<Period> {
    [Day, Week, Month, Year, All]
  }

  /** `Default for Period` */
  function Default(): Period {
    All
  }

  /** The labels, the default, and the order of `as_slice`. */
  lemma LabelsAndDefault()
    ensures Default() == All && Label(Default()) == "All"
    ensures forall p1, p2 :: Label(p1) == Label(p2) ==> p1 == p2
    ensures |AllPeriods()| == |Labels|
    ensures forall i :: 0 <= i < |AllPeriods()| ==> Index(AllPeriods()[i]) == i
    ensures forall p :: p in AllPeriods()
  {
    forall p ensures p in AllPeriods() {
      assert AllPeriods()[Index(p)] == p;
    }
  }

  /** 1 January 1970, where `All` starts. */
  const Epoch: Date := Ymd(1970, 1, 1)

  /** The Monday on or before `now`. */
  function WeekStart(now: Date): Date {
    SubDays(now, DaysFromMonday(now))
  }

  /** The first day of `now`'s month (`from_ymd_opt(year, month, 1).unwrap_or(now)`). */
  function MonthStart(now: Date): Date {
    FromYmdOpt(now.year, now.month, 1).UnwrapOr(now)
  }

  /** One month after the month start, less one day: the month's last day. */
  function MonthEnd(now: Date): Date {
    Pred(AddMonths(MonthStart(now), 1))
  }

  /**
   * `Period::bounds` with the clock read passed in as `now`: the window's
   * first day and its last day, the latter never after `now`.
   */
  function Bounds(p: Period, now: Date): (Date, Date) {
    match p
    case Day => (now, now)
    case Week =>
      var weekStart := WeekStart(now);
      (weekStart, Min(AddDays(weekStart, 6), now))
    case Month =>
      (MonthStart(now), Min(MonthEnd(now), now))
    case Year =>
      var yearStart := FromYmdOpt(now.year, 1, 1).UnwrapOr(now);
      var yearEnd := FromYmdOpt(now.year, 12, 31).UnwrapOr(now);
      (yearStart, Min(yearEnd, now))
    case All => (Epoch, now)
  }

  lemma ModSeven(n: int, k: int)
    requires k == n % 7
    ensures (n - k) % 7 == 0 && (n - k + 6) % 7 == 6
  {
  }

  /** The week starts on the Monday on or before `now`, and its Sunday is not before `now`. */
  lemma WeekBounds(now: Date)
    ensures var start := Bounds(Week, now).0;
      && DaysFromMonday(start) == 0
      && 0 <= DayNumber(now) - DayNumber(start) <= 6
      && DaysFromMonday(AddDays(start, 6)) == 6
      && LessEq(now, AddDays(start, 6))
  {
    var k := DaysFromMonday(now);
    var start := WeekStart(now);
    var sunday := AddDays(start, 6);
    var n := DayNumber(now);
    DayNumberSubDays(now, k);
    DayNumberAddDays(start, 6);
    assert DayNumber(start) == n - k;
    assert DayNumber(sunday) == n - k + 6;
    ModSeven(n, k);
    assert DaysFromMonday(start) == 0;
    assert DaysFromMonday(sunday) == 6;
    DayNumberOrder(sunday, now);
  }

  /** The month runs from its first day, and its last day is the month's length. */
  lemma MonthBounds(now: Date)
    ensures Bounds(Month, now).0 == Ymd(now.year, now.month, 1)
    ensures MonthEnd(now) == Ymd(now.year, now.month, DaysInMonth(now.year, now.month))
    ensures LessEq(now, MonthEnd(now))
  {
    AddOneMonth(MonthStart(now));
  }

  /** The year runs from 1 January to 31 December. */
  lemma YearBounds(now: Date)
    ensures Bounds(Year, now).0 == Ymd(now.year, 1, 1)
    ensures LessEq(now, Ymd(now.year, 12, 31))
  {
  }

  lemma WeekEndsAtNow(now: Date)
    ensures Bounds(Week, now).1 == now && LessEq(Bounds(Week, now).0, now)
  {
    WeekBounds(now);
    var start := WeekStart(now);
    DayNumberOrder(now, start);
    assert !Less(now, start);
    var sunday := AddDays(start, 6);
    RankInjective(sunday, now);
    assert Min(sunday, now) == now;
  }

  /**
   * For every period the end is `now` itself (each nominal end lies on or
   * after `now`, so the clamp always picks `now`), and the start is not
   * after the end, provided `now` is not before 1970 for `All`.
   */
  lemma BoundsEndAtNow(p: Period, now: Date)
    requires p == All ==> LessEq(Epoch, now)
    ensures Bounds(p, now).1 == now
    ensures LessEq(Bounds(p, now).0, Bounds(p, now).1)
  {
    match p
    case Day =>
    case Week =>
      WeekEndsAtNow(now);
    case Month =>
      MonthBounds(now);
    case Year =>
      YearBounds(now);
    case All =>
  }
}
