/** Repeat cycles of a transaction and the step to the next occurrence (src/data/cycle.rs). */
module Cycles {
  import opened Wrappers
  import opened Calendar

  datatype Cycle = Daily | Weekly | Monthly | Yearly | OneTime

  /** The display names, in declaration order (`Cycle::CYCLES`). */
  const Labels: seq<string> := ["Daily", "Weekly", "Monthly", "Yearly", "One Time"]

  /** The discriminant, `*self as usize`. */
  function Index(c: Cycle): (i: nat)
    ensures i < |Labels|
  {
    match c
    case Daily => 0
    case Weekly => 1
    case Monthly => 2
    case Yearly => 3
    case OneTime => 4
  }

  /** `Cycle::as_str` (and `Display`): the table entry at the discriminant. */
  function Label(c: Cycle): string {
    Labels[Index(c)]
  }

  /** `Cycle::as_slice`: every cycle, in declaration order. */
  function AllCycles(): seq<Cycle> {
    [Daily, Weekly, Monthly, Yearly, OneTime]
  }

  /** `Default for Cycle` */
  function Default(): Cycle {
    OneTime
  }

  /** The labels the menus show, and the one default. */
  lemma LabelsAndDefault()
    ensures Label(Default()) == "One Time"
    ensures forall c :: Label(c) != ""
    ensures forall c1, c2 :: Label(c1) == Label(c2) ==> c1 == c2
  {
  }

  /** `as_slice` lists each cycle once, at the position of its discriminant. */
  lemma AllCyclesInOrder()
    ensures |AllCycles()| == |Labels|
    ensures forall i :: 0 <= i < |AllCycles()| ==> Index(AllCycles()[i]) == i
    ensures forall c :: c in AllCycles()
  {
    forall c ensures c in AllCycles() {
      assert AllCycles()[Index(c)] == c;
    }
  }

  /**
   * `Cycle::next`: one day, seven days, one calendar month or twelve calendar
   * months on (the day clamped to the end of a shorter month), or nothing.
   */
  function Next(c: Cycle, d: Date): (r: Option<Date>)
    ensures r.None? <==> c == OneTime
    ensures r.Some? ==> Less(d, r.value)
  {
    match c
    case Daily =>
      DayNumberAddDays(d, 1);
      DayNumberOrder(d, AddDays(d, 1));
      Some(AddDays(d, 1))
    case Weekly =>
      DayNumberAddDays(d, 7);
      DayNumberOrder(d, AddDays(d, 7));
      Some(AddDays(d, 7))
    case Monthly =>
      AddMonthsLater(d, 1);
      Some(AddMonths(d, 1))
    case Yearly =>
      AddMonthsLater(d, 12);
      Some(AddMonths(d, 12))
    case OneTime => None
  }

  /** Daily steps one day and weekly seven, landing on the same weekday. */
  lemma NextByDays(c: Cycle, d: Date)
    requires c == Daily || c == Weekly
    ensures DayNumber(Next(c, d).value) == DayNumber(d) + (if c == Daily then 1 else 7)
    ensures c == Weekly ==> DaysFromMonday(Next(c, d).value) == DaysFromMonday(d)
  {
    var n := if c == Daily then 1 else 7;
    var r := AddDays(d, n);
    assert Next(c, d).value == r;
    DayNumberAddDays(d, n);
    if c == Weekly {
      SameWeekday(DayNumber(d), DayNumber(r));
    }
  }

  lemma SameWeekday(a: int, b: int)
    requires b == a + 7
    ensures b % 7 == a % 7
  {
  }

  /**
   * Monthly steps to the same day of the next month and yearly to the same
   * day of the next year, the day clamped to the length of a shorter month.
   */
  lemma NextByMonths(c: Cycle, d: Date)
    requires c == Monthly || c == Yearly
    ensures c == Monthly ==> var r := Next(c, d).value;
      && r.year == (if d.month == 12 then d.year + 1 else d.year)
      && r.month == (if d.month == 12 then 1 else d.month + 1)
      && r.day == (if d.day <= DaysInMonth(r.year, r.month) then d.day else DaysInMonth(r.year, r.month))
    ensures c == Yearly ==> var r := Next(c, d).value;
      && r.year == d.year + 1 && r.month == d.month
      && r.day == (if d.month == 2 && d.day == 29 && !IsLeapYear(d.year + 1) then 28 else d.day)
  {
    if c == Monthly {
      AddOneMonth(d);
    } else {
      AddTwelveMonths(d);
    }
  }

  /** 31 January steps to the last day of February, in common and leap years alike. */
  lemma MonthlyFromJanuary31(y: int)
    ensures Next(Monthly, Ymd(y, 1, 31)) == Some(Ymd(y, 2, if IsLeapYear(y) then 29 else 28))
  {
  }
}
