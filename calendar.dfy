/**
 * A proleptic Gregorian calendar, standing for chrono's `NaiveDate`:
 * leap years, month lengths, day-by-day stepping, `checked_add_months`
 * with the day clamped to the end of the target month, and a day count
 * that gives the weekday. Years are unbounded integers.
 */
module Calendar {
  import opened Wrappers

  datatype Ymd = Ymd(year: int, month: int, day: int)

  predicate IsLeapYear(y: int) {
    y % 4 == 0 && (y % 100 != 0 || y % 400 == 0)
  }

  function DaysInMonth(y: int, m: int): (n: int)
    requires 1 <= m <= 12
    ensures 28 <= n <= 31
    ensures n == 29 <==> m == 2 && IsLeapYear(y)
  {
    if m == 2 then (if IsLeapYear(y) then 29 else 28)
    else if m == 4 || m == 6 || m == 9 || m == 11 then 30
    else 31
  }

  function DaysInYear(y: int): int {
    if IsLeapYear(y) then 366 else 365
  }

  predicate IsValidYmd(d: Ymd) {
    1 <= d.month <= 12 && 1 <= d.day <= DaysInMonth(d.year, d.month)
  }

  /** A calendar date that exists (`NaiveDate`). */
  type Date = d: Ymd | IsValidYmd(d) witness Ymd(1970, 1, 1)

  /** `NaiveDate::from_ymd_opt` */
  function FromYmdOpt(y: int, m: int, d: int): (r: Option<Date>)
    ensures r.Some? <==> IsValidYmd(Ymd(y, m, d))
    ensures r.Some? ==> r.value == Ymd(y, m, d)
  {
    if IsValidYmd(Ymd(y, m, d)) then Some(Ymd(y, m, d)) else None
  }

  // ---------------------------------------------------------------------
  // Order
  // ---------------------------------------------------------------------

  /**
   * A numbering of dates that follows the calendar: each year takes 12
   * months of 31 slots, so comparing ranks compares dates.
   */
  function Rank(d: Date): int {
    d.year * 372 + (d.month - 1) * 31 + (d.day - 1)
  }

  /** Chronological order, as `NaiveDate`'s `Ord`, compared through the rank. */
  predicate Less(a: Date, b: Date) {
    Rank(a) < Rank(b)
  }

  predicate LessEq(a: Date, b: Date) {
    Rank(a) <= Rank(b)
  }

  /** The order is the lexicographic one: by year, then month, then day. */
  lemma LessIsLexicographic(a: Date, b: Date)
    ensures Less(a, b) <==>
      a.year < b.year || (a.year == b.year && (a.month < b.month || (a.month == b.month && a.day < b.day)))
  {
    if a.year < b.year {
      assert Rank(a) < (a.year + 1) * 372 <= Rank(b);
    } else if b.year < a.year {
      assert Rank(b) < (b.year + 1) * 372 <= Rank(a);
    }
  }

  /** Different dates have different ranks, so the order is total. */
  lemma RankInjective(a: Date, b: Date)
    ensures a == b <==> Rank(a) == Rank(b)
  {
    LessIsLexicographic(a, b);
    LessIsLexicographic(b, a);
  }

  /** `Ord::min` */
  function Min(a: Date, b: Date): (r: Date)
    ensures LessEq(r, a) && LessEq(r, b) && (r == a || r == b)
  {
    if LessEq(a, b) then a else b
  }

  // ---------------------------------------------------------------------
  // Stepping by days
  // ---------------------------------------------------------------------

  /** The next day (`date + Duration::days(1)`). */
  function Succ(d: Date): (r: Date)
    ensures Less(d, r)
  {
    if d.day < DaysInMonth(d.year, d.month) then Ymd(d.year, d.month, d.day + 1)
    else if d.month < 12 then Ymd(d.year, d.month + 1, 1)
    else Ymd(d.year + 1, 1, 1)
  }

  /** The previous day (`date - Duration::days(1)`). */
  function Pred(d: Date): (r: Date)
    ensures Less(r, d)
  {
    if d.day > 1 then Ymd(d.year, d.month, d.day - 1)
    else if d.month > 1 then Ymd(d.year, d.month - 1, DaysInMonth(d.year, d.month - 1))
    else Ymd(d.year - 1, 12, 31)
  }

  /** `date + Duration::days(n)` */
  function AddDays(d: Date, n: nat): Date
    decreases n
  {
    if n == 0 then d else AddDays(Succ(d), n - 1)
  }

  /** `date - Duration::days(n)` */
  function SubDays(d: Date, n: nat): Date
    decreases n
  {
    if n == 0 then d else SubDays(Pred(d), n - 1)
  }

  // ---------------------------------------------------------------------
  // Stepping by months
  // ---------------------------------------------------------------------

  /**
   * `checked_add_months(Months::new(n))`: move `n` months forward and clamp
   * the day to the length of the month reached.
   */
  function AddMonths(d: Date, n: nat): Date {
    var total := d.year * 12 + (d.month - 1) + n;
    var y, m := total / 12, total % 12 + 1;
    Ymd(y, m, if d.day <= DaysInMonth(y, m) then d.day else DaysInMonth(y, m))
  }

  /** One month on: the following month (January of the next year after December), day clamped. */
  lemma AddOneMonth(d: Date)
    ensures var r := AddMonths(d, 1);
      && r.year == (if d.month == 12 then d.year + 1 else d.year)
      && r.month == (if d.month == 12 then 1 else d.month + 1)
      && r.day == (if d.day <= DaysInMonth(r.year, r.month) then d.day else DaysInMonth(r.year, r.month))
  {
    var total := d.year * 12 + (d.month - 1) + 1;
    if d.month == 12 {
      assert total == (d.year + 1) * 12;
    } else {
      assert total == d.year * 12 + d.month;
    }
  }

  /** Twelve months on: same month of the next year; only 29 February moves (to the 28th). */
  lemma AddTwelveMonths(d: Date)
    ensures var r := AddMonths(d, 12);
      && r.year == d.year + 1 && r.month == d.month
      && r.day == (if d.month == 2 && d.day == 29 && !IsLeapYear(d.year + 1) then 28 else d.day)
  {
    var total := d.year * 12 + (d.month - 1) + 12;
    assert total == (d.year + 1) * 12 + (d.month - 1);
  }

  /** Adding at least one month always moves strictly forward. */
  lemma AddMonthsLater(d: Date, n: nat)
    requires n >= 1
    ensures Less(d, AddMonths(d, n))
  {
    var total := d.year * 12 + (d.month - 1) + n;
    var y, m := total / 12, total % 12 + 1;
    assert total == y * 12 + (m - 1);
  }

  // ---------------------------------------------------------------------
  // Day numbers and weekdays
  // ---------------------------------------------------------------------

  /** Days from 0001-01-01 to 1 January of year `y`. */
  function DaysBeforeYear(y: int): int {
    var x := y - 1;
    365 * x + x / 4 - x / 100 + x / 400
  }

  /** Days from 1 January of year `y` to the first of month `m`. */
  function DaysBeforeMonth(y: int, m: int): int
    requires 1 <= m <= 12
  {
    var common :=
      if m == 1 then 0 else if m == 2 then 31 else if m == 3 then 59
      else if m == 4 then 90 else if m == 5 then 120 else if m == 6 then 151
      else if m == 7 then 181 else if m == 8 then 212 else if m == 9 then 243
      else if m == 10 then 273 else if m == 11 then 304 else 334;
    if m > 2 && IsLeapYear(y) then common + 1 else common
  }

  /** Days since 0001-01-01, which was a Monday. */
  function DayNumber(d: Date): int {
    DaysBeforeYear(d.year) + DaysBeforeMonth(d.year, d.month) + d.day - 1
  }

  /** `weekday().num_days_from_monday()`: 0 for Monday through 6 for Sunday. */
  function DaysFromMonday(d: Date): (w: nat)
    ensures w < 7
  {
    DayNumber(d) % 7
  }

  /** How many multiples of 4, 100 and 400 end exactly at `y`. */
  lemma LeapCounts(y: int)
    ensures y / 4 - (y - 1) / 4 == if y % 4 == 0 then 1 else 0
    ensures y / 100 - (y - 1) / 100 == if y % 100 == 0 then 1 else 0
    ensures y / 400 - (y - 1) / 400 == if y % 400 == 0 then 1 else 0
  {
  }

  lemma DaysBeforeNextYear(y: int)
    ensures DaysBeforeYear(y + 1) == DaysBeforeYear(y) + DaysInYear(y)
  {
    LeapCounts(y);
  }

  lemma DaysBeforeNextMonth(y: int, m: int)
    requires 1 <= m < 12
    ensures DaysBeforeMonth(y, m + 1) == DaysBeforeMonth(y, m) + DaysInMonth(y, m)
  {
  }

  /** The next day is numbered one higher. */
  lemma DayNumberSucc(d: Date)
    ensures DayNumber(Succ(d)) == DayNumber(d) + 1
  {
    if d.day == DaysInMonth(d.year, d.month) {
      if d.month < 12 {
        DaysBeforeNextMonth(d.year, d.month);
      } else {
        DaysBeforeNextYear(d.year);
      }
    }
  }

  lemma SuccOfPred(d: Date)
    ensures Succ(Pred(d)) == d
  {
  }

  lemma PredOfSucc(d: Date)
    ensures Pred(Succ(d)) == d
  {
  }

  /** The previous day is numbered one lower. */
  lemma DayNumberPred(d: Date)
    ensures DayNumber(Pred(d)) == DayNumber(d) - 1
  {
    SuccOfPred(d);
    DayNumberSucc(Pred(d));
  }

  /** `date + Duration::days(n)` moves the day number by exactly `n`. */
  lemma {:induction false} DayNumberAddDays(d: Date, n: nat)
    ensures DayNumber(AddDays(d, n)) == DayNumber(d) + n
    decreases n
  {
    if n > 0 {
      DayNumberSucc(d);
      DayNumberAddDays(Succ(d), n - 1);
    }
  }

  /** `date - Duration::days(n)` moves the day number back by exactly `n`. */
  lemma DayNumberSubDays(d: Date, n: nat)
    ensures DayNumber(SubDays(d, n)) == DayNumber(d) - n
  {
    var e := SubDays(d, n);
    AddSubDays(d, n);
    DayNumberAddDays(e, n);
  }

  lemma {:induction false} DaysBeforeYearGrows(a: int, b: int)
    requires a < b
    ensures DaysBeforeYear(a) + DaysInYear(a) <= DaysBeforeYear(b)
    decreases b - a
  {
    DaysBeforeNextYear(a);
    if a + 1 < b {
      DaysBeforeYearGrows(a + 1, b);
    }
  }

  lemma {:induction false} DaysBeforeMonthGrows(y: int, a: int, b: int)
    requires 1 <= a < b <= 12
    ensures DaysBeforeMonth(y, a) + DaysInMonth(y, a) <= DaysBeforeMonth(y, b)
    decreases b - a
  {
    DaysBeforeNextMonth(y, a);
    if a + 1 < b {
      DaysBeforeMonthGrows(y, a + 1, b);
    }
  }

  lemma DayOfYearBound(d: Date)
    ensures 0 <= DaysBeforeMonth(d.year, d.month) + d.day - 1 < DaysInYear(d.year)
  {
    if d.month < 12 {
      DaysBeforeMonthGrows(d.year, d.month, 12);
    }
  }

  /** Day numbers follow the calendar order exactly. */
  lemma DayNumberOrder(a: Date, b: Date)
    ensures Less(a, b) <==> DayNumber(a) < DayNumber(b)
  {
    if Less(a, b) {
      DayNumberMonotone(a, b);
    } else if Less(b, a) {
      DayNumberMonotone(b, a);
    } else {
      RankInjective(a, b);
    }
  }

  lemma DayNumberMonotone(a: Date, b: Date)
    requires Less(a, b)
    ensures DayNumber(a) < DayNumber(b)
  {
    LessIsLexicographic(a, b);
    if a.year < b.year {
      DayOfYearBound(a);
      DaysBeforeYearGrows(a.year, b.year);
    } else if a.month < b.month {
      DaysBeforeMonthGrows(a.year, a.month, b.month);
    }
  }

  /** Going back `n` days and then forward `n` days returns to the same date. */
  lemma {:induction false} AddSubDays(d: Date, n: nat)
    ensures AddDays(SubDays(d, n), n) == d
    decreases n
  {
    if n > 0 {
      AddSubDays(Pred(d), n - 1);
      AddDaysSuccCommute(SubDays(Pred(d), n - 1), n - 1);
      SuccOfPred(d);
    }
  }

  lemma {:induction false} AddDaysSuccCommute(d: Date, n: nat)
    ensures AddDays(Succ(d), n) == Succ(AddDays(d, n))
    decreases n
  {
    if n > 0 {
      AddDaysSuccCommute(Succ(d), n - 1);
    }
  }

  /** 1 January 1970 was a Thursday. */
  lemma EpochIsThursday()
    ensures DaysFromMonday(Ymd(1970, 1, 1)) == 3
  {
  }
}
