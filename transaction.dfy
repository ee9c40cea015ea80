/**
 * A transaction (src/data/transaction.rs): its validity and difference
 * checks, the expansion of a repeating transaction into its occurrence
 * dates inside a reporting period, the projection of its amount onto a
 * period, and its stored form with `%Y-%m-%d` date strings.
 */
module Transactions {
  import opened Wrappers
  import opened Text
  import opened Calendar
  import opened DateText
  import opened Ids
  import Cycles
  import Periods
  import opened Walks
  import opened WalkProperties

  datatype Transaction = Transaction(
    id: nat,
    name: string,
    description: Option<string>,
    amount: real,
    cycle: Cycles.Cycle,
    startDate: Date,
    endDate: Option<Date>)

  /** `Transaction::default` with the clock read passed in as `today`. */
  function Default(today: Date): (t: Transaction)
    ensures !IsCreated(t) && !IsValid(t)
  {
    Transaction(0, "", None, 0.0, Cycles.OneTime, today, None)
  }

  /** An id of 0 marks a transaction that has not been created yet. */
  predicate IsCreated(t: Transaction) {
    t.id != 0
  }

  /** The name rule shared with wallets: something left after trimming, at most 100 bytes of UTF-8. */
  predicate NameValid(name: string) {
    Trim(name) != [] && Utf8Len(name) <= 100
  }

  /** A name passes exactly when it is not all whitespace and fits in 100 bytes. */
  lemma NameValidIff(name: string)
    ensures NameValid(name) <==> !IsBlank(name) && Utf8Len(name) <= 100
  {
    TrimEmptyIffBlank(name);
  }

  /** A description of at most 500 bytes of UTF-8, when there is one. */
  predicate DescriptionValid(description: Option<string>) {
    description.Some? ==> Utf8Len(description.value) <= 500
  }

  /**
   * `Transaction::is_valid`: a valid name, a valid description, a non-zero
   * amount, and no end date before the start date.
   */
  predicate IsValid(t: Transaction) {
    && NameValid(t.name)
    && DescriptionValid(t.description)
    && t.amount != 0.0
    && (t.endDate.Some? ==> LessEq(t.startDate, t.endDate.value))
  }

  /** `Transaction::is_different`: some field other than the id differs. */
  predicate IsDifferent(a: Transaction, b: Transaction) {
    a.name != b.name || a.description != b.description || a.amount != b.amount
    || a.startDate != b.startDate || a.endDate != b.endDate || a.cycle != b.cycle
  }

  /** Two transactions are "not different" exactly when they agree on everything but the id. */
  lemma IsDifferentIgnoresId(a: Transaction, b: Transaction)
    ensures !IsDifferent(a, b) <==> a.(id := b.id) == b
    ensures !IsDifferent(a, a) && (IsDifferent(a, b) <==> IsDifferent(b, a))
  {
  }

  /** `Transaction::assign_global_id`: keep an existing id, otherwise draw the next one. */
  method AssignGlobalId(t: Transaction, counter: IdCounter) returns (r: Transaction)
    modifies counter
    ensures IsCreated(t) ==> r == t && counter.next == old(counter.next)
    ensures !IsCreated(t) ==> r == t.(id := old(counter.next)) && counter.next == old(counter.next) + 1
  {
    if IsCreated(t) {
      r := t;
    } else {
      var id := counter.FetchAdd();
      r := t.(id := id);
    }
  }

  // ---------------------------------------------------------------------
  // Occurrences
  // ---------------------------------------------------------------------

  /**
   * `get_occurrences_in_period` with the clock read passed in as `now`:
   * nothing for a transaction that starts after today, otherwise the walk
   * from the start date within the period's bounds.
   */
  function Occurrences(t: Transaction, p: Periods.Period, now: Date): Option<seq<Date>> {
    if Less(now, t.startDate) then None
    else
      var bounds := Periods.Bounds(p, now);
      Some(Walk(t.cycle, t.startDate, t.endDate.UnwrapOr(now), bounds.0, bounds.1))
  }

  /** `get_occurrences_in_period`: the early return, then the loop. */
  method OccurrencesInPeriod(t: Transaction, p: Periods.Period, now: Date) returns (r: Option<seq<Date>>)
    ensures r == Occurrences(t, p, now)
  {
    if Less(now, t.startDate) {
      return None;
    }
    var bounds := Periods.Bounds(p, now);
    var occurrences := WalkLoop(t.cycle, t.startDate, t.endDate.UnwrapOr(now), bounds.0, bounds.1);
    return Some(occurrences);
  }

  /** `count_occurrences_in_period` */
  function CountOccurrences(t: Transaction, p: Periods.Period, now: Date): (r: Option<nat>)
    ensures r.None? <==> Less(now, t.startDate)
  {
    match Occurrences(t, p, now)
    case None => None
    case Some(o) => Some(|o|)
  }

  /** `for_period`: the amount times the number of occurrences (none counts as zero). */
  function ForPeriod(t: Transaction, p: Periods.Period, now: Date): (r: Transaction)
    ensures r.(amount := t.amount) == t
    ensures Less(now, t.startDate) ==> r.amount == 0.0
    ensures r.amount == t.amount * (CountOccurrences(t, p, now).UnwrapOr(0) as real)
  {
    Scaled(t, CountOccurrences(t, p, now).UnwrapOr(0))
  }

  /** The transaction with its amount taken `k` times. */
  function Scaled(t: Transaction, k: nat): Transaction {
    t.(amount := t.amount * k as real)
  }

  // ---------------------------------------------------------------------
  // Properties of the occurrences
  // ---------------------------------------------------------------------

  /** A one-time transaction occurs at most once, on its start date. */
  lemma OneTimeOccursOnce(t: Transaction, p: Periods.Period, now: Date)
    requires t.cycle == Cycles.OneTime
    ensures Occurrences(t, p, now).Some? ==>
      Occurrences(t, p, now).value == [] || Occurrences(t, p, now).value == [t.startDate]
  {
  }

  /**
   * The expansion is absent exactly for a transaction starting after today;
   * otherwise its dates lie inside the period, not after the end date (or
   * today), and increase strictly.
   */
  lemma OccurrencesSpec(t: Transaction, p: Periods.Period, now: Date)
    ensures Occurrences(t, p, now).None? <==> Less(now, t.startDate)
    ensures Occurrences(t, p, now).Some? ==>
      var o := Occurrences(t, p, now).value;
      var bounds := Periods.Bounds(p, now);
      && (forall i :: 0 <= i < |o| ==>
            LessEq(bounds.0, o[i]) && LessEq(o[i], bounds.1)
            && LessEq(t.startDate, o[i]) && LessEq(o[i], t.endDate.UnwrapOr(now)))
      && (forall i, j :: 0 <= i < j < |o| ==> Less(o[i], o[j]))
  {
    if !Less(now, t.startDate) {
      var bounds := Periods.Bounds(p, now);
      var limit := t.endDate.UnwrapOr(now);
      assert Occurrences(t, p, now) == Some(Walk(t.cycle, t.startDate, limit, bounds.0, bounds.1));
      WalkIncreasing(t.cycle, t.startDate, limit, bounds.0, bounds.1);
      WalkBounds(t.cycle, t.startDate, limit, bounds.0, bounds.1);
    }
  }

  /** An open-ended daily transaction that starts today occurs once in today's `Day` period. */
  lemma DailyFillsDay(t: Transaction, now: Date)
    requires t.cycle == Cycles.Daily && t.startDate == now && t.endDate.None?
    ensures Occurrences(t, Periods.Day, now) == Some([now])
  {
    var next := Cycles.Next(Cycles.Daily, now);
    assert next.Some?;
    var n := next.value;
    assert Periods.Bounds(Periods.Day, now) == (now, now);
    assert Occurrences(t, Periods.Day, now) == Some(Walk(Cycles.Daily, now, now, now, now));
    WalkStep(Cycles.Daily, now, now, now, now);
    assert Walk(Cycles.Daily, n, now, now, now) == [];
    assert Walk(Cycles.Daily, now, now, now, now) == [now] + [];
    assert [now] + [] == [now];
  }

  /**
   * Projecting a valid transaction onto a period keeps it valid exactly
   * when it occurs at least once there.
   */
  lemma ForPeriodValid(t: Transaction, p: Periods.Period, now: Date)
    requires IsValid(t)
    ensures IsValid(ForPeriod(t, p, now)) <==> CountOccurrences(t, p, now).UnwrapOr(0) > 0
  {
    ScaledValid(t, CountOccurrences(t, p, now).UnwrapOr(0));
  }

  /** Taking a valid transaction `k` times keeps it valid exactly when `k` is not zero. */
  lemma ScaledValid(t: Transaction, k: nat)
    requires IsValid(t)
    ensures IsValid(Scaled(t, k)) <==> k > 0
  {
    var u := Scaled(t, k);
    ScaledAmountZero(t.amount, k);
    ValidWithAmount(t, u);
  }

  /** A scaled amount is zero exactly when the amount or the factor is. */
  lemma ScaledAmountZero(x: real, k: nat)
    ensures x * (k as real) == 0.0 <==> x == 0.0 || k == 0
  {
    ProductZero(x, k as real);
  }

  /** A valid transaction with only its amount replaced stays valid exactly when the new amount is non-zero. */
  lemma ValidWithAmount(t: Transaction, u: Transaction)
    requires IsValid(t) && u == t.(amount := u.amount)
    ensures IsValid(u) <==> u.amount != 0.0
  {
    assert u.name == t.name && u.description == t.description;
    assert u.startDate == t.startDate && u.endDate == t.endDate;
  }

  lemma ProductZero(a: real, b: real)
    ensures a * b == 0.0 <==> a == 0.0 || b == 0.0
  {
  }

  // ---------------------------------------------------------------------
  // Stored form
  // ---------------------------------------------------------------------

  /** `TransactionHelper`: the stored fields, dates as `%Y-%m-%d` text. */
  datatype TransactionRecord = TransactionRecord(
    name: string,
    description: Option<string>,
    amount: real,
    cycle: Cycles.Cycle,
    startDate: string,
    endDate: Option<string>)

  datatype DecodeError = InvalidStartDate | InvalidEndDate | EndBeforeStart

  /** `Serialize for Transaction`: everything but the id, dates formatted. */
  function Encode(t: Transaction): TransactionRecord {
    TransactionRecord(t.name, t.description, t.amount, t.cycle, FormatDate(t.startDate),
      match t.endDate case None => None case Some(e) => Some(FormatDate(e)))
  }

  /**
   * `Deserialize for Transaction` with the id it would draw passed in:
   * the start date must parse, then the end date (when present), and the
   * end must not be before the start.
   */
  function Decode(h: TransactionRecord, id: nat): (r: Result<Transaction, DecodeError>)
    ensures r == Err(InvalidStartDate) <==> ParseDate(h.startDate).None?
    ensures r == Err(InvalidEndDate) <==>
      ParseDate(h.startDate).Some? && h.endDate.Some? && ParseDate(h.endDate.value).None?
    ensures r == Err(EndBeforeStart) <==>
      && ParseDate(h.startDate).Some? && h.endDate.Some? && ParseDate(h.endDate.value).Some?
      && Less(ParseDate(h.endDate.value).value, ParseDate(h.startDate).value)
    ensures r.Ok? <==>
      && ParseDate(h.startDate).Some?
      && (h.endDate.Some? ==>
            ParseDate(h.endDate.value).Some?
            && !Less(ParseDate(h.endDate.value).value, ParseDate(h.startDate).value))
    ensures r.Ok? ==>
      && r.value.id == id && r.value.name == h.name && r.value.description == h.description
      && r.value.amount == h.amount && r.value.cycle == h.cycle
      && Some(r.value.startDate) == ParseDate(h.startDate)
      && (r.value.endDate.None? <==> h.endDate.None?)
      && (r.value.endDate.Some? ==> Some(r.value.endDate.value) == ParseDate(h.endDate.value))
      && (r.value.endDate.Some? ==> LessEq(r.value.startDate, r.value.endDate.value))
  {
    match ParseDate(h.startDate)
    case None => Err(InvalidStartDate)
    case Some(startDate) =>
      var endDate :=
        match h.endDate
        case None => Ok(None)
        case Some(s) =>
          match ParseDate(s)
          case None => Err(InvalidEndDate)
          case Some(e) => Ok(Some(e));
      match endDate
      case Err(e) => Err(e)
      case Ok(endDate) =>
        if endDate.Some? && Less(endDate.value, startDate) then Err(EndBeforeStart)
        else Ok(Transaction(id, h.name, h.description, h.amount, h.cycle, startDate, endDate))
  }

  /** `Deserialize for Transaction`: the counter advances only when decoding succeeds. */
  method Deserialize(h: TransactionRecord, counter: IdCounter) returns (r: Result<Transaction, DecodeError>)
    modifies counter
    ensures r == Decode(h, old(counter.next))
    ensures counter.next == old(counter.next) + (if r.Ok? then 1 else 0)
  {
    var startDate := ParseDate(h.startDate);
    if startDate.None? {
      return Err(InvalidStartDate);
    }
    var endDate: Option<Date> := None;
    if h.endDate.Some? {
      var e := ParseDate(h.endDate.value);
      if e.None? {
        return Err(InvalidEndDate);
      }
      endDate := e;
    }
    if endDate.Some? && Less(endDate.value, startDate.value) {
      return Err(EndBeforeStart);
    }
    var id := counter.FetchAdd();
    r := Ok(Transaction(id, h.name, h.description, h.amount, h.cycle, startDate.value, endDate));
  }

  /**
   * Storing and loading gives the transaction back under its new id, unless
   * its end date is before its start date, which loading refuses.
   */
  lemma DecodeEncode(t: Transaction, id: nat)
    ensures Decode(Encode(t), id) ==
      if t.endDate.Some? && Less(t.endDate.value, t.startDate) then Err(EndBeforeStart)
      else Ok(t.(id := id))
  {
    ParseFormat(t.startDate);
    if t.endDate.Some? {
      ParseFormat(t.endDate.value);
    }
  }

  /** Every valid transaction survives storing and loading. */
  lemma ValidRoundTrips(t: Transaction, id: nat)
    requires IsValid(t)
    ensures Decode(Encode(t), id) == Ok(t.(id := id))
  {
    DecodeEncode(t, id);
  }
}
