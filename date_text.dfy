/**
 * The `%Y-%m-%d` text form of a date, as chrono formats and parses it:
 * a year of at least four digits (with an explicit sign outside 0..9999),
 * then a two-digit month and a two-digit day. Parsing skips whitespace
 * before each of the three numeric fields, then accepts one to four year
 * digits without a sign (any number right after a sign), one or two month
 * and day digits, and nothing after the day; the date must exist.
 */
module DateText {
  import opened Wrappers
  import opened Text
  import opened Calendar

  // ---------------------------------------------------------------------
  // Formatting
  // ---------------------------------------------------------------------

  /** `%Y`: four digits, zero-padded; outside 0..9999 a sign and at least four digits. */
  function FormatYear(y: int): string {
    if 0 <= y < 10000 then PadZeros(NatToDigits(y), 4)
    else if y < 0 then "-" + PadZeros(NatToDigits(-y), 4)
    else "+" + PadZeros(NatToDigits(y), 4)
  }

  /** `%m` and `%d`: two digits, zero-padded. */
  function FormatTwoDigits(n: nat): string {
    PadZeros(NatToDigits(n), 2)
  }

  /** `date.format("%Y-%m-%d")` */
  function FormatDate(d: Date): string {
    FormatYear(d.year) + "-" + FormatTwoDigits(d.month) + "-" + FormatTwoDigits(d.day)
  }

  // ---------------------------------------------------------------------
  // Parsing
  // ---------------------------------------------------------------------

  /** How many digits `s` starts with, counting at most `max`. */
  function LeadingDigits(s: string, max: nat): (k: nat)
    ensures k <= max && k <= |s| && AllDigits(s[..k])
  {
    if s == [] || max == 0 || !IsDigit(s[0]) then 0
    else
      var k := 1 + LeadingDigits(s[1..], max - 1);
      assert s[..k] == [s[0]] + s[1..][..k - 1];
      k
  }

  /** chrono's `scan::number(s, 1, max)`: one to `max` digits, and what follows them. */
  function ScanNumber(s: string, max: nat): Option<(nat, string)> {
    var k := LeadingDigits(s, max);
    if k == 0 then None else Some((DigitsValue(s[..k]), s[k..]))
  }

  /**
   * A numeric field: chrono drops leading whitespace (`trim_start`) before
   * scanning the digits of `%Y`, `%m` and `%d`.
   */
  function ScanField(s: string, max: nat): Option<(nat, string)> {
    ScanNumber(TrimStart(s), max)
  }

  /**
   * The `%Y` field: after leading whitespace, a sign and any number of
   * digits, or one to four digits.
   */
  function ScanYear(s: string): Option<(int, string)> {
    var t := TrimStart(s);
    if t != [] && (t[0] == '-' || t[0] == '+') then
      match ScanNumber(t[1..], |t|)
      case None => None
      case Some((v, rest)) => Some((Signed(t[0], v), rest))
    else
      match ScanNumber(t, 4)
      case None => None
      case Some((v, rest)) => Some((v as int, rest))
  }

  /** The value of a signed year field. */
  function Signed(sign: char, v: nat): int {
    if sign == '-' then -(v as int) else v
  }

  /** A literal character of the format. */
  function Expect(s: string, c: char): Option<string> {
    if s != [] && s[0] == c then Some(s[1..]) else None
  }

  /** `NaiveDate::parse_from_str(s, "%Y-%m-%d")` */
  function ParseDate(s: string): Option<Date> {
    match ScanYear(s)
    case None => None
    case Some((y, s1)) => ParseMonthDay(y, s1)
  }

  /** The "-%m-%d" that follows the year, and nothing after it. */
  function ParseMonthDay(y: int, s1: string): Option<Date> {
    match Expect(s1, '-')
    case None => None
    case Some(s2) =>
      match ScanField(s2, 2)
      case None => None
      case Some((m, s3)) => ParseDay(y, m, s3)
  }

  /** The "-%d" that follows the month, and nothing after it. */
  function ParseDay(y: int, m: nat, s3: string): Option<Date> {
    match Expect(s3, '-')
    case None => None
    case Some(s4) =>
      match ScanField(s4, 2)
      case None => None
      case Some((d, s5)) =>
        if s5 != [] then None else FromYmdOpt(y, m, d)
  }

  // ---------------------------------------------------------------------
  // Round trip
  // ---------------------------------------------------------------------

  lemma {:induction false} LeadingDigitsOf(a: string, b: string, max: nat)
    requires AllDigits(a) && |a| <= max
    requires |a| == max || b == [] || !IsDigit(b[0])
    ensures LeadingDigits(a + b, max) == |a|
  {
    if a != [] {
      assert (a + b)[1..] == a[1..] + b;
      LeadingDigitsOf(a[1..], b, max - 1);
    } else if max > 0 {
      assert a + b == b;
    }
  }

  lemma ScanNumberOf(a: string, b: string, max: nat)
    requires AllDigits(a) && 1 <= |a| <= max
    requires |a| == max || b == [] || !IsDigit(b[0])
    ensures ScanNumber(a + b, max) == Some((DigitsValue(a), b))
  {
    LeadingDigitsOf(a, b, max);
    assert (a + b)[..|a|] == a;
    assert (a + b)[|a|..] == b;
  }

  /** Text that starts with a digit or a sign has no whitespace to skip. */
  lemma NothingToSkip(s: string)
    requires s != [] && (IsDigit(s[0]) || s[0] == '-' || s[0] == '+')
    ensures TrimStart(s) == s
  {
  }

  lemma ScanTwoDigits(n: nat, rest: string)
    requires 1 <= n <= 99
    requires rest == [] || !IsDigit(rest[0])
    ensures ScanField(FormatTwoDigits(n) + rest, 2) == Some((n, rest))
  {
    PaddedValue(n, 2);
    if n >= 10 {
      assert NatToDigits(n) == NatToDigits(n / 10) + [DigitChar(n % 10)];
    }
    ScanNumberOf(FormatTwoDigits(n), rest, 2);
    NothingToSkip(FormatTwoDigits(n) + rest);
  }

  lemma ScanYearOf(y: int, rest: string)
    requires rest == [] || !IsDigit(rest[0])
    ensures ScanYear(FormatYear(y) + rest) == Some((y, rest))
  {
    if 0 <= y < 10000 {
      ScanPlainYearOf(y, rest);
    } else {
      ScanSignedYearOf(y, rest);
    }
  }

  lemma ScanPlainYearOf(y: int, rest: string)
    requires 0 <= y < 10000
    requires rest == [] || !IsDigit(rest[0])
    ensures ScanYear(FormatYear(y) + rest) == Some((y, rest))
  {
    var digits := PadZeros(NatToDigits(y), 4);
    PaddedValue(y, 4);
    DigitsBound(y);
    assert |digits| == 4;
    var s := digits + rest;
    assert s[0] == digits[0] && IsDigit(digits[0]);
    NothingToSkip(s);
    ScanNumberOf(digits, rest, 4);
  }

  lemma ScanSignedYearOf(y: int, rest: string)
    requires !(0 <= y < 10000)
    requires rest == [] || !IsDigit(rest[0])
    ensures ScanYear(FormatYear(y) + rest) == Some((y, rest))
  {
    var v: nat := if y < 0 then -y else y;
    var digits := PadZeros(NatToDigits(v), 4);
    var sign := if y < 0 then '-' else '+';
    FormatSignedYear(y);
    PaddedScan(v, rest);
    SignedScan(sign, digits + rest, v, rest);
    ConcatAssociative([sign], digits, rest);
  }

  /** A year outside 0..=9999 is written as its sign and at least four digits of its magnitude. */
  lemma FormatSignedYear(y: int)
    requires !(0 <= y < 10000)
    ensures var v: nat := if y < 0 then -y else y;
      FormatYear(y) == [if y < 0 then '-' else '+'] + PadZeros(NatToDigits(v), 4)
      && Signed(if y < 0 then '-' else '+', v) == y
  {
  }

  /** The zero-padded digits of `v`, then a tail that does not start with a digit, scan as `v`. */
  lemma PaddedScan(v: nat, rest: string)
    requires rest == [] || !IsDigit(rest[0])
    ensures var t := PadZeros(NatToDigits(v), 4) + rest;
      ScanNumber(t, |t| + 1) == Some((v, rest))
  {
    var digits := PadZeros(NatToDigits(v), 4);
    PaddedValue(v, 4);
    ScanNumberOf(digits, rest, |digits + rest| + 1);
  }

  /** A sign followed by text whose number scans: the year is that number, signed. */
  lemma SignedScan(sign: char, t: string, value: nat, rest: string)
    requires sign == '-' || sign == '+'
    requires ScanNumber(t, |t| + 1) == Some((value, rest))
    ensures ScanYear([sign] + t) == Some((Signed(sign, value), rest))
  {
    var s := [sign] + t;
    assert s[0] == sign && s[1..] == t;
    NothingToSkip(s);
  }


  /** Numbers below 10 000 have at most four digits. */
  lemma DigitsBound(n: nat)
    requires n < 10000
    ensures |NatToDigits(n)| <= 4
  {
    if n >= 10 {
      DigitsStep(n, 3);
    }
  }

  /** One digit more than the number with its last digit removed. */
  lemma DigitsStep(n: nat, k: nat)
    requires 10 <= n && k <= 3 && n < Pow10(k + 1)
    ensures |NatToDigits(n)| <= k + 1
    decreases k
  {
    assert NatToDigits(n) == NatToDigits(n / 10) + [DigitChar(n % 10)];
    assert n / 10 < Pow10(k);
    if n / 10 >= 10 {
      DigitsStep(n / 10, k - 1);
    }
  }

  /** 10 to the power k, for k up to 4. */
  function Pow10(k: nat): nat {
    if k == 0 then 1 else 10 * Pow10(k - 1)
  }

  /** Parsing what was formatted gives the date back, for every date. */
  lemma ParseFormat(d: Date)
    ensures ParseDate(FormatDate(d)) == Some(d)
  {
    var tail := "-" + FormatTwoDigits(d.month) + "-" + FormatTwoDigits(d.day);
    assert FormatDate(d) == FormatYear(d.year) + tail;
    ScanYearOf(d.year, tail);
    ParseMonthDayOf(d);
  }

  /** Whitespace before the year is skipped: an indented text parses as the text itself. */
  lemma ParseSkipsLeadingWhitespace(ws: string, s: string)
    requires IsBlank(ws)
    ensures ParseDate(ws + s) == ParseDate(s)
  {
    TrimStartSkips(ws, s);
    assert ScanYear(ws + s) == ScanYear(s);
  }

  /** Whitespace before the month or the day is skipped the same way. */
  lemma ScanFieldSkipsWhitespace(ws: string, s: string, max: nat)
    requires IsBlank(ws)
    ensures ScanField(ws + s, max) == ScanField(s, max)
  {
    TrimStartSkips(ws, s);
  }

  /** Whitespace between the '-' and the month digits is skipped. */
  lemma ParseMonthSkipsWhitespace(y: int, ws: string, t: string)
    requires IsBlank(ws)
    ensures ParseMonthDay(y, "-" + ws + t) == ParseMonthDay(y, "-" + t)
  {
    var u, v := "-" + ws + t, "-" + t;
    assert u[0] == '-' && u[1..] == ws + t;
    assert v[0] == '-' && v[1..] == t;
    assert Expect(u, '-') == Some(ws + t);
    assert Expect(v, '-') == Some(t);
    ScanFieldSkipsWhitespace(ws, t, 2);
  }

  /** Whitespace between the '-' and the day digits is skipped. */
  lemma ParseDaySkipsWhitespace(y: int, m: nat, ws: string, t: string)
    requires IsBlank(ws)
    ensures ParseDay(y, m, "-" + ws + t) == ParseDay(y, m, "-" + t)
  {
    var u, v := "-" + ws + t, "-" + t;
    assert u[0] == '-' && u[1..] == ws + t;
    assert v[0] == '-' && v[1..] == t;
    assert Expect(u, '-') == Some(ws + t);
    assert Expect(v, '-') == Some(t);
    ScanFieldSkipsWhitespace(ws, t, 2);
  }

  lemma ParseMonthDayOf(d: Date)
    ensures ParseMonthDay(d.year, "-" + FormatTwoDigits(d.month) + "-" + FormatTwoDigits(d.day)) == Some(d)
  {
    var mm, dd := FormatTwoDigits(d.month), FormatTwoDigits(d.day);
    var tail := "-" + mm + "-" + dd;
    var s2 := mm + ("-" + dd);
    assert tail[1..] == s2;
    assert Expect(tail, '-') == Some(s2);
    ScanTwoDigits(d.month, "-" + dd);
    assert ScanField(s2, 2) == Some((d.month, "-" + dd));
    ParseDayOf(d);
  }

  lemma ParseDayOf(d: Date)
    ensures ParseDay(d.year, d.month, "-" + FormatTwoDigits(d.day)) == Some(d)
  {
    var dd := FormatTwoDigits(d.day);
    var s3 := "-" + dd;
    assert s3[0] == '-' && s3[1..] == dd;
    assert Expect(s3, '-') == Some(dd);
    ScanTwoDigits(d.day, "");
    assert dd + "" == dd;
    assert ScanField(dd, 2) == Some((d.day, ""));
    assert FromYmdOpt(d.year, d.month, d.day) == Some(d);
  }
}
