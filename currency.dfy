/**
 * Currencies (src/data/currency.rs): the fixed symbol and name tables,
 * case-insensitive parsing, rounding to whole yen or to hundredths,
 * conversion through rates relative to the euro, and the amount text.
 */
module Currencies {
  import opened Wrappers
  import opened Text
  import opened Numbers
  import opened Formatting

  datatype Currency = USD | EUR | CAD | GBP | JPY

  /** `Currency::CURRENCIES`: symbol, code and name, in declaration order. */
  const Table: seq<(string, string, string)> := [
    ("$", "USD", "US Dollar"),
    ("€", "EUR", "Euro"),
    ("$", "CAD", "Canadian Dollar"),
    ("£", "GBP", "Pound Sterling"),
    ("¥", "JPY", "Japanese Yen")
  ]

  /** `Currency::count` */
  const Count: nat := |Table|

  /** The discriminant, `*self as usize`. */
  function Index(c: Currency): (i: nat)
    ensures i < |Table|
  {
    match c
    case USD => 0
    case EUR => 1
    case CAD => 2
    case GBP => 3
    case JPY => 4
  }

  /** `Currency::as_slice` */
  function AllCurrencies(): seq<Currency> {
    [USD, EUR, CAD, GBP, JPY]
  }

  function Symbol(c: Currency): string {
    Table[Index(c)].0
  }

  /** `as_short_str`, which is also what `Display` writes. */
  function ShortStr(c: Currency): string {
    Table[Index(c)].1
  }

  function LongStr(c: Currency): string {
    Table[Index(c)].2
  }

  /** `Default for Currency` */
  function Default(): Currency {
    USD
  }

  predicate IsDefault(c: Currency) {
    c == Default()
  }

  /** The tables line up with the declaration order, and each code names one currency. */
  lemma TablesInOrder()
    ensures Count == 5 && |AllCurrencies()| == Count
    ensures forall i :: 0 <= i < |AllCurrencies()| ==> Index(AllCurrencies()[i]) == i
    ensures forall c :: c in AllCurrencies()
    ensures forall c1, c2 :: ShortStr(c1) == ShortStr(c2) ==> c1 == c2
    ensures IsDefault(USD) && ShortStr(Default()) == "USD"
  {
    forall c ensures c in AllCurrencies() {
      assert AllCurrencies()[Index(c)] == c;
    }
  }

  /**
   * `Currency::from_str`: trim, upper-case, and match the five codes.
   * Upper-casing is modelled on ASCII letters.
   */
  function FromStr(input: string): Result<Currency, ()> {
    Lookup(Upper(Trim(input)))
  }

  /** The `match` of `from_str` on the normalised text. */
  function Lookup(key: string): (r: Result<Currency, ()>)
    ensures forall c :: r == Ok(c) <==> key == ShortStr(c)
  {
    assert ShortStr(USD) == "USD" && ShortStr(EUR) == "EUR" && ShortStr(CAD) == "CAD";
    assert ShortStr(GBP) == "GBP" && ShortStr(JPY) == "JPY";
    if key == "USD" then Ok(USD)
    else if key == "EUR" then Ok(EUR)
    else if key == "CAD" then Ok(CAD)
    else if key == "GBP" then Ok(GBP)
    else if key == "JPY" then Ok(JPY)
    else Err(())
  }

  /** Parsing succeeds with `c` exactly when the trimmed, upper-cased text is `c`'s code. */
  lemma FromStrSpec(input: string, c: Currency)
    ensures FromStr(input) == Ok(c) <==> Upper(Trim(input)) == ShortStr(c)
  {
  }

  /** Every code parses back to its currency. */
  lemma FromStrShortStr(c: Currency)
    ensures FromStr(ShortStr(c)) == Ok(c)
  {
    var s := ShortStr(c);
    CodeIsUpper(c);
    CodeNormal(s);
    FromStrNormalised(s, s, c);
  }

  /** Three capital letters are their own trim and their own upper case. */
  lemma CodeNormal(s: string)
    requires |s| == 3 && forall i :: 0 <= i < |s| ==> 'A' <= s[i] <= 'Z'
    ensures Trim(s) == s && Upper(s) == s
  {
    TrimKeeps(s);
    UpperKeepsUpper(s);
  }

  /** Every code is three capital letters. */
  lemma CodeIsUpper(c: Currency)
    ensures |ShortStr(c)| == 3
    ensures forall i :: 0 <= i < |ShortStr(c)| ==> 'A' <= ShortStr(c)[i] <= 'Z'
  {
    match c
    case USD => assert ShortStr(c) == "USD";
    case EUR => assert ShortStr(c) == "EUR";
    case CAD => assert ShortStr(c) == "CAD";
    case GBP => assert ShortStr(c) == "GBP";
    case JPY => assert ShortStr(c) == "JPY";
  }

  /** Upper-casing leaves capital letters alone. */
  lemma UpperKeepsUpper(s: string)
    requires forall i :: 0 <= i < |s| ==> 'A' <= s[i] <= 'Z'
    ensures Upper(s) == s
  {
  }

  /** A string that does not start with whitespace keeps its start. */
  lemma TrimKeepsStart(s: string)
    requires s != [] && !IsWhitespace(s[0])
    ensures TrimStart(s) == s
  {
  }

  /** A string that neither starts nor ends with whitespace is its own trim. */
  lemma TrimKeeps(s: string)
    requires s != [] && !IsWhitespace(s[0]) && !IsWhitespace(s[|s| - 1])
    ensures Trim(s) == s
  {
    assert TrimStart(s) == s;
  }

  /** Surrounding spaces and lower case do not matter: " usd " parses as USD, and so on. */
  lemma FromStrIgnoresCaseAndSpace(c: Currency)
    ensures FromStr(" " + Lower(ShortStr(c)) + " ") == Ok(c)
  {
    var s := ShortStr(c);
    CodeIsUpper(c);
    var t := " " + Lower(s) + " ";
    assert t[1..|t| - 1] == Lower(s);
    assert !IsWhitespace(t[1]) && !IsWhitespace(t[|t| - 2]) by {
      assert t[1] == Lower(s)[0] && t[|t| - 2] == Lower(s)[2];
    }
    TrimOneEachSide(t);
    UpperOfLower(s);
    FromStrNormalised(t, s, c);
  }

  /** Upper-casing undoes lower-casing on capital letters. */
  lemma UpperOfLower(s: string)
    requires forall i :: 0 <= i < |s| ==> 'A' <= s[i] <= 'Z'
    ensures Upper(Lower(s)) == s
  {
  }

  /** One whitespace character on each side is what `trim` removes. */
  lemma TrimOneEachSide(s: string)
    requires |s| >= 3 && IsWhitespace(s[0]) && IsWhitespace(s[|s| - 1])
    requires !IsWhitespace(s[1]) && !IsWhitespace(s[|s| - 2])
    ensures Trim(s) == s[1..|s| - 1]
  {
    var u := s[1..];
    assert TrimStart(s) == u by { TrimKeepsStart(u); }
    var m := u[..|u| - 1];
    assert m == s[1..|s| - 1];
    assert TrimEnd(u) == TrimEnd(m);
  }

  /** Text whose normal form is `c`'s code parses as `c`. */
  lemma FromStrNormalised(input: string, key: string, c: Currency)
    requires Upper(Trim(input)) == key && key == ShortStr(c)
    ensures FromStr(input) == Ok(c)
  {
    assert Lookup(key) == Ok(c);
  }

  // ---------------------------------------------------------------------
  // Rounding and conversion
  // ---------------------------------------------------------------------

  /** `normalize_amount`: 0 for a non-finite amount, whole yen, hundredths otherwise. */
  function NormalizeAmount(c: Currency, amount: F64): (r: real)
    ensures amount.NonFinite? ==> r == 0.0
    ensures amount.Finite? && c == JPY ==> Abs(r - amount.value) <= 0.5 && r == r.Floor as real
    ensures amount.Finite? && c != JPY ==>
      Abs(r - amount.value) <= 0.005 && r * 100.0 == (r * 100.0).Floor as real
  {
    match amount
    case NonFinite => 0.0
    case Finite(x) =>
      if c == JPY then Round(x) as real
      else Round(x * 100.0) as real / 100.0
  }

  /** Rounding an already rounded amount changes nothing. */
  lemma NormalizeIdempotent(c: Currency, x: real)
    ensures NormalizeAmount(c, Finite(NormalizeAmount(c, Finite(x)))) == NormalizeAmount(c, Finite(x))
  {
    if c == JPY {
      RoundOfInteger(Round(x));
    } else {
      var n := Round(x * 100.0);
      assert (n as real / 100.0) * 100.0 == n as real;
      RoundOfInteger(n);
    }
  }

  /**
   * `get_exchange_rate`: the euro is 1, every other currency reads its
   * entry of the fetched table (an entry the service did not send is 0).
   */
  function Rate(c: Currency, rates: seq<real>): (r: real)
    requires |rates| == Count
    ensures c == EUR ==> r == 1.0
  {
    if c == EUR then 1.0 else rates[Index(c)]
  }

  /**
   * `convert_amount`: the same currency or a non-finite amount passes
   * through; otherwise the amount times the target rate over the source
   * rate, rounded by the SOURCE currency's rule. A source rate of 0 makes
   * the ratio non-finite, which rounding turns into 0.
   */
  function ConvertAmount(from: Currency, amount: F64, to: Currency, rates: seq<real>): (r: F64)
    requires |rates| == Count
    ensures from == to || amount.NonFinite? ==> r == amount
    ensures from != to && amount.Finite? ==> r.Finite?
  {
    if from == to || amount.NonFinite? then amount
    else
      var originRate := Rate(from, rates);
      var targetRate := Rate(to, rates);
      if originRate == 0.0 then Finite(NormalizeAmount(from, NonFinite))
      else Finite(NormalizeAmount(from, Finite(Exchanged(amount.value, targetRate, originRate))))
  }

  /** The amount in the target currency before rounding. */
  function Exchanged(x: real, targetRate: real, originRate: real): (r: real)
    requires originRate != 0.0
    ensures r * originRate == x * targetRate
  {
    x * (targetRate / originRate)
  }

  /**
   * Against the exact conversion: when the source rate is known the result
   * is within half a unit (yen) or half a hundredth (others) of
   * `amount * rate(to) / rate(from)`.
   */
  lemma ConvertNearExact(from: Currency, x: real, to: Currency, rates: seq<real>)
    requires |rates| == Count && from != to && Rate(from, rates) != 0.0
    ensures var exact := Exchanged(x, Rate(to, rates), Rate(from, rates));
      var r := ConvertAmount(from, Finite(x), to, rates).value;
      Abs(r - exact) <= (if from == JPY then 0.5 else 0.005)
  {
  }

  /** From the euro, the rate of the target is the factor. */
  lemma ConvertFromEuro(x: real, to: Currency, rates: seq<real>)
    requires |rates| == Count && to != EUR
    ensures ConvertAmount(EUR, Finite(x), to, rates) == Finite(NormalizeAmount(EUR, Finite(x * rates[Index(to)])))
  {
    var rt := rates[Index(to)];
    assert Rate(EUR, rates) == 1.0 && Rate(to, rates) == rt;
    assert Exchanged(x, rt, 1.0) == x * rt;
  }

  /** A missing source rate turns every conversion into 0. */
  lemma ConvertUnknownSource(from: Currency, x: real, to: Currency, rates: seq<real>)
    requires |rates| == Count && from != to && Rate(from, rates) == 0.0
    ensures ConvertAmount(from, Finite(x), to, rates) == Finite(0.0)
  {
  }

  // ---------------------------------------------------------------------
  // Text
  // ---------------------------------------------------------------------

  /**
   * `format_amount` as written: "N/A" for a non-finite value; for the yen,
   * the symbol and the grouped rounded size, without any sign; otherwise
   * "-" for a negative value, the symbol, the grouped integer part, the
   * point and two decimals.
   */
  function FormatAmount(c: Currency, value: F64): string {
    match value
    case NonFinite => "N/A"
    case Finite(v) =>
      var prefix := if v < 0.0 then "-" else "";
      var absValue := Abs(v);
      if c == JPY then
        Symbol(c) + Grouped(NatToDigits(Round(absValue)))
      else
        var parts := Split(FixedTwo(absValue), '.');
        SplitFixedTwo(absValue);
        prefix + Symbol(c) + Grouped(parts[0]) + "." + parts[1]
  }

  /**
   * A negative yen amount prints exactly like its positive counterpart, for
   * every amount; −5 yen, for one, prints as "¥5".
   */
  lemma FormatAmountDropsYenSign(v: real)
    ensures FormatAmount(JPY, Finite(-v)) == FormatAmount(JPY, Finite(v))
    ensures FormatAmount(JPY, Finite(-5.0)) == FormatAmount(JPY, Finite(5.0)) == "¥" + "5"
    ensures '-' !in FormatAmount(JPY, Finite(-5.0))
  {
    assert Abs(-v) == Abs(v);
    assert Round(5.0) == 5;
    assert Grouped("5") == "5" by {
      GroupedIsByThrees("5");
    }
  }

  /** `format_amount` with the sign kept in the yen branch as well. */
  function FormatAmountSigned(c: Currency, value: F64): string {
    match value
    case NonFinite => "N/A"
    case Finite(v) =>
      var prefix := if v < 0.0 then "-" else "";
      var absValue := Abs(v);
      if c == JPY then
        prefix + Symbol(c) + Grouped(NatToDigits(Round(absValue)))
      else
        var parts := Split(FixedTwo(absValue), '.');
        SplitFixedTwo(absValue);
        prefix + Symbol(c) + Grouped(parts[0]) + "." + parts[1]
  }

  /**
   * The signed text starts with "-" exactly for negative values, in every
   * currency, and agrees with `format_amount` wherever the value is not a
   * negative yen amount.
   */
  lemma FormatAmountSignedKeepsSign(c: Currency, v: real)
    ensures FormatAmountSigned(c, Finite(v))[0] == '-' <==> v < 0.0
    ensures !(c == JPY && v < 0.0) ==> FormatAmountSigned(c, Finite(v)) == FormatAmount(c, Finite(v))
  {
    assert Symbol(c)[0] != '-';
  }

  /**
   * For the non-yen currencies the text is the sign, the symbol, the grouped
   * integer part, the point and two decimals; deleting the spaces gives back
   * the plain digits, which denote the size in hundredths.
   */
  lemma FormatAmountMeaning(c: Currency, v: real)
    requires c != JPY
    ensures var a := Abs(v);
      var g := Grouped(IntDigits(a));
      && FormatAmount(c, Finite(v)) == (if v < 0.0 then "-" else "") + Symbol(c) + g + "." + DecDigits(a)
      && RemoveSpaces(g) == IntDigits(a)
      && DigitsValue(RemoveSpaces(g)) * 100 + DigitsValue(DecDigits(a)) == Cents(a)
  {
    var a := Abs(v);
    SplitFixedTwo(a);
    FixedTwoDenotes(a);
    DigitsHaveNoPoint(IntDigits(a));
    GroupedStripsBack(IntDigits(a));
  }

  /** For the yen, the grouped digits with the spaces deleted are the rounded size. */
  lemma FormatAmountYen(v: real)
    ensures var digits := NatToDigits(Round(Abs(v)));
      && FormatAmount(JPY, Finite(v)) == Symbol(JPY) + Grouped(digits)
      && RemoveSpaces(Grouped(digits)) == digits
      && DigitsValue(digits) == Round(Abs(v))
  {
    var digits := NatToDigits(Round(Abs(v)));
    DigitsHaveNoPoint(digits);
    GroupedStripsBack(digits);
    DigitsRoundTrip(Round(Abs(v)));
  }
}
