/**
 * The number formatting shared by balances and currencies: `{:.2}` of a
 * non-negative amount, split at the decimal point, and the integer part
 * grouped by threes with spaces.
 */
module Formatting {
  import opened Text
  import opened Numbers

  /** The amount in hundredths, rounded as `{:.2}` rounds it. */
  function Cents(x: real): (c: nat)
    requires x >= 0.0
    ensures x * 100.0 - 0.5 <= c as real <= x * 100.0 + 0.5
  {
    Round(x * 100.0)
  }

  /** The digits before the point in `{:.2}`. */
  function IntDigits(x: real): string
    requires x >= 0.0
  {
    NatToDigits(Cents(x) / 100)
  }

  /** The two digits after the point in `{:.2}`. */
  function DecDigits(x: real): (d: string)
    requires x >= 0.0
    ensures |d| == 2 && AllDigits(d)
  {
    PaddedValue(Cents(x) % 100, 2);
    DigitsBelowHundred(Cents(x) % 100);
    PadZeros(NatToDigits(Cents(x) % 100), 2)
  }

  /** `format!("{:.2}", x)` for a non-negative `x`. */
  function FixedTwo(x: real): string
    requires x >= 0.0
  {
    IntDigits(x) + "." + DecDigits(x)
  }

  /**
   * `split('.')` of the `{:.2}` text: exactly the integer digits and the two
   * decimals, so `parts[0]` and `parts[1]` both exist.
   */
  lemma SplitFixedTwo(x: real)
    requires x >= 0.0
    ensures Split(FixedTwo(x), '.') == [IntDigits(x), DecDigits(x)]
  {
    var a, b := IntDigits(x), DecDigits(x);
    DigitsHaveNoPoint(a);
    DigitsHaveNoPoint(b);
    assert Join([a, b], '.') == FixedTwo(x) by {
      assert Join([b], '.') == b;
    }
    SplitJoin([a, b], '.');
  }

  lemma DigitsHaveNoPoint(s: string)
    requires AllDigits(s)
    ensures '.' !in s && ' ' !in s
  {
  }

  lemma DigitsBelowHundred(n: nat)
    requires n < 100
    ensures |NatToDigits(n)| <= 2
  {
    if n >= 10 {
      assert NatToDigits(n) == NatToDigits(n / 10) + [DigitChar(n % 10)];
    }
  }

  /**
   * Reading the formatted digits back, with the separators deleted, gives
   * the rounded amount in hundredths.
   */
  lemma FixedTwoDenotes(x: real)
    requires x >= 0.0
    ensures AllDigits(RemoveSpaces(Grouped(IntDigits(x))))
    ensures DigitsValue(RemoveSpaces(Grouped(IntDigits(x)))) * 100 + DigitsValue(DecDigits(x)) == Cents(x)
  {
    var a := IntDigits(x);
    DigitsHaveNoPoint(a);
    GroupedStripsBack(a);
    DigitsRoundTrip(Cents(x) / 100);
    PaddedValue(Cents(x) % 100, 2);
  }
}
