/**
 * Income and expense totals (src/data/balance.rs): a left fold that sends
 * each amount to exactly one bucket, pointwise joining, the net figure, and
 * its sign-prefixed text.
 */
module Balances {
  import opened Text
  import opened Numbers
  import opened Formatting
  import Transactions

  /** `Balance`; `Balance::default()` is `Zero()`. */
  datatype Balance = Balance(income: real, expense: real)

  function Zero(): Balance {
    Balance(0.0, 0.0)
  }

  /** The fold step: a non-negative amount is income, a negative one adds its size to the expense. */
  function Step(b: Balance, t: Transactions.Transaction): Balance {
    if t.amount >= 0.0 then Balance(b.income + t.amount, b.expense)
    else Balance(b.income, b.expense + Abs(t.amount))
  }

  /** `iter().fold(acc, step)` */
  function Fold(acc: Balance, ts: seq<Transactions.Transaction>): Balance
    decreases |ts|
  {
    if ts == [] then acc else Fold(Step(acc, ts[0]), ts[1..])
  }

  /** `Balance::from_transactions` */
  function FromTransactions(ts: seq<Transactions.Transaction>): Balance {
    Fold(Zero(), ts)
  }

  /** `net_balance` */
  function NetBalance(b: Balance): real {
    b.income - b.expense
  }

  /** `join`: add bucket by bucket. */
  function Join(a: Balance, b: Balance): Balance {
    Balance(a.income + b.income, a.expense + b.expense)
  }

  // ---------------------------------------------------------------------
  // Reference sums
  // ---------------------------------------------------------------------

  /** The sum of the amounts that are not negative. */
  function Income(ts: seq<Transactions.Transaction>): (r: real)
    ensures r >= 0.0
  {
    if ts == [] then 0.0
    else (if ts[0].amount >= 0.0 then ts[0].amount else 0.0) + Income(ts[1..])
  }

  /** The sum of the sizes of the negative amounts. */
  function Expense(ts: seq<Transactions.Transaction>): (r: real)
    ensures r >= 0.0
  {
    if ts == [] then 0.0
    else (if ts[0].amount < 0.0 then -ts[0].amount else 0.0) + Expense(ts[1..])
  }

  /** The plain sum of all amounts. */
  function Total(ts: seq<Transactions.Transaction>): real {
    if ts == [] then 0.0 else ts[0].amount + Total(ts[1..])
  }

  /** The fold adds the income and the expense of the rest to the accumulator. */
  lemma {:induction false} FoldSums(acc: Balance, ts: seq<Transactions.Transaction>)
    ensures Fold(acc, ts) == Balance(acc.income + Income(ts), acc.expense + Expense(ts))
    decreases |ts|
  {
    if ts != [] {
      FoldSums(Step(acc, ts[0]), ts[1..]);
    }
  }

  /**
   * `from_transactions` puts every non-negative amount (zero included) in
   * `income` and the size of every negative amount in `expense`, so both
   * buckets are never negative.
   */
  lemma FromTransactionsSums(ts: seq<Transactions.Transaction>)
    ensures FromTransactions(ts) == Balance(Income(ts), Expense(ts))
    ensures FromTransactions(ts).income >= 0.0 && FromTransactions(ts).expense >= 0.0
  {
    FoldSums(Zero(), ts);
  }

  /** Each transaction feeds one bucket: income minus expense is the sum of the amounts. */
  lemma {:induction false} NetIsTotal(ts: seq<Transactions.Transaction>)
    ensures NetBalance(FromTransactions(ts)) == Total(ts)
  {
    FromTransactionsSums(ts);
    IncomeMinusExpense(ts);
  }

  lemma {:induction false} IncomeMinusExpense(ts: seq<Transactions.Transaction>)
    ensures Income(ts) - Expense(ts) == Total(ts)
  {
    if ts != [] {
      IncomeMinusExpense(ts[1..]);
    }
  }

  lemma {:induction false} IncomeConcat(a: seq<Transactions.Transaction>, b: seq<Transactions.Transaction>)
    ensures Income(a + b) == Income(a) + Income(b)
    ensures Expense(a + b) == Expense(a) + Expense(b)
  {
    if a == [] {
      assert a + b == b;
    } else {
      assert (a + b)[1..] == a[1..] + b;
      IncomeConcat(a[1..], b);
    }
  }

  /** Folding a concatenation is joining the folds of the parts. */
  lemma FromTransactionsConcat(a: seq<Transactions.Transaction>, b: seq<Transactions.Transaction>)
    ensures FromTransactions(a + b) == Join(FromTransactions(a), FromTransactions(b))
  {
    FromTransactionsSums(a);
    FromTransactionsSums(b);
    FromTransactionsSums(a + b);
    IncomeConcat(a, b);
  }

  /** `join` is commutative and associative, with the zero balance as identity. */
  lemma JoinMonoid(a: Balance, b: Balance, c: Balance)
    ensures Join(a, b) == Join(b, a)
    ensures Join(Join(a, b), c) == Join(a, Join(b, c))
    ensures Join(a, Zero()) == a && Join(Zero(), a) == a
    ensures NetBalance(Join(a, b)) == NetBalance(a) + NetBalance(b)
  {
  }

  // ---------------------------------------------------------------------
  // Text
  // ---------------------------------------------------------------------

  /** The sign shown in front: only when asked for, "+" from zero up and "-" below. */
  function SignPrefix(value: real, prefixSign: bool): string {
    if prefixSign && value >= 0.0 then "+"
    else if prefixSign then "-"
    else ""
  }

  /**
   * `Balance::format_value`: the sign prefix, the integer part of `{:.2}` of
   * the size grouped by threes, the point and the two decimals.
   */
  function FormatValue(value: real, prefixSign: bool): string {
    var absValue := Abs(value);
    var parts := Split(FixedTwo(absValue), '.');
    SplitFixedTwo(absValue);
    var intPart, decPart := parts[0], parts[1];
    SignPrefix(value, prefixSign) + Grouped(intPart) + "." + decPart
  }

  /** `formatted_balance`: the net figure, always signed. */
  function FormattedBalance(b: Balance): string {
    FormatValue(NetBalance(b), true)
  }

  /**
   * What the text says: the prefix is "+" or "-" exactly as the sign and
   * the flag ask, the text ends in a point and two digits, and the digits
   * with the spaces removed denote the size in hundredths.
   */
  lemma FormatValueMeaning(value: real, prefixSign: bool)
    ensures var r := FormatValue(value, prefixSign);
      var p := SignPrefix(value, prefixSign);
      var g := Grouped(IntDigits(Abs(value)));
      var d := DecDigits(Abs(value));
      && r == p + g + "." + d
      && (prefixSign <==> |p| == 1)
      && (p == "+" <==> prefixSign && value >= 0.0)
      && (p == "-" <==> prefixSign && value < 0.0)
      && ' ' !in d && '.' !in g && |d| == 2 && AllDigits(d)
      && AllDigits(RemoveSpaces(g))
      && DigitsValue(RemoveSpaces(g)) * 100 + DigitsValue(d) == Cents(Abs(value))
  {
    var a := Abs(value);
    SplitFixedTwo(a);
    FixedTwoDenotes(a);
    DigitsHaveNoPoint(DecDigits(a));
    GroupedNoPoint(IntDigits(a));
  }

  /** Grouping only adds spaces, so no point appears. */
  lemma GroupedNoPoint(s: string)
    requires AllDigits(s)
    ensures '.' !in Grouped(s)
  {
    DigitsHaveNoPoint(s);
    GroupedChars(s);
  }

  lemma {:induction false} GroupedChars(s: string)
    ensures forall c :: c in Grouped(s) ==> c in s || c == ' '
    decreases |s|
  {
    GroupedIsByThrees(s);
    if |s| > 3 {
      GroupedChars(s[..|s| - 3]);
      GroupedIsByThrees(s[..|s| - 3]);
      forall c | c in Grouped(s)
        ensures c in s || c == ' '
      {
        var front := s[..|s| - 3];
        var back := s[|s| - 3..];
        assert s == front + back;
        if c in Grouped(front) {
          assert c in front || c == ' ';
        }
      }
    }
  }

  /** A formatted balance carries its sign: "+" for a net figure from zero up, "-" below zero. */
  lemma FormattedBalanceSign(b: Balance)
    ensures FormattedBalance(b)[0] == (if NetBalance(b) >= 0.0 then '+' else '-')
  {
    FormatValueMeaning(NetBalance(b), true);
  }
}
