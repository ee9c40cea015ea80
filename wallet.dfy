/**
 * Wallets (src/data/wallet.rs): a named, single-currency list of
 * transactions keyed by id, with its validity and difference checks, the
 * in-place list updates, the balance, and the projections onto a period
 * and into another currency.
 */
module Wallets {
  import opened Wrappers
  import opened Numbers
  import opened Calendar
  import opened Ids
  import opened IdLists
  import Transactions
  import Balances
  import Currencies
  import Periods

  type Transaction = Transactions.Transaction

  datatype Wallet = Wallet(
    id: nat,
    name: string,
    description: Option<string>,
    currency: Currencies.Currency,
    transactions: seq<Transaction>)

  /** `Wallet::default()`: not yet created, unnamed, in dollars, empty. */
  function Default(): (w: Wallet)
    ensures !IsCreated(w) && !IsValid(w)
    ensures w.currency == Currencies.Default() && w.transactions == []
  {
    Wallet(0, "", None, Currencies.USD, [])
  }

  /** `is_created`: id 0 is reserved for a wallet not yet numbered. */
  predicate IsCreated(w: Wallet) {
    w.id != 0
  }

  /** The key transactions are found and replaced by. */
  function TransactionId(t: Transaction): nat {
    t.id
  }

  // ---------------------------------------------------------------------
  // Validity and difference
  // ---------------------------------------------------------------------

  /** `is_valid`: the transaction name rule, a description of at most 500 bytes, and valid transactions. */
  predicate IsValid(w: Wallet) {
    && Transactions.NameValid(w.name)
    && Transactions.DescriptionValid(w.description)
    && forall t :: t in w.transactions ==> Transactions.IsValid(t)
  }

  /**
   * `is_different`: name, description or currency differ, or some pair of
   * transactions at the same position differs, `zip` stopping at the
   * shorter list.
   */
  predicate IsDifferent(a: Wallet, b: Wallet) {
    a.name != b.name || a.description != b.description || a.currency != b.currency
    || AnyPairDifferent(a.transactions, b.transactions)
  }

  /** `xs.iter().zip(ys.iter()).any(|(x, y)| x.is_different(y))` */
  predicate AnyPairDifferent(xs: seq<Transaction>, ys: seq<Transaction>)
    decreases |xs|
  {
    xs != [] && ys != []
    && (Transactions.IsDifferent(xs[0], ys[0]) || AnyPairDifferent(xs[1..], ys[1..]))
  }

  /** The zip looks at the common prefix only: some position below both lengths differs. */
  lemma {:induction false} AnyPairDifferentIff(xs: seq<Transaction>, ys: seq<Transaction>)
    ensures AnyPairDifferent(xs, ys) <==>
      exists i :: 0 <= i < |xs| && i < |ys| && Transactions.IsDifferent(xs[i], ys[i])
    decreases |xs|
  {
    if xs != [] && ys != [] {
      AnyPairDifferentIff(xs[1..], ys[1..]);
      if exists i :: 0 <= i < |xs| && i < |ys| && Transactions.IsDifferent(xs[i], ys[i]) {
        var i :| 0 <= i < |xs| && i < |ys| && Transactions.IsDifferent(xs[i], ys[i]);
        if i > 0 {
          assert Transactions.IsDifferent(xs[1..][i - 1], ys[1..][i - 1]);
        }
      }
      if AnyPairDifferent(xs[1..], ys[1..]) {
        var i :| 0 <= i < |xs| - 1 && i < |ys| - 1 && Transactions.IsDifferent(xs[1..][i], ys[1..][i]);
        assert Transactions.IsDifferent(xs[i + 1], ys[i + 1]);
      }
    }
  }

  /**
   * A wallet that only gains transactions at the end is not "different":
   * the zip never reaches the extra ones.
   */
  lemma AppendedIsNotDifferent(w: Wallet, extra: seq<Transaction>)
    ensures !IsDifferent(w, w.(transactions := w.transactions + extra))
    ensures !IsDifferent(w.(transactions := w.transactions + extra), w)
  {
    var ts := w.transactions;
    var longer := ts + extra;
    AnyPairDifferentIff(ts, longer);
    AnyPairDifferentIff(longer, ts);
    forall i | 0 <= i < |ts|
      ensures !Transactions.IsDifferent(ts[i], longer[i]) && !Transactions.IsDifferent(longer[i], ts[i])
    {
      assert longer[i] == ts[i];
      Transactions.IsDifferentIgnoresId(ts[i], ts[i]);
    }
  }

  /** Changing one transaction's amount makes the wallet different. */
  lemma ChangedAmountIsDifferent(w: Wallet, i: nat, amount: real)
    requires i < |w.transactions| && amount != w.transactions[i].amount
    ensures IsDifferent(w, w.(transactions := w.transactions[i := w.transactions[i].(amount := amount)]))
  {
    var b := w.transactions[i := w.transactions[i].(amount := amount)];
    assert Transactions.IsDifferent(w.transactions[i], b[i]);
    AnyPairDifferentIff(w.transactions, b);
  }

  // ---------------------------------------------------------------------
  // Identity and the transaction list
  // ---------------------------------------------------------------------

  /** `Wallet::assign_global_id`, drawing from the wallets' own counter. */
  method AssignGlobalId(w: Wallet, counter: IdCounter) returns (r: Wallet)
    modifies counter
    ensures IsCreated(w) ==> r == w && counter.next == old(counter.next)
    ensures !IsCreated(w) ==> r == w.(id := old(counter.next)) && counter.next == old(counter.next) + 1
  {
    if IsCreated(w) {
      r := w;
    } else {
      var id := counter.FetchAdd();
      r := w.(id := id);
    }
  }

  /** `find_transaction_by_id`: the first transaction with that id. */
  function FindTransactionById(w: Wallet, transactionId: nat): (r: Option<Transaction>)
    ensures r.Some? ==> r.value.id == transactionId && exists i ::
      (0 <= i < |w.transactions| && w.transactions[i] == r.value
       && forall j :: 0 <= j < i ==> w.transactions[j].id != transactionId)
    ensures r.None? <==> forall t :: t in w.transactions ==> t.id != transactionId
  {
    Find(w.transactions, transactionId, TransactionId)
  }

  /** `remove_transaction_by_id`: `retain` on the list, everything else kept. */
  method RemoveTransactionById(w: Wallet, transactionId: nat) returns (r: Wallet)
    ensures r == w.(transactions := Removed(w.transactions, transactionId, TransactionId))
  {
    var kept := Retain(w.transactions, transactionId, TransactionId);
    r := w.(transactions := kept);
  }

  /** `add_or_update_transaction`: replace the first one with the same id, or push. */
  method AddOrUpdateTransaction(w: Wallet, t: Transaction) returns (r: Wallet)
    ensures r == w.(transactions := Upserted(w.transactions, t, TransactionId))
  {
    var updated := AddOrUpdate(w.transactions, t, TransactionId);
    r := w.(transactions := updated);
  }

  /** After an update the wallet finds the new transaction under its id, and every other id as before. */
  lemma AddOrUpdateTransactionFinds(w: Wallet, t: Transaction, other: nat)
    requires other != t.id
    ensures var r := w.(transactions := Upserted(w.transactions, t, TransactionId));
      FindTransactionById(r, t.id) == Some(t)
      && FindTransactionById(r, other) == FindTransactionById(w, other)
  {
    UpsertedFind(w.transactions, t, other, TransactionId);
  }

  /** After a removal the id is gone and every other id finds what it found before. */
  lemma RemoveTransactionFinds(w: Wallet, transactionId: nat, other: nat)
    requires other != transactionId
    ensures var r := w.(transactions := Removed(w.transactions, transactionId, TransactionId));
      FindTransactionById(r, transactionId) == None
      && FindTransactionById(r, other) == FindTransactionById(w, other)
  {
    RemovedFind(w.transactions, transactionId, other, TransactionId);
  }

  /** Updating with a valid transaction, or removing one, keeps a valid wallet valid. */
  lemma UpdatesKeepValid(w: Wallet, t: Transaction, transactionId: nat)
    requires IsValid(w)
    ensures Transactions.IsValid(t) ==> IsValid(w.(transactions := Upserted(w.transactions, t, TransactionId)))
    ensures IsValid(w.(transactions := Removed(w.transactions, transactionId, TransactionId)))
  {
    UpsertedElements(w.transactions, t, TransactionId);
    RemovedElements(w.transactions, transactionId, TransactionId);
  }

  // ---------------------------------------------------------------------
  // Balance and projections
  // ---------------------------------------------------------------------

  /** `balance`: every transaction, with no period filter. */
  function Balance(w: Wallet): (r: Balances.Balance)
    ensures r.income == Balances.Income(w.transactions) && r.expense == Balances.Expense(w.transactions)
    ensures Balances.NetBalance(r) == Balances.Total(w.transactions)
  {
    Balances.FromTransactionsSums(w.transactions);
    Balances.NetIsTotal(w.transactions);
    Balances.FromTransactions(w.transactions)
  }

  /** `for_period`: each transaction scaled by its number of occurrences, in the same order. */
  function ForPeriod(w: Wallet, p: Periods.Period, now: Date): (r: Wallet)
    ensures r.(transactions := w.transactions) == w
    ensures |r.transactions| == |w.transactions|
    ensures forall i :: 0 <= i < |w.transactions| ==>
      r.transactions[i].(amount := w.transactions[i].amount) == w.transactions[i]
    ensures forall i :: 0 <= i < |w.transactions| ==>
      r.transactions[i] == Transactions.ForPeriod(w.transactions[i], p, now)
  {
    w.(transactions := seq(|w.transactions|, i requires 0 <= i < |w.transactions| =>
      Transactions.ForPeriod(w.transactions[i], p, now)))
  }

  /** Transactions that start after today add nothing to the balance of the period. */
  lemma ForPeriodNotStarted(w: Wallet, p: Periods.Period, now: Date)
    requires forall t :: t in w.transactions ==> Less(now, t.startDate)
    ensures Balance(ForPeriod(w, p, now)) == Balances.Zero()
  {
    var ts := ForPeriod(w, p, now).transactions;
    forall i | 0 <= i < |ts| ensures ts[i].amount == 0.0 {
      assert Less(now, w.transactions[i].startDate);
    }
    ZeroAmountsBalance(ts);
  }

  lemma {:induction false} ZeroAmountsBalance(ts: seq<Transaction>)
    requires forall i :: 0 <= i < |ts| ==> ts[i].amount == 0.0
    ensures Balances.Income(ts) == 0.0 && Balances.Expense(ts) == 0.0
  {
    if ts != [] {
      ZeroAmountsBalance(ts[1..]);
    }
  }

  /** One transaction's amount moved from `from` to `to`. */
  function Converted(t: Transaction, from: Currencies.Currency, to: Currencies.Currency, rates: seq<real>): (r: Transaction)
    requires |rates| == Currencies.Count
    ensures r.(amount := t.amount) == t
    ensures from == to ==> r == t
  {
    t.(amount := Currencies.ConvertAmount(from, Finite(t.amount), to, rates).value)
  }

  /**
   * `convert_to_currency`: the wallet in `target`, each amount converted
   * from the wallet's own currency; ids, names, dates and order are kept.
   */
  function ConvertToCurrency(w: Wallet, target: Currencies.Currency, rates: seq<real>): (r: Wallet)
    requires |rates| == Currencies.Count
    ensures r.currency == target
    ensures r.(currency := w.currency, transactions := w.transactions) == w
    ensures |r.transactions| == |w.transactions|
    ensures forall i :: 0 <= i < |w.transactions| ==>
      r.transactions[i].(amount := w.transactions[i].amount) == w.transactions[i]
  {
    w.(currency := target, transactions := seq(|w.transactions|, i requires 0 <= i < |w.transactions| =>
      Converted(w.transactions[i], w.currency, target, rates)))
  }

  /** Converting into the wallet's own currency changes nothing. */
  lemma ConvertToOwnCurrency(w: Wallet, rates: seq<real>)
    requires |rates| == Currencies.Count
    ensures ConvertToCurrency(w, w.currency, rates) == w
  {
    var r := ConvertToCurrency(w, w.currency, rates);
    assert r.transactions == w.transactions;
  }

  /**
   * When the wallet's rate is known, every converted amount is within
   * rounding distance of the exact `amount * rate(target) / rate(own)`.
   */
  lemma ConvertToCurrencyNearExact(w: Wallet, target: Currencies.Currency, rates: seq<real>, i: nat)
    requires |rates| == Currencies.Count && i < |w.transactions|
    requires w.currency != target && Currencies.Rate(w.currency, rates) != 0.0
    ensures var x := w.transactions[i].amount;
      var exact := Currencies.Exchanged(x, Currencies.Rate(target, rates), Currencies.Rate(w.currency, rates));
      Abs(ConvertToCurrency(w, target, rates).transactions[i].amount - exact)
        <= (if w.currency == Currencies.JPY then 0.5 else 0.005)
  {
    var t := w.transactions[i];
    assert ConvertToCurrency(w, target, rates).transactions[i].amount
      == Currencies.ConvertAmount(w.currency, Finite(t.amount), target, rates).value;
    Currencies.ConvertNearExact(w.currency, t.amount, target, rates);
  }
}
