/**
 * The whole document (src/data/mod.rs): the wallets in order, the display
 * currency and the reporting period, with the in-place wallet updates and
 * the period-then-convert-then-join total.
 */
module Finances {
  import opened Wrappers
  import opened Calendar
  import opened IdLists
  import Transactions
  import Balances
  import Currencies
  import Periods
  import Wallets

  type Wallet = Wallets.Wallet

  /** The key wallets are found and replaced by. */
  function WalletId(w: Wallet): nat {
    w.id
  }

  class Data {
    var wallets: seq<Wallet>
    var currency: Currencies.Currency
    var period: Periods.Period

    /** `Data::default()`: no wallets, dollars, the current month. */
    constructor ()
      ensures wallets == [] && currency == Currencies.USD && period == Periods.Month
      ensures IsEmpty() && !IsValid()
    {
      wallets := [];
      currency := Currencies.USD;
      period := Periods.Month;
    }

    /** `is_valid`: at least one wallet, and every wallet valid. */
    predicate IsValid()
      reads this
    {
      |wallets| > 0 && forall w :: w in wallets ==> Wallets.IsValid(w)
    }

    /** `is_empty` */
    predicate IsEmpty()
      reads this
    {
      |wallets| == 0
    }

    /** `find_wallet_by_id`: the first wallet with that id. */
    function FindWalletById(id: nat): (r: Option<Wallet>)
      reads this
      ensures r.Some? ==> r.value.id == id && exists i ::
        (0 <= i < |wallets| && wallets[i] == r.value
         && forall j :: 0 <= j < i ==> wallets[j].id != id)
      ensures r.None? <==> forall w :: w in wallets ==> w.id != id
    {
      Find(wallets, id, WalletId)
    }

    /** `remove_wallet_by_id`: `retain` on the wallets; currency and period untouched. */
    method RemoveWalletById(id: nat)
      modifies this
      ensures wallets == Removed(old(wallets), id, WalletId)
      ensures currency == old(currency) && period == old(period)
      ensures FindWalletById(id) == None
      ensures forall other :: other != id ==> FindWalletById(other) == old(FindWalletById(other))
      ensures old(IsValid()) && wallets != [] ==> IsValid()
    {
      ghost var before := wallets;
      wallets := Retain(wallets, id, WalletId);
      forall other | other != id
        ensures Find(wallets, other, WalletId) == Find(before, other, WalletId)
      {
        RemovedFind(before, id, other, WalletId);
      }
      RemovedFind(before, id, id + 1, WalletId);
      RemovedElements(before, id, WalletId);
    }

    /** `add_or_update_wallet`: replace the first wallet with the same id in place, or push. */
    method AddOrUpdateWallet(wallet: Wallet)
      modifies this
      ensures wallets == Upserted(old(wallets), wallet, WalletId)
      ensures currency == old(currency) && period == old(period)
      ensures FindWalletById(wallet.id) == Some(wallet)
      ensures forall other :: other != wallet.id ==> FindWalletById(other) == old(FindWalletById(other))
      ensures (old(IsValid()) || old(IsEmpty())) && Wallets.IsValid(wallet) ==> IsValid()
    {
      ghost var before := wallets;
      wallets := AddOrUpdate(wallets, wallet, WalletId);
      forall other | other != wallet.id
        ensures Find(wallets, other, WalletId) == Find(before, other, WalletId)
      {
        UpsertedFind(before, wallet, other, WalletId);
      }
      UpsertedFind(before, wallet, wallet.id + 1, WalletId);
      UpsertedElements(before, wallet, WalletId);
    }

    /** `wallets_for_period`: every wallet projected onto the document's period, in order. */
    function WalletsForPeriod(now: Date): (r: seq<Wallet>)
      reads this
      ensures |r| == |wallets|
      ensures forall i :: 0 <= i < |r| ==> r[i].(transactions := wallets[i].transactions) == wallets[i]
      ensures forall i :: 0 <= i < |r| ==> |r[i].transactions| == |wallets[i].transactions|
      ensures forall i :: 0 <= i < |r| ==> r[i] == Wallets.ForPeriod(wallets[i], period, now)
    {
      var ws, p := wallets, period;
      seq(|ws|, i requires 0 <= i < |ws| => Wallets.ForPeriod(ws[i], p, now))
    }

    /**
     * `total_balance_for_period`: starting from the zero balance, join the
     * balance of each period-projected wallet converted into the document's
     * currency.
     */
    function TotalBalanceForPeriod(now: Date, rates: seq<real>): (r: Balances.Balance)
      requires |rates| == Currencies.Count
      reads this
      ensures r == Balances.FromTransactions(ConvertedTransactions(WalletsForPeriod(now), currency, rates))
    {
      JoinFoldFlattens(Balances.Zero(), WalletsForPeriod(now), currency, rates);
      Balances.JoinMonoid(Balances.Zero(), Balances.FromTransactions(ConvertedTransactions(WalletsForPeriod(now), currency, rates)), Balances.Zero());
      JoinFold(Balances.Zero(), WalletsForPeriod(now), currency, rates)
    }
  }

  /** The `fold` of `total_balance_for_period`. */
  function JoinFold(acc: Balances.Balance, ws: seq<Wallet>, target: Currencies.Currency, rates: seq<real>): Balances.Balance
    requires |rates| == Currencies.Count
    decreases |ws|
  {
    if ws == [] then acc
    else JoinFold(Balances.Join(acc, Wallets.Balance(Wallets.ConvertToCurrency(ws[0], target, rates))), ws[1..], target, rates)
  }

  /** Every wallet's transactions, converted into `target`, one wallet after the other. */
  function ConvertedTransactions(ws: seq<Wallet>, target: Currencies.Currency, rates: seq<real>): (r: seq<Transactions.Transaction>)
    requires |rates| == Currencies.Count
    decreases |ws|
  {
    if ws == [] then []
    else Wallets.ConvertToCurrency(ws[0], target, rates).transactions + ConvertedTransactions(ws[1..], target, rates)
  }

  /**
   * Joining wallet balances one by one is the balance of all their
   * converted transactions together, added to the accumulator.
   */
  lemma {:induction false} JoinFoldFlattens(acc: Balances.Balance, ws: seq<Wallet>, target: Currencies.Currency, rates: seq<real>)
    requires |rates| == Currencies.Count
    ensures JoinFold(acc, ws, target, rates)
      == Balances.Join(acc, Balances.FromTransactions(ConvertedTransactions(ws, target, rates)))
    decreases |ws|
  {
    var all := ConvertedTransactions(ws, target, rates);
    if ws == [] {
      Balances.FromTransactionsSums(all);
    } else {
      var first := Wallets.ConvertToCurrency(ws[0], target, rates).transactions;
      var rest := ConvertedTransactions(ws[1..], target, rates);
      var b0 := Balances.FromTransactions(first);
      var br := Balances.FromTransactions(rest);
      JoinFoldFlattens(Balances.Join(acc, b0), ws[1..], target, rates);
      Balances.FromTransactionsConcat(first, rest);
      Balances.JoinMonoid(acc, b0, br);
    }
  }

  /**
   * The total's net figure is the sum of every converted, period-scaled
   * amount, and both buckets are non-negative.
   */
  lemma TotalBalanceNet(d: Data, now: Date, rates: seq<real>)
    requires |rates| == Currencies.Count
    ensures var total := d.TotalBalanceForPeriod(now, rates);
      var all := ConvertedTransactions(d.WalletsForPeriod(now), d.currency, rates);
      Balances.NetBalance(total) == Balances.Total(all) && total.income >= 0.0 && total.expense >= 0.0
  {
    var all := ConvertedTransactions(d.WalletsForPeriod(now), d.currency, rates);
    Balances.NetIsTotal(all);
    Balances.FromTransactionsSums(all);
  }

  /** A document without wallets totals zero. */
  lemma EmptyTotalsZero(d: Data, now: Date, rates: seq<real>)
    requires |rates| == Currencies.Count && d.IsEmpty()
    ensures d.TotalBalanceForPeriod(now, rates) == Balances.Zero()
  {
    assert d.WalletsForPeriod(now) == [];
  }
}
