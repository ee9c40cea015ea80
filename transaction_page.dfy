/**
 * The business rules of the transaction editor (src/pages/transaction/mod.rs):
 * how the form becomes a transaction, when saving is offered, which
 * existing transaction blocks a save as a duplicate, and the two in-place
 * updates a save performs. Widgets are represented only by the values they
 * hold; the amount field's text is represented by its parse result.
 */
module TransactionPage {
  import opened Wrappers
  import opened Text
  import opened Calendar
  import opened Ids
  import opened IdLists
  import Cycles
  import Transactions
  import Wallets
  import Finances

  type Transaction = Transactions.Transaction

  /** What the editor's rows hold; `amount` is the parse of the amount text, none when it does not parse. */
  datatype Form = Form(
    name: string,
    description: string,
    amount: Option<real>,
    cycle: Cycles.Cycle,
    startDate: Date,
    pickerEnd: Date)

  /**
   * The saved end date: today for a one-time transaction whatever the
   * picker shows; otherwise none when the picker's end is before the start,
   * and the picker's end when it is not.
   */
  function SavedEndDate(cycle: Cycles.Cycle, startDate: Date, pickerEnd: Date, today: Date): (r: Option<Date>)
    ensures cycle == Cycles.OneTime ==> r == Some(today)
    ensures cycle != Cycles.OneTime ==> (r.None? <==> Less(pickerEnd, startDate))
    ensures cycle != Cycles.OneTime && r.Some? ==> r.value == pickerEnd
  {
    if cycle == Cycles.OneTime then Some(today)
    else if Less(pickerEnd, startDate) then None
    else Some(pickerEnd)
  }

  /**
   * `get_data`: the form as a transaction under the id being edited; an
   * empty description is none and an amount that does not parse is 0.
   */
  function GetData(form: Form, today: Date, id: nat): (t: Transaction)
    ensures t.id == id && t.name == form.name && t.cycle == form.cycle && t.startDate == form.startDate
    ensures t.description.None? <==> form.description == []
    ensures t.description.Some? ==> t.description.value == form.description
    ensures t.amount == form.amount.UnwrapOr(0.0)
    ensures t.endDate == SavedEndDate(form.cycle, form.startDate, form.pickerEnd, today)
  {
    Transactions.Transaction(
      id,
      form.name,
      if form.description == [] then None else Some(form.description),
      form.amount.UnwrapOr(0.0),
      form.cycle,
      form.startDate,
      SavedEndDate(form.cycle, form.startDate, form.pickerEnd, today))
  }

  /**
   * The saved dates never break the end-after-start rule for a repeating
   * transaction; a one-time one breaks it exactly when it starts after today.
   */
  lemma GetDataDatesValid(form: Form, today: Date, id: nat)
    ensures var t := GetData(form, today, id);
      (t.endDate.Some? ==> LessEq(t.startDate, t.endDate.value))
      <==> (form.cycle == Cycles.OneTime ==> LessEq(form.startDate, today))
  {
  }

  /** An amount that does not parse becomes 0, and such a transaction is never valid. */
  lemma UnparsedAmountInvalid(form: Form, today: Date, id: nat)
    requires form.amount.None?
    ensures !Transactions.IsValid(GetData(form, today, id))
  {
  }

  /** `handle_changes`: Save is offered exactly for a valid edit that differs from the stored transaction. */
  predicate SaveEnabled(edited: Transaction, previous: Transaction) {
    Transactions.IsValid(edited) && Transactions.IsDifferent(edited, previous)
  }

  /** Reopening a transaction and changing nothing (the id aside) never offers Save. */
  lemma UnchangedCannotSave(edited: Transaction, previous: Transaction)
    requires edited.(id := previous.id) == previous
    ensures !SaveEnabled(edited, previous)
  {
    Transactions.IsDifferentIgnoresId(edited, previous);
  }

  // ---------------------------------------------------------------------
  // Duplicates
  // ---------------------------------------------------------------------

  /**
   * Existing `t` blocks saving `n`: another id, the same name ignoring case,
   * and either the same start date, or `t` starting later while both repeat
   * and `n` has no end or ends on or after `t`'s start.
   */
  predicate Conflicts(t: Transaction, n: Transaction) {
    && t.id != n.id
    && Lower(t.name) == Lower(n.name)
    && (|| t.startDate == n.startDate
        || (&& Less(n.startDate, t.startDate)
            && t.cycle != Cycles.OneTime
            && n.cycle != Cycles.OneTime
            && (n.endDate.None? || LessEq(t.startDate, n.endDate.value))))
  }

  /** The `any` over the wallet's transactions. */
  predicate HasConflict(ts: seq<Transaction>, n: Transaction) {
    exists i :: 0 <= i < |ts| && Conflicts(ts[i], n)
  }

  /**
   * The rule is one-sided: a transaction that starts before the new one
   * never blocks it, and when two transactions with different start dates
   * conflict one way they do not conflict the other way.
   */
  lemma ConflictsAsymmetric(t: Transaction, n: Transaction)
    ensures Less(t.startDate, n.startDate) ==> !Conflicts(t, n)
    ensures Conflicts(t, n) && t.startDate != n.startDate ==> !Conflicts(n, t)
  {
    RankInjective(t.startDate, n.startDate);
  }

  /** Two transactions of the same name, up to ASCII case, starting on the same day block each other both ways. */
  lemma SameStartConflictsBothWays(t: Transaction, n: Transaction)
    requires t.id != n.id && Lower(t.name) == Lower(n.name) && t.startDate == n.startDate
    ensures Conflicts(t, n) && Conflicts(n, t)
  {
  }

  // ---------------------------------------------------------------------
  // Saving
  // ---------------------------------------------------------------------

  /**
   * The save handler: number the edited transaction, refuse it when an
   * existing transaction of the wallet conflicts, otherwise add or update
   * it in the wallet and the wallet in the document.
   */
  method Save(form: Form, today: Date, editedId: nat, wallet: Wallets.Wallet, data: Finances.Data, counter: IdCounter)
    returns (saved: bool, transaction: Transaction)
    modifies data, counter
    ensures transaction == (if editedId != 0 then GetData(form, today, editedId)
                            else GetData(form, today, old(counter.next)))
    ensures saved <==> !HasConflict(wallet.transactions, transaction)
    ensures !saved ==> data.wallets == old(data.wallets)
    ensures saved ==> data.wallets == Upserted(old(data.wallets),
      wallet.(transactions := Upserted(wallet.transactions, transaction, Wallets.TransactionId)), Finances.WalletId)
    ensures saved ==> (data.FindWalletById(wallet.id).Some?
      && Wallets.FindTransactionById(data.FindWalletById(wallet.id).value, transaction.id) == Some(transaction))
    ensures data.currency == old(data.currency) && data.period == old(data.period)
    ensures counter.next == old(counter.next) + (if editedId == 0 then 1 else 0)
  {
    transaction := Transactions.AssignGlobalId(GetData(form, today, editedId), counter);
    if HasConflict(wallet.transactions, transaction) {
      return false, transaction;
    }
    saved := true;
    var walletData := Wallets.AddOrUpdateTransaction(wallet, transaction);
    UpsertedFind(wallet.transactions, transaction, transaction.id + 1, Wallets.TransactionId);
    data.AddOrUpdateWallet(walletData);
  }
}
