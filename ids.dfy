/** The process-wide id counters of transactions and wallets. */
module Ids {

  /**
   * `static GLOBAL_ID_COUNTER: AtomicUsize = AtomicUsize::new(1)`: the next
   * id to hand out. Transactions and wallets each have their own counter.
   */
  class IdCounter {
    var next: nat

    constructor ()
      ensures next == 1
    {
      next := 1;
    }

    /** `fetch_add(1, ..)`: return the current value and advance by one. */
    method FetchAdd() returns (id: nat)
      modifies this
      ensures id == old(next) && next == old(next) + 1
    {
      id := next;
      next := next + 1;
    }
  }
}
