/** Accounting for what is handed out and must be given back: blocks of memory, handles,
    references. */
module Ledgers {

  /** `live` is what has been taken and not released. */
  class Ledger<T> {
    ghost var live: set<T>

    constructor ()
      ensures live == {}
    {
      live := {};
    }

    /** A call that hands something out, or fails. */
    method Take(ghost item: T, works: bool) returns (ok: bool)
      requires item !in live
      modifies this
      ensures ok == works && live == if ok then old(live) + {item} else old(live)
    {
      ok := works;
      if ok {
        live := live + {item};
      }
    }

    /** Giving back something that is held, so never twice. */
    method Release(ghost item: T)
      requires item in live
      modifies this
      ensures live == old(live) - {item}
    {
      live := live - {item};
    }
  }
}
