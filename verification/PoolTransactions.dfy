/** Pending transactions, as the pool, the collator and the block verifier see them. */
module PoolTransactions {
  /** Transactions with the same id are the same transaction. `size` is the length of the serialized form; an expiration
      of 0 is none, and a network of 0 is any. */
  datatype Tx = Tx(id: nat, sender: nat, fee: int, amount: int, size: nat, network: nat, expiration: nat)

  /** A block at this height comes too late for the transaction. */
  predicate Expired(t: Tx, height: int) {
    t.expiration != 0 && t.expiration <= height
  }
}
