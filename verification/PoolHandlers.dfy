/** The transaction handlers as a sender's pool uses them: on a private ledger, without vote balances. */
module PoolHandlers {
  import opened Options
  import opened Ledgers
  import opened Movements
  import opened Handlers
  import opened HandlerLemmas
  import opened PoolTransactions
  import opened SenderPools

  type Formed = tx: Transaction | WellFormed(tx)
    witness Transaction(Address(0), 1, 0, 0, Some(Address(0)), None, Transfer)

  /** A revert fails where the nonce does not match. */
  function LedgerHandler(decode: Tx -> Formed, required: nat): Handler<Ledger> {
    Handler(
      (l: Ledger, t: Tx) => if Check(l, decode(t), required).Some? then None else Some(ApplyHandler(l, decode(t))),
      (l: Ledger, t: Tx) => if NonceMatches(l, decode(t)) then Some(RevertHandler(l, decode(t))) else None)
  }

  /** Reverting an applied transaction gives the ledger back, whatever the transaction does. */
  lemma HandlerUndone(l: Ledger, tx: Transaction, required: nat)
    requires WellFormed(tx) && Check(l, tx, required).None?
    ensures RevertHandler(ApplyHandler(l, tx), tx) == l
  {
    hide Check, ApplyHandler, RevertHandler, Undone, At;
    var m := ApplyHandler(l, tx);
    forall a ensures At(RevertHandler(m, tx), a) == At(l, a) {
      if tx.asset.Vote? {
        VoteHandlerUndone(l, tx, required, a);
      } else {
        RevertHandlerAt(m, tx, a);
        UndoneApplied(l, tx, required, a);
      }
    }
    Extensionality(RevertHandler(m, tx), l);
  }

  lemma VoteHandlerUndone(l: Ledger, tx: Transaction, required: nat, a: Address)
    requires WellFormed(tx) && tx.asset.Vote? && Check(l, tx, required).None?
    ensures At(RevertHandler(ApplyHandler(l, tx), tx), a) == At(l, a)
  {
    AcceptedVote(l, tx, required);
    hide Put, At, Check;
  }

  lemma LedgerHandlersUndo(decode: Tx -> Formed, required: nat)
    ensures Undoes(LedgerHandler(decode, required))
  {
    hide Check, ApplyHandler, RevertHandler, NonceMatches;
    var h := LedgerHandler(decode, required);
    forall l: Ledger, t: Tx | h.apply(l, t).Some? && h.revert(h.apply(l, t).value, t).Some?
      ensures h.revert(h.apply(l, t).value, t) == Some(l)
    {
      HandlerUndone(l, decode(t), required);
    }
  }

  /** With the real handlers, in every run of one sender's pool: the private ledger is what the forged and the pending
      transactions make of the first one, unless a revert failed and the pool is empty. */
  lemma LedgerRunsAreFaithful(decode: Tx -> Formed, required: nat, s: Settings, base: Ledger, os: seq<Operation>,
                              sender: nat)
    requires forall o | o in os :: o.t.sender == sender
    ensures var h := LedgerHandler(decode, required);
            var q := PerformAll(h, s, SenderPool([], base, false), os);
            && Faithful(h, base, ForgedIn(h, s, SenderPool([], base, false), os), q)
            && WithinLimit(s, sender, q)
  {
    hide Undoes, Faithful, LedgerHandler, PerformAll, ForgedIn, WithinLimit, Perform;
    var h := LedgerHandler(decode, required);
    var p: SenderPool<Ledger> := SenderPool([], base, false);
    LedgerHandlersUndo(decode, required);
    NewPool(h, s, base, sender);
    RunsAreFaithful(h, s, base, [], p, os, sender);
    var forged := ForgedIn(h, s, p, os);
    assert [] + forged == forged;
  }

  lemma NewPool(h: Handler<Ledger>, s: Settings, base: Ledger, sender: nat)
    ensures Faithful(h, base, [], SenderPool([], base, false)) && WithinLimit(s, sender, SenderPool([], base, false))
  {
  }

  // ----- pending transactions -----

  lemma AppliedNonceIs(l: Ledger, tx: Transaction, required: nat)
    requires WellFormed(tx) && Check(l, tx, required).None?
    ensures At(l, tx.sender).nonce + 1 == tx.nonce && At(ApplyHandler(l, tx), tx.sender).nonce == tx.nonce
  {
    hide Put, At;
    AppliedHandlerNonce(l, tx);
  }

  /** Every further transaction of a sender raises its nonce. */
  lemma {:induction false} NonceRises(decode: Tx -> Formed, required: nat, base: Ledger, xs: seq<Tx>, t: Tx,
                                      ys: seq<Tx>)
    requires forall u | u in ys :: decode(u).sender == decode(t).sender
    requires ApplyAll(LedgerHandler(decode, required), base, xs + [t] + ys).Some?
    ensures At(ApplyAll(LedgerHandler(decode, required), base, xs + [t] + ys).value, decode(t).sender).nonce
         == decode(t).nonce + |ys|
    decreases |ys|
  {
    hide At, Check, ApplyHandler, RevertHandler, NonceMatches;
    var all := xs + [t] + ys;
    assert all[..|all| - 1] == if ys == [] then xs else xs + [t] + ys[..|ys| - 1];
    var l := ApplyAll(LedgerHandler(decode, required), base, all[..|all| - 1]).value;
    AppliedNonceIs(l, decode(all[|all| - 1]), required);
    if ys != [] {
      NonceRises(decode, required, base, xs, t, ys[..|ys| - 1]);
    }
  }

  /** A transaction that is pending is refused: its nonce has been used. */
  lemma PendingIsRefused(decode: Tx -> Formed, required: nat, base: Ledger, forged: seq<Tx>, p: SenderPool<Ledger>,
                         t: Tx)
    requires Faithful(LedgerHandler(decode, required), base, forged, p) && t in p.transactions
    requires forall u | u in p.transactions :: decode(u).sender == decode(t).sender
    ensures LedgerHandler(decode, required).apply(p.state, t).None?
  {
    hide At, ApplyHandler, RevertHandler, NonceMatches, ApplyAll;
    var i := IndexOf(p.transactions, t);
    var before, after := forged + p.transactions[..i], p.transactions[i + 1..];
    assert forged + p.transactions == before + [t] + after;
    NonceRises(decode, required, base, before, t, after);
    if Check(p.state, decode(t), required).None? {
      AppliedNonceIs(p.state, decode(t), required);
    }
  }

  /** So adding it again is refused by the sender's pool, for the first reason there is. */
  lemma PendingIsNotAdded(decode: Tx -> Formed, required: nat, s: Settings, base: Ledger, forged: seq<Tx>,
                          p: SenderPool<Ledger>, t: Tx, a: Arrival)
    requires Faithful(LedgerHandler(decode, required), base, forged, p) && t in p.transactions
    requires forall u | u in p.transactions :: decode(u).sender == decode(t).sender
    ensures Add(LedgerHandler(decode, required), s, p, t, a).1.Some?
  {
    hide LedgerHandler, Faithful;
    PendingIsRefused(decode, required, base, forged, p, t);
  }
}
