/** Balance changes and the vote balance changes that must accompany them. */
module Movements {
  import opened Options
  import opened Ledgers

  /** `amount` is added to the wallet of `recipient`; a negative amount is taken from it. */
  datatype Payment = Payment(recipient: Address, amount: int)

  function Credit(l: Ledger, a: Address, amount: int): Ledger {
    var w := At(l, a);
    Put(l, a, w.(balance := w.balance + amount))
  }

  function CreditAll(l: Ledger, ps: seq<Payment>): Ledger {
    if ps == [] then l else
      var last := ps[|ps| - 1];
      Credit(CreditAll(l, ps[..|ps| - 1]), last.recipient, last.amount)
  }

  /** Setting `validator.voteBalance` on a wallet without a validator record creates one. */
  function Bumped(w: Wallet, amount: int): Wallet {
    match w.validator
    case Some(d) => w.(validator := Some(d.(voteBalance := d.voteBalance + amount)))
    case None => w.(validator := Some(Validator(None, amount, false)))
  }

  function Bump(l: Ledger, v: Address, amount: int): Ledger {
    Put(l, v, Bumped(At(l, v), amount))
  }

  /** Adds `amount` to the vote balance of the validator that `a` votes for, if any. */
  function BumpFor(l: Ledger, a: Address, amount: int): Ledger {
    match At(l, a).vote
    case Some(v) => Bump(l, v, amount)
    case None => l
  }

  function BumpForAll(l: Ledger, ps: seq<Payment>): Ledger {
    if ps == [] then l else
      var last := ps[|ps| - 1];
      BumpFor(BumpForAll(l, ps[..|ps| - 1]), last.recipient, last.amount)
  }

  function Negated(ps: seq<Payment>): (r: seq<Payment>) {
    seq(|ps|, i requires 0 <= i < |ps| => Payment(ps[i].recipient, -ps[i].amount))
  }

  function TotalOf(ps: seq<Payment>): int {
    if ps == [] then 0 else TotalOf(ps[..|ps| - 1]) + ps[|ps| - 1].amount
  }

  /** What `ps` adds to wallet `a`. */
  function Received(ps: seq<Payment>, a: Address): int {
    if ps == [] then 0 else
      var last := ps[|ps| - 1];
      Received(ps[..|ps| - 1], a) + if last.recipient == a then last.amount else 0
  }

  /** What `ps` adds to the wallets voting for `v` in `l`. */
  function ReceivedByVoters(l: Ledger, ps: seq<Payment>, v: Address): int {
    if ps == [] then 0 else
      var last := ps[|ps| - 1];
      ReceivedByVoters(l, ps[..|ps| - 1], v) + if At(l, last.recipient).vote == Some(v) then last.amount else 0
  }

  ghost predicate SameVotes(l: Ledger, m: Ledger) {
    forall a :: At(l, a).vote == At(m, a).vote
  }

  // ----- what crediting does -----

  lemma {:induction false} CreditAllAt(l: Ledger, ps: seq<Payment>, a: Address)
    ensures At(CreditAll(l, ps), a) == At(l, a).(balance := At(l, a).balance + Received(ps, a))
  {
    hide Put, At, Sum;
    if ps != [] { CreditAllAt(l, ps[..|ps| - 1], a); }
  }

  lemma CreditAllVotes(l: Ledger, ps: seq<Payment>)
    ensures SameVotes(CreditAll(l, ps), l)
  {
    hide Put, At, Sum;
    forall a ensures At(CreditAll(l, ps), a).vote == At(l, a).vote { CreditAllAt(l, ps, a); }
  }

  lemma CreditGap(l: Ledger, a: Address, amount: int, v: Address)
    ensures Gap(Credit(l, a, amount), v) == Gap(l, v) - if At(l, a).vote == Some(v) then amount else 0
  {
    hide Put, At, Sum;
    var w := At(l, a);
    GapPut(l, a, w.(balance := w.balance + amount), v);
  }

  lemma {:induction false} CreditAllGap(l: Ledger, ps: seq<Payment>, v: Address)
    ensures Gap(CreditAll(l, ps), v) == Gap(l, v) - ReceivedByVoters(l, ps, v)
  {
    hide Put, At, Sum;
    if ps != [] {
      var front, last := ps[..|ps| - 1], ps[|ps| - 1];
      CreditAllGap(l, front, v);
      CreditAllAt(l, front, last.recipient);
      CreditGap(CreditAll(l, front), last.recipient, last.amount, v);
    }
  }

  lemma {:induction false} CreditAllSupply(l: Ledger, ps: seq<Payment>)
    ensures Supply(CreditAll(l, ps)) == Supply(l) + TotalOf(ps)
  {
    hide Put, At, Sum;
    if ps != [] {
      var front, last := ps[..|ps| - 1], ps[|ps| - 1];
      var m := CreditAll(l, front);
      var w := At(m, last.recipient);
      CreditAllSupply(l, front);
      SupplyPut(m, last.recipient, w.(balance := w.balance + last.amount));
    }
  }

  // ----- what bumping does -----

  lemma BumpAt(l: Ledger, v: Address, amount: int, a: Address)
    ensures At(Bump(l, v, amount), a) == if a == v then Bumped(At(l, v), amount) else At(l, a)
  {
    hide Put, At, Sum;
  }

  lemma {:induction false} BumpForAllVotes(l: Ledger, ps: seq<Payment>)
    ensures SameVotes(BumpForAll(l, ps), l)
  {
    hide Put, At, Sum;
    if ps != [] { BumpForAllVotes(l, ps[..|ps| - 1]); }
  }

  lemma {:induction false} BumpForAllGap(l: Ledger, ps: seq<Payment>, v: Address)
    ensures Gap(BumpForAll(l, ps), v) == Gap(l, v) + ReceivedByVoters(l, ps, v)
  {
    hide Put, At, Sum;
    if ps != [] {
      var front, last := ps[..|ps| - 1], ps[|ps| - 1];
      var m := BumpForAll(l, front);
      BumpForAllGap(l, front, v);
      BumpForAllVotes(l, front);
      match At(m, last.recipient).vote
      case Some(u) => GapPut(m, u, Bumped(At(m, u), last.amount), v);
      case None =>
    }
  }

  lemma {:induction false} BumpForAllSupply(l: Ledger, ps: seq<Payment>)
    ensures Supply(BumpForAll(l, ps)) == Supply(l)
  {
    hide Put, At, Sum;
    if ps != [] {
      var front, last := ps[..|ps| - 1], ps[|ps| - 1];
      var m := BumpForAll(l, front);
      BumpForAllSupply(l, front);
      match At(m, last.recipient).vote
      case Some(u) => SupplyPut(m, u, Bumped(At(m, u), last.amount));
      case None =>
    }
  }

  /** Where votes name validators only, bumping touches nothing but existing vote balances. */
  lemma {:induction false} BumpForAllAt(l: Ledger, ps: seq<Payment>, v: Address)
    requires VotesRegistered(l)
    ensures At(BumpForAll(l, ps), v) ==
            if At(l, v).validator.Some? then Bumped(At(l, v), ReceivedByVoters(l, ps, v)) else At(l, v)
    ensures At(l, v).validator.None? ==> ReceivedByVoters(l, ps, v) == 0
  {
    hide Put, At, Sum;
    if ps != [] {
      var front, last := ps[..|ps| - 1], ps[|ps| - 1];
      var m := BumpForAll(l, front);
      BumpForAllAt(l, front, v);
      BumpForAllVotes(l, front);
      assert NamesValidator(l, last.recipient);
      match At(m, last.recipient).vote
      case Some(u) => BumpAt(m, u, last.amount, v);
      case None =>
    }
  }

  lemma BumpForAllRegistered(l: Ledger, ps: seq<Payment>)
    requires VotesRegistered(l)
    ensures VotesRegistered(BumpForAll(l, ps))
  {
    hide Put, At, Sum;
    BumpForAllVotes(l, ps);
    forall v ensures At(BumpForAll(l, ps), v).validator.Some? == At(l, v).validator.Some? {
      BumpForAllAt(l, ps, v);
    }
    forall a ensures NamesValidator(BumpForAll(l, ps), a) { assert NamesValidator(l, a); }
  }

  // ----- algebra of payment lists -----

  lemma {:induction false} BumpForAllConcat(l: Ledger, ps: seq<Payment>, qs: seq<Payment>)
    ensures BumpForAll(l, ps + qs) == BumpForAll(BumpForAll(l, ps), qs)
    decreases |qs|
  {
    hide Put, At, Sum;
    if qs == [] {
      assert ps + qs == ps;
    } else {
      assert (ps + qs)[..|ps + qs| - 1] == ps + qs[..|qs| - 1];
      BumpForAllConcat(l, ps, qs[..|qs| - 1]);
    }
  }

  lemma {:induction false} ReceivedConcat(ps: seq<Payment>, qs: seq<Payment>, a: Address)
    ensures Received(ps + qs, a) == Received(ps, a) + Received(qs, a)
    decreases |qs|
  {
    hide Put, At, Sum;
    if qs == [] {
      assert ps + qs == ps;
    } else {
      assert (ps + qs)[..|ps + qs| - 1] == ps + qs[..|qs| - 1];
      ReceivedConcat(ps, qs[..|qs| - 1], a);
    }
  }

  lemma {:induction false} TotalConcat(ps: seq<Payment>, qs: seq<Payment>)
    ensures TotalOf(ps + qs) == TotalOf(ps) + TotalOf(qs)
    decreases |qs|
  {
    hide Put, At, Sum;
    if qs == [] {
      assert ps + qs == ps;
    } else {
      assert (ps + qs)[..|ps + qs| - 1] == ps + qs[..|qs| - 1];
      TotalConcat(ps, qs[..|qs| - 1]);
    }
  }

  lemma NegatedFront(ps: seq<Payment>)
    requires ps != []
    ensures Negated(ps)[..|ps| - 1] == Negated(ps[..|ps| - 1])
  {
    hide Put, At, Sum;
  }

  lemma {:induction false} ReceivedNegated(ps: seq<Payment>, a: Address)
    ensures Received(Negated(ps), a) == -Received(ps, a)
  {
    hide Put, At, Sum;
    if ps != [] {
      NegatedFront(ps);
      ReceivedNegated(ps[..|ps| - 1], a);
    }
  }

  lemma {:induction false} TotalNegated(ps: seq<Payment>)
    ensures TotalOf(Negated(ps)) == -TotalOf(ps)
  {
    hide Put, At, Sum;
    if ps != [] {
      NegatedFront(ps);
      TotalNegated(ps[..|ps| - 1]);
    }
  }

  lemma {:induction false} ReceivedByVotersNegated(l: Ledger, ps: seq<Payment>, v: Address)
    ensures ReceivedByVoters(l, Negated(ps), v) == -ReceivedByVoters(l, ps, v)
  {
    hide Put, At, Sum;
    if ps != [] {
      NegatedFront(ps);
      ReceivedByVotersNegated(l, ps[..|ps| - 1], v);
    }
  }

  lemma {:induction false} ReceivedByVotersAgree(l: Ledger, m: Ledger, ps: seq<Payment>, v: Address)
    requires SameVotes(l, m)
    ensures ReceivedByVoters(l, ps, v) == ReceivedByVoters(m, ps, v)
  {
    hide Put, At, Sum;
    if ps != [] { ReceivedByVotersAgree(l, m, ps[..|ps| - 1], v); }
  }
}
