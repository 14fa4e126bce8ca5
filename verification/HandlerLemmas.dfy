/** Every transaction keeps the vote index, moves exactly its fee out of the supply, and can be undone. */
module HandlerLemmas {
  import opened Options
  import opened Ledgers
  import opened Movements
  import opened Handlers

  // ----- the vote index -----

  lemma ApplyBaseGap(l: Ledger, tx: Transaction, v: Address)
    ensures Gap(ApplyBase(l, tx), v)
            == Gap(l, v) + if At(l, tx.sender).vote == Some(v) then tx.amount + tx.fee else 0
  {
    hide Put, At, Sum;
    GapPut(l, tx.sender, At(ApplyBase(l, tx), tx.sender), v);
  }

  lemma RegistersOnce(l: Ledger, tx: Transaction, required: nat)
    requires Check(l, tx, required).None? && tx.asset.Registration?
    ensures At(l, tx.sender).validator.None?
  {
  }

  /** What a transaction that is not a vote takes from the sender changes the gap like its first movement. */
  lemma ApplyToSenderGap(l: Ledger, tx: Transaction, required: nat, v: Address)
    requires WellFormed(tx) && !tx.asset.Vote? && Check(l, tx, required).None?
    ensures Gap(ApplyToSender(l, tx), v)
            == Gap(l, v) - if At(l, tx.sender).vote == Some(v) then MovementsOf(tx)[0].amount else 0
    ensures SameVotes(ApplyToSender(l, tx), l)
  {
    hide Put, At, Gap, Check;
    if tx.asset.Registration? { RegistersOnce(l, tx, required); }
    var m := ApplyBase(l, tx);
    ApplyBaseGap(l, tx, v);
    match tx.asset
    case MultiPayment(payments) => CreditGap(m, tx.sender, -TotalOf(payments), v);
    case _ => GapPut(m, tx.sender, At(ApplyToSender(l, tx), tx.sender), v);
              PutBack(m, tx.sender, At(m, tx.sender));
  }

  lemma VotersOfOne(l: Ledger, p: Payment, v: Address)
    ensures ReceivedByVoters(l, [p], v) == if At(l, p.recipient).vote == Some(v) then p.amount else 0
  {
    hide Put, At, Sum;
    assert [p][..0] == [];
  }

  lemma {:induction false} VotersConcat(l: Ledger, ps: seq<Payment>, qs: seq<Payment>, v: Address)
    ensures ReceivedByVoters(l, ps + qs, v) == ReceivedByVoters(l, ps, v) + ReceivedByVoters(l, qs, v)
    decreases |qs|
  {
    hide Put, At, Sum;
    if qs == [] {
      assert ps + qs == ps;
    } else {
      assert (ps + qs)[..|ps + qs| - 1] == ps + qs[..|qs| - 1];
      VotersConcat(l, ps, qs[..|qs| - 1], v);
    }
  }

  lemma VotersOfMovements(l: Ledger, tx: Transaction, v: Address)
    requires WellFormed(tx)
    ensures ReceivedByVoters(l, MovementsOf(tx), v)
            == (if At(l, tx.sender).vote == Some(v) then MovementsOf(tx)[0].amount else 0)
               + ReceivedByVoters(l, PaymentsOf(tx), v)
               + if tx.asset.Transfer? && At(l, tx.recipient.value).vote == Some(v) then tx.amount else 0
  {
    hide Put, At, Sum;
    var first := [MovementsOf(tx)[0]];
    VotersOfOne(l, first[0], v);
    VotersConcat(l, first, PaymentsOf(tx), v);
    if tx.recipient.Some? {
      VotersOfOne(l, Payment(tx.recipient.value, tx.amount), v);
      VotersConcat(l, first + PaymentsOf(tx), [Payment(tx.recipient.value, tx.amount)], v);
    } else {
      assert MovementsOf(tx) == first + PaymentsOf(tx);
    }
  }

  lemma ApplyHandlerGap(l: Ledger, tx: Transaction, required: nat, v: Address)
    requires WellFormed(tx) && !tx.asset.Vote? && Check(l, tx, required).None?
    ensures Gap(ApplyHandler(l, tx), v) == Gap(l, v) - ReceivedByVoters(l, MovementsOf(tx), v)
    ensures SameVotes(ApplyHandler(l, tx), l)
  {
    hide Put, At, Sum;
    var m := ApplyToSender(l, tx);
    ApplyToSenderGap(l, tx, required, v);
    VotersOfMovements(l, tx, v);
    match tx.asset
    case Transfer => CreditGap(m, tx.recipient.value, tx.amount, v);
    case MultiPayment(payments) =>
      CreditAllGap(m, payments, v);
      CreditAllVotes(m, payments);
      ReceivedByVotersAgree(m, l, payments, v);
    case MultiSignatureRegistration(account, asset) =>
      GapPut(m, account, At(m, account).(multiSignature := Some(asset)), v);
    case _ =>
  }

  lemma BumpGap(l: Ledger, u: Address, amount: int, v: Address)
    ensures Gap(Bump(l, u, amount), v) == Gap(l, v) + if u == v then amount else 0
  {
    hide Put, At, Sum;
    GapPut(l, u, Bumped(At(l, u), amount), v);
  }

  lemma MoveVoteGap(l: Ledger, votes: seq<Address>, unvotes: seq<Address>, amount: int, fee: int, v: Address)
    ensures Gap(MoveVote(l, votes, unvotes, amount, fee, false), v) == Gap(l, v)
              - (if unvotes != [] && unvotes[0] == v then amount + fee else 0)
              + (if votes != [] && votes[0] == v then amount else 0)
  {
    hide Bump, Gap;
    var m := if unvotes == [] then l else Bump(l, unvotes[0], -(amount + fee));
    if unvotes != [] { BumpGap(l, unvotes[0], -(amount + fee), v); }
    if votes != [] { BumpGap(m, votes[0], amount, v); }
  }

  /** What the checks establish about a vote: it moves the sender's own vote between validators. */
  predicate VoteAllowed(l: Ledger, tx: Transaction)
    requires tx.asset.Vote?
  {
    var Vote(votes, unvotes) := tx.asset;
    && |votes| <= 1 && |unvotes| <= 1 && |votes| + |unvotes| > 0
    && At(l, tx.sender).nonce + 1 == tx.nonce
    && At(l, tx.sender).vote == Last(unvotes, None)
    && (votes != [] ==> At(l, votes[0]).validator.Some?)
    && (unvotes != [] ==> At(l, unvotes[0]).validator.Some?)
  }

  lemma AcceptedVote(l: Ledger, tx: Transaction, required: nat)
    requires tx.asset.Vote? && Check(l, tx, required).None?
    ensures VoteAllowed(l, tx)
  {
    hide Put, At, Sum;
    var Vote(votes, unvotes) := tx.asset;
    var w := At(l, tx.sender);
    assert CheckUnvotes(l, w.vote, unvotes).Ok?;
    if unvotes != [] { assert unvotes[1..] == []; }
    if votes != [] { assert votes[1..] == []; }
  }

  lemma VoteHandlerGap(l: Ledger, tx: Transaction, v: Address)
    requires WellFormed(tx) && tx.asset.Vote? && VoteAllowed(l, tx)
    ensures var Vote(votes, unvotes) := tx.asset;
            var amount := At(l, tx.sender).balance - tx.fee;
            && At(ApplyHandler(l, tx), tx.sender).balance == amount
            && Gap(ApplyHandler(l, tx), v) == Gap(l, v)
                 + (if unvotes != [] && unvotes[0] == v then amount + tx.fee else 0)
                 - (if votes != [] && votes[0] == v then amount else 0)
  {
    hide Put, At, Sum, Gap;
    ApplyBaseGap(l, tx, v);
    GapPut(ApplyBase(l, tx), tx.sender, At(ApplyToSender(l, tx), tx.sender), v);
  }

  lemma ApplyVoteGap(l: Ledger, tx: Transaction, required: nat, v: Address)
    requires WellFormed(tx) && tx.asset.Vote? && Check(l, tx, required).None?
    ensures Gap(Apply(l, tx, required), v) == Gap(l, v)
  {
    hide Put, At, Gap, Check, ApplyHandler, MoveVote;
    AcceptedVote(l, tx, required);
    VoteHandlerGap(l, tx, v);
    MoveVoteGap(ApplyHandler(l, tx), tx.asset.votes, tx.asset.unvotes, At(l, tx.sender).balance - tx.fee, tx.fee, v);
  }

  /** An accepted transaction of any kind leaves every gap as it was. */
  lemma ApplyGap(l: Ledger, tx: Transaction, required: nat, v: Address)
    requires WellFormed(tx)
    ensures Gap(Apply(l, tx, required), v) == Gap(l, v)
  {
    hide Put, At, Sum;
    if Check(l, tx, required).None? {
      if tx.asset.Vote? {
        ApplyVoteGap(l, tx, required, v);
      } else {
        var m := ApplyHandler(l, tx);
        ApplyHandlerGap(l, tx, required, v);
        BumpForAllGap(m, MovementsOf(tx), v);
        ReceivedByVotersAgree(m, l, MovementsOf(tx), v);
      }
    }
  }

  // ----- votes name registered validators -----

  lemma ApplyHandlerKeepsValidators(l: Ledger, tx: Transaction, a: Address)
    requires WellFormed(tx) && At(l, a).validator.Some?
    ensures At(ApplyHandler(l, tx), a).validator.Some?
  {
    hide Put, At, Sum;
    match tx.asset
    case MultiPayment(payments) => CreditAllAt(ApplyToSender(l, tx), payments, a);
    case _ =>
  }

  lemma BumpRegistered(l: Ledger, v: Address, amount: int)
    requires VotesRegistered(l)
    ensures VotesRegistered(Bump(l, v, amount))
  {
    hide Put, At, Sum;
    forall a ensures NamesValidator(Bump(l, v, amount), a) { assert NamesValidator(l, a); }
  }

  lemma ApplyHandlerRegistered(l: Ledger, tx: Transaction, required: nat)
    requires WellFormed(tx) && VotesRegistered(l) && Check(l, tx, required).None?
    ensures VotesRegistered(ApplyHandler(l, tx))
  {
    hide Put, At, Sum;
    var m := ApplyHandler(l, tx);
    forall a ensures NamesValidator(m, a) {
      assert NamesValidator(l, a);
      if tx.asset.Vote? {
        AcceptedVote(l, tx, required);
      } else {
        ApplyHandlerGap(l, tx, required, a);
      }
      if At(m, a).vote.Some? && At(l, At(m, a).vote.value).validator.Some? {
        ApplyHandlerKeepsValidators(l, tx, At(m, a).vote.value);
      }
    }
  }

  lemma MoveVoteRegistered(l: Ledger, votes: seq<Address>, unvotes: seq<Address>,
                           amount: int, fee: int, revert: bool)
    requires VotesRegistered(l)
    ensures VotesRegistered(MoveVote(l, votes, unvotes, amount, fee, revert))
  {
    hide Bump, VotesRegistered, Signed;
    var first := Signed(amount + fee, !revert);
    var m := if unvotes == [] then l else Bump(l, unvotes[0], first);
    if unvotes != [] { BumpRegistered(l, unvotes[0], first); }
    if votes != [] { BumpRegistered(m, votes[0], Signed(amount, revert)); }
  }

  lemma ApplyRegistered(l: Ledger, tx: Transaction, required: nat)
    requires WellFormed(tx) && VotesRegistered(l)
    ensures VotesRegistered(Apply(l, tx, required))
  {
    hide VotesRegistered, ApplyHandler, Check, MoveVote, MovementsOf;
    if Check(l, tx, required).None? {
      var m := ApplyHandler(l, tx);
      ApplyHandlerRegistered(l, tx, required);
      match tx.asset
      case Vote(votes, unvotes) =>
        MoveVoteRegistered(m, votes, unvotes, At(m, tx.sender).balance - 0, tx.fee, false);
      case _ => BumpForAllRegistered(m, MovementsOf(tx));
    }
  }

  /** The invariant of the ledger survives every transaction, accepted or rejected. */
  lemma ApplyConsistent(l: Ledger, tx: Transaction, required: nat)
    requires WellFormed(tx) && Consistent(l)
    ensures Consistent(Apply(l, tx, required))
  {
    hide Put, At, Sum;
    ApplyRegistered(l, tx, required);
    forall v ensures Gap(Apply(l, tx, required), v) == 0 { ApplyGap(l, tx, required, v); }
  }

  // ----- supply -----

  lemma BumpSupply(l: Ledger, v: Address, amount: int)
    ensures Supply(Bump(l, v, amount)) == Supply(l)
  {
    hide Put, At, Sum;
    SupplyPut(l, v, Bumped(At(l, v), amount));
  }

  lemma MoveVoteSupply(l: Ledger, votes: seq<Address>, unvotes: seq<Address>, amount: int, fee: int, revert: bool)
    ensures Supply(MoveVote(l, votes, unvotes, amount, fee, revert)) == Supply(l)
  {
    hide Put, At, Sum;
    var first := Signed(amount + fee, !revert);
    var m := if unvotes == [] then l else Bump(l, unvotes[0], first);
    if unvotes != [] { BumpSupply(l, unvotes[0], first); }
    if votes != [] { BumpSupply(m, votes[0], Signed(amount, revert)); }
  }

  lemma UpdateVoteBalancesSupply(l: Ledger, tx: Transaction, revert: bool)
    ensures Supply(UpdateVoteBalances(l, tx, revert)) == Supply(l)
  {
    hide Put, At, Sum;
    match tx.asset
    case Vote(votes, unvotes) =>
      MoveVoteSupply(l, votes, unvotes, At(l, tx.sender).balance - (if revert then tx.fee else 0), tx.fee, revert);
    case _ => BumpForAllSupply(l, if revert then Negated(MovementsOf(tx)) else MovementsOf(tx));
  }

  lemma CreditSupply(l: Ledger, a: Address, amount: int)
    ensures Supply(Credit(l, a, amount)) == Supply(l) + amount
  {
    hide Put, At, Sum;
    SupplyPut(l, a, At(l, a).(balance := At(l, a).balance + amount));
  }

  lemma ApplyToSenderSupply(l: Ledger, tx: Transaction)
    ensures Supply(ApplyToSender(l, tx)) == Supply(l) - tx.amount - tx.fee - TotalOf(PaymentsOf(tx))
  {
    hide Put, At, Sum;
    var m := ApplyBase(l, tx);
    SupplyPut(l, tx.sender, At(m, tx.sender));
    match tx.asset
    case MultiPayment(payments) => CreditSupply(m, tx.sender, -TotalOf(payments));
    case _ => SupplyPut(m, tx.sender, At(ApplyToSender(l, tx), tx.sender));
              PutBack(m, tx.sender, At(m, tx.sender));
  }

  lemma RevertForSenderSupply(l: Ledger, tx: Transaction)
    ensures Supply(RevertForSender(l, tx)) == Supply(l) + tx.amount + tx.fee + TotalOf(PaymentsOf(tx))
  {
    hide Put, At, Sum;
    var m := RevertBase(l, tx);
    SupplyPut(l, tx.sender, At(m, tx.sender));
    match tx.asset
    case MultiPayment(payments) => CreditSupply(m, tx.sender, TotalOf(payments));
    case _ => SupplyPut(m, tx.sender, At(RevertForSender(l, tx), tx.sender));
              PutBack(m, tx.sender, At(m, tx.sender));
  }

  /** An accepted transaction takes its fee, and nothing else, out of the supply. */
  lemma ApplySupply(l: Ledger, tx: Transaction, required: nat)
    requires WellFormed(tx)
    ensures Supply(Apply(l, tx, required)) == Supply(l) - if Check(l, tx, required).None? then tx.fee else 0
  {
    hide Put, At, Sum;
    var m := ApplyToSender(l, tx);
    ApplyToSenderSupply(l, tx);
    UpdateVoteBalancesSupply(ApplyHandler(l, tx), tx, false);
    match tx.asset
    case Transfer => CreditSupply(m, tx.recipient.value, tx.amount);
    case MultiPayment(payments) => CreditAllSupply(m, payments);
    case MultiSignatureRegistration(account, asset) =>
      SupplyPut(m, account, At(m, account).(multiSignature := Some(asset)));
    case _ =>
  }

  lemma RevertHandlerSupply(l: Ledger, tx: Transaction)
    requires WellFormed(tx)
    ensures Supply(RevertHandler(l, tx)) == Supply(l) + tx.fee
  {
    hide Put, At, Sum;
    var m := RevertForSender(l, tx);
    RevertForSenderSupply(l, tx);
    match tx.asset
    case Transfer => CreditSupply(m, tx.recipient.value, -tx.amount);
    case MultiPayment(payments) => CreditAllSupply(m, Negated(payments)); TotalNegated(payments);
    case MultiSignatureRegistration(account, _) =>
      SupplyPut(m, account, At(m, account).(multiSignature := None));
    case _ =>
  }

  /** A revert returns the fee; one that fails on the nonce has returned the amount as well. */
  lemma RevertSupply(l: Ledger, tx: Transaction)
    requires WellFormed(tx)
    ensures Supply(Revert(l, tx)) == Supply(l) + tx.fee + if NonceMatches(l, tx) then 0 else tx.amount
  {
    hide Put, At, Sum;
    if NonceMatches(l, tx) {
      RevertHandlerSupply(l, tx);
      UpdateVoteBalancesSupply(RevertHandler(l, tx), tx, true);
    } else {
      CreditSupply(l, tx.sender, tx.amount + tx.fee);
    }
  }

  // ----- undoing -----

  /** Wallet `a` in `m` is the one in `l` with the vote balances of `ps` added. */
  ghost predicate BumpedAt(l: Ledger, m: Ledger, ps: seq<Payment>, a: Address) {
    At(m, a) == if At(l, a).validator.Some? then Bumped(At(l, a), ReceivedByVoters(l, ps, a)) else At(l, a)
  }

  lemma NobodyVotesFor(l: Ledger, ps: seq<Payment>, v: Address)
    requires VotesRegistered(l) && At(l, v).validator.None?
    ensures ReceivedByVoters(l, ps, v) == 0
  {
    hide Put, At, Sum;
    BumpForAllAt(l, ps, v);
  }

  lemma SameVotesApplied(l: Ledger, tx: Transaction, required: nat)
    requires WellFormed(tx) && !tx.asset.Vote? && Check(l, tx, required).None?
    ensures SameVotes(ApplyHandler(l, tx), l)
  {
    hide Put, At, Sum;
    ApplyHandlerGap(l, tx, required, tx.sender);
  }

  /** The wallet of `a` after the handler of `tx` was reverted in `m`, in terms of the wallet before. */
  function Undone(w: Wallet, tx: Transaction, a: Address): Wallet {
    var u := w.(balance := w.balance
                           + (if a == tx.sender then tx.amount + tx.fee + TotalOf(PaymentsOf(tx)) else 0)
                           - (if tx.recipient == Some(a) && tx.asset.Transfer? then tx.amount else 0)
                           - Received(PaymentsOf(tx), a),
                nonce := if a == tx.sender then w.nonce - 1 else w.nonce);
    match tx.asset
    case Registration(_) => if a == tx.sender then u.(validator := None) else u
    case Resignation => if a == tx.sender then ResignedAs(u, false) else u
    case MultiSignatureRegistration(account, _) => if a == account then u.(multiSignature := None) else u
    case _ => u
  }

  lemma RevertHandlerAt(m: Ledger, tx: Transaction, a: Address)
    requires WellFormed(tx) && !tx.asset.Vote?
    ensures At(RevertHandler(m, tx), a) == Undone(At(m, a), tx, a)
  {
    hide Put, At, Sum;
    match tx.asset
    case MultiPayment(payments) =>
      CreditAllAt(RevertForSender(m, tx), Negated(payments), a);
      ReceivedNegated(payments, a);
    case _ =>
  }

  lemma UndoneApplied(l: Ledger, tx: Transaction, required: nat, a: Address)
    requires WellFormed(tx) && !tx.asset.Vote? && Check(l, tx, required).None?
    ensures Undone(At(ApplyHandler(l, tx), a), tx, a) == At(l, a)
    ensures At(ApplyHandler(l, tx), a).validator.Some?
            <==> At(l, a).validator.Some? || (tx.asset.Registration? && a == tx.sender)
  {
    hide Put, At, Sum;
    match tx.asset
    case MultiPayment(payments) => CreditAllAt(ApplyToSender(l, tx), payments, a);
    case _ =>
  }

  lemma UndoneBumped(w: Wallet, tx: Transaction, a: Address, amount: int)
    requires w.validator.Some? && !(tx.asset.Registration? && a == tx.sender)
    ensures Undone(Bumped(w, amount), tx, a) == Bumped(Undone(w, tx, a), amount)
  {
  }

  /** Reverting a handler commutes with the vote balances added since it was applied. */
  lemma RevertHandlerBumped(l: Ledger, m: Ledger, tx: Transaction, required: nat, a: Address)
    requires WellFormed(tx) && !tx.asset.Vote? && VotesRegistered(l) && Check(l, tx, required).None?
    requires BumpedAt(ApplyHandler(l, tx), m, MovementsOf(tx), a)
    ensures BumpedAt(l, RevertHandler(m, tx), MovementsOf(tx), a)
  {
    hide At, ApplyHandler, RevertHandler, MovementsOf, Check, Undone, ReceivedByVoters, VotesRegistered;
    var h, ps := ApplyHandler(l, tx), MovementsOf(tx);
    SameVotesApplied(l, tx, required);
    ReceivedByVotersAgree(h, l, ps, a);
    if At(l, a).validator.None? { NobodyVotesFor(l, ps, a); }
    RevertHandlerAt(m, tx, a);
    UndoneApplied(l, tx, required, a);
    if At(l, a).validator.Some? {
      if tx.asset.Registration? { RegistersOnce(l, tx, required); }
      UndoneBumped(At(h, a), tx, a, ReceivedByVoters(l, ps, a));
    }
  }


  lemma BumpedKeepsVotes(l: Ledger, m: Ledger, ps: seq<Payment>)
    requires VotesRegistered(l)
    requires forall a :: BumpedAt(l, m, ps, a)
    ensures SameVotes(l, m) && VotesRegistered(m)
  {
    hide Put, At, Sum;
    forall a ensures At(m, a).vote == At(l, a).vote && NamesValidator(m, a) {
      assert BumpedAt(l, m, ps, a) && NamesValidator(l, a);
      if At(l, a).vote.Some? { assert BumpedAt(l, m, ps, At(l, a).vote.value); }
    }
  }

  lemma BumpsCancel(l: Ledger, m: Ledger, ps: seq<Payment>)
    requires VotesRegistered(l)
    requires forall a :: BumpedAt(l, m, ps, a)
    ensures BumpForAll(m, Negated(ps)) == l
  {
    hide Put, At, Sum;
    var r := BumpForAll(m, Negated(ps));
    BumpedKeepsVotes(l, m, ps);
    forall a ensures At(r, a) == At(l, a) {
      assert BumpedAt(l, m, ps, a);
      BumpForAllAt(m, Negated(ps), a);
      ReceivedByVotersAgree(m, l, Negated(ps), a);
      ReceivedByVotersNegated(l, ps, a);
    }
    Extensionality(r, l);
  }

  lemma AppliedHandlerNonce(l: Ledger, tx: Transaction)
    requires WellFormed(tx)
    ensures NonceMatches(ApplyHandler(l, tx), tx)
  {
    hide Put, At, Sum;
    match tx.asset
    case MultiPayment(payments) => CreditAllAt(ApplyToSender(l, tx), payments, tx.sender);
    case _ =>
  }

  lemma UpdateVoteBalancesNonce(l: Ledger, tx: Transaction, a: Address)
    ensures At(UpdateVoteBalances(l, tx, false), a).nonce == At(l, a).nonce
  {
    hide Put, At, Sum;
    match tx.asset
    case Vote(votes, unvotes) => MoveVoteAt(l, votes, unvotes, At(l, tx.sender).balance, tx.fee, false, a);
    case _ => BumpForAllNonce(l, MovementsOf(tx), a);
  }

  lemma AppliedNonce(l: Ledger, tx: Transaction, required: nat)
    requires WellFormed(tx) && Check(l, tx, required).None?
    ensures NonceMatches(Apply(l, tx, required), tx)
  {
    hide Put, At, Sum;
    AppliedHandlerNonce(l, tx);
    UpdateVoteBalancesNonce(ApplyHandler(l, tx), tx, tx.sender);
  }

  lemma {:induction false} BumpForAllNonce(l: Ledger, ps: seq<Payment>, a: Address)
    ensures At(BumpForAll(l, ps), a).nonce == At(l, a).nonce
  {
    hide Put, At, Sum;
    if ps != [] { BumpForAllNonce(l, ps[..|ps| - 1], a); }
  }

  lemma AppliedThenRevertedBumps(l: Ledger, tx: Transaction, required: nat)
    requires WellFormed(tx) && !tx.asset.Vote? && VotesRegistered(l) && Check(l, tx, required).None?
    ensures forall a :: BumpedAt(l, RevertHandler(Apply(l, tx, required), tx), MovementsOf(tx), a)
  {
    hide ApplyHandler, RevertHandler, Check, At, MovementsOf, VotesRegistered, BumpForAll, ReceivedByVoters;
    var h, ps := ApplyHandler(l, tx), MovementsOf(tx);
    var m := BumpForAll(h, ps);
    ApplyHandlerRegistered(l, tx, required);
    forall a ensures BumpedAt(l, RevertHandler(m, tx), ps, a) {
      BumpForAllAt(h, ps, a);
      assert BumpedAt(h, m, ps, a);
      RevertHandlerBumped(l, m, tx, required, a);
    }
  }

  lemma RevertAppliedOther(l: Ledger, tx: Transaction, required: nat)
    requires WellFormed(tx) && !tx.asset.Vote? && VotesRegistered(l) && Check(l, tx, required).None?
    ensures Revert(Apply(l, tx, required), tx) == l
  {
    hide Apply, Check, RevertHandler, MovementsOf, VotesRegistered;
    AppliedThenRevertedBumps(l, tx, required);
    BumpsCancel(l, RevertHandler(Apply(l, tx, required), tx), MovementsOf(tx));
    AppliedNonce(l, tx, required);
  }

  /** What moving a vote makes of one wallet that is a validator if it is named. */
  function VoteMoved(w: Wallet, a: Address, votes: seq<Address>, unvotes: seq<Address>,
                     amount: int, fee: int, revert: bool): Wallet {
    var x := if unvotes != [] && unvotes[0] == a then Bumped(w, Signed(amount + fee, !revert)) else w;
    if votes != [] && votes[0] == a then Bumped(x, Signed(amount, revert)) else x
  }

  lemma MoveVoteAt(l: Ledger, votes: seq<Address>, unvotes: seq<Address>,
                   amount: int, fee: int, revert: bool, a: Address)
    ensures At(MoveVote(l, votes, unvotes, amount, fee, revert), a)
            == VoteMoved(At(l, a), a, votes, unvotes, amount, fee, revert)
  {
    hide Put, At, Sum;
  }

  function Voted(w: Wallet, nonce: int, change: int, vote: Option<Address>): Wallet {
    w.(nonce := nonce, balance := w.balance + change, vote := vote)
  }

  ghost predicate VoteAppliedAt(l: Ledger, m: Ledger, tx: Transaction, a: Address)
    requires tx.asset.Vote?
  {
    var Vote(votes, unvotes) := tx.asset;
    var w := At(l, a);
    At(m, a) == VoteMoved(if a == tx.sender then Voted(w, tx.nonce, -tx.fee, VoteAfter(w.vote, votes, unvotes)) else w,
                          a, votes, unvotes, At(l, tx.sender).balance - tx.fee, tx.fee, false)
  }

  lemma AppliedVoteAt(l: Ledger, tx: Transaction, required: nat, a: Address)
    requires WellFormed(tx) && tx.asset.Vote? && Check(l, tx, required).None?
    ensures VoteAppliedAt(l, Apply(l, tx, required), tx, a)
  {
    hide Put, At, Sum;
    var h := ApplyHandler(l, tx);
    MoveVoteAt(h, tx.asset.votes, tx.asset.unvotes, At(h, tx.sender).balance, tx.fee, false, a);
  }

  ghost predicate VoteRevertedAt(m: Ledger, h: Ledger, tx: Transaction, a: Address)
    requires tx.asset.Vote?
  {
    var w := At(m, a);
    At(h, a) == if a == tx.sender
                then Voted(w, w.nonce - 1, tx.fee, VoteAfter(w.vote, tx.asset.unvotes, tx.asset.votes)) else w
  }

  lemma RevertedVoteAt(m: Ledger, tx: Transaction, a: Address)
    requires WellFormed(tx) && tx.asset.Vote?
    ensures VoteRevertedAt(m, RevertHandler(m, tx), tx, a)
  {
    hide Put, At, Sum;
  }

  /** A vote and its revert, seen from one wallet. */
  lemma VoteUndone(w: Wallet, a: Address, isSender: bool, tx: Transaction, amount: int)
    requires tx.asset.Vote? && |tx.asset.votes| <= 1 && |tx.asset.unvotes| <= 1
    requires |tx.asset.votes| + |tx.asset.unvotes| > 0
    requires isSender ==> w.nonce + 1 == tx.nonce && w.vote == Last(tx.asset.unvotes, None)
    requires tx.asset.votes != [] && tx.asset.votes[0] == a ==> w.validator.Some?
    requires tx.asset.unvotes != [] && tx.asset.unvotes[0] == a ==> w.validator.Some?
    ensures var Vote(votes, unvotes) := tx.asset;
            var w1 := if isSender then Voted(w, tx.nonce, -tx.fee, VoteAfter(w.vote, votes, unvotes)) else w;
            var w2 := VoteMoved(w1, a, votes, unvotes, amount, tx.fee, false);
            var w3 := if isSender then Voted(w2, w2.nonce - 1, tx.fee, VoteAfter(w2.vote, unvotes, votes)) else w2;
            VoteMoved(w3, a, votes, unvotes, amount, tx.fee, true) == w
  {
    hide Put, At, Sum;
  }

  lemma VoteBalanceBack(l: Ledger, m: Ledger, h: Ledger, tx: Transaction)
    requires tx.asset.Vote?
    requires VoteAppliedAt(l, m, tx, tx.sender) && VoteRevertedAt(m, h, tx, tx.sender)
    ensures At(h, tx.sender).balance == At(l, tx.sender).balance
  {
    hide Put, At, Sum;
  }

  lemma RevertedUpdate(h: Ledger, tx: Transaction, a: Address)
    requires tx.asset.Vote?
    ensures At(UpdateVoteBalances(h, tx, true), a)
            == VoteMoved(At(h, a), a, tx.asset.votes, tx.asset.unvotes, At(h, tx.sender).balance - tx.fee, tx.fee, true)
  {
    hide Put, At, Sum;
    MoveVoteAt(h, tx.asset.votes, tx.asset.unvotes, At(h, tx.sender).balance - tx.fee, tx.fee, true, a);
  }

  lemma RevertAppliedVoteAt(l: Ledger, m: Ledger, h: Ledger, tx: Transaction, a: Address)
    requires tx.asset.Vote? && VoteAllowed(l, tx)
    requires VoteAppliedAt(l, m, tx, a) && VoteRevertedAt(m, h, tx, a)
    requires At(h, tx.sender).balance == At(l, tx.sender).balance
    ensures var Vote(votes, unvotes) := tx.asset;
            VoteMoved(At(h, a), a, votes, unvotes, At(h, tx.sender).balance - tx.fee, tx.fee, true) == At(l, a)
  {
    hide Put, At, Sum;
    VoteUndone(At(l, a), a, a == tx.sender, tx, At(l, tx.sender).balance - tx.fee);
  }

  /** Reverting the transaction that was just applied gives the ledger back, vote balances included. */
  lemma RevertApplied(l: Ledger, tx: Transaction, required: nat)
    requires WellFormed(tx) && VotesRegistered(l) && Check(l, tx, required).None?
    ensures Revert(Apply(l, tx, required), tx) == l
    ensures NonceMatches(Apply(l, tx, required), tx)
  {
    hide Put, At, Sum;
    AppliedNonce(l, tx, required);
    if tx.asset.Vote? {
      var m := Apply(l, tx, required);
      var h := RevertHandler(m, tx);
      forall a ensures At(Revert(m, tx), a) == At(l, a) {
        AcceptedVote(l, tx, required);
        AppliedVoteAt(l, tx, required, a);
        AppliedVoteAt(l, tx, required, tx.sender);
        RevertedVoteAt(m, tx, a);
        RevertedVoteAt(m, tx, tx.sender);
        VoteBalanceBack(l, m, h, tx);
        RevertAppliedVoteAt(l, m, h, tx, a);
        RevertedUpdate(h, tx, a);
      }
      Extensionality(Revert(m, tx), l);
    } else {
      RevertAppliedOther(l, tx, required);
    }
  }
}
