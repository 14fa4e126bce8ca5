/** What it takes for a transaction to be accepted, what each error says, and what an accepted one leaves behind. */
module HandlerRules {
  import opened Options
  import opened Ledgers
  import opened Movements
  import opened Handlers
  import opened HandlerLemmas

  // ----- why a transaction is refused -----

  /** What is wrong, error by error. The last ones are about blocks. */
  predicate Wrong(e: Error, l: Ledger, tx: Transaction, required: nat) {
    var w := At(l, tx.sender);
    match e
    case UnexpectedNonce => tx.nonce != w.nonce + 1
    case InsufficientBalance =>
      w.balance < tx.amount + tx.fee || (tx.asset.MultiPayment? && w.balance < TotalOf(tx.asset.payments) + tx.fee)
    case LegacyMultiSignature => w.multiSignature.Some? && w.multiSignature.value.legacy
    case UnsupportedMultiSignature =>
      w.multiSignature.None? && tx.signatures.Some? && !tx.asset.MultiSignatureRegistration?
    case MaxVotesExceeded => tx.asset.Vote? && |tx.asset.votes| > 1
    case MaxUnvotesExceeded => tx.asset.Vote? && |tx.asset.unvotes| > 1
    case EmptyVote => tx.asset.Vote? && tx.asset.votes == [] && tx.asset.unvotes == []
    case NoVote => tx.asset.Vote? && tx.asset.unvotes != [] && w.vote.None?
    case UnvoteMismatch =>
      tx.asset.Vote? && tx.asset.unvotes != [] && w.vote.Some? && w.vote != Some(tx.asset.unvotes[0])
    case AlreadyVoted => tx.asset.Vote? && tx.asset.votes != [] && tx.asset.unvotes == [] && w.vote.Some?
    case VotedForNonValidator =>
      tx.asset.Vote? && exists a | a in tx.asset.votes + tx.asset.unvotes :: At(l, a).validator.None?
    case VotedForResignedValidator =>
      tx.asset.Vote? && exists a | a in tx.asset.votes :: At(l, a).validator.Some? && At(l, a).validator.value.resigned
    case NotSupportedForMultiSignatureWallet => tx.asset.Registration? && w.multiSignature.Some?
    case WalletIsAlreadyValidator => tx.asset.Registration? && w.validator.Some?
    case UsernameAlreadyRegistered =>
      tx.asset.Registration? && exists a | a in l :: Named(l[a], tx.asset.username)
    case WalletNotAValidator => tx.asset.Resignation? && w.validator.None?
    case WalletAlreadyResigned => tx.asset.Resignation? && w.validator.Some? && w.validator.value.resigned
    case NotEnoughValidators => tx.asset.Resignation? && |Standing(l)| <= required
    case MultiSignatureMinimumKeys =>
      tx.asset.MultiSignatureRegistration? && !ValidMultiSignature(tx.asset.multiSignature)
    case SignaturesUndefined => tx.asset.MultiSignatureRegistration? && tx.signatures.None?
    case MultiSignatureKeyCountMismatch =>
      tx.asset.MultiSignatureRegistration? && tx.signatures.Some?
      && tx.signatures.value != tx.asset.multiSignature.publicKeys
    case MultiSignatureAlreadyRegistered =>
      tx.asset.MultiSignatureRegistration? && At(l, tx.asset.account).multiSignature.Some?
    case _ => false
  }

  predicate Named(w: Wallet, username: string) {
    w.validator.Some? && w.validator.value.username == Some(username)
  }

  /** The validators that have not resigned. */
  function Standing(l: Ledger): set<Address> {
    set a | a in l && l[a].validator.Some? && !l[a].validator.value.resigned
  }

  predicate ValidMultiSignature(m: MultiSignatureAsset) {
    1 <= m.min <= m.publicKeys && m.min <= 16
  }

  /** Checks of the transaction's own kind come before those that every kind has. */
  predicate Common(e: Error) {
    e.UnexpectedNonce? || e.LegacyMultiSignature? || e.UnsupportedMultiSignature?
  }

  /** A transaction is accepted exactly if nothing is wrong, and otherwise gets an error that says what is: one of its
      kind, if there is any. */
  lemma AcceptedIffNothingIsWrong(l: Ledger, tx: Transaction, required: nat)
    requires WellFormed(tx)
    ensures Check(l, tx, required).None? <==> forall e :: !Wrong(e, l, tx, required)
    ensures forall e | Check(l, tx, required) == Some(e) ::
              Wrong(e, l, tx, required)
              && (Common(e) ==> forall f | Wrong(f, l, tx, required) :: Common(f) || f.InsufficientBalance?)
  {
    hide At, CheckAsset, CheckBase, Wrong;
    AssetRule(l, tx, required);
    BaseRule(l, tx, required);
    SameBalanceRule(l, tx, required);
  }

  /** The errors of the common checks, and those of the transaction's own kind. */
  lemma BaseRule(l: Ledger, tx: Transaction, required: nat)
    ensures CheckBase(l, tx).Some? ==> (Common(CheckBase(l, tx).value) || CheckBase(l, tx).value.InsufficientBalance?)
                                       && Wrong(CheckBase(l, tx).value, l, tx, required)
    ensures CheckBase(l, tx).None? ==> At(l, tx.sender).balance >= tx.amount + tx.fee
                                       && forall e | Common(e) :: !Wrong(e, l, tx, required)
  {
    hide At;
  }

  lemma SameBalanceRule(l: Ledger, tx: Transaction, required: nat)
    ensures Wrong(InsufficientBalance, l, tx, required) <==>
              || At(l, tx.sender).balance < tx.amount + tx.fee
              || (tx.asset.MultiPayment? && At(l, tx.sender).balance < TotalOf(tx.asset.payments) + tx.fee)
  {
  }

  lemma AssetRule(l: Ledger, tx: Transaction, required: nat)
    ensures CheckAsset(l, tx, required).Some? ==>
              !Common(CheckAsset(l, tx, required).value) && Wrong(CheckAsset(l, tx, required).value, l, tx, required)
    ensures CheckAsset(l, tx, required).None? ==>
              && (forall e | !Common(e) && !e.InsufficientBalance? :: !Wrong(e, l, tx, required))
              && (tx.asset.MultiPayment? ==> At(l, tx.sender).balance >= TotalOf(tx.asset.payments) + tx.fee)
  {
    hide At;
    if tx.asset.Vote? {
      VoteRule(l, tx, required);
    } else {
      assert Standing(l) == set a | a in l && l[a].validator.Some? && !l[a].validator.value.resigned;
    }
  }

  lemma VoteRule(l: Ledger, tx: Transaction, required: nat)
    requires tx.asset.Vote?
    ensures CheckAsset(l, tx, required).Some? ==>
              !Common(CheckAsset(l, tx, required).value) && Wrong(CheckAsset(l, tx, required).value, l, tx, required)
    ensures CheckAsset(l, tx, required).None? ==>
              forall e | !Common(e) && !e.InsufficientBalance? :: !Wrong(e, l, tx, required)
  {
    hide At;
    var Vote(votes, unvotes) := tx.asset;
    if |votes| <= 1 && |unvotes| <= 1 {
      UnvoteRule(l, At(l, tx.sender).vote, unvotes);
      if unvotes != [] { assert unvotes[0] in votes + unvotes; }
      if votes != [] {
        assert votes[0] in votes + unvotes && votes[0] in votes;
        var left := CheckUnvotes(l, At(l, tx.sender).vote, unvotes);
        if left.Ok? { OneVote(l, left.value, votes); }
      }
    }
  }

  lemma OneVote(l: Ledger, vote: Option<Address>, votes: seq<Address>)
    requires |votes| == 1
    ensures CheckVotes(l, vote, votes) ==
              if vote.Some? then Some(AlreadyVoted)
              else if At(l, votes[0]).validator.None? then Some(VotedForNonValidator)
              else if At(l, votes[0]).validator.value.resigned then Some(VotedForResignedValidator)
              else None
  {
    assert votes[1..] == [];
  }

  lemma UnvoteRule(l: Ledger, vote: Option<Address>, unvotes: seq<Address>)
    requires |unvotes| <= 1
    ensures CheckUnvotes(l, vote, unvotes) ==
              if unvotes == [] then Ok(vote)
              else if vote.None? then Err(NoVote)
              else if vote.value != unvotes[0] then Err(UnvoteMismatch)
              else if At(l, unvotes[0]).validator.None? then Err(VotedForNonValidator)
              else Ok(None)
  {
  }

  /** What an accepted transaction takes from its sender, the sender had. */
  lemma AcceptedIsCovered(l: Ledger, tx: Transaction, required: nat)
    requires WellFormed(tx) && Check(l, tx, required).None?
    ensures At(l, tx.sender).balance >= tx.amount + tx.fee + TotalOf(PaymentsOf(tx))
  {
    AcceptedIffNothingIsWrong(l, tx, required);
    assert !Wrong(InsufficientBalance, l, tx, required);
  }

  /** With the right nonce and without multi-signatures, a transfer is accepted exactly if the balance covers it. */
  lemma TransferIffCovered(l: Ledger, tx: Transaction, required: nat)
    requires tx.asset.Transfer? && tx.nonce == At(l, tx.sender).nonce + 1
    requires At(l, tx.sender).multiSignature.None? && tx.signatures.None?
    ensures Check(l, tx, required).None? <==> At(l, tx.sender).balance >= tx.amount + tx.fee
    ensures Check(l, tx, required).Some? ==> Check(l, tx, required) == Some(InsufficientBalance)
  {
  }

  // ----- what an accepted transaction leaves -----

  /** What wallet `w` of `a` is afterwards, its vote balance aside. */
  predicate Left(tx: Transaction, a: Address, w: Wallet, x: Wallet) {
    var mine := a == tx.sender;
    && x.balance == w.balance
                    - (if mine then tx.amount + tx.fee + TotalOf(PaymentsOf(tx)) else 0)
                    + (if tx.asset.Transfer? && tx.recipient == Some(a) then tx.amount else 0)
                    + Received(PaymentsOf(tx), a)
    && x.nonce == w.nonce + (if mine then 1 else 0)
    && x.vote == (if mine && tx.asset.Vote? then (if tx.asset.votes == [] then None else Some(tx.asset.votes[0]))
                  else w.vote)
    && x.multiSignature == (if tx.asset.MultiSignatureRegistration? && tx.asset.account == a
                            then Some(tx.asset.multiSignature) else w.multiSignature)
    && (if mine && tx.asset.Registration?
        then x.validator.Some? && x.validator.value.username == Some(tx.asset.username) && !x.validator.value.resigned
        else if mine && tx.asset.Resignation?
        then x.validator.Some? && w.validator.Some? && x.validator.value.username == w.validator.value.username
             && x.validator.value.resigned
        else SameValidator(w, x))
  }

  predicate SameValidator(w: Wallet, x: Wallet) {
    && x.validator.Some? == w.validator.Some?
    && (w.validator.Some? ==> x.validator.value.username == w.validator.value.username
                              && x.validator.value.resigned == w.validator.value.resigned)
  }

  /** An accepted transaction moves its amount, its payments and its fee, raises the sender's nonce by one, and sets
      just the attribute that its kind is for; every other wallet keeps what it had, vote balances aside. */
  lemma AppliedLeaves(l: Ledger, tx: Transaction, required: nat, a: Address)
    requires WellFormed(tx) && VotesRegistered(l) && Check(l, tx, required).None?
    ensures Left(tx, a, At(l, a), At(Apply(l, tx, required), a))
  {
    hide Check, ApplyHandler, UpdateVoteBalances, Left, VotesRegistered;
    HandlerLeaves(l, tx, required, a);
    ApplyHandlerRegistered(l, tx, required);
    UpdateLeaves(ApplyHandler(l, tx), l, tx, required, a);
    LeftSame(tx, a, At(l, a), At(ApplyHandler(l, tx), a), At(Apply(l, tx, required), a));
  }

  lemma HandlerLeaves(l: Ledger, tx: Transaction, required: nat, a: Address)
    requires WellFormed(tx) && Check(l, tx, required).None?
    ensures Left(tx, a, At(l, a), At(ApplyHandler(l, tx), a))
  {
    hide At, Put, Check, ApplyHandler, Left;
    AcceptedIffNothingIsWrong(l, tx, required);
    assert !Wrong(UnexpectedNonce, l, tx, required) && !Wrong(WalletNotAValidator, l, tx, required);
    match tx.asset
    case MultiPayment(payments) => PaymentLeaves(l, tx, a);
    case Vote(votes, unvotes) => AcceptedVote(l, tx, required); VoteLeaves(l, tx, a);
    case Transfer => TransferLeaves(l, tx, a);
    case _ => OtherLeaves(l, tx, a);
  }

  lemma PaymentLeaves(l: Ledger, tx: Transaction, a: Address)
    requires WellFormed(tx) && tx.asset.MultiPayment? && At(l, tx.sender).nonce + 1 == tx.nonce
    ensures Left(tx, a, At(l, a), At(ApplyHandler(l, tx), a))
  {
    hide At, Put, Received, TotalOf;
    CreditAllAt(ApplyToSender(l, tx), tx.asset.payments, a);
  }

  lemma VoteLeaves(l: Ledger, tx: Transaction, a: Address)
    requires WellFormed(tx) && tx.asset.Vote? && VoteAllowed(l, tx)
    ensures Left(tx, a, At(l, a), At(ApplyHandler(l, tx), a))
  {
    hide At, Put;
  }

  lemma TransferLeaves(l: Ledger, tx: Transaction, a: Address)
    requires WellFormed(tx) && tx.asset.Transfer? && At(l, tx.sender).nonce + 1 == tx.nonce
    ensures Left(tx, a, At(l, a), At(ApplyHandler(l, tx), a))
  {
    hide At, Put;
  }

  lemma OtherLeaves(l: Ledger, tx: Transaction, a: Address)
    requires WellFormed(tx) && At(l, tx.sender).nonce + 1 == tx.nonce
    requires tx.asset.Registration? || tx.asset.Resignation? || tx.asset.MultiSignatureRegistration?
    requires tx.asset.Resignation? ==> At(l, tx.sender).validator.Some?
    ensures Left(tx, a, At(l, a), At(ApplyHandler(l, tx), a))
  {
    hide At, Put;
  }

  predicate SameButVoteBalance(w: Wallet, x: Wallet) {
    x.balance == w.balance && x.nonce == w.nonce && x.vote == w.vote && x.multiSignature == w.multiSignature
    && SameValidator(w, x)
  }

  lemma LeftSame(tx: Transaction, a: Address, w: Wallet, y: Wallet, x: Wallet)
    requires Left(tx, a, w, y) && SameButVoteBalance(y, x)
    ensures Left(tx, a, w, x)
  {
  }

  lemma UpdateLeaves(h: Ledger, l: Ledger, tx: Transaction, required: nat, a: Address)
    requires WellFormed(tx) && Check(l, tx, required).None? && h == ApplyHandler(l, tx) && VotesRegistered(h)
    ensures SameButVoteBalance(At(h, a), At(UpdateVoteBalances(h, tx, false), a))
  {
    hide At, Put, Check, BumpForAll, MovementsOf, ApplyHandler, VotesRegistered, MoveVote;
    match tx.asset
    case Vote(votes, unvotes) =>
      AcceptedVote(l, tx, required);
      VotedKeepValidators(l, tx, required);
      MoveVoteAt(h, votes, unvotes, At(h, tx.sender).balance, tx.fee, false, a);
    case _ => BumpForAllAt(h, MovementsOf(tx), a);
  }

  lemma VotedKeepValidators(l: Ledger, tx: Transaction, required: nat)
    requires WellFormed(tx) && tx.asset.Vote? && Check(l, tx, required).None?
    ensures forall v | v in tx.asset.votes + tx.asset.unvotes :: At(ApplyHandler(l, tx), v).validator.Some?
  {
    hide At, Put, Check, ApplyHandler;
    AcceptedVote(l, tx, required);
    forall v | v in tx.asset.votes + tx.asset.unvotes ensures At(ApplyHandler(l, tx), v).validator.Some? {
      ApplyHandlerKeepsValidators(l, tx, v);
    }
  }
}
