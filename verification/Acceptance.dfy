/** From the pool to the ledger: a block of collated candidates is one that the ledger accepts. */
module Acceptance {
  import opened Options
  import opened Ledgers
  import opened Movements
  import opened Handlers
  import opened HandlerLemmas
  import opened Blocks
  import opened BlockLemmas
  import opened PoolHandlers
  import opened PoolTransactions
  import Chain
  import Forging

  // ----- the validator's wallets -----

  /** A wallet without its vote balance, which nothing that the validator does looks at. */
  function Bare(w: Wallet): Wallet {
    if w.validator.None? then w else w.(validator := Some(w.validator.value.(voteBalance := 0)))
  }

  /** The validator's clone of the ledger misses vote balances only. */
  ghost predicate Mirrors(h: Ledger, l: Ledger) {
    forall a :: Bare(At(h, a)) == Bare(At(l, a))
  }

  lemma MirrorsPut(h: Ledger, l: Ledger, a: Address, v: Wallet, w: Wallet)
    requires Mirrors(h, l) && Bare(v) == Bare(w)
    ensures Mirrors(Put(h, a, v), Put(l, a, w))
  {
    hide Put, At;
    forall b ensures Bare(At(Put(h, a, v), b)) == Bare(At(Put(l, a, w), b)) {
      assert Bare(At(h, b)) == Bare(At(l, b));
    }
  }

  lemma BumpMirrors(h: Ledger, l: Ledger, v: Address, amount: int)
    requires Mirrors(h, l) && At(l, v).validator.Some?
    ensures Mirrors(h, Bump(l, v, amount))
  {
    hide Put, At;
    forall b ensures Bare(At(h, b)) == Bare(At(Bump(l, v, amount), b)) {
      assert Bare(At(h, b)) == Bare(At(l, b));
    }
  }

  lemma {:induction false} BumpForAllMirrors(h: Ledger, l: Ledger, ps: seq<Payment>)
    requires Mirrors(h, l) && VotesRegistered(l)
    ensures Mirrors(h, BumpForAll(l, ps))
    decreases |ps|
  {
    hide Put, At, Mirrors, Bump;
    if ps != [] {
      var front, last := ps[..|ps| - 1], ps[|ps| - 1];
      BumpForAllMirrors(h, l, front);
      BumpForAllRegistered(l, front);
      assert NamesValidator(BumpForAll(l, front), last.recipient);
      var vote := At(BumpForAll(l, front), last.recipient).vote;
      if vote.Some? {
        BumpMirrors(h, BumpForAll(l, front), vote.value, last.amount);
      }
    }
  }

  lemma UpdateMirrors(h: Ledger, l: Ledger, tx: Transaction)
    requires Mirrors(h, l) && VotesRegistered(l)
    requires tx.asset.Vote? ==>
               && (tx.asset.votes != [] ==> At(l, tx.asset.votes[0]).validator.Some?)
               && (tx.asset.unvotes != [] ==> At(l, tx.asset.unvotes[0]).validator.Some?)
    ensures Mirrors(h, UpdateVoteBalances(l, tx, false))
  {
    hide Mirrors, Put, At, Bump, VotesRegistered, BumpForAll;
    match tx.asset
    case Vote(votes, unvotes) =>
      var amount := At(l, tx.sender).balance;
      var m := if unvotes == [] then l else Bump(l, unvotes[0], Signed(amount + tx.fee, true));
      if unvotes != [] {
        BumpMirrors(h, l, unvotes[0], Signed(amount + tx.fee, true));
        BumpKeeps(l, unvotes[0], Signed(amount + tx.fee, true), votes);
      }
      if votes != [] {
        BumpMirrors(h, m, votes[0], Signed(amount, false));
      }
    case _ => BumpForAllMirrors(h, l, MovementsOf(tx));
  }

  lemma BumpKeeps(l: Ledger, v: Address, amount: int, votes: seq<Address>)
    ensures votes != [] && At(l, votes[0]).validator.Some? ==> At(Bump(l, v, amount), votes[0]).validator.Some?
  {
    hide Put, At;
  }

  // ----- the handlers do not look at vote balances -----

  lemma CreditMirrors(h: Ledger, l: Ledger, a: Address, amount: int)
    requires Mirrors(h, l)
    ensures Mirrors(Credit(h, a, amount), Credit(l, a, amount))
  {
    hide Put, At;
    assert Bare(At(h, a)) == Bare(At(l, a));
    var v, w := At(h, a), At(l, a);
    MirrorsPut(h, l, a, v.(balance := v.balance + amount), w.(balance := w.balance + amount));
  }

  lemma {:induction false} CreditAllMirrors(h: Ledger, l: Ledger, ps: seq<Payment>)
    requires Mirrors(h, l)
    ensures Mirrors(CreditAll(h, ps), CreditAll(l, ps))
    decreases |ps|
  {
    hide Mirrors, Credit;
    if ps != [] {
      CreditAllMirrors(h, l, ps[..|ps| - 1]);
      CreditMirrors(CreditAll(h, ps[..|ps| - 1]), CreditAll(l, ps[..|ps| - 1]), ps[|ps| - 1].recipient,
                    ps[|ps| - 1].amount);
    }
  }

  lemma BaseMirrors(h: Ledger, l: Ledger, tx: Transaction)
    requires Mirrors(h, l)
    ensures Mirrors(ApplyBase(h, tx), ApplyBase(l, tx))
  {
    hide Put, At;
    assert Bare(At(h, tx.sender)) == Bare(At(l, tx.sender));
    var v, w := At(h, tx.sender), At(l, tx.sender);
    MirrorsPut(h, l, tx.sender, v.(nonce := tx.nonce, balance := v.balance - tx.amount - tx.fee),
               w.(nonce := tx.nonce, balance := w.balance - tx.amount - tx.fee));
  }

  /** What a handler writes to the sender's wallet after the base handler. */
  function SenderWrites(w: Wallet, tx: Transaction): Wallet {
    match tx.asset
    case Registration(username) => w.(validator := Some(Validator(Some(username), 0, false)))
    case Vote(votes, unvotes) => w.(vote := VoteAfter(w.vote, votes, unvotes))
    case MultiPayment(payments) => w.(balance := w.balance + -TotalOf(payments))
    case Resignation => ResignedAs(w, true)
    case _ => w
  }

  lemma SenderWritesAgree(v: Wallet, w: Wallet, tx: Transaction)
    requires Bare(v) == Bare(w)
    ensures Bare(SenderWrites(v, tx)) == Bare(SenderWrites(w, tx))
  {
  }

  lemma ToSenderIs(l: Ledger, tx: Transaction)
    ensures ApplyToSender(l, tx) == if tx.asset.Transfer? || tx.asset.MultiSignatureRegistration? then ApplyBase(l, tx)
                                    else Put(ApplyBase(l, tx), tx.sender,
                                             SenderWrites(At(ApplyBase(l, tx), tx.sender), tx))
  {
    hide Put, At, ApplyBase;
  }

  lemma ToSenderMirrors(h: Ledger, l: Ledger, tx: Transaction)
    requires Mirrors(h, l)
    ensures Mirrors(ApplyToSender(h, tx), ApplyToSender(l, tx))
  {
    hide Put, At, ApplyBase, ApplyToSender, SenderWrites;
    BaseMirrors(h, l, tx);
    ToSenderIs(h, tx);
    ToSenderIs(l, tx);
    var v, w := At(ApplyBase(h, tx), tx.sender), At(ApplyBase(l, tx), tx.sender);
    assert Bare(v) == Bare(w);
    SenderWritesAgree(v, w, tx);
    MirrorsPut(ApplyBase(h, tx), ApplyBase(l, tx), tx.sender, SenderWrites(v, tx), SenderWrites(w, tx));
  }

  lemma HandlerMirrors(h: Ledger, l: Ledger, tx: Transaction)
    requires WellFormed(tx) && Mirrors(h, l)
    ensures Mirrors(ApplyHandler(h, tx), ApplyHandler(l, tx))
  {
    hide Put, At, ApplyToSender;
    var p, q := ApplyToSender(h, tx), ApplyToSender(l, tx);
    ToSenderMirrors(h, l, tx);
    match tx.asset
    case Transfer => CreditMirrors(p, q, tx.recipient.value, tx.amount);
    case MultiSignatureRegistration(account, asset) =>
      assert Bare(At(p, account)) == Bare(At(q, account));
      MirrorsPut(p, q, account, At(p, account).(multiSignature := Some(asset)),
                 At(q, account).(multiSignature := Some(asset)));
    case MultiPayment(payments) => CreditAllMirrors(p, q, payments);
    case _ =>
  }

  // ----- nor do the checks -----

  lemma {:induction false} CheckUnvotesMirrors(h: Ledger, l: Ledger, vote: Option<Address>, unvotes: seq<Address>)
    requires Mirrors(h, l)
    ensures CheckUnvotes(h, vote, unvotes) == CheckUnvotes(l, vote, unvotes)
    decreases |unvotes|
  {
    hide At;
    if unvotes != [] {
      assert Bare(At(h, unvotes[0])) == Bare(At(l, unvotes[0]));
      CheckUnvotesMirrors(h, l, None, unvotes[1..]);
    }
  }

  lemma {:induction false} CheckVotesMirrors(h: Ledger, l: Ledger, vote: Option<Address>, votes: seq<Address>)
    requires Mirrors(h, l)
    ensures CheckVotes(h, vote, votes) == CheckVotes(l, vote, votes)
    decreases |votes|
  {
    hide At;
    if votes != [] {
      assert Bare(At(h, votes[0])) == Bare(At(l, votes[0]));
      CheckVotesMirrors(h, l, vote, votes[1..]);
    }
  }

  lemma UsernamesMirror(h: Ledger, l: Ledger, username: string)
    requires Mirrors(h, l) && UsernameTaken(h, username)
    ensures UsernameTaken(l, username)
  {
    var a :| a in h && h[a].validator.Some? && h[a].validator.value.username == Some(username);
    assert Bare(At(h, a)) == Bare(At(l, a));
  }

  lemma ActiveMirrors(h: Ledger, l: Ledger)
    requires Mirrors(h, l)
    ensures ActiveValidators(h) == ActiveValidators(l)
  {
    var p := set a | a in h && h[a].validator.Some? && !h[a].validator.value.resigned;
    var q := set a | a in l && l[a].validator.Some? && !l[a].validator.value.resigned;
    forall a ensures a in p <==> a in q {
      assert Bare(At(h, a)) == Bare(At(l, a));
    }
    assert p == q;
  }

  lemma MirrorsSymmetric(h: Ledger, l: Ledger)
    requires Mirrors(h, l)
    ensures Mirrors(l, h)
  {
  }

  lemma CheckMirrors(h: Ledger, l: Ledger, tx: Transaction, required: nat)
    requires Mirrors(h, l)
    ensures Check(h, tx, required) == Check(l, tx, required)
  {
    hide At, CheckUnvotes, CheckVotes, UsernameTaken, ActiveValidators;
    MirrorsSymmetric(h, l);
    assert Bare(At(h, tx.sender)) == Bare(At(l, tx.sender));
    match tx.asset
    case Registration(username) =>
      if UsernameTaken(h, username) { UsernamesMirror(h, l, username); }
      if UsernameTaken(l, username) { UsernamesMirror(l, h, username); }
    case Vote(votes, unvotes) =>
      var vote := At(l, tx.sender).vote;
      CheckUnvotesMirrors(h, l, vote, unvotes);
      if CheckUnvotes(l, vote, unvotes).Ok? {
        CheckVotesMirrors(h, l, CheckUnvotes(l, vote, unvotes).value, votes);
      }
    case MultiSignatureRegistration(account, _) => assert Bare(At(h, account)) == Bare(At(l, account));
    case Resignation => ActiveMirrors(h, l);
    case _ =>
  }

  /** One transaction on the validator's wallets and on the ledger. */
  lemma ApplyMirrors(h: Ledger, l: Ledger, tx: Transaction, required: nat)
    requires WellFormed(tx) && Mirrors(h, l) && VotesRegistered(l) && Check(h, tx, required).None?
    ensures Check(l, tx, required).None?
    ensures Mirrors(ApplyHandler(h, tx), Apply(l, tx, required)) && VotesRegistered(Apply(l, tx, required))
  {
    hide Mirrors, Check, ApplyHandler, UpdateVoteBalances, VotesRegistered, At;
    CheckMirrors(h, l, tx, required);
    HandlerMirrors(h, l, tx);
    ApplyHandlerRegistered(l, tx, required);
    ApplyRegistered(l, tx, required);
    if tx.asset.Vote? {
      AcceptedVote(l, tx, required);
      if tx.asset.votes != [] { ApplyHandlerKeepsValidators(l, tx, tx.asset.votes[0]); }
      if tx.asset.unvotes != [] { ApplyHandlerKeepsValidators(l, tx, tx.asset.unvotes[0]); }
    }
    UpdateMirrors(ApplyHandler(h, tx), ApplyHandler(l, tx), tx);
  }

  // ----- candidates -----

  type Decode = Tx -> Formed

  function Decoded(ts: seq<Tx>, decode: Decode): (txs: seq<Transaction>)
    ensures |txs| == |ts| && forall i | 0 <= i < |ts| :: txs[i] == decode(ts[i]) && WellFormed(txs[i])
  {
    if ts == [] then [] else Decoded(ts[..|ts| - 1], decode) + [decode(ts[|ts| - 1])]
  }

  /** The validator's wallets after it has accepted `ts`. */
  function ValidatorRun(h: Ledger, ts: seq<Tx>, decode: Decode): Ledger {
    if ts == [] then h else ApplyHandler(ValidatorRun(h, ts[..|ts| - 1], decode), decode(ts[|ts| - 1]))
  }

  /** `TransactionValidator.validate`: applying a transaction to the validator's wallets does not throw. */
  function ValidatesOn(h: Ledger, decode: Decode, required: nat): Forging.Validates {
    (accepted, t) => Check(ValidatorRun(h, accepted, decode), decode(t), required).None?
  }

  lemma {:induction false} ApplyRunSnoc(l: Ledger, txs: seq<Transaction>, tx: Transaction, required: nat)
    requires WellFormedAll(txs) && WellFormed(tx) && ApplyRun(l, txs, required).1 == |txs|
    ensures WellFormedAll(txs + [tx])
    ensures var m := ApplyRun(l, txs, required).0;
            Check(m, tx, required).None? ==> ApplyRun(l, txs + [tx], required) == (Apply(m, tx, required), |txs| + 1)
    decreases |txs|
  {
    hide Check, Apply;
    if txs == [] {
      assert ([tx])[1..] == [] && txs + [tx] == [tx];
    } else {
      ApplyRunSnoc(Apply(l, txs[0], required), txs[1..], tx, required);
      assert (txs + [tx])[1..] == txs[1..] + [tx] && (txs + [tx])[0] == txs[0];
    }
  }

  lemma ValidatedFront(candidates: seq<Tx>, validates: Forging.Validates)
    requires candidates != [] && Forging.Validated(candidates, validates)
    ensures Forging.Validated(candidates[..|candidates| - 1], validates)
    ensures validates(candidates[..|candidates| - 1], candidates[|candidates| - 1])
  {
    var front := candidates[..|candidates| - 1];
    forall i | 0 <= i < |front| ensures validates(front[..i], front[i]) {
      assert front[..i] == candidates[..i];
    }
  }

  ghost predicate KeepsValidators(l: Ledger, m: Ledger) {
    forall a | At(l, a).validator.Some? :: At(m, a).validator.Some?
  }

  /** Transactions that the validator accepted one after the other are all accepted by the ledger. */
  lemma {:induction false} ValidatedRun(l: Ledger, cs: seq<Tx>, decode: Decode, required: nat)
    requires VotesRegistered(l) && Forging.Validated(cs, ValidatesOn(l, decode, required))
    ensures var (m, n) := ApplyRun(l, Decoded(cs, decode), required);
            && n == |cs| && Mirrors(ValidatorRun(l, cs, decode), m) && VotesRegistered(m)
            && KeepsValidators(l, ValidatorRun(l, cs, decode))
    decreases |cs|
  {
    hide At, Check, Apply, ApplyHandler, VotesRegistered, Forging.Validated, Mirrors;
    if cs == [] {
      MirrorsItself(l);
    } else {
      var front, last := cs[..|cs| - 1], cs[|cs| - 1];
      ValidatedFront(cs, ValidatesOn(l, decode, required));
      ValidatedRun(l, front, decode, required);
      var h, m := ValidatorRun(l, front, decode), ApplyRun(l, Decoded(front, decode), required).0;
      ApplyMirrors(h, m, decode(last), required);
      ApplyRunSnoc(l, Decoded(front, decode), decode(last), required);
      forall a | At(l, a).validator.Some? ensures At(ApplyHandler(h, decode(last)), a).validator.Some? {
        ApplyHandlerKeepsValidators(h, decode(last), a);
      }
    }
  }

  lemma MirrorsItself(l: Ledger)
    ensures Mirrors(l, l)
  {
  }

  lemma {:induction false} DecodedFees(cs: seq<Tx>, decode: Decode)
    requires forall t :: decode(t).fee == t.fee
    ensures FeesOf(Decoded(cs, decode)) == Forging.Fees(cs)
    decreases |cs|
  {
    if cs != [] {
      var front, last := cs[..|cs| - 1], cs[|cs| - 1];
      DecodedFees(front, decode);
      FeesOfSnoc(Decoded(front, decode) + [decode(last)]);
    }
  }

  lemma MirroredForger(l: Ledger, h: Ledger, m: Ledger, forger: Address)
    requires At(l, forger).validator.Some? && KeepsValidators(l, h) && Mirrors(h, m) && VotesRegistered(m)
    ensures ForgerError(m, forger).None?
  {
    hide At;
    assert Bare(At(h, forger)) == Bare(At(m, forger));
    assert NamesValidator(m, forger);
  }

  /** The block that is forged from the collated candidates: its fee is the sum of theirs. */
  function BlockOf(cs: seq<Tx>, decode: Decode, height: int, generator: Address, reward: int): Block {
    Block(height, generator, reward, Forging.Fees(cs), Decoded(cs, decode))
  }

  /** A block that a registered validator forges from collated candidates on top of the last block is always applied,
      and changes the supply by its reward less the burn. */
  lemma CollatedBlockIsApplied(l: Ledger, blocks: seq<Block>, s: Settings, all: seq<Tx>, m: Forging.Limits,
                               decode: Decode, generator: Address, reward: int)
    requires VotesRegistered(l) && Chain.Window(blocks, s) && Forging.DistinctIds(all)
    requires At(l, generator).validator.Some? && forall t :: decode(t).fee == t.fee
    ensures var height := blocks[|blocks| - 1].height + 1;
            var (cs, _) := Forging.Collated(all, [], [], m.maxPayload - Forging.COLLATOR_HEADER, m, height,
                                            ValidatesOn(l, decode, s.required));
            var b := BlockOf(cs, decode, height, generator, reward);
            && WellFormedAll(b.transactions)
            && ApplyBlock(l, blocks, b, s).error == None
            && Supply(ApplyBlock(l, blocks, b, s).ledger) == Supply(l) + reward - Burned(b.totalFee, s.percentage)
  {
    hide At, Check, ApplyRun, VotesRegistered, Forging.Validated, Forging.Collated, Mirrors, KeepsValidators,
      ForgerError, ApplyBlock, Forging.DistinctIds, Forging.Payload, Supply, Burned, Forging.Fees, Decoded, Expired;
    var height := blocks[|blocks| - 1].height + 1;
    var validates := ValidatesOn(l, decode, s.required);
    var (cs, _) := Forging.Collated(all, [], [], m.maxPayload - Forging.COLLATOR_HEADER, m, height, validates);
    Collects(all, m, height, validates);
    ValidatedRun(l, cs, decode, s.required);
    var b := BlockOf(cs, decode, height, generator, reward);
    MirroredForger(l, ValidatorRun(l, cs, decode), ApplyRun(l, b.transactions, s.required).0, generator);
    Chain.ApplyBlockOutcome(l, blocks, b, s);
    DecodedFees(cs, decode);
    Chain.ApplyBlockSupply(l, blocks, b, s);
  }

  lemma Collects(all: seq<Tx>, m: Forging.Limits, height: int, validates: Forging.Validates)
    requires Forging.DistinctIds(all)
    ensures Forging.Validated(Forging.Collated(all, [], [], m.maxPayload - Forging.COLLATOR_HEADER, m, height,
                                               validates).0,
                              validates)
  {
    hide Forging.Collated, Forging.DistinctIds, Forging.Payload;
    assert [] + all == all;
    Forging.NothingCollated();
    Forging.CollatedIsSound([], all, [], [], m.maxPayload - Forging.COLLATOR_HEADER, m, height, validates);
  }
}
