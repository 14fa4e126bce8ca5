/** What holds of the ledger in every run of blocks applied and reverted: balances, nonces, supply, names. */
module ChainLaws {
  import opened Options
  import opened Ledgers
  import opened Movements
  import opened Handlers
  import opened HandlerLemmas
  import opened HandlerRules
  import opened Blocks
  import opened BlockLemmas
  import opened Chain

  // ----- balances -----

  ghost predicate NonNegative(l: Ledger) {
    forall a :: At(l, a).balance >= 0
  }

  predicate Payable(tx: Transaction) {
    tx.amount >= 0 && tx.fee >= 0 && forall p | p in PaymentsOf(tx) :: p.amount >= 0
  }

  ghost predicate AllPayable(b: Block) {
    b.reward >= 0 && b.totalFee >= 0 && forall tx | tx in b.transactions :: Payable(tx)
  }

  lemma {:induction false} PaymentsReceived(ps: seq<Payment>, a: Address)
    requires forall p | p in ps :: p.amount >= 0
    ensures 0 <= Received(ps, a) <= TotalOf(ps)
  {
    if ps != [] { PaymentsReceived(ps[..|ps| - 1], a); }
  }

  lemma ApplyFunded(l: Ledger, tx: Transaction, required: nat)
    requires WellFormed(tx) && Payable(tx) && VotesRegistered(l) && NonNegative(l)
    ensures NonNegative(Apply(l, tx, required))
  {
    hide Check, At, VotesRegistered;
    if Check(l, tx, required).None? {
      AcceptedIsCovered(l, tx, required);
      forall a ensures At(Apply(l, tx, required), a).balance >= 0 {
        hide Apply;
        AppliedLeaves(l, tx, required, a);
        PaymentsReceived(PaymentsOf(tx), a);
      }
    }
  }

  lemma {:induction false} RunFunded(l: Ledger, txs: seq<Transaction>, required: nat)
    requires WellFormedAll(txs) && (forall tx | tx in txs :: Payable(tx)) && VotesRegistered(l) && NonNegative(l)
    ensures NonNegative(ApplyRun(l, txs, required).0)
    decreases |txs|
  {
    hide Apply, Check, VotesRegistered, NonNegative, Payable;
    if txs != [] && Check(l, txs[0], required).None? {
      ApplyFunded(l, txs[0], required);
      ApplyRegistered(l, txs[0], required);
      RunFunded(Apply(l, txs[0], required), txs[1..], required);
    }
  }

  lemma RewardFunded(l: Ledger, b: Block, s: Settings)
    requires NonNegative(l) && b.reward >= 0 && b.totalFee >= 0
    ensures NonNegative(Reward(l, b.generator, Earned(b, s)))
  {
    hide At, Reward, Burned;
    BurnBounds(b.totalFee, s.percentage);
    forall a ensures At(Reward(l, b.generator, Earned(b, s)), a).balance >= 0 {
      RewardBalance(l, b.generator, Earned(b, s), a);
    }
  }

  // ----- names and multi-signatures -----

  /** No two validators have one username, and every multi-signature can be met. */
  ghost predicate Lawful(l: Ledger) {
    && (forall a, b, u :: Named(At(l, a), u) && Named(At(l, b), u) ==> a == b)
    && (forall a | At(l, a).multiSignature.Some? :: ValidMultiSignature(At(l, a).multiSignature.value))
  }

  /** What a rule about names and multi-signatures sees of a wallet. */
  ghost predicate SameNames(w: Wallet, x: Wallet) {
    x.multiSignature == w.multiSignature && forall u :: Named(w, u) <==> Named(x, u)
  }

  lemma RegisteredName(l: Ledger, tx: Transaction, required: nat)
    requires WellFormed(tx) && Check(l, tx, required).None?
    ensures tx.asset.Registration? ==> forall a :: !Named(At(l, a), tx.asset.username)
    ensures tx.asset.MultiSignatureRegistration? ==> ValidMultiSignature(tx.asset.multiSignature)
  {
    hide Check;
    AcceptedIffNothingIsWrong(l, tx, required);
    assert !Wrong(UsernameAlreadyRegistered, l, tx, required);
    assert !Wrong(MultiSignatureMinimumKeys, l, tx, required);
  }

  lemma ApplyLawful(l: Ledger, tx: Transaction, required: nat)
    requires WellFormed(tx) && VotesRegistered(l) && Lawful(l)
    ensures Lawful(Apply(l, tx, required))
  {
    hide Check, At, VotesRegistered;
    if Check(l, tx, required).None? {
      RegisteredName(l, tx, required);
      var m := Apply(l, tx, required);
      hide Apply, Left;
      forall a
        ensures LeftNames(tx, a, At(l, a), At(m, a))
      {
        AppliedLeaves(l, tx, required, a);
        NamesLeft(tx, a, At(l, a), At(m, a));
      }
    }
  }

  /** What an accepted transaction changes about names and multi-signatures. */
  ghost predicate LeftNames(tx: Transaction, a: Address, w: Wallet, x: Wallet) {
    && (forall u :: Named(x, u) ==>
          Named(w, u) || (tx.asset.Registration? && a == tx.sender && u == tx.asset.username))
    && (x.multiSignature == w.multiSignature
        || (tx.asset.MultiSignatureRegistration? && x.multiSignature == Some(tx.asset.multiSignature)))
  }

  lemma NamesLeft(tx: Transaction, a: Address, w: Wallet, x: Wallet)
    requires Left(tx, a, w, x)
    ensures LeftNames(tx, a, w, x)
  {
  }

  lemma {:induction false} RunLawful(l: Ledger, txs: seq<Transaction>, required: nat)
    requires WellFormedAll(txs) && VotesRegistered(l) && Lawful(l)
    ensures Lawful(ApplyRun(l, txs, required).0)
    decreases |txs|
  {
    hide Apply, Check, VotesRegistered, Lawful;
    if txs != [] && Check(l, txs[0], required).None? {
      ApplyLawful(l, txs[0], required);
      ApplyRegistered(l, txs[0], required);
      RunLawful(Apply(l, txs[0], required), txs[1..], required);
    }
  }

  /** A payment to a forger touches balances and vote balances only. */
  lemma RewardLeaves(l: Ledger, f: Address, amount: int, a: Address)
    requires VotesRegistered(l)
    ensures var w, x := At(l, a), At(Reward(l, f, amount), a);
            x.nonce == w.nonce && x.vote == w.vote && x.multiSignature == w.multiSignature && SameValidator(w, x)
  {
    hide At, Reward;
    RewardAt(l, f, amount, a);
    RegisteredVote(l, f);
  }

  lemma RewardLawful(l: Ledger, f: Address, amount: int)
    requires VotesRegistered(l) && Lawful(l)
    ensures Lawful(Reward(l, f, amount))
  {
    hide At, Reward, VotesRegistered;
    forall a ensures SameNames(At(l, a), At(Reward(l, f, amount), a)) { RewardLeaves(l, f, amount, a); }
  }

  // ----- validators that have not resigned -----

  lemma StandingAt(l: Ledger, a: Address)
    ensures a in Standing(l) <==> At(l, a).validator.Some? && !At(l, a).validator.value.resigned
  {
  }

  /** A resignation is accepted only while more validators than required stand, and takes one of them away; a
      registration adds one; nothing else changes who stands. */
  lemma ApplyStanding(l: Ledger, tx: Transaction, required: nat)
    requires WellFormed(tx) && VotesRegistered(l) && Check(l, tx, required).None?
    ensures Standing(Apply(l, tx, required)) ==
              if tx.asset.Registration? then Standing(l) + {tx.sender}
              else if tx.asset.Resignation? then Standing(l) - {tx.sender} else Standing(l)
    ensures tx.asset.Registration? ==> tx.sender !in Standing(l)
    ensures tx.asset.Resignation? ==> tx.sender in Standing(l) && |Standing(l)| > required
  {
    hide Check, Apply, At, Standing, VotesRegistered, Left;
    StandingChecked(l, tx, required);
    StandingAt(l, tx.sender);
    forall a
      ensures a in Standing(Apply(l, tx, required)) <==>
                a in if tx.asset.Registration? then Standing(l) + {tx.sender}
                     else if tx.asset.Resignation? then Standing(l) - {tx.sender} else Standing(l)
    {
      AppliedLeaves(l, tx, required, a);
      StandingLeft(tx, a, At(l, a), At(Apply(l, tx, required), a));
      StandingAt(l, a);
      StandingAt(Apply(l, tx, required), a);
    }
  }

  lemma StandingChecked(l: Ledger, tx: Transaction, required: nat)
    requires WellFormed(tx) && Check(l, tx, required).None?
    ensures tx.asset.Registration? ==> At(l, tx.sender).validator.None?
    ensures tx.asset.Resignation? ==>
              && At(l, tx.sender).validator.Some? && !At(l, tx.sender).validator.value.resigned
              && |Standing(l)| > required
  {
    hide Check, At, Standing;
    AcceptedIffNothingIsWrong(l, tx, required);
    if tx.asset.Registration? {
      assert !Wrong(WalletIsAlreadyValidator, l, tx, required);
    } else if tx.asset.Resignation? {
      assert !Wrong(WalletNotAValidator, l, tx, required) && !Wrong(WalletAlreadyResigned, l, tx, required);
      assert !Wrong(NotEnoughValidators, l, tx, required);
    }
  }

  lemma StandingLeft(tx: Transaction, a: Address, w: Wallet, x: Wallet)
    requires Left(tx, a, w, x)
    ensures x.validator.Some? && !x.validator.value.resigned <==>
              if tx.asset.Registration? && a == tx.sender then true
              else if tx.asset.Resignation? && a == tx.sender then false
              else w.validator.Some? && !w.validator.value.resigned
  {
  }

  lemma {:induction false} RunStanding(l: Ledger, txs: seq<Transaction>, required: nat)
    requires WellFormedAll(txs) && VotesRegistered(l)
    ensures |Standing(ApplyRun(l, txs, required).0)| >= if |Standing(l)| <= required then |Standing(l)| else required
    decreases |txs|
  {
    hide Apply, Check, VotesRegistered, Standing;
    if txs != [] && Check(l, txs[0], required).None? {
      ApplyStanding(l, txs[0], required);
      ApplyRegistered(l, txs[0], required);
      RunStanding(Apply(l, txs[0], required), txs[1..], required);
    }
  }

  lemma RewardStanding(l: Ledger, f: Address, amount: int)
    requires VotesRegistered(l)
    ensures Standing(Reward(l, f, amount)) == Standing(l)
  {
    hide Reward, At, Standing, VotesRegistered;
    forall a ensures a in Standing(Reward(l, f, amount)) <==> a in Standing(l) {
      StandingAt(l, a);
      StandingAt(Reward(l, f, amount), a);
      RewardLeaves(l, f, amount, a);
    }
  }

  // ----- nonces -----

  /** The transactions of one sender, in order. */
  ghost function SentBy(txs: seq<Transaction>, a: Address): seq<Transaction> {
    if txs == [] then [] else (if txs[0].sender == a then [txs[0]] else []) + SentBy(txs[1..], a)
  }

  lemma {:induction false} SentByConcat(xs: seq<Transaction>, ys: seq<Transaction>, a: Address)
    ensures SentBy(xs + ys, a) == SentBy(xs, a) + SentBy(ys, a)
    decreases |xs|
  {
    if xs == [] {
      assert xs + ys == ys;
    } else {
      SentByConcat(xs[1..], ys, a);
      assert (xs + ys)[1..] == xs[1..] + ys && (xs + ys)[0] == xs[0];
    }
  }

  /** A sender's transactions have the nonces that follow `nonce`, one after the other. */
  ghost predicate Numbered(txs: seq<Transaction>, nonce: int) {
    forall i | 0 <= i < |txs| :: txs[i].nonce == nonce + 1 + i
  }

  lemma {:induction false} RunNumbered(l: Ledger, txs: seq<Transaction>, required: nat, a: Address)
    requires WellFormedAll(txs) && VotesRegistered(l) && ApplyRun(l, txs, required).1 == |txs|
    ensures Numbered(SentBy(txs, a), At(l, a).nonce)
    ensures At(ApplyRun(l, txs, required).0, a).nonce == At(l, a).nonce + |SentBy(txs, a)|
    decreases |txs|
  {
    hide Apply, Check, VotesRegistered, At;
    if txs != [] {
      var tx := txs[0];
      AcceptedIffNothingIsWrong(l, tx, required);
      assert !Wrong(UnexpectedNonce, l, tx, required);
      AppliedLeaves(l, tx, required, a);
      ApplyRegistered(l, tx, required);
      RunNumbered(Apply(l, tx, required), txs[1..], required, a);
    }
  }

  // ----- replayed histories -----

  ghost function TransactionsOf(history: seq<Entry>): seq<Transaction> {
    if history == [] then [] else
      TransactionsOf(history[..|history| - 1]) + history[|history| - 1].block.transactions
  }

  /** What blocks pay their forgers, less what is burned. */
  ghost function Minted(history: seq<Entry>): int {
    if history == [] then 0 else
      var e := history[|history| - 1];
      Minted(history[..|history| - 1]) + e.block.reward - Burned(e.block.totalFee, e.settings.percentage)
  }

  /** The ledger below the last block of a history, from which it was accepted as a whole. */
  lemma LastReplayed(l: Ledger, base: Block, history: seq<Entry>, m: Ledger) returns (k: Ledger)
    requires Replays(l, base, history, m) && history != []
    ensures var e, below := history[|history| - 1], history[..|history| - 1];
            var b, s := e.block, e.settings;
            && WellFormedAll(b.transactions) && Replays(l, base, below, k) && Consistent(k) && VotesRegistered(k)
            && var (after, n) := ApplyRun(k, b.transactions, s.required);
            && n == |b.transactions| && VotesRegistered(after)
            && m == Reward(after, b.generator, Earned(b, s))
  {
    hide ApplyBlock, Reward, ApplyRun, Consistent, ForgerError, VotesRegistered, Earned;
    var e, below := history[|history| - 1], history[..|history| - 1];
    var j: Ledger, w :| && Replays(l, base, below, j) && Consistent(j) && Window(w, e.settings)
                        && ApplyBlock(j, w, e.block, e.settings).error.None?
                        && m == ApplyBlock(j, w, e.block, e.settings).ledger;
    k := j;
    ConsistentRegistered(k);
    ApplyBlockOutcome(k, w, e.block, e.settings);
    ApplyRunRegistered(k, e.block.transactions, e.settings.required);
  }

  ghost predicate AllFunded(history: seq<Entry>) {
    forall e | e in history :: AllPayable(e.block)
  }

  lemma {:induction false} ReplayFunded(l: Ledger, base: Block, history: seq<Entry>, m: Ledger)
    requires Replays(l, base, history, m) && NonNegative(l) && AllFunded(history)
    ensures NonNegative(m)
    decreases |history|
  {
    hide Reward, ApplyRun, Consistent, NonNegative, Replays, VotesRegistered, Earned, Payable;
    if history == [] {
      NothingReplayed(l, base, m);
    } else {
      var e := history[|history| - 1];
      var k := LastReplayed(l, base, history, m);
      ReplayFunded(l, base, history[..|history| - 1], k);
      RunFunded(k, e.block.transactions, e.settings.required);
      RewardFunded(ApplyRun(k, e.block.transactions, e.settings.required).0, e.block, e.settings);
    }
  }

  lemma NothingReplayed(l: Ledger, base: Block, m: Ledger)
    requires Replays(l, base, [], m)
    ensures m == l
  {
  }

  lemma {:induction false} ReplayLawful(l: Ledger, base: Block, history: seq<Entry>, m: Ledger)
    requires Replays(l, base, history, m) && Lawful(l)
    ensures Lawful(m)
    decreases |history|
  {
    hide Reward, ApplyRun, Consistent, Lawful, Replays, VotesRegistered, Earned;
    if history == [] {
      NothingReplayed(l, base, m);
    } else {
      var e := history[|history| - 1];
      var k := LastReplayed(l, base, history, m);
      ReplayLawful(l, base, history[..|history| - 1], k);
      RunLawful(k, e.block.transactions, e.settings.required);
      RewardLawful(ApplyRun(k, e.block.transactions, e.settings.required).0, e.block.generator,
                   Earned(e.block, e.settings));
    }
  }

  ghost predicate AllRequire(history: seq<Entry>, least: nat) {
    forall e | e in history :: e.settings.required >= least
  }

  lemma {:induction false} ReplayStanding(l: Ledger, base: Block, history: seq<Entry>, m: Ledger, least: nat)
    requires Replays(l, base, history, m) && |Standing(l)| >= least && AllRequire(history, least)
    ensures |Standing(m)| >= least
    decreases |history|
  {
    hide Reward, ApplyRun, Consistent, Standing, Replays, VotesRegistered, Earned;
    if history == [] {
      NothingReplayed(l, base, m);
    } else {
      var e := history[|history| - 1];
      var k := LastReplayed(l, base, history, m);
      ReplayStanding(l, base, history[..|history| - 1], k, least);
      RunStanding(k, e.block.transactions, e.settings.required);
      RewardStanding(ApplyRun(k, e.block.transactions, e.settings.required).0, e.block.generator,
                     Earned(e.block, e.settings));
    }
  }

  lemma {:induction false} ReplayNumbered(l: Ledger, base: Block, history: seq<Entry>, m: Ledger, a: Address)
    requires Replays(l, base, history, m)
    ensures var sent := SentBy(TransactionsOf(history), a);
            Numbered(sent, At(l, a).nonce) && At(m, a).nonce == At(l, a).nonce + |sent|
    decreases |history|
  {
    hide Reward, ApplyRun, Consistent, At, Replays, VotesRegistered, Earned, SentBy;
    if history == [] {
      NothingReplayed(l, base, m);
      assert SentBy([], a) == [] by { NobodySent(a); }
    } else {
      var e, below := history[|history| - 1], history[..|history| - 1];
      var k := LastReplayed(l, base, history, m);
      var after := ApplyRun(k, e.block.transactions, e.settings.required).0;
      ReplayNumbered(l, base, below, k, a);
      RunNumbered(k, e.block.transactions, e.settings.required, a);
      RewardLeaves(after, e.block.generator, Earned(e.block, e.settings), a);
      SentByConcat(TransactionsOf(below), e.block.transactions, a);
    }
  }

  lemma NobodySent(a: Address)
    ensures SentBy([], a) == []
  {
  }

  ghost predicate FeesAdded(history: seq<Entry>) {
    forall e | e in history :: e.block.totalFee == FeesOf(e.block.transactions)
  }

  lemma {:induction false} ReplaySupply(l: Ledger, base: Block, history: seq<Entry>, m: Ledger)
    requires Replays(l, base, history, m) && FeesAdded(history)
    ensures Supply(m) == Supply(l) + Minted(history)
    decreases |history|
  {
    hide Reward, ApplyRun, Consistent, Supply, Replays, VotesRegistered, Burned, FeesOf;
    if history == [] {
      NothingReplayed(l, base, m);
    } else {
      var e, below := history[|history| - 1], history[..|history| - 1];
      var txs := e.block.transactions;
      var k := LastReplayed(l, base, history, m);
      ReplaySupply(l, base, below, k);
      ApplyRunSupply(k, txs, e.settings.required);
      RewardSupply(ApplyRun(k, txs, e.settings.required).0, e.block.generator, Earned(e.block, e.settings));
      assert txs[..|txs|] == txs;
    }
  }

  // ----- runs -----

  /** What is asked of every block of a history holds in every run whose actions it holds of. */
  lemma {:induction false} HistoryFrom(st: State, base: Block, actions: seq<Action>, max: nat)
    requires forall a | a in actions :: WellFormedAction(a, max)
    requires forall e | e in st.history :: WellFormedAll(e.block.transactions)
    ensures forall e | e in Run(st, base, actions, max).history :: e in st.history || Accept(e) in actions
    decreases |actions|
  {
    hide ApplyBlock, RevertBlock, WithLast, WellFormedAll, WellFormedAction;
    if actions != [] {
      StepWellFormed(st, base, actions[0], max);
      HistoryFrom(Step(st, base, actions[0], max), base, actions[1..], max);
    }
  }

  /** In every run, from any reachable state, on top of a ledger `l`:
      no balance is ever negative, if none was in `l` and all amounts, fees and rewards are not;
      no two validators have one username, and every multi-signature can be met, if that was so in `l`;
      as many validators stand as every block requires, if as many stood in `l`;
      the nonces of one sender's applied transactions follow each other from the one in `l`, without gap or repetition;
      and the supply is that of `l`, with the rewards, without the burned fees, if total fees are sums of fees. */
  lemma RunsAreLawful(l: Ledger, base: Block, max: nat, st: State, actions: seq<Action>, least: nat, a: Address)
    requires Reachable(l, base, max, st)
    requires forall a | a in actions :: WellFormedAction(a, max)
    ensures forall e | e in st.history :: WellFormedAll(e.block.transactions)
    ensures var (m, history) := (Run(st, base, actions, max).ledger, Run(st, base, actions, max).history);
            && (NonNegative(l) && AllFunded(history) ==> NonNegative(m))
            && (Lawful(l) ==> Lawful(m))
            && (|Standing(l)| >= least && AllRequire(history, least) ==> |Standing(m)| >= least)
            && Numbered(SentBy(TransactionsOf(history), a), At(l, a).nonce)
            && At(m, a).nonce == At(l, a).nonce + |SentBy(TransactionsOf(history), a)|
            && (FeesAdded(history) ==> Supply(m) == Supply(l) + Minted(history))
            && (forall e | e in history :: e in st.history || Accept(e) in actions)
  {
    hide Run, Consistent, Replays, NonNegative, Lawful, Standing, Numbered, SentBy, At, Supply, Minted, AllFunded,
      AllRequire, FeesAdded, TransactionsOf, WellFormedAction, WellFormedAll;
    RunsAreConsistent(l, base, max, st, actions);
    HistoryFrom(st, base, actions, max);
    var end := Run(st, base, actions, max);
    if NonNegative(l) && AllFunded(end.history) { ReplayFunded(l, base, end.history, end.ledger); }
    if Lawful(l) { ReplayLawful(l, base, end.history, end.ledger); }
    if |Standing(l)| >= least && AllRequire(end.history, least) {
      ReplayStanding(l, base, end.history, end.ledger, least);
    }
    ReplayNumbered(l, base, end.history, end.ledger, a);
    if FeesAdded(end.history) { ReplaySupply(l, base, end.history, end.ledger); }
  }
}
