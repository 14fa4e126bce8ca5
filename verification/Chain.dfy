/** What holds of whole blocks, and of every run of blocks applied and reverted last in, first out. */
module Chain {
  import opened Options
  import opened Ledgers
  import opened Movements
  import opened Handlers
  import opened HandlerLemmas
  import opened Blocks
  import opened BlockLemmas

  /** A window as the state store keeps it. */
  ghost predicate Window(blocks: seq<Block>, s: Settings) {
    Contiguous(blocks) && 0 < |blocks| <= s.maxLastBlocks
  }

  ghost predicate AllAccepted(l: Ledger, b: Block, s: Settings)
    requires WellFormedAll(b.transactions)
  {
    var (m, n) := ApplyRun(l, b.transactions, s.required);
    n == |b.transactions| && ForgerError(m, b.generator).None?
  }

  predicate SkipsHeight(blocks: seq<Block>, b: Block)
    requires blocks != []
  {
    b.height > blocks[|blocks| - 1].height + 1
  }

  /** A block is applied exactly if all its transactions are accepted, its forger can be paid and its height does
      not skip any. Otherwise the window is as before; and the ledger is too, unless the height alone was wrong: then
      the forger keeps the payment. */
  lemma ApplyBlockOutcome(l: Ledger, blocks: seq<Block>, b: Block, s: Settings)
    requires WellFormedAll(b.transactions) && VotesRegistered(l) && Window(blocks, s)
    ensures var o := ApplyBlock(l, blocks, b, s);
            && (o.error.None? <==> AllAccepted(l, b, s) && !SkipsHeight(blocks, b))
            && (o.error.None? ==>
                  && o.ledger == Reward(ApplyRun(l, b.transactions, s.required).0, b.generator, Earned(b, s))
                                  && o.blocks == WithLast(blocks, b, s.maxLastBlocks).value)
            && (o.error.Some? ==> o.blocks == blocks)
            && (o.error.Some? && !AllAccepted(l, b, s) ==> o.ledger == l)
            && (o.error.Some? && AllAccepted(l, b, s) ==>
                  o.error == Some(HeightGap) && o.ledger == Reward(l, b.generator, Earned(b, s)))
  {
    hide Reward, ApplyRun, Check, ForgerError, RevertRun, Earned, VotesRegistered, ApplyToForger;
    var (m, n) := ApplyRun(l, b.transactions, s.required);
    ApplyRunCounts(l, b.transactions, s.required);
    RevertRunUndoes(l, b.transactions, s.required, b.generator, 0);
    RevertRunUndoes(l, b.transactions, s.required, b.generator, Earned(b, s));
    ApplyRunRegistered(l, b.transactions, s.required);
    RewardNothing(l, b.generator);
    RewardNothing(m, b.generator);
    ApplyToForgerIsReward(m, b, s);
    WithLastAgain(blocks, s.maxLastBlocks);
    WithLastWindow(blocks, b, s.maxLastBlocks);
    assert b.transactions[..|b.transactions|] == b.transactions;
  }

  /** What keeps a block whose transactions are accepted from being applied: its forger is no validator, or else its
      height skips one, and nothing else does. */
  lemma WhyNotApplied(l: Ledger, blocks: seq<Block>, b: Block, s: Settings)
    requires WellFormedAll(b.transactions) && VotesRegistered(l) && Window(blocks, s)
    requires ApplyRun(l, b.transactions, s.required).1 == |b.transactions|
    ensures var m := ApplyRun(l, b.transactions, s.required).0;
            ApplyBlock(l, blocks, b, s).error ==
              if At(m, b.generator).validator.None? then Some(ForgerNotAValidator)
              else if SkipsHeight(blocks, b) then Some(HeightGap) else None
  {
    hide Reward, ApplyRun, Check, RevertRun, Earned, VotesRegistered, ApplyToForger, At;
    var m := ApplyRun(l, b.transactions, s.required).0;
    ApplyBlockOutcome(l, blocks, b, s);
    ApplyRunRegistered(l, b.transactions, s.required);
    RegisteredVote(m, b.generator);
    RevertRunUndoes(l, b.transactions, s.required, b.generator, 0);
    RewardNothing(l, b.generator);
    RewardNothing(m, b.generator);
    assert b.transactions[..|b.transactions|] == b.transactions;
  }

  /** Whatever the votes name, an empty block also needs a vote balance where its forger votes. */
  lemma EmptyBlockOutcome(l: Ledger, blocks: seq<Block>, b: Block, s: Settings)
    requires b.transactions == [] && Window(blocks, s)
    ensures var vote := At(l, b.generator).vote;
            ApplyBlock(l, blocks, b, s).error ==
              if At(l, b.generator).validator.None? then Some(ForgerNotAValidator)
              else if vote.Some? && At(l, vote.value).validator.None? then Some(VoteBalanceUndefined)
              else if SkipsHeight(blocks, b) then Some(HeightGap) else None
  {
    hide ApplyToForger, At;
    assert b.transactions[..0] == [];
  }

  lemma {:induction false} ApplyRunRegistered(l: Ledger, txs: seq<Transaction>, required: nat)
    requires WellFormedAll(txs) && VotesRegistered(l)
    ensures VotesRegistered(ApplyRun(l, txs, required).0)
    decreases |txs|
  {
    hide Apply, Check, VotesRegistered;
    if txs != [] && Check(l, txs[0], required).None? {
      ApplyRegistered(l, txs[0], required);
      ApplyRunRegistered(Apply(l, txs[0], required), txs[1..], required);
    }
  }

  /** A rejected block leaves the ledger as it was, except where a payable block skips a height. */
  lemma RejectedBlockRestores(l: Ledger, blocks: seq<Block>, b: Block, s: Settings)
    requires WellFormedAll(b.transactions) && VotesRegistered(l) && Window(blocks, s)
    requires ApplyBlock(l, blocks, b, s).error.Some?
    ensures ApplyBlock(l, blocks, b, s).ledger == l
            <==> !(AllAccepted(l, b, s) && SkipsHeight(blocks, b) && Earned(b, s) != 0)
    ensures ApplyBlock(l, blocks, b, s).blocks == blocks
  {
    hide Reward, ApplyBlock, Earned, VotesRegistered, Supply, AllAccepted;
    ApplyBlockOutcome(l, blocks, b, s);
    RewardSupply(l, b.generator, Earned(b, s));
    RewardNothing(l, b.generator);
  }

  /** Such a block: it skips height 2, and the forger keeps the reward of 2 although the block is rejected. */
  lemma SkippedHeightPays()
    ensures var forger, s := Address(0), Settings(1, None, 10);
            var l: Ledger := map[forger := Wallet(0, 0, None, Some(Validator(Some("forger"), 0, false)), None)];
            var first, b := Block(1, forger, 0, 0, []), Block(3, forger, 2, 0, []);
            var o := ApplyBlock(l, [first], b, s);
            && Consistent(l) && Window([first], s)
            && o == Outcome(Reward(l, forger, 2), [first], Some(HeightGap)) && At(o.ledger, forger).balance == 2
  {
    hide ApplyBlock, Reward, Consistent, VotesRegistered;
    var forger, s := Address(0), Settings(1, None, 10);
    var l: Ledger := map[forger := Wallet(0, 0, None, Some(Validator(Some("forger"), 0, false)), None)];
    var first, b := Block(1, forger, 0, 0, []), Block(3, forger, 2, 0, []);
    NoVotersConsistent(l, forger);
    ConsistentRegistered(l);
    ApplyBlockOutcome(l, [first], b, s);
    RewardAt(l, forger, 2, forger);
  }

  lemma NoVotersConsistent(l: Ledger, a: Address)
    requires l.Keys == {a} && l[a].vote == None && (l[a].validator.Some? ==> l[a].validator.value.voteBalance == 0)
    ensures Consistent(l)
  {
    forall v ensures Gap(l, v) == 0 { BackingOfOne(l, a, v); }
  }

  lemma BackingOfOne(l: Ledger, a: Address, v: Address)
    requires l.Keys == {a} && l[a].vote == None
    ensures Backing(l, v) == 0
  {
    SumWithout(l, BalanceFor(v), a);
    var none: Ledger := map[];
    assert l - {a} == none;
  }

  /** The ledger invariant survives every block, applied or rejected for any reason. */
  lemma ApplyBlockConsistent(l: Ledger, blocks: seq<Block>, b: Block, s: Settings)
    requires WellFormedAll(b.transactions) && Consistent(l) && Window(blocks, s)
    ensures Consistent(ApplyBlock(l, blocks, b, s).ledger)
    ensures Window(ApplyBlock(l, blocks, b, s).blocks, s)
  {
    hide Reward, ApplyBlock, Earned, Indexed, AllAccepted, ApplyRun;
    ApplyBlockOutcome(l, blocks, b, s);
    ApplyRunConsistent(l, b.transactions, s.required);
    RewardConsistent(l, b.generator, Earned(b, s));
    RewardConsistent(ApplyRun(l, b.transactions, s.required).0, b.generator, Earned(b, s));
    WithLastWindow(blocks, b, s.maxLastBlocks);
  }

  /** An applied block whose total fee is the sum of its fees changes the supply by its reward less the burn. */
  lemma ApplyBlockSupply(l: Ledger, blocks: seq<Block>, b: Block, s: Settings)
    requires WellFormedAll(b.transactions) && VotesRegistered(l) && Window(blocks, s)
    requires ApplyBlock(l, blocks, b, s).error.None? && b.totalFee == FeesOf(b.transactions)
    ensures Supply(ApplyBlock(l, blocks, b, s).ledger)
            == Supply(l) + b.reward - Burned(b.totalFee, s.percentage)
  {
    hide Reward, ApplyBlock, ApplyRun, Supply, VotesRegistered, Burned;
    ApplyBlockOutcome(l, blocks, b, s);
    ApplyRunSupply(l, b.transactions, s.required);
    RewardSupply(ApplyRun(l, b.transactions, s.required).0, b.generator, Earned(b, s));
    assert b.transactions[..|b.transactions|] == b.transactions;
  }

  /** Reverting the block that was just applied gives the ledger back exactly. */
  lemma RevertAppliedBlock(l: Ledger, blocks: seq<Block>, b: Block, s: Settings)
    requires WellFormedAll(b.transactions) && VotesRegistered(l) && Window(blocks, s)
    requires ApplyBlock(l, blocks, b, s).error.None?
    ensures RevertBlock(ApplyBlock(l, blocks, b, s).ledger, b, s) == (l, None)
  {
    hide Reward, ApplyBlock, ApplyRun, RevertRun, Earned, VotesRegistered, ForgerError, RevertFromForger;
    var (m, n) := ApplyRun(l, b.transactions, s.required);
    var o := Reward(m, b.generator, Earned(b, s));
    ApplyBlockOutcome(l, blocks, b, s);
    ApplyRunRegistered(l, b.transactions, s.required);
    RewardReady(m, b.generator, Earned(b, s));
    ApplyToForgerIsReward(o, b, s);
    RewardTwice(m, b.generator, Earned(b, s), -Earned(b, s));
    RevertRunUndoes(l, b.transactions, s.required, b.generator, 0);
    RewardNothing(l, b.generator);
    RewardNothing(m, b.generator);
    assert b.transactions[..|b.transactions|] == b.transactions;
  }

  // ----- runs -----

  /** A block with the settings in force when it was applied. */
  datatype Entry = Entry(block: Block, settings: Settings)

  datatype Action = Accept(entry: Entry) | RevertLast

  /** `history` holds the blocks applied and not reverted since; below it lies the block `base`. */
  datatype State = State(ledger: Ledger, blocks: seq<Block>, history: seq<Entry>)

  ghost predicate WellFormedAction(action: Action, max: nat) {
    action.Accept? ==> WellFormedAll(action.entry.block.transactions) && action.entry.settings.maxLastBlocks == max
  }

  function Top(base: Block, history: seq<Entry>): Block {
    if history == [] then base else history[|history| - 1].block
  }

  /** Blocks reach `applyBlock` only if they are chained to the last one; a revert puts the block below back. */
  ghost function Step(st: State, base: Block, action: Action, max: nat): State
    requires WellFormedAction(action, max)
    requires forall e | e in st.history :: WellFormedAll(e.block.transactions)
  {
    match action
    case Accept(e) =>
      if e.block.height != Top(base, st.history).height + 1 then st else
        var o := ApplyBlock(st.ledger, st.blocks, e.block, e.settings);
        State(o.ledger, o.blocks, if o.error.None? then st.history + [e] else st.history)
    case RevertLast =>
      if st.history == [] then st else
        var e := st.history[|st.history| - 1];
        var below := st.history[..|st.history| - 1];
        var (m, error) := RevertBlock(st.ledger, e.block, e.settings);
        match WithLast(st.blocks, Top(base, below), max)
        case None => State(m, st.blocks, below)
        case Some(window) => State(m, window, below)
  }

  /** The ledger that applying `history` to `l` in one go leads to, if every block is accepted. */
  ghost predicate Replays(l: Ledger, base: Block, history: seq<Entry>, m: Ledger)
    decreases |history|
  {
    if history == [] then m == l else
      var e := history[|history| - 1];
      var below := history[..|history| - 1];
      && WellFormedAll(e.block.transactions)
      && e.block.height == Top(base, below).height + 1
      && exists k: Ledger, w: seq<Block> ::
           && Replays(l, base, below, k) && Consistent(k) && Window(w, e.settings)
           && ApplyBlock(k, w, e.block, e.settings).error.None?
           && m == ApplyBlock(k, w, e.block, e.settings).ledger
  }

  ghost predicate Reachable(l: Ledger, base: Block, max: nat, st: State) {
    && Consistent(st.ledger)
    && Contiguous(st.blocks) && 0 < |st.blocks| <= max
    && st.blocks[|st.blocks| - 1] == Top(base, st.history)
    && (forall e | e in st.history :: WellFormedAll(e.block.transactions))
    && Replays(l, base, st.history, st.ledger)
  }

  lemma ReplaysSnoc(l: Ledger, base: Block, history: seq<Entry>, e: Entry, k: Ledger, w: seq<Block>)
    requires Replays(l, base, history, k) && Consistent(k) && Window(w, e.settings)
    requires WellFormedAll(e.block.transactions) && e.block.height == Top(base, history).height + 1
    requires ApplyBlock(k, w, e.block, e.settings).error.None?
    ensures Replays(l, base, history + [e], ApplyBlock(k, w, e.block, e.settings).ledger)
  {
    hide ApplyBlock, Consistent, WellFormedAll, Window;
    assert (history + [e])[..|history + [e]| - 1] == history;
  }

  lemma WindowAfter(l: Ledger, blocks: seq<Block>, b: Block, s: Settings)
    requires WellFormedAll(b.transactions) && VotesRegistered(l) && Window(blocks, s)
    ensures var o := ApplyBlock(l, blocks, b, s);
            && Window(o.blocks, s)
            && o.blocks[|o.blocks| - 1] == (if o.error.None? then b else blocks[|blocks| - 1])
            && (o.error.Some? ==> o.blocks == blocks && (o.ledger == l || SkipsHeight(blocks, b)))
  {
    hide ApplyBlock, VotesRegistered, WithLast, WellFormedAll, AllAccepted, Reward, ApplyRun, Earned;
    ApplyBlockOutcome(l, blocks, b, s);
    WithLastWindow(blocks, b, s.maxLastBlocks);
  }

  lemma AcceptKeeps(l: Ledger, base: Block, max: nat, st: State, e: Entry)
    requires Reachable(l, base, max, st) && WellFormedAction(Accept(e), max)
    ensures Reachable(l, base, max, Step(st, base, Accept(e), max))
  {
    hide ApplyBlock, Consistent, WithLast, WellFormedAll, Replays, AllAccepted, Reward;
    if e.block.height == Top(base, st.history).height + 1 {
      var o := ApplyBlock(st.ledger, st.blocks, e.block, e.settings);
      ConsistentRegistered(st.ledger);
      ApplyBlockConsistent(st.ledger, st.blocks, e.block, e.settings);
      WindowAfter(st.ledger, st.blocks, e.block, e.settings);
      if o.error.None? {
        ReplaysSnoc(l, base, st.history, e, st.ledger, st.blocks);
      }
    }
  }

  lemma ConsistentRegistered(l: Ledger)
    requires Consistent(l)
    ensures VotesRegistered(l)
  {
  }

  lemma RevertKeeps(l: Ledger, base: Block, max: nat, st: State)
    requires Reachable(l, base, max, st)
    ensures Reachable(l, base, max, Step(st, base, RevertLast, max))
  {
    hide ApplyBlock, RevertBlock, Consistent, WithLast, WellFormedAll;
    if st.history != [] {
      var e := st.history[|st.history| - 1];
      var below := st.history[..|st.history| - 1];
      var k: Ledger, w :| && Replays(l, base, below, k) && Consistent(k) && Window(w, e.settings)
                          && ApplyBlock(k, w, e.block, e.settings).error.None?
                          && st.ledger == ApplyBlock(k, w, e.block, e.settings).ledger;
      ConsistentRegistered(k);
      RevertAppliedBlock(k, w, e.block, e.settings);
      WithLastWindow(st.blocks, Top(base, below), max);
    }
  }

  ghost function Run(st: State, base: Block, actions: seq<Action>, max: nat): State
    requires forall a | a in actions :: WellFormedAction(a, max)
    requires forall e | e in st.history :: WellFormedAll(e.block.transactions)
    decreases |actions|
  {
    if actions == [] then st else
      var next := Step(st, base, actions[0], max);
      StepWellFormed(st, base, actions[0], max);
      Run(next, base, actions[1..], max)
  }

  lemma StepWellFormed(st: State, base: Block, action: Action, max: nat)
    requires WellFormedAction(action, max)
    requires forall e | e in st.history :: WellFormedAll(e.block.transactions)
    ensures forall e | e in Step(st, base, action, max).history :: WellFormedAll(e.block.transactions)
  {
    hide ApplyBlock, RevertBlock, WithLast, WellFormedAll;
  }

  /** In every run, each stored vote balance is the balance of the validator's voters counted from zero, votes name
      registered validators only, the window of last blocks is contiguous, within its size and ends with the last
      block, and the ledger is the one that the blocks still applied lead to on their own. */
  lemma {:induction false} RunsAreConsistent(l: Ledger, base: Block, max: nat, st: State, actions: seq<Action>)
    requires Reachable(l, base, max, st)
    requires forall a | a in actions :: WellFormedAction(a, max)
    ensures Reachable(l, base, max, Run(st, base, actions, max))
    decreases |actions|
  {
    hide Reachable, Step, WellFormedAction;
    ReachableWellFormed(l, base, max, st);
    if actions != [] {
      match actions[0] {
        case Accept(e) => AcceptKeeps(l, base, max, st, e);
        case RevertLast => RevertKeeps(l, base, max, st);
      }
      RunsAreConsistent(l, base, max, Step(st, base, actions[0], max), actions[1..]);
    }
  }

  lemma ReachableWellFormed(l: Ledger, base: Block, max: nat, st: State)
    requires Reachable(l, base, max, st)
    ensures forall e | e in st.history :: WellFormedAll(e.block.transactions)
  {
  }

  /** Every consistent ledger is a start, the empty one in particular. */
  lemma StartsReachable(l: Ledger, base: Block, max: nat)
    requires Consistent(l) && max > 0
    ensures Reachable(l, base, max, State(l, [base], []))
    ensures Consistent(map[])
  {
    var empty: Ledger := map[];
    forall v ensures Gap(empty, v) == 0 && NamesValidator(empty, v) {
    }
  }
}
