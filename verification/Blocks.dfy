/** Whole blocks on values: the transactions, the forger's reward, the fee burn, and the window of last blocks. */
module Blocks {
  import opened Options
  import opened Ledgers
  import opened Movements
  import opened Handlers

  datatype Block = Block(height: int, generator: Address, reward: int, totalFee: int,
                         transactions: seq<Transaction>)

  ghost predicate WellFormedAll(txs: seq<Transaction>) {
    forall i | 0 <= i < |txs| :: WellFormed(txs[i])
  }

  // ----- runs of transactions -----

  /** Applies transactions until one is rejected; the number counts those applied. */
  ghost function ApplyRun(l: Ledger, txs: seq<Transaction>, required: nat): (Ledger, nat)
    requires WellFormedAll(txs)
    decreases |txs|
  {
    if txs == [] || Check(l, txs[0], required).Some? then (l, 0) else
      var rest := ApplyRun(Apply(l, txs[0], required), txs[1..], required);
      (rest.0, rest.1 + 1)
  }

  /** Reverts transactions newest first until one fails; the number counts those left. */
  ghost function RevertRun(l: Ledger, txs: seq<Transaction>): (Ledger, nat)
    requires WellFormedAll(txs)
    decreases |txs|
  {
    if txs == [] then (l, 0) else
      var last := txs[|txs| - 1];
      if !NonceMatches(l, last) then (Revert(l, last), |txs|) else RevertRun(Revert(l, last), txs[..|txs| - 1])
  }

  ghost function FeesOf(txs: seq<Transaction>): int {
    if txs == [] then 0 else txs[0].fee + FeesOf(txs[1..])
  }

  // ----- the forger -----

  /** Division as `BigNumber.dividedBy` does it: towards zero. */
  function TruncatedDivision(a: int, b: int): int
    requires b > 0
  {
    if a >= 0 then a / b else -(-a / b)
  }

  /** What the burn mutator takes back from the forger, when a burn percentage is configured. */
  function Burned(totalFee: int, percentage: Option<int>): int {
    match percentage
    case None => 0
    case Some(p) => if 0 <= p <= 100 then TruncatedDivision(totalFee * (100 - p), 100) else totalFee
  }

  function Reward(l: Ledger, forger: Address, amount: int): Ledger {
    Credit(BumpFor(l, forger, amount), forger, amount)
  }

  /** The mutators read the forger's validator record and the vote balance of the forger's validator. */
  function ForgerError(l: Ledger, forger: Address): Option<Error> {
    if At(l, forger).validator.None? then Some(ForgerNotAValidator)
    else if !NamesValidator(l, forger) then Some(VoteBalanceUndefined)
    else None
  }

  function ApplyToForger(l: Ledger, b: Block, percentage: Option<int>): Ledger {
    Reward(Reward(l, b.generator, b.reward + b.totalFee), b.generator, -Burned(b.totalFee, percentage))
  }

  function RevertFromForger(l: Ledger, b: Block, percentage: Option<int>): Ledger {
    Reward(Reward(l, b.generator, -(b.reward + b.totalFee)), b.generator, Burned(b.totalFee, percentage))
  }

  // ----- the window of last blocks -----

  ghost predicate Contiguous(blocks: seq<Block>) {
    forall i | 0 <= i < |blocks| :: blocks[i].height == blocks[0].height + i
  }

  function Below(blocks: seq<Block>, height: int): seq<Block> {
    if blocks == [] then [] else
      var rest := Below(blocks[1..], height);
      if blocks[0].height < height then [blocks[0]] + rest else rest
  }

  /** The window after `block` became the last one, or None where the height skips a block. */
  function WithLast(blocks: seq<Block>, block: Block, max: nat): Option<seq<Block>> {
    if blocks != [] && block.height - 1 > blocks[|blocks| - 1].height then None else
      var kept := if blocks == [] || blocks[|blocks| - 1].height == block.height - 1
                  then blocks else Below(blocks, block.height);
      var all := kept + [block];
      Some(if |all| > max then all[1..] else all)
  }

  // ----- blocks -----

  datatype Outcome = Outcome(ledger: Ledger, blocks: seq<Block>, error: Option<Error>)

  datatype Settings = Settings(required: nat, percentage: Option<int>, maxLastBlocks: nat)

  /** The catch branch: undo the applied transactions, then put the previous block back. */
  ghost function Rollback(l: Ledger, blocks: seq<Block>, applied: seq<Transaction>, error: Error, s: Settings): Outcome
    requires WellFormedAll(applied) && blocks != []
  {
    var undone := RevertRun(l, applied);
    if undone.1 != 0 then Outcome(undone.0, blocks, Some(UnexpectedNonce))
    else Outcome(undone.0, WithLast(blocks, blocks[|blocks| - 1], s.maxLastBlocks).value, Some(error))
  }

  ghost function ApplyBlock(l: Ledger, blocks: seq<Block>, b: Block, s: Settings): Outcome
    requires WellFormedAll(b.transactions)
  {
    if blocks == [] then Outcome(l, blocks, Some(LastBlockUndefined)) else
      var run := ApplyRun(l, b.transactions, s.required);
      ApplyRunCounts(l, b.transactions, s.required);
      if run.1 < |b.transactions| then
        var rejected := b.transactions[run.1];
        Rollback(run.0, blocks, b.transactions[..run.1], Check(run.0, rejected, s.required).value, s)
      else if ForgerError(run.0, b.generator).Some? then
        Rollback(run.0, blocks, b.transactions, ForgerError(run.0, b.generator).value, s)
      else
        var m := ApplyToForger(run.0, b, s.percentage);
        match WithLast(blocks, b, s.maxLastBlocks)
        case None => Rollback(m, blocks, b.transactions, HeightGap, s)
        case Some(window) => Outcome(m, window, None)
  }

  /** The catch branch of a revert applies what was already reverted again, oldest first. */
  ghost function RevertBlock(l: Ledger, b: Block, s: Settings): (Ledger, Option<Error>)
    requires WellFormedAll(b.transactions)
  {
    if ForgerError(l, b.generator).Some? then (l, ForgerError(l, b.generator)) else
      var run := RevertRun(RevertFromForger(l, b, s.percentage), b.transactions);
      RevertRunCounts(RevertFromForger(l, b, s.percentage), b.transactions);
      if run.1 == 0 then (run.0, None) else
        var again := ApplyRun(run.0, b.transactions[run.1..], s.required);
        ApplyRunCounts(run.0, b.transactions[run.1..], s.required);
        if again.1 == |b.transactions| - run.1 then (again.0, Some(UnexpectedNonce))
        else (again.0, Check(again.0, b.transactions[run.1 + again.1], s.required))
  }

  lemma {:induction false} ApplyRunCounts(l: Ledger, txs: seq<Transaction>, required: nat)
    requires WellFormedAll(txs)
    ensures var (m, n) := ApplyRun(l, txs, required);
            n <= |txs| && (n < |txs| ==> Check(m, txs[n], required).Some?)
    decreases |txs|
  {
    if txs != [] && Check(l, txs[0], required).None? {
      ApplyRunCounts(Apply(l, txs[0], required), txs[1..], required);
    }
  }

  lemma {:induction false} RevertRunCounts(l: Ledger, txs: seq<Transaction>)
    requires WellFormedAll(txs)
    ensures RevertRun(l, txs).1 <= |txs|
    decreases |txs|
  {
    if txs != [] && NonceMatches(l, txs[|txs| - 1]) {
      RevertRunCounts(Revert(l, txs[|txs| - 1]), txs[..|txs| - 1]);
    }
  }
}
