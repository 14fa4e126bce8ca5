# A verified model of a delegated proof-of-stake node

core-ex keeps a ledger of wallets, elects validators by the balances of their voters, gives them slots to forge blocks
in, collects transactions in a pool, and stores and sends blocks and transactions as bytes. This project models the
logic of those parts in Dafny and proves what they are for. `dafny verify dfyconfig.toml` checks all of it.

What is stepwise in the repository is stepwise here: classes whose methods update fields in place, and loops with
invariants. Each such method is proved equal to a function on values or against a direct specification, and the main
results are lemmas about those functions. An exception is an error value, or, in the byte buffer, a flag after which
nothing has an effect any more.

The ledger and its vote index
: `Ledgers`, `Movements`, `Handlers` and `Blocks` define wallets, transactions and blocks on values; `HandlerLemmas`,
  `BlockLemmas` and `Chain` prove that the vote balances that are updated step by step are always the counted ones,
  that reverts undo applies, and where the supply goes; `HandlerRules` says what it takes for a transaction to be
  accepted and what it leaves behind, and `ChainLaws` what holds of balances, nonces, names and the supply in every
  run of blocks; `BlockStates` is the code that updates wallets in place. An empty wallet and no wallet are the same,
  because looking a wallet up creates it. A wallet is found by its address or by the public key that the address is
  derived from; both are one `Address`. What the transaction schemas guarantee is the predicate `WellFormed`: a
  transfer names a recipient, and only a transfer moves an amount of its own.

The consensus clock
: `Milestones` and `Configurations` are the merged milestones and the search with its moving cursor; `Rounds` and
  `RoundValidation` compare `calculateRound` and `isNewRound` with the counts in force, and count the heights that
  start a round; `SlotTimes` is slot arithmetic over spans of equal block times; `Dpos` and `Schedules` go from vote
  balances to ranking, round, shuffle, forger and missed slots. `NSects` is the n-ary search for the highest common
  block.

The transaction pool
: `SenderPools` is one sender's stack of pending transactions over a private state, `PoolHandlers` runs it with the
  real handlers, `Pools` says on values what adding to and removing from all sender pools leaves, `PoolStorages` what
  is in the table and what trying a transaction does to both stores, and `Readding` what rebuilding the mempool from
  the table amounts to. `PoolServices` has the mempool, the storage and the service that keeps them in agreement,
  `Merging` and `Queries` the orders in which transactions come out. `Locks` is the readers/writer lock: the pieces of
  code between two awaits are the steps, and they interleave in any order.

Bytes
: `ByteBuffers`, `TransactionCodec`, `BlockCodec` and `BlockBytes` are the cursor buffer, the transaction serializer and
  deserializer, the schema-driven serializer and the block formats, as printers and parsers; `Layouts` has both formats
  byte by byte.

From the pool to a verified block
: `Forging` has the collator, the forging validator and the block verifier, `MultiSignatures` the signature count with
  its early exits, `WalletIndexes` the two-way index. `Acceptance` joins the ends: a block of collated candidates is one
  that the block state applies.

`Options`, `Arithmetic`, `Sequences` and `Sorting` are shared, and `PoolTransactions` by the pool and the collator;
`Sorting` models the stable `Array.prototype.sort`.

Where the code does not do what its documentation, its names or its callers expect, the code is modelled as it is and
the exact condition is proved:

- A rejected block is not undone completely if it skips a height: the forger has been paid by then
  (`Chain.RejectedBlockRestores`, with such a block in `Chain.SkippedHeightPays`).
- The search for the next milestone stops at values that never come into force, if several milestones have one height:
  `Milestones.SearchFindsChanges` says exactly when the list of changes is right, `Rounds.CalculateRoundIsRight` and
  `Rounds.IsNewRoundIsRight` what that means for the two computations of rounds, and `SlotTimes.SpansAreInForce` for
  block times. `Milestones.RepeatedHeightMisleads`, `Rounds.RepeatedHeightDisagrees`,
  `RoundValidation.RepeatedHeightSlipsThrough` and, for `isNewRound`, `RoundValidation.RepeatedHeightHidesCount` are
  lists on which it goes wrong.
- Validation compares neighbouring entries, so a repeated count hides a change within a round
  (`RoundValidation.RepeatedCountSlipsThrough`); `RoundValidation.AlignedIffEntriesFit` is what it would have to
  check.
- Slot numbers repeat across a change of block time if the old span began with missed slots, or its first block came
  later in its slot than its last one (`SlotTimes.NumberingAcrossSpans`, `SlotTimes.SlotIsNumberedTwice`).
- The forger's position is not a number once the validator count has changed (`Schedules.FindIndex`, with such a
  configuration in `Schedules.NoForgerAfterChange`).
- An exclusive callback can run beside a non-exclusive one whose first piece asked for it
  (`Locks.NestedCallOverlaps`).
- The collator's header constant is 60 bytes smaller than the verifier's (`Forging.ForgedBlockIsAccepted`,
  `Forging.CollatedBlockMayBeRefused`), and the verifier accepts blocks whatever their signature (`Forging.Verify`).
- By fee alone, a sender's transactions can come out of order (`Queries.NonceOrderIffFeesFall`,
  `Queries.LaterTransactionComesFirst`).
- A forged transaction that is passed in for readding although it is still stored can end up in the mempool alone
  (`PoolServices.Service.ReaddTransactions`, with such runs in `PoolServices.ReaddedAlone`); nothing in the repository
  passes any.
- A transaction without a nonce, with a list of signatures, or with a signature of a length that is a multiple of 65
  but not of 64 is not read back as it was written (`TransactionCodec.RoundTrip`, with such transactions in
  `TransactionCodec.LongSignatureIsLost` and `TransactionCodec.AbsentNonceIsMissed`).
- The bytes of a header alone cannot be read as a block with transactions (`BlockBytes.HeaderBytes`,
  `BlockBytes.HeaderIsNoBlock`).
- An optional property that is absent is not written but read all the same (`BlockCodec.SchemaReadExactly`,
  `BlockCodec.AbsentOptionalIsMisread`).

## Model

| member | source | states |
|---|---|---|
| Chain.RunsAreConsistent | packages/core-state/source/block-state.ts:30-89 | in every run of applied, rejected and reverted blocks, each stored vote balance is the sum of its voters' balances, votes name registered validators only, the window of last blocks has no gap, fits its size and ends with the last applied block, and the ledger is the one that the blocks still applied lead to on their own |
| ChainLaws.RunsAreLawful | packages/core-state/source/block-state.ts:30-89 | in every such run, for blocks whose amounts, payments, fees and rewards are not negative: no balance is ever negative; and in any case no two validators have one username, every multi-signature can be met, as many validators stand as every block requires, the nonces of one sender's applied transactions follow each other without gap or repetition, and the supply is that at the start with the rewards and without the burn |
| Chain.StartsReachable | packages/core-state/source/block-state.ts:30-63 | every consistent ledger, the empty one included, with one block is a start of such a run |
| Chain.RejectedBlockRestores | packages/core-state/source/block-state.ts:30-63 | a rejected block leaves the ledger as it was, except exactly where every transaction and the forger were accepted, the height skips a block and the forger earned something; the window of last blocks always stays |
| Chain.SkippedHeightPays | packages/core-state/source/block-state.ts:30-63 | such a block: a consistent ledger, a block that skips one height and is rejected for it, and the forger keeps the reward |
| Chain.ApplyBlockOutcome | packages/core-state/source/block-state.ts:30-63 | a block is applied exactly if every transaction is accepted, the forger can be paid and no height is skipped; the ledger and the window in each of the four cases, and the error where only the height is wrong |
| Chain.ApplyBlockConsistent | packages/core-state/source/block-state.ts:30-63 | the ledger invariant and the window survive every block, applied or rejected |
| Chain.ApplyBlockSupply | packages/core-state/source/block-state.ts:42-52 | an applied block whose total fee is the sum of its fees changes the sum of all balances by the reward less the burn |
| Chain.RevertAppliedBlock | packages/core-state/source/block-state.ts:65-89 | reverting the block that was just applied never fails and gives back all balances, nonces, votes, vote balances and validator records |
| Chain.WhyNotApplied | packages/core-state/source/block-state.ts:30-63 | of a block whose transactions are all accepted: refused because its forger is no validator, or else because it skips a height, with these errors and for nothing else |
| Chain.EmptyBlockOutcome | packages/core-state/source/mutators/balance.ts:10-27 | an empty block, whatever the votes name: the forger needs a validator record, and a vote balance where it votes |
| BlockLemmas.RevertRunUndoes | packages/core-state/source/block-state.ts:53-62 | reverting the applied transactions newest first never fails and undoes all of them, even after the forger was paid: only the payment remains |
| BlockLemmas.RevertRewarded | packages/core-state/source/block-state.ts:113-134 | reverting one transaction commutes with a payment to a forger made in between |
| BlockLemmas.RewardGap | packages/core-state/source/mutators/balance.ts:10-27 | paying a forger keeps every stored vote balance as far from the counted one as it was, whoever the forger votes for |
| BlockLemmas.RewardSupply | packages/core-state/source/mutators/balance.ts:10-27 | paying a forger adds the payment to the supply |
| BlockLemmas.ApplyToForgerIsReward | packages/core-state/source/block-state.ts:152-162 | the mutators together pay the reward and the fees less the burn, and their reverts take exactly that back |
| BlockLemmas.BurnBounds | packages/core-fees-burn/source/mutator.ts:49-58 | the burn is what the percentage leaves of the fees, rounded down: between nothing and all of them, all at 0 percent or a percentage that is none, none at 100 percent or without a percentage |
| BlockLemmas.ApplyRunConsistent | packages/core-state/source/block-state.ts:42-44 | the ledger invariant survives any list of transactions up to the first that is rejected |
| BlockLemmas.ApplyRunSupply | packages/core-state/source/block-state.ts:42-44 | applied transactions take exactly their fees out of the supply |
| BlockLemmas.RevertRunSupply | packages/core-state/source/block-state.ts:65-77 | reverted transactions put exactly their fees back |
| BlockLemmas.WithLastWindow | packages/core-state/source/stores/state.ts:181-210 | a new last block keeps the window contiguous and within its size, ends it, forgets at most what is rolled back or overflows, and is refused exactly if it skips a height |
| BlockLemmas.WithLastAgain | packages/core-state/source/block-state.ts:53-62 | setting the last block to itself changes nothing |
| HandlerLemmas.ApplyGap | packages/core-state/source/block-state.ts:164-274 | an accepted transaction of any kind leaves every stored vote balance as far from the counted one as it was, self-transfers and vote switches included |
| HandlerLemmas.ApplyRegistered | packages/core-crypto-transaction-vote/source/handlers/vote.ts:65-112 | votes keep naming registered validators |
| HandlerLemmas.ApplyConsistent | packages/core-state/source/block-state.ts:91-111 | the ledger invariant survives every transaction, accepted or rejected |
| HandlerLemmas.ApplySupply | packages/core-transactions/source/handlers/transaction.ts:103-127 | an accepted transaction takes its fee, and nothing else, out of the supply; a rejected one takes nothing |
| HandlerLemmas.RevertSupply | packages/core-transactions/source/handlers/transaction.ts:129-143 | a revert returns the fee; one that fails on the nonce has returned the amount as well |
| HandlerLemmas.RevertApplied | packages/core-state/source/block-state.ts:91-134 | reverting the transaction that was just applied gives the whole ledger back, vote balances included |
| HandlerLemmas.AcceptedVote | packages/core-crypto-transaction-vote/source/handlers/vote.ts:65-112 | an accepted vote names at most one validator each way, both registered, and unvotes exactly the sender's present vote |
| HandlerRules.AcceptedIffNothingIsWrong | packages/core-transactions/source/handlers/transaction.ts:38-91 | a transaction of any kind is accepted if and only if none of the 22 things is wrong that the errors stand for, each of them said of the ledger; a refused one gets an error that is true of it, and one of its own kind before those that all kinds have |
| HandlerRules.AcceptedIsCovered | packages/core-transactions/source/handlers/transaction.ts:54-56 | an accepted transaction takes no more from its sender than the sender has |
| HandlerRules.TransferIffCovered | packages/core-transactions/source/handlers/transaction.ts:54-56 | with the right nonce and without multi-signatures, a transfer is accepted exactly if the balance covers amount and fee |
| HandlerRules.AppliedLeaves | packages/core-transactions/source/handlers/transaction.ts:103-127 | what an accepted transaction leaves in every wallet, vote balances aside: the balances after amount, payments and fee, the nonce, the vote, the username, the resignation and the multi-signature of the wallets it is for, and all else as it was |
| ChainLaws.ApplyStanding | packages/core-crypto-transaction-validator-resignation/source/handlers/validator-resignation.ts:42-63 | a resignation is accepted only while more validators stand than required, and takes the sender away from them; a registration adds the sender; nothing else changes who stands |
| ChainLaws.ApplyFunded | packages/core-transactions/source/handlers/transaction.ts:54-56 | no accepted transaction makes a balance negative |
| ChainLaws.RunNumbered | packages/core-transactions/source/handlers/transaction.ts:157-163 | in a run of accepted transactions those of one sender have the nonces that follow its own, in order |
| HandlerLemmas.UndoneApplied | packages/core-transactions/source/handlers/transaction.ts:93-143 | wallet by wallet, the handlers of every kind but votes undo their apply |
| Movements.CreditAllSupply | packages/core-crypto-transaction-multi-payment/source/handlers/multi-payment.ts:92-110 | paying all recipients of a multi-payment moves exactly its total, repeated recipients included |
| Movements.BumpForAllConcat | packages/core-state/source/block-state.ts:213-274 | the vote balance updates of sender, payments and recipient can be done as one list |
| Ledgers.SumPut | packages/core-state/source/dpos/dpos.ts:38-50 | changing one wallet changes a sum over all wallets by that wallet's change of weight |
| BlockStates.StateStore.SetLastBlock | packages/core-state/source/stores/state.ts:181-210 | the method keeps, appends and drops blocks as the window on values says; it fails, changing nothing, exactly on a skipped height |
| BlockStates.StateStore.GetLastBlocks | packages/core-state/source/stores/state.ts:212-214 | the window, newest first |
| BlockStates.StateStore.GetLastBlocksByHeight | packages/core-state/source/stores/state.ts:232-242 | from a window without gaps, the one slice of it with the requested heights, in order; an end of 0 means the start |
| BlockStates.BlockState.CheckVote | packages/core-crypto-transaction-vote/source/handlers/vote.ts:65-112 | the two loops over unvotes and votes with the moving vote are the check on values, with its errors |
| BlockStates.BlockState.ThrowIfCannotBeApplied | packages/core-transactions/source/handlers/transaction.ts:38-91 | the order of the checks and the error that comes first, legacy multi-signatures included |
| BlockStates.BlockState.ApplyHandlerToSender | packages/core-crypto-transaction-vote/source/handlers/vote.ts:151-170 | the sender's balance, nonce and attributes in place, for every kind |
| BlockStates.BlockState.ApplyHandlerToRecipient | packages/core-crypto-transaction-multi-payment/source/handlers/multi-payment.ts:92-100 | the recipients' balances and the multi-signature account in place |
| BlockStates.BlockState.RevertHandlerForSender | packages/core-crypto-transaction-vote/source/handlers/vote.ts:172-191 | the sender's revert in place, votes and unvotes the other way round |
| BlockStates.BlockState.RevertHandlerForRecipient | packages/core-crypto-transaction-transfer/source/handlers/transfer.ts:70-76 | the recipients' revert in place |
| BlockStates.BlockState.UpdateVoteBalancesOf | packages/core-state/source/block-state.ts:164-274 | the vote balances of a vote's validators, or of the validators that sender, payees and recipient vote for, in the order of the code, in both directions |
| BlockStates.BlockState.ApplyTransaction | packages/core-state/source/block-state.ts:91-111 | returns the check's error and leaves the ledger that the function on values gives; a rejected transaction changes nothing |
| BlockStates.BlockState.RevertTransaction | packages/core-state/source/block-state.ts:113-134 | as the function on values, the nonce failure after the refund included |
| BlockStates.BlockState.MutateForger | packages/core-state/source/block-state.ts:152-162 | pays the forger or takes the payment back through the mutators, or fails for an unknown forger and changes nothing |
| BlockStates.BlockState.RollBack | packages/core-state/source/block-state.ts:53-62 | reverts the applied transactions, sets the previous block again and returns the failure |
| BlockStates.BlockState.ApplyBlock | packages/core-state/source/block-state.ts:30-63 | ledger, window and error are those of the function on values for every block and every failure |
| BlockStates.BlockState.RevertBlock | packages/core-state/source/block-state.ts:65-89 | ledger and error are those of the function on values, the re-applying failure path included |
| NSects.Find | packages/utils/source/nsect.ts:14-83 | with an honest probe of a downward-closed property it returns the highest match, or none if the lowest index does not match; for any reply taken from the probed list it ends without failing an assertion; a range the wrong way round fails; `n` probes with `n` at least 2 mean that `nAry` to the power `n - 1` is below the width of the range |
| NSects.CalcProbes | packages/utils/source/nsect.ts:85-97 | at most `nAry + 1` indexes, strictly increasing, from the lowest to the highest, all the rounded positions and no others, no gap above the even one rounded up |
| NSects.IndexOf | packages/utils/source/nsect.ts:48-60 | the first position of the reply in the probed list, or -1 |
| NSects.ReplyIsHighest | packages/utils/source/nsect.ts:36-75 | a reply ends the search once no index above it can match |
| NSects.HonestIsRelevant | packages/core-p2p/source/peer-verifier.ts:226-286 | an honest probe answers from the list it was asked |
| Configurations.Configuration.SetConfig | packages/core-crypto-config/source/configuration.ts:14-23 | accepts exactly the lists whose neighbouring validator counts fit, sorts and merges them; a refused list changes no milestone, but stays behind, sorted and unmerged, as the raw configuration that `isNewRound` reads |
| Configurations.Configuration.ValidateMilestones | packages/core-crypto-config/source/configuration.ts:164-187 | true exactly if every two neighbouring entries with a validator count fit |
| Configurations.EntriesAre | packages/core-crypto-config/source/configuration.ts:169-171 | the entries that are compared are those that set a count other than 0 |
| Configurations.Configuration.BuildConstants | packages/core-crypto-config/source/configuration.ts:137-162 | merging in place gives every milestone all that it does not set from the one before |
| Configurations.Configuration.GetMilestone | packages/core-crypto-config/source/configuration.ts:74-101 | the last milestone at or below the height, wherever earlier queries, failed ones too, have left the cursor; an error before the first one |
| Configurations.Configuration.MilestoneOf | packages/core-crypto-config/source/configuration.ts:79-85 | height 0 stands for the configuration's own height, or for 1 where none was set |
| Configurations.Configuration.GetNextMilestoneWithNewKey | packages/core-crypto-config/source/configuration.ts:103-131 | the first later milestone with another value of the key, with the errors of an empty or too late configuration |
| Configurations.Configuration.GetMilestonesWhichAffect | packages/core-kernel/source/utils/calculate-forging-info.ts:43-62 | asking for the next change ends, and lists every change once |
| Milestones.SearchFindsChanges | packages/core-crypto-config/source/configuration.ts:103-131 | for milestones in any order that sorting by height allows, several at one height and absent or falsy values included: asking for the next change again and again lists exactly the heights at which the value in force changes, with the values that come into force there, if and only if at every height the first milestone that sets a truthy value other than the one in force below sets the one that is in force there, and where none does, the value stays |
| Milestones.OneAHeightIsSound | packages/core-crypto-config/source/configuration.ts:103-131 | so the list is right where every height has one milestone and none switches the key off |
| Milestones.ListedIsInForce | packages/core-crypto-config/source/configuration.ts:103-131 | up to any height, the list gives the value in force at every height if and only if the milestones at every height up to there can be searched |
| Milestones.ListedIsSet | packages/core-crypto-config/source/configuration.ts:103-131 | what the search lists is set by a milestone at that height above the one asked for, and is never 0 |
| Milestones.RepeatedHeightMisleads | packages/core-crypto-config/source/configuration.ts:103-131 | two milestones at one height: a concrete list on which the search stops at a value that is never in force |
| Rounds.IsNewRound | packages/core-kernel/source/utils/round-calculator.ts:5-24 | on every usable list, repeated heights included, the backward walk counts from the first milestone of the run of equal counts that ends with the active one |
| Rounds.IsNewRoundIsRight | packages/core-kernel/source/utils/round-calculator.ts:5-24 | that is right at every height up to a given one, which is that a whole number of rounds has passed since the count came into force, if and only if, at each height up to there where the count in force stays, all milestones have it or a round ends there |
| Rounds.SoundIsQuiet | packages/core-kernel/source/utils/round-calculator.ts:5-24 | it is right wherever the search is, so there the two computations agree |
| Rounds.CalculateRound | packages/core-kernel/source/utils/round-calculator.ts:26-75 | on every usable list the loop computes what the listed changes make of the height; where the search is right it succeeds exactly if no count up to the height changes within a round, and then the round is the number of heights so far that start one, its first height is the last of these, the height lies in its size, and the next round is right exactly if the next height keeps the alignment |
| Rounds.CalculateRoundIsRight | packages/core-kernel/source/utils/round-calculator.ts:26-75 | `calculateRound` describes the round of every height up to a given one if and only if the search is right at every height up to there and no count changes within a round up to there |
| Rounds.RepeatedHeightDisagrees | packages/core-kernel/source/utils/round-calculator.ts:5-75 | a concrete list with two milestones at one height on which `calculateRound` has rounds of 3 and `isNewRound` rounds of 4 |
| Rounds.CountInSpan | packages/core-kernel/source/utils/round-calculator.ts:26-75 | while the count stays, a round starts every so many heights |
| Rounds.NextRound | packages/core-kernel/source/utils/round-calculator.ts:66-74 | the formula for the next round agrees with counting exactly where the next height is aligned |
| Rounds.DescribesInSpan | packages/core-kernel/source/utils/round-calculator.ts:59-74 | number, first height and size computed from the start of the span describe the round of a height |
| RoundValidation.AlignedIffEntriesFit | packages/core-crypto-config/source/configuration.ts:164-187 | merged milestones, repeated heights included, change the count in force only between rounds exactly if each new count fits the entry that introduced the count before it, where of several entries at a height the last counts |
| RoundValidation.EntriesInForce | packages/core-crypto-config/source/configuration.ts:137-162 | merging keeps the counts: at every height the count in force is that of the last entry that sets one at or below it |
| RoundValidation.ValidatedNeverThrows | packages/core-crypto-config/source/configuration.ts:164-187 | in a validated list from height 1 whose neighbouring counts differ, repeated heights included: counts in force change only between rounds, `calculateRound` does not throw where the search is right, `isNewRound` is right at every height, and `calculateRound` is right at every height if and only if the search is |
| RoundValidation.OneAHeightIsRight | packages/core-crypto-config/source/configuration.ts:164-187 | with one milestone a height and differing neighbours, validation is enough: both computations are right at every height, and nothing throws |
| RoundValidation.RepeatedCountSlipsThrough | packages/core-crypto-config/source/configuration.ts:164-187 | without that difference it can: a concrete validated list with a change within a round |
| RoundValidation.RepeatedHeightHidesCount | packages/core-kernel/source/utils/round-calculator.ts:5-24 | a concrete validated list with two entries at one height on which `isNewRound` starts a round where none starts |
| RoundValidation.RepeatedHeightSlipsThrough | packages/core-crypto-config/source/configuration.ts:164-187 | nor does the validation guard the search: a concrete validated list with differing neighbours and two entries at one height on which `calculateRound` throws |
| SlotTimes.SlotHolds | packages/core-crypto-time/source/slots.ts:58-98 | a time lies in a slot exactly when it is between the times of that slot and of the next |
| SlotTimes.SlotAndTimeAreInverse | packages/core-crypto-time/source/slots.ts:58-144 | the start is at or before the time and the end at or after it; the time of the time's slot is that start; the slot of a slot's time is that slot; the next slot is at most a block time away |
| SlotTimes.SlotsAreMonotone | packages/core-crypto-time/source/slots.ts:58-98 | later times have no smaller slots and no earlier starts |
| SlotTimes.ForgingIsAllowed | packages/core-crypto-time/source/slots.ts:86-97 | forging is allowed exactly in the first half of every slot, rounded down; number, start, end and block time are those of the slot |
| SlotTimes.ForgingEndsOnce | packages/core-crypto-time/source/slots.ts:54-56 | it is allowed at the start of every slot of at least two seconds, and once it is not, it stays so until the next slot |
| SlotTimes.EpochIsSlotZero | packages/core-crypto-time/source/slots.ts:58-76 | before the first change of block time, slots are counted from 0 at the epoch |
| SlotTimes.NumberingAcrossSpans | packages/core-crypto-time/source/slots.ts:78-92 | where the block time changes, slot numbers go on right after the last block's slot, less one for each slot missed before the old span's first block, and less one more if the last block came earlier in its slot than that first one; whatever the timestamps |
| SlotTimes.SlotIsNumberedTwice | packages/core-crypto-time/source/slots.ts:78-92 | a concrete chain with a missed first slot whose slot number 2 is used on both sides of the change |
| SlotTimes.SpansAreInForce | packages/core-crypto-time/source/slots.ts:58-98 | up to any height, the spans have the block times in force if and only if the search for block times is right at every height up to there |
| SlotTimes.Slots.GetSlotInfo | packages/core-crypto-time/source/slots.ts:58-98 | the loop over the spans ends in the span that the height lies in, for any list of changes and any lookup, and gives that span's slot of the time |
| SlotTimes.Slots.CalculateSlotTime | packages/core-crypto-time/source/slots.ts:121-144 | the second loop ends in the same span and gives that span's time of the slot |
| SlotTimes.Slots.GetSlotNumber | packages/core-crypto-time/source/slots.ts:38-44 | the slot under the lookup that was set, which is used up |
| SlotTimes.Slots.GetTimeInMsUntilNextSlot | packages/core-crypto-time/source/slots.ts:31-36 | with the clock read before and after the lookups, the wait is at most a block time, and positive exactly if no slot has begun in between |
| SlotTimes.Slots.CalculateBlockTime | packages/core-crypto-time/source/block-time-calculator.ts:41-52 | the block time of the last milestone at or below the height |
| Dpos.DposState.BuildVoteBalances | packages/core-state/source/dpos/dpos.ts:38-50 | every stored vote balance grows by what its voters hold, in whatever order they come, and nothing else changes |
| Dpos.DposState.BuiltFromZero | packages/core-state/source/dpos/dpos.ts:38-50 | started from zero, the result is the consistent index that the block state keeps up to date |
| Dpos.BackingByAll | packages/core-state/source/dpos/dpos.ts:38-50 | adding up over any list of all voters, each once, is the sum over the ledger |
| Dpos.RankingIsUnique | packages/core-state/source/dpos/dpos.ts:52-90 | the ranking is the same however the repository lists the validators |
| Dpos.RankingSorts | packages/core-state/source/dpos/dpos.ts:52-90 | it holds every validator that has not resigned, once, by vote balance downwards and then by key upwards |
| Dpos.RankedByVoteBalance | packages/core-state/source/dpos/dpos.ts:52-90 | the ranking has exactly the validators that have not resigned, those with the higher stored vote balance first, and of equal ones those with the lower key |
| Dpos.DposState.BuildValidatorRanking | packages/core-state/source/dpos/dpos.ts:52-90 | the field is that ranking, ranks count from 1 along it, and nobody else keeps a rank |
| Dpos.DposState.SetValidatorsRound | packages/core-state/source/dpos/dpos.ts:92-110 | the first validators of the ranking get the round's number and everybody else keeps theirs; or an error that changes nothing if there are too few |
| Dpos.RoundTakesTheTop | packages/core-state/source/dpos/dpos.ts:92-110 | everybody in a round ranks before everybody standing who is not |
| Dpos.RoundHasMostBacking | packages/core-state/source/dpos/dpos.ts:92-110 | where the vote index is right, as it is in every run, everybody in a round has more voters' balance behind them than everybody standing who is not, or as much and a lower key |
| Dpos.RoundSize | packages/core-state/source/dpos/dpos.ts:92-110 | a round of `n` has `n` different validators |
| Schedules.ShuffleValidators | packages/core-state/source/round-state.ts:253-272 | the two nested loops, in place, compute one pass over the positions that skips every fifth, and permute the array |
| Schedules.ShufflePermutes | packages/core-state/source/round-state.ts:253-272 | the shuffle is a permutation for any seeds |
| Schedules.ShuffleIsTraced | packages/core-state/source/round-state.ts:260-269 | step by step, the first four of every five positions change places with the position that a byte of that group's hash picks, and the fifth does not; nothing else moves |
| Schedules.FindIndex | packages/core-kernel/source/utils/calculate-forging-info.ts:3-35 | slot modulo validator count and the position after it; not a number from the first change of the count on, because the lookup's promise is not awaited |
| Schedules.ForgerPositions | packages/core-kernel/source/utils/calculate-forging-info.ts:3-35 | a forger is found exactly at the heights before the first listed change of the validator count, and then the positions are the slot and the next one modulo the count |
| Schedules.NoForgerAfterChange | packages/core-kernel/source/utils/calculate-forging-info.ts:3-35 | a concrete configuration, 4 validators and then 3, with which no forger is found for any slot after the change |
| Schedules.NextForgerIsNext | packages/core-kernel/source/utils/calculate-forging-info.ts:31-34 | `nextForger` is the next slot's `currentForger` exactly unless a slot before the epoch is a multiple of a count above 1 |
| Schedules.ForgerOnDuty | packages/core-kernel/source/utils/calculate-forging-info.ts:31-34 | both positions are in range and name the validators on duty in the slot and in the next one |
| Schedules.DutyIsPermutation | packages/core-kernel/source/utils/calculate-forging-info.ts:31-34 | as many consecutive slots as there are validators are forged by each exactly once, wherever they begin |
| Schedules.EveryValidatorForgesOnce | packages/core-state/source/round-state.ts:253-272 | from ranking to slots: any `n` consecutive slots are forged by the top `n` of the ranking, each once, and by nobody else |
| Schedules.DetectMissedBlocks | packages/core-state/source/round-state.ts:132-158 | the validators on duty in the slots between two blocks, at most once through all of them; nothing after the first block |
| Schedules.MissedAreOnDuty | packages/core-state/source/round-state.ts:132-158 | a validator is reported exactly if a slot of its own lies between the blocks, and only once |
| SenderPools.RunsAreFaithful | packages/core-transaction-pool/source/sender-mempool.ts:36-106 | in every run of one sender's pool: unless a revert failed, the state is that of forged and pending transactions applied in order; after a failed revert the pool stays empty for the rest of the run; a sender that is not allow-listed stays within the limit |
| SenderPools.RemoveFaithful | packages/core-transaction-pool/source/sender-mempool.ts:63-90 | removal keeps a prefix and returns the suffix newest first, or, when a revert fails, everything |
| SenderPools.RemoveForgedFaithful | packages/core-transaction-pool/source/sender-mempool.ts:92-106 | forged removal takes a prefix that ends with the transaction, and its effects stay |
| SenderPools.AddFaithful | packages/core-transaction-pool/source/sender-mempool.ts:36-61 | adding keeps the state in step; a corrupt pool refuses; a refusal changes nothing |
| SenderPools.AddedIffFit | packages/core-transaction-pool/source/sender-state.ts:26-63 | a transaction becomes pending if and only if the sender's limit leaves room or does not apply, it is small enough, from this network, unexpired, verified and let in, the pool is not corrupt and the handler takes it; a refused one gets an error that is true of it and changes nothing |
| SenderPools.PendingCameFit | packages/core-transaction-pool/source/sender-state.ts:26-63 | in every run, everything that is pending was verified, let in, unexpired, small enough and from this network when it arrived |
| SenderPools.RevertAllUndoes | packages/core-transaction-pool/source/sender-state.ts:65-75 | reverts that succeed lead back to the state before the reverted transactions |
| SenderPools.SenderMempool.AddTransaction | packages/core-transaction-pool/source/sender-mempool.ts:36-61 | the method is the function on values, errors included |
| SenderPools.SenderMempool.RemoveTransaction | packages/core-transaction-pool/source/sender-mempool.ts:63-90 | the method is the function on values, with the revert loop and the corrupt flag |
| SenderPools.SenderMempool.RemoveForgedTransaction | packages/core-transaction-pool/source/sender-mempool.ts:92-106 | the method is the function on values |
| SenderPools.SenderMempool.Revert | packages/core-transaction-pool/source/sender-state.ts:65-75 | a revert that throws marks the state corrupt and leaves it |
| Pools.CutTxs | packages/core-transaction-pool/source/mempool.ts:62-76 | what a removal leaves of all pools: exactly the causes, what is behind one in its sender's pool, and the pools in which a revert fails leave, and everything else stays |
| Pools.CutOne | packages/core-transaction-pool/source/mempool.ts:62-76 | removing one transaction leaves every other sender's list as it is, and of its sender's list what is before it, or nothing if a revert fails |
| Pools.CutTwice | packages/core-transaction-pool/source/service.ts:297-335 | removing some and then others leaves what removing all of them at once leaves, state included, so the order in which the service removes them does not matter |
| Pools.RemoveForgedKeepsRest | packages/core-transaction-pool/source/mempool.ts:78-95 | forged removal: other senders keep everything, and the sender keeps what was behind the forged transaction; what is returned has left and nothing else |
| Pools.FullPoolRule | packages/core-transaction-pool/source/service.ts:369-390 | room in a full pool in which nothing is stale: for a fee no higher than any other there is none and nothing leaves; for a higher one a transaction with the lowest fee leaves, with what is behind it in its sender's pool, and nothing else |
| PoolHandlers.HandlerUndone | packages/core-transactions/source/handlers/transaction.ts:93-101 | the real handlers of every kind undo their apply on any ledger, vote balances aside |
| PoolHandlers.LedgerRunsAreFaithful | packages/core-transaction-pool/source/sender-state.ts:26-75 | so with the real handlers every run of a sender's pool keeps its private ledger in step with forged and pending transactions |
| PoolServices.Mempool.GetSize | packages/core-transaction-pool/source/mempool.ts:18-20 | the sizes of the sender pools add up to the number of different transactions |
| PoolServices.Mempool.AddTransaction | packages/core-transaction-pool/source/mempool.ts:38-60 | the sender pools and the error are those of the function on values: exactly the transaction enters, or nothing changes, with the errors of the sender's pool in their order; empty sender pools are disposed of |
| Pools.AddToIffFit | packages/core-transaction-pool/source/mempool.ts:38-60 | a transaction enters the mempool if and only if it is fit and not pending, its sender's limit leaves room or does not apply, and the handler takes it on the sender's state, or for a new sender on the wallets |
| PoolServices.Mempool.RemoveTransaction | packages/core-transaction-pool/source/mempool.ts:62-76 | what is left is the cut at the transaction: what is behind it in its sender's pool goes with it and nothing else; what is returned is exactly what left |
| PoolServices.Mempool.RemoveForgedTransaction | packages/core-transaction-pool/source/mempool.ts:78-95 | the transaction and what is before it in its sender's pool leave, nothing else, and are what is returned |
| PoolServices.Service.AddTransaction | packages/core-transaction-pool/source/service.ts:83-120 | where storage and mempool hold the same ids, once each, and no more than the pool may, they do so afterwards; success means that the transaction is in both, matched the fee, was verified and let in, and failure that it is in neither; its row goes in first and comes out again where it is refused; a pool with room loses nothing; a full one loses what is stale, and then, only for a fee strictly above the lowest, one transaction with the lowest fee and what is behind it |
| PoolServices.Service.AddTransactionToMempool | packages/core-transaction-pool/source/service.ts:369-390 | room is made as the rule says, for whatever answers the surroundings give, and then the sender's pool takes the transaction or refuses it |
| PoolStorages.EnteredAgrees | packages/core-transaction-pool/source/service.ts:83-120 | whatever makes room and whatever the answers, adding keeps both stores sane and in agreement |
| PoolStorages.EnteredTried | packages/core-transaction-pool/source/service.ts:96-105 | that the row is there before the transaction is tried makes nothing stale that was not |
| PoolStorages.NewcomerEnters | packages/core-transaction-pool/source/service.ts:83-120 | with room in the pool, a new transaction enters both stores if and only if it is fit, its sender's limit leaves room or does not apply, and the handler takes it |
| PoolStorages.OfferedIsFit | packages/core-transaction-pool/source/service.ts:369-390 | whatever makes room, what enters was verified, let in, unexpired, small enough and from this network |
| PoolStorages.OfferedSets | packages/core-transaction-pool/source/service.ts:369-390 | trying a transaction: what makes room leaves both stores, the pool stays within its size, and on success exactly the transaction comes in |
| PoolServices.Service.MakeRoom | packages/core-transaction-pool/source/service.ts:369-390 | a pool with room is left alone; a full one loses exactly what is stale, and if it is still full, a transaction with the lowest fee leaves for a strictly higher one, and nothing leaves for a lower or equal one |
| PoolStorages.FullPoolAnswer | packages/core-transaction-pool/source/service.ts:369-390 | adding to a full pool in which nothing is stale: a fee no higher than any other gets the pool-full error and leaves the pool as it is; a higher fee costs only one transaction with the lowest fee and those behind it |
| PoolServices.Service.Lowest | packages/core-transaction-pool/source/service.ts:337-342 | the first transaction of the lowest-priority query has the lowest fee, in whatever order the sender pools are listed |
| PoolServices.Service.RemoveLowestPriorityTransactions | packages/core-transaction-pool/source/service.ts:361-367 | the eviction loop ends because every pass removes something, and brings the pool within its size; what it evicts has fees no higher than any that stays and goes with what is behind it, nothing else does, and a pool within its size is left alone |
| PoolServices.Service.RemoveLowestPriorityTransaction | packages/core-transaction-pool/source/service.ts:337-359 | a transaction with the lowest fee leaves both stores with what is behind it, and nothing else, unless the pool is empty |
| PoolServices.Service.CleanUp | packages/core-transaction-pool/source/service.ts:274-284 | exactly what has expired or was stored too long ago leaves both stores, with what is behind it, and of a pool that is still too large lowest fees with what is behind them |
| PoolServices.Service.RemoveOldTransactions | packages/core-transaction-pool/source/service.ts:297-313 | exactly what was stored at or before the age limit leaves the mempool, with what is behind it, and each leaves the storage with it |
| PoolServices.Service.RemoveExpiredTransactions | packages/core-transaction-pool/source/service.ts:315-335 | exactly the expired transactions leave both stores, with what is behind them |
| PoolStorages.StaleIsCut | packages/core-transaction-pool/source/service.ts:297-335 | the two removals together leave what one removal of everything stale leaves |
| PoolServices.Service.RemoveTransaction | packages/core-transaction-pool/source/service.ts:207-241 | the transaction and what is behind it in its sender's pool leave both stores, and nothing else does; one that is not stored changes nothing |
| PoolServices.Service.RemoveForgedTransaction | packages/core-transaction-pool/source/service.ts:243-272 | the forged transaction and what is before it in its sender's pool leave both stores, and nothing else does |
| PoolServices.Service.Flush | packages/core-transaction-pool/source/service.ts:286-295 | both stores are empty and agree, whatever was in them |
| PoolServices.Service.ReaddTransactions | packages/core-transaction-pool/source/service.ts:122-205 | from any table with unique ids and any mempool, whether they agree or not, for any list of forged transactions and any answers, bytes that cannot be read included: each attempt and its outcome are a step of the rebuild, in a full pool too; afterwards nothing is stored that is not in the mempool, and the mempool holds nothing that was not stored or passed in; the stores agree if nothing passed in is still stored, and exactly if no transaction that was taken as forged although it was stored is left; with room for everything, the mempool is what trying the forged and then the stored ones that are young enough in order gives, and the stores agree if and only if nothing that the mempool took as forged was stored |
| PoolServices.Service.Handle | packages/core-transaction-pool/source/service.ts:60-77 | at start-up, whatever rows the last session has left, and at a change of milestone the mempool is rebuilt from the table, after which both stores agree; after a block nothing stale is left, and stores that agree still do |
| PoolServices.Service.constructor | packages/core-transaction-pool/source/storage.ts:37-54 | the mempool begins empty beside whatever rows with unique ids the table has |
| Readding.RebuiltAgrees | packages/core-transaction-pool/source/service.ts:128-187 | every rebuild, step by step on values: both stores are sane, nothing is stored that is not in the mempool, what the mempool has beyond the storage was diverted, and the stores agree exactly if nothing diverted is left |
| Readding.RebuiltWithRoom | packages/core-transaction-pool/source/service.ts:128-187 | with room for everything the mempool is what all attempts in order make of an empty one, and the stores agree exactly if no stored transaction was taken as forged |
| Readding.RebuiltIsVouchedFor | packages/core-transaction-pool/source/service.ts:138-180 | after a rebuild, everything in the mempool was readable, verified and let in on the way |
| PoolServices.ReaddedAlone | packages/core-transaction-pool/source/service.ts:122-205 | a run that ends with a transaction in the mempool alone, for every transaction that an empty pool takes and every age limit: it is stored and passed in as forged |
| Readding.StoredTried | packages/core-transaction-pool/source/service.ts:166-188 | trying a stored transaction again keeps track of what is in the mempool, in the storage and still to come, whether it enters, is refused, or others are evicted for it |
| Readding.ForgedStep | packages/core-transaction-pool/source/service.ts:141-162 | trying a forged transaction does so too, whether its id is in the storage already or not |
| PoolHandlers.PendingIsRefused | packages/core-transactions/source/handlers/transaction.ts:157-163 | a transaction that is pending in a sender's pool is refused by its handler, since its nonce has been used |
| PoolHandlers.PendingIsNotAdded | packages/core-transaction-pool/source/sender-mempool.ts:36-61 | so adding it again is refused by the sender's pool, with the first error there is |
| PoolStorages.PurgedMembers | packages/core-transaction-pool/source/storage.ts:84-86 | removing ids from the table removes their rows and no other |
| PoolStorages.OldOnesMembers | packages/core-transaction-pool/source/storage.ts:80-82 | the rows at or below a height |
| Merging.MergeIsSort | packages/core-transaction-pool/source/utils.ts:18-35 | merging sorted sources is the stable sort of all of them, one source after the other: sorted, nothing lost, ties to the earliest source |
| Merging.MergeKeepsSources | packages/core-transaction-pool/source/utils.ts:18-35 | whatever the comparison, what comes from one source is that source, complete and in its order |
| Merging.LeastIsLeast | packages/core-transaction-pool/source/utils.ts:23-25 | the head taken is strictly before the earlier heads and not after the later ones |
| Merging.IteratorMany.Next | packages/core-transaction-pool/source/utils.ts:18-35 | hands out the least head and advances that source only; ends when every source is used up |
| Merging.IteratorMany.Reduce | packages/core-transaction-pool/source/utils.ts:23-25 | going through the entries finds the earliest least head |
| Merging.IteratorMany.constructor | packages/core-transaction-pool/source/utils.ts:7-16 | holds the heads of the sources that are not empty |
| Queries.NonceOrderIffFeesFall | packages/core-transaction-pool/source/query.ts:113-120 | by priority, one sender's transactions come in the order they were made exactly when no fee among them rises |
| Queries.LaterTransactionComesFirst | packages/core-transaction-pool/source/query.ts:113-120 | a concrete pool in which a sender's second transaction comes before the first |
| Queries.FirstHasLowestFee | packages/core-transaction-pool/source/query.ts:103-111 | the lowest-priority query lists every pending transaction, and the first has the lowest fee |
| Queries.KeepSort | packages/core-transaction-pool/source/query.ts:103-120 | sorting a part is taking the part from what is sorted |
| Queries.QueryIterable.All | packages/core-transaction-pool/source/query.ts:19-29 | exactly the transactions that satisfy every predicate, in order |
| Queries.QueryIterable.First | packages/core-transaction-pool/source/query.ts:31-37 | the first of them, or none |
| Queries.MorePredicates | packages/core-transaction-pool/source/query.ts:43-47 | a predicate added to a query filters what the query gave before |
| Locks.ExclusiveRunsAlone | packages/core-kernel/source/utils/lock.ts:6-48 | in every interleaving an exclusive callback overlaps no other callback, unless the exclusive call was made in the first, synchronous piece of that very non-exclusive callback |
| Locks.NestedCallOverlaps | packages/core-kernel/source/utils/lock.ts:6-48 | and such a call, if it takes the lock, can always go on to run beside that callback |
| Locks.OnlyTheOwnerClears | packages/core-kernel/source/utils/lock.ts:42-47 | in every run the exclusive promise is set only where there is none and cleared only by the call that set it |
| Locks.SomethingCanHappen | packages/core-kernel/source/utils/lock.ts:6-48 | while a call is unfinished, some step other than a new call can be made |
| Locks.RunGuarded | packages/core-kernel/source/utils/lock.ts:28-45 | in every run the two fields tell where each call stands, and the exclusive call waits, or has waited, for every active call but those it missed |
| Locks.Lock.RunNonExclusive | packages/core-kernel/source/utils/lock.ts:6-13 | the piece up to the first await or the callback |
| Locks.Lock.AddPromise | packages/core-kernel/source/utils/lock.ts:13-16 | the callback's promise joins the set when the callback returns it |
| Locks.Lock.RunExclusive | packages/core-kernel/source/utils/lock.ts:23-43 | the piece up to the first await: the snapshot of promises and the field |
| Locks.Lock.Finally | packages/core-kernel/source/utils/lock.ts:17-48 | the promise leaves the set, or the field is cleared |
| TransactionCodec.RoundTrip | packages/core-crypto-transaction/source/deserializer.ts:21-72 | for every transaction that can be serialized and whose keys, addresses and signature have their fixed lengths: every field comes back, defaults filled in, and all bytes are read, exactly if it has a nonce and no list of signatures and is unsigned or its signature's length is one that the deserializer recognizes |
| TransactionCodec.SerializationIsInjective | packages/core-crypto-transaction/source/serializer.ts:26-51 | of the transactions that can be read back, those with the same bytes are the same after their defaults are filled in |
| Layouts.WrittenAsLaidOut | packages/core-crypto-transaction/source/serializer.ts:26-100 | the format byte by byte: 255, version, network, type group 1 in four bytes, the type in two, nonce, key, fee, vendor field, the six bodies and the signatures, numbers with their lowest byte first; a transaction is written if and only if its numbers have the ranges of their places and the buffers are large enough |
| Layouts.LaidOutIsRead | packages/core-crypto-transaction/source/deserializer.ts:21-72 | bytes laid out like this are read, whole and with the defaults filled in, if there is a nonce and no list of signatures and a signature has one of the recognized lengths |
| Layouts.ReadFromLayout | packages/core-crypto-transaction/source/deserializer.ts:40-50 | whatever is read has type group 1 and one of the six types, and version, network, nonce, key and fee come from their places |
| TransactionCodec.LongSignatureIsLost | packages/core-crypto-transaction/source/deserializer.ts:65-72 | a concrete transaction whose signature of 65 bytes is not read |
| TransactionCodec.AbsentNonceIsMissed | packages/core-crypto-transaction/source/serializer.ts:65-67 | a concrete transaction without a nonce, which is not read back as it was written |
| TransactionCodec.Serialize | packages/core-crypto-transaction/source/serializer.ts:26-100 | the buffer writes give the fields in order, and fail exactly if a number is out of range or something does not fit |
| TransactionCodec.SerializeCommon | packages/core-crypto-transaction/source/serializer.ts:53-74 | marker, version, network, type group, type, nonce, key and fee, with their widths and defaults; an absent nonce is skipped |
| TransactionCodec.SerializeVendorField | packages/core-crypto-transaction/source/serializer.ts:76-86 | length and text for transfers, a zero for everything else |
| TransactionCodec.SerializeBody | packages/core-crypto-transaction-vote/source/versions/1.ts:48-64 | the six bodies, each in a buffer of its own size |
| TransactionCodec.SerializePayments | packages/core-crypto-transaction-multi-payment/source/versions/1.ts:52-73 | amount and address of each payment |
| TransactionCodec.Deserialize | packages/core-crypto-transaction/source/deserializer.ts:21-38 | the reads and their order; an unknown type, or a read past the end, throws |
| TransactionCodec.DeserializeVendorField | packages/core-crypto-transaction/source/deserializer.ts:52-63 | a vendor field that the type does not have is skipped |
| TransactionCodec.DeserializeBody | packages/core-crypto-transaction-vote/source/versions/1.ts:66-84 | the six bodies |
| TransactionCodec.DeserializeSignature | packages/core-crypto-transaction/source/deserializer.ts:65-72 | a signature is read if the rest is not empty and is a multiple of 64 or not one of 65 |
| TransactionCodec.BodyRead | packages/core-crypto-transaction-transfer/source/versions/1.ts:33-51 | whatever follows, a body in range is read back and what follows is left |
| TransactionCodec.PaymentsRead | packages/core-crypto-transaction-multi-payment/source/versions/1.ts:75-89 | any number of payments is read back |
| TransactionCodec.VoteRead | packages/core-crypto-transaction-vote/source/versions/1.ts:66-84 | votes and unvotes are read back |
| TransactionCodec.KeysRead | packages/core-crypto-transaction-multi-signature-registration/source/versions/1.ts:80-94 | the minimum and any number of keys of a multi-signature registration are read back |
| TransactionCodec.SignatureRead | packages/core-crypto-transaction/source/deserializer.ts:65-72 | the rest of a transaction is read as its signature exactly for the recognized lengths |
| BlockCodec.SchemaRead | packages/core-serializer/source/serializer.ts:25-125 | what any schema writes it reads back, whatever follows and whatever the target has already, if every property of the schema is there, optional ones included, the number of transactions is known where they are read and numbers that are read as doubles survive that |
| BlockCodec.SchemaReadExactly | packages/core-serializer/source/serializer.ts:25-125 | into a target that has none of the properties yet, that is exactly when it reads back what it wrote |
| BlockCodec.AbsentOptionalIsMisread | packages/core-serializer/source/serializer.ts:36-38 | a concrete schema with an absent optional property, which is not written but read all the same |
| BlockCodec.UncountedIsEmpty | packages/core-serializer/source/serializer.ts:117-122 | where the target has no number of transactions, none is read |
| Layouts.ValueAsLaidOut | packages/core-serializer/source/serializer.ts:40-76 | what a property of each kind is written as: 4 or 8 bytes with the lowest first, the bytes themselves, or items behind their lengths |
| BlockCodec.SkippedRead | packages/core-serializer/source/serializer.ts:31-33 | bytes that were skipped when writing are zeros, and skipping them leads a reader to the first property |
| BlockCodec.DoubleIsExact | packages/core-serializer/source/serializer.ts:91-93 | a number survives being read as a double exactly if it is a multiple of the distance between doubles of its size, as all below 2 to the power 53 are |
| BlockCodec.DoubleIsNearest | packages/core-serializer/source/serializer.ts:91-93 | what is read is the nearest double: of the multiples of a power of two that 53 bits allow, the nearest, and of two the even one |
| BlockCodec.ItemsRead | packages/core-serializer/source/serializer.ts:117-122 | length-prefixed transactions are read back |
| BlockCodec.Serialize | packages/core-serializer/source/serializer.ts:25-79 | the loop over the schema behind the skipped bytes: optional absent properties are skipped, required ones throw, and the whole buffer comes back with its zeros |
| BlockCodec.Deserialize | packages/core-serializer/source/serializer.ts:81-125 | the loop over the schema fills the target, with the kinds, widths and sizes of the schema |
| BlockBytes.BlockRoundTrip | packages/core-crypto-block/source/deserializer.ts:20-112 | whatever zeros follow a block with its transactions, every header property comes back, and every transaction does exactly if the transaction deserializer recognizes each of them and the schemas accept what it reads |
| Layouts.HeaderAsLaidOut | packages/core-crypto-block/source/serializer.ts:33-76 | the header byte by byte, every property at its place; it is written if and only if all of them are there, of their kinds and in their ranges |
| Layouts.BlockAsLaidOut | packages/core-crypto-block/source/serializer.ts:78-124 | and behind it each transaction behind its length in four bytes |
| BlockBytes.HeaderBytes | packages/core-crypto-block/source/deserializer.ts:20-80 | a header alone comes back; read as a whole block it throws exactly if it counts transactions, which are then read from the zeros |
| BlockBytes.HeaderIsNoBlock | packages/core-crypto-block/source/deserializer.ts:20-80 | a concrete header that counts one transaction, whose bytes cannot be read as a block |
| BlockBytes.SizeIsWritten | packages/core-crypto-block/source/serializer.ts:10-31 | the size is the number of bytes written before the zeros, exactly if the previous block's id has 32 bytes |
| BlockBytes.Size | packages/core-crypto-block/source/serializer.ts:10-31 | the loop adds up header and transactions |
| BlockBytes.DeserializeAll | packages/core-crypto-block/source/deserializer.ts:98-111 | every transaction's bytes go through the transaction deserializer and then the schemas, and one failure of either is a failure |
| BlockBytes.Deserialize | packages/core-crypto-block/source/deserializer.ts:20-80 | header first, transactions only if asked for and if bytes are left |
| ByteBuffers.IntegerRoundTrip | packages/utils/source/byte-buffer.ts:18-60 | a number below the range of its width is read as it was written |
| ByteBuffers.BytesRoundTrip | packages/utils/source/byte-buffer.ts:18-60 | and bytes are written as they were read |
| ByteBuffers.FitsNext | packages/utils/source/byte-buffer.ts:62-68 | writing goes on succeeding while each field is in range and fits |
| ByteBuffers.ByteBuffer.WriteNumber | packages/utils/source/byte-buffer.ts:18-54 | the buffer holds all fields written and zeros, or has thrown because one was out of range or did not fit |
| ByteBuffers.ByteBuffer.WriteBytes | packages/utils/source/byte-buffer.ts:62-68 | the same for bytes |
| ByteBuffers.ByteBuffer.ReadBytes | packages/utils/source/byte-buffer.ts:70-78 | the next bytes, or an exception at the boundary |
| ByteBuffers.ByteBuffer.ReadNumber | packages/utils/source/byte-buffer.ts:22-60 | the next number, little end first |
| ByteBuffers.ByteBuffer.Skip | packages/utils/source/byte-buffer.ts:108-114 | moves within the buffer, backwards too, or throws |
| ByteBuffers.ByteBuffer.ToBuffer | packages/utils/source/byte-buffer.ts:116-118 | everything written and the zeros behind it |
| ByteBuffers.ByteBuffer.GetResult | packages/utils/source/byte-buffer.ts:92-94 | everything written |
| Forging.ForgedBlockIsAccepted | packages/core-crypto-block/source/verifier.ts:25-146 | for candidates with different ids, a block forged from what is collated is accepted if and only if the block version is 1, its time is at most a block time ahead, every candidate verifies and its payload is at most the maximum less 204: all other checks it passes; and it is never more than 60 bytes too large |
| Forging.CollatedBlockMayBeRefused | packages/core-transaction-pool/source/collator.ts:30-77 | the two header constants differ enough: a concrete candidate list whose block every verifier refuses |
| Forging.CollatedIsSound | packages/core-transaction-pool/source/collator.ts:30-77 | the candidates are within count and bytes, none expired, none twice, each validated on top of the ones before |
| Forging.CollatedLeavesOut | packages/core-transaction-pool/source/collator.ts:51-76 | nothing is left out without a reason: every transaction of the pool is a candidate, or failed, or an earlier one of its sender failed, or the block has as many as it may, or one that comes no later does not fit; a transaction fails only because it has expired or because the validator refuses it on top of the candidates before it; and the candidates keep the order of the pool |
| Forging.NoCandidateAfterFailure | packages/core-transaction-pool/source/collator.ts:51-76 | after a sender's transaction failed, no later one of that sender is a candidate |
| Forging.GetBlockCandidateTransactions | packages/core-transaction-pool/source/collator.ts:27-87 | the loop, with its two early ends and the skipped senders, is the function on values |
| Forging.Forge | packages/core-forger/source/validator.ts:37-73 | totals, count, payload length and payload hash are those of the transactions |
| Forging.Verify | packages/core-crypto-block/source/verifier.ts:25-146 | no error is found exactly in the acceptable blocks; the signature does not matter, because its promise is not awaited |
| Forging.VerifyTotals | packages/core-crypto-block/source/verifier.ts:91-138 | one pass finds no error exactly if ids differ, nothing is expired, and both totals and the payload hash match |
| Forging.VerifyTransactions | packages/core-crypto-block/source/verifier.ts:65-72 | no error exactly if every transaction verifies |
| Acceptance.CollatedBlockIsApplied | packages/core-transaction-pool/source/collator.ts:51-76 | a block that a registered validator forges from collated candidates on the last block is always applied, and changes the supply by its reward less the burn |
| Acceptance.ValidatedRun | packages/core-state/source/transaction-validator.ts:15-22 | transactions that the validator accepted one after the other on its clone of the wallets are all accepted by the block state, which updates vote balances in between |
| Acceptance.ApplyMirrors | packages/core-state/source/block-state.ts:91-111 | one accepted transaction keeps the clone and the ledger equal but for vote balances |
| Acceptance.CheckMirrors | packages/core-transactions/source/handlers/transaction.ts:38-91 | no check looks at a vote balance: equal but for these, two ledgers accept and refuse the same, with the same errors |
| Acceptance.HandlerMirrors | packages/core-transactions/source/handlers/transaction.ts:93-96 | no handler does either |
| WalletIndexes.RunsAgree | packages/core-state/source/wallets/wallet-index.ts:20-91 | after any run of set, forget, forgetWallet and clear, a key leads to the wallet it was last set to and not taken from, and is among that wallet's keys and no other's |
| WalletIndexes.WalletIndex.WalletKeys | packages/core-state/source/wallets/wallet-index.ts:20-24 | exactly the keys that lead to the wallet |
| WalletIndexes.WalletIndex.Set | packages/core-state/source/wallets/wallet-index.ts:42-62 | setting an occupied key takes it from the wallet that had it |
| WalletIndexes.WalletIndex.Forget | packages/core-state/source/wallets/wallet-index.ts:64-74 | the key leaves both maps |
| WalletIndexes.WalletIndex.ForgetWallet | packages/core-state/source/wallets/wallet-index.ts:76-86 | the wallet's keys leave both maps, and no other key does |
| MultiSignatures.VerifySignatures | packages/core-crypto-transaction/source/verifier.ts:18-72 | for distinct participants with keys, the answer is whether at least the minimum verifies, and for a minimum of 0 whether there is a first signature that does not; the two errors only on lists that deserve them |
| MultiSignatures.CountGrows | packages/core-crypto-transaction/source/verifier.ts:58-67 | the count grows by at most one for each signature that is left, which is why the early exits are right |
| Sorting.SortSorted | packages/core-state/source/dpos/dpos.ts:65-85 | a sort gives a sorted rearrangement |
| Sorting.SortedUnique | packages/core-state/source/dpos/dpos.ts:65-85 | there is only one if different elements never compare equal |

## Left out

- PoolServices.Mempool.AddTransaction: sender pools are values in the mempool's map, not objects; the methods of `SenderPools.SenderMempool` are proved equal to the functions that it uses. A handler that would take a pending transaction again is refused by a branch of the method; with the real handlers the branch is never taken (`PoolHandlers.PendingIsNotAdded`).
- PoolServices.Service.ReaddTransactions: whether a transaction's bytes can still be read is part of the answers, and so is what they are read as: the transaction that was written.
- PoolServices.Service.AddTransaction: fee matching, verification, the checks on entering the pool and the wallets that a new sender pool starts from are arguments, and the contract holds for whatever they are.
- PoolServices.Service.Lowest: the order in which the sender pools are listed is arbitrary, where the repository has the order of insertion.
- Blocks.RevertBlock: when a revert fails, the code applies the reverted transactions again but does not pay the forger again. The failure is modelled and the method is proved equal to it; no property is claimed of it.
- Chain.RunsAreConsistent: the attributes that only record the last block, ranks and rounds are not part of the ledger; the burn percentage and the number of required validators come with each block.
- Chain.RevertAppliedBlock: the `lastBlock` attribute of the forger is not restored by the code and is not compared.
- Handlers: the check of a multi-signature is a promise that is not awaited, so neither its answer nor a rejection, with one of the errors of `MultiSignatures.VerifySignatures`, reaches the caller; a rejection that nobody handles is not modelled. The checks for cold wallets and mismatched senders cannot fail after the lookup that precedes them, nor can the one that compares with the wallet of another repository, which is the same wallet in the block state, so they are no errors here.
- PoolHandlers.LedgerRunsAreFaithful: the copy-on-write wallets of a sender's pool are a private copy of one ledger; blocks that are applied meanwhile do not show through in wallets that the pool has not touched yet.
- NSects.Find: positions are rounded as exact fractions; rounding of doubles beyond 2 to the power 53 is not modelled. The probe is a function of the list it is asked for; a search never asks for the same list twice.
- Rounds.CalculateRound: the first milestone is at height 1 and sets a validator count, and no milestone sets a count of 0, with which the divisions have no value.
- SlotTimes.Slots.GetSlotInfo: every milestone has a positive block time, and the lookup of block timestamps is any total function, and the height does not change between the awaits of one call; the lookup table of its own module, which lacks the entry asked for at a change, is not modelled.
- Schedules.FindIndex: the arithmetic with a value that is not a number is the absence of a result.
- Schedules.ShuffleValidators: the hash chain is any function to bytes; wallets are their addresses, so cloning them is nothing.
- Dpos.DposState.BuildValidatorRanking: keys are ordered by a number in place of the locale's string order, and the error for equal keys cannot occur, since the repository lists a validator once.
- Forging.GetBlockCandidateTransactions: the validator's answer is a function of the candidates accepted so far, because a refused transaction leaves no trace in its wallets; `Acceptance.ValidatesOn` is that function for the real handlers.
- Forging.Verify: hashes and signature verification are uninterpreted functions; keys and hashes have 32 bytes, signatures 64.
- TransactionCodec.RoundTrip: the signatures of a configuration have one length, where those of ECDSA have none that is fixed (packages/core-crypto-signature-ecdsa/source/signature.ts:57-59). Texts, keys and addresses are byte strings already; their text encodings are taken to be inverse. The options that leave signatures out, which serve to compute hashes, are not part of this model.
- BlockBytes.DeserializeAll: the schemas' answer is a function of what is read, and the id that the factory sets before it asks them (packages/core-crypto-transaction/source/factory.ts:61) is a hash and is not computed.
- BlockBytes.BlockRoundTrip: block ids are hashes and are not computed.
- MultiSignatures.VerifySignatures: indexes are numbers; a part whose first characters are no hexadecimal number is not modelled.
- Locks: a non-exclusive callback that throws before it returns a promise is not modelled; calls that wait may wait for ever if others keep taking the lock.
- Concurrency inside the pool's service and mempool: operations run one at a time; races between the awaits of two non-exclusive operations are left out.
- Network, HTTP, peers, rate limits, databases and files, dependency injection, service providers, bootstrapping, command line, loggers, webhooks and configuration generation.
- The block processor and its state machine, the job that processes downloaded blocks, and the state builder, which only chain the operations modelled here with input and output.
- Clone and copy-on-write wallet repositories, the exchange and developer interfaces, and the small helpers of `packages/utils`, each of which says what it does in a line or two.
