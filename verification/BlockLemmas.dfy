/** What applying and reverting whole blocks keeps, changes and restores. */
module BlockLemmas {
  import opened Options
  import opened Arithmetic
  import opened Ledgers
  import opened Movements
  import opened Handlers
  import opened HandlerLemmas
  import opened Blocks

  // ----- runs of transactions -----

  lemma {:induction false} ApplyRunConsistent(l: Ledger, txs: seq<Transaction>, required: nat)
    requires WellFormedAll(txs) && Consistent(l)
    ensures Consistent(ApplyRun(l, txs, required).0)
    decreases |txs|
  {
    hide Put, At, Sum;
    if txs != [] && Check(l, txs[0], required).None? {
      ApplyConsistent(l, txs[0], required);
      ApplyRunConsistent(Apply(l, txs[0], required), txs[1..], required);
    }
  }

  lemma {:induction false} ApplyRunSupply(l: Ledger, txs: seq<Transaction>, required: nat)
    requires WellFormedAll(txs)
    ensures var (m, n) := ApplyRun(l, txs, required);
            n <= |txs| && Supply(m) == Supply(l) - FeesOf(txs[..n])
    decreases |txs|
  {
    hide Apply, Check, Supply;
    if txs != [] && Check(l, txs[0], required).None? {
      var n := ApplyRun(Apply(l, txs[0], required), txs[1..], required).1;
      ApplySupply(l, txs[0], required);
      ApplyRunSupply(Apply(l, txs[0], required), txs[1..], required);
      assert txs[..n + 1][1..] == txs[1..][..n];
    }
  }

  lemma {:induction false} FeesOfSnoc(txs: seq<Transaction>)
    requires txs != []
    ensures FeesOf(txs) == FeesOf(txs[..|txs| - 1]) + txs[|txs| - 1].fee
    decreases |txs|
  {
    if |txs| > 1 {
      assert txs[..|txs| - 1][1..] == txs[1..][..|txs| - 2];
      FeesOfSnoc(txs[1..]);
    }
  }

  lemma {:induction false} RevertRunSupply(l: Ledger, txs: seq<Transaction>)
    requires WellFormedAll(txs) && RevertRun(l, txs).1 == 0
    ensures Supply(RevertRun(l, txs).0) == Supply(l) + FeesOf(txs)
    decreases |txs|
  {
    hide Revert, NonceMatches, Supply;
    if txs != [] {
      var last := txs[|txs| - 1];
      RevertSupply(l, last);
      RevertRunSupply(Revert(l, last), txs[..|txs| - 1]);
      FeesOfSnoc(txs);
    }
  }

  lemma {:induction false} RevertRunCons(l: Ledger, tx: Transaction, txs: seq<Transaction>)
    requires WellFormed(tx) && WellFormedAll(txs) && RevertRun(l, txs).1 == 0
    requires NonceMatches(RevertRun(l, txs).0, tx)
    ensures WellFormedAll([tx] + txs)
    ensures RevertRun(l, [tx] + txs) == (Revert(RevertRun(l, txs).0, tx), 0)
    decreases |txs|
  {
    hide Revert, NonceMatches;
    var all := [tx] + txs;
    if txs == [] {
      assert all == [tx] && all[..0] == [];
    } else {
      var last := txs[|txs| - 1];
      assert all[..|all| - 1] == [tx] + txs[..|txs| - 1] && all[|all| - 1] == last;
      RevertRunCons(Revert(l, last), tx, txs[..|txs| - 1]);
    }
  }

  // ----- the forger -----

  /** What rewarding a forger makes of one wallet. */
  function Rewarded(w: Wallet, isForger: bool, isVoted: bool, amount: int): Wallet {
    var x := if isVoted then Bumped(w, amount) else w;
    if isForger then x.(balance := x.balance + amount) else x
  }

  lemma RewardAt(l: Ledger, f: Address, amount: int, a: Address)
    ensures At(Reward(l, f, amount), a)
            == Rewarded(At(l, a), a == f, At(l, f).vote == Some(a), amount)
  {
    hide Put, At, Sum;
  }

  lemma RewardGap(l: Ledger, f: Address, amount: int, v: Address)
    ensures Gap(Reward(l, f, amount), v) == Gap(l, v)
  {
    hide Put, At, Sum;
    var m := BumpFor(l, f, amount);
    CreditGap(m, f, amount, v);
    if At(l, f).vote.Some? { BumpGap(l, At(l, f).vote.value, amount, v); }
  }

  lemma RewardRegistered(l: Ledger, f: Address, amount: int)
    requires VotesRegistered(l)
    ensures VotesRegistered(Reward(l, f, amount))
  {
    hide Put, At, Sum;
    var m := Reward(l, f, amount);
    forall a ensures NamesValidator(m, a) {
      assert NamesValidator(l, a);
      RewardAt(l, f, amount, a);
      if At(l, a).vote.Some? { RewardAt(l, f, amount, At(l, a).vote.value); }
    }
  }

  lemma RewardSupply(l: Ledger, f: Address, amount: int)
    ensures Supply(Reward(l, f, amount)) == Supply(l) + amount
  {
    hide Put, At, Sum;
    CreditSupply(BumpFor(l, f, amount), f, amount);
    if At(l, f).vote.Some? { BumpSupply(l, At(l, f).vote.value, amount); }
  }

  lemma RewardTwice(l: Ledger, f: Address, x: int, y: int)
    ensures Reward(Reward(l, f, x), f, y) == Reward(l, f, x + y)
  {
    hide Put, At, Sum, Reward;
    var m := Reward(l, f, x);
    forall a ensures At(Reward(m, f, y), a) == At(Reward(l, f, x + y), a) {
      RewardAt(l, f, x, a);
      RewardAt(l, f, x, f);
      RewardAt(m, f, y, a);
      RewardAt(l, f, x + y, a);
    }
    Extensionality(Reward(m, f, y), Reward(l, f, x + y));
  }

  lemma RewardNothing(l: Ledger, f: Address)
    requires VotesRegistered(l)
    ensures Reward(l, f, 0) == l
  {
    hide Put, At, Sum;
    assert NamesValidator(l, f);
    forall a ensures At(Reward(l, f, 0), a) == At(l, a) { RewardAt(l, f, 0, a); }
    Extensionality(Reward(l, f, 0), l);
  }

  /** What the mutators leave with the forger. */
  function Earned(b: Block, s: Settings): int {
    b.reward + b.totalFee - Burned(b.totalFee, s.percentage)
  }

  lemma ApplyToForgerIsReward(l: Ledger, b: Block, s: Settings)
    ensures ApplyToForger(l, b, s.percentage) == Reward(l, b.generator, Earned(b, s))
    ensures RevertFromForger(l, b, s.percentage) == Reward(l, b.generator, -Earned(b, s))
  {
    hide Put, At, Sum, Reward, Burned;
    RewardTwice(l, b.generator, b.reward + b.totalFee, -Burned(b.totalFee, s.percentage));
    RewardTwice(l, b.generator, -(b.reward + b.totalFee), Burned(b.totalFee, s.percentage));
  }

  lemma RewardReady(l: Ledger, f: Address, amount: int)
    requires VotesRegistered(l) && ForgerError(l, f).None?
    ensures ForgerError(Reward(l, f, amount), f).None?
  {
    hide Put, At, Sum;
    RewardAt(l, f, amount, f);
    RewardRegistered(l, f, amount);
    assert NamesValidator(Reward(l, f, amount), f);
  }

  lemma RewardConsistent(l: Ledger, f: Address, amount: int)
    requires Consistent(l)
    ensures Consistent(Reward(l, f, amount))
  {
    hide Put, At, Sum;
    RewardRegistered(l, f, amount);
    forall v ensures Gap(Reward(l, f, amount), v) == 0 { RewardGap(l, f, amount, v); }
  }

  /** The burn takes between nothing and all of the fees: what the percentage leaves of them, rounded down, or all of
      them for a percentage that is none. */
  lemma BurnBounds(totalFee: int, percentage: Option<int>)
    requires totalFee >= 0
    ensures 0 <= Burned(totalFee, percentage) <= totalFee
    ensures percentage == Some(0) ==> Burned(totalFee, percentage) == totalFee
    ensures percentage == Some(100) ==> Burned(totalFee, percentage) == 0
    ensures percentage == None ==> Burned(totalFee, percentage) == 0
    ensures percentage.Some? ==>
              var p, hundred := percentage.value, 100 * Burned(totalFee, percentage);
              if 0 <= p <= 100 then 0 <= totalFee * (100 - p) - hundred < 100 else hundred == 100 * totalFee
  {
    match percentage
    case None =>
    case Some(p) =>
      if 0 <= p <= 100 {
        MulSign(totalFee, 100 - p);
        MulOrder(totalFee, 100 - p, 100);
        Division(totalFee * (100 - p), 100);
      }
  }

  // ----- undoing transactions under a reward -----

  lemma UndoneRewarded(w: Wallet, tx: Transaction, a: Address, isForger: bool, isVoted: bool, amount: int)
    requires isVoted ==> w.validator.Some? && !(tx.asset.Registration? && a == tx.sender)
    ensures Undone(Rewarded(w, isForger, isVoted, amount), tx, a)
            == Rewarded(Undone(w, tx, a), isForger, isVoted, amount)
  {
  }

  lemma RevertHandlerVote(m: Ledger, tx: Transaction, a: Address)
    requires WellFormed(tx) && !tx.asset.Vote?
    ensures At(RevertHandler(m, tx), a).vote == At(m, a).vote
  {
    hide RevertHandler, At;
    RevertHandlerAt(m, tx, a);
  }

  lemma RevertHandlerRewarded(m: Ledger, tx: Transaction, f: Address, amount: int)
    requires WellFormed(tx) && !tx.asset.Vote?
    requires NamesValidator(m, f)
    requires tx.asset.Registration? ==> At(m, f).vote != Some(tx.sender)
    ensures RevertHandler(Reward(m, f, amount), tx) == Reward(RevertHandler(m, tx), f, amount)
  {
    var r, h := Reward(m, f, amount), RevertHandler(m, tx);
    RevertHandlerVote(m, tx, f);
    forall a ensures At(RevertHandler(r, tx), a) == At(Reward(h, f, amount), a) {
      hide RevertHandler, Reward, Undone, Rewarded, At;
      RevertHandlerAt(r, tx, a);
      RevertHandlerAt(m, tx, a);
      RewardAt(m, f, amount, a);
      RewardAt(h, f, amount, a);
      UndoneRewarded(At(m, a), tx, a, a == f, At(m, f).vote == Some(a), amount);
    }
    Extensionality(RevertHandler(r, tx), Reward(h, f, amount));
  }

  lemma BumpForAllRewarded(l: Ledger, ps: seq<Payment>, f: Address, amount: int)
    requires VotesRegistered(l)
    ensures BumpForAll(Reward(l, f, amount), ps) == Reward(BumpForAll(l, ps), f, amount)
  {
    hide Reward, At, BumpForAll, VotesRegistered, ReceivedByVoters;
    var r, m := Reward(l, f, amount), BumpForAll(l, ps);
    RewardRegistered(l, f, amount);
    RegisteredVote(l, f);
    BumpForAllVotes(l, ps);
    assert SameVotes(r, l) by {
      forall a ensures At(r, a).vote == At(l, a).vote { RewardAt(l, f, amount, a); }
    }
    forall a ensures At(BumpForAll(r, ps), a) == At(Reward(m, f, amount), a) {
      BumpForAllAt(r, ps, a);
      BumpForAllAt(l, ps, a);
      ReceivedByVotersAgree(r, l, ps, a);
      RewardAt(l, f, amount, a);
      RewardAt(m, f, amount, a);
    }
    Extensionality(BumpForAll(r, ps), Reward(m, f, amount));
  }

  lemma RegisteredVote(l: Ledger, f: Address)
    requires VotesRegistered(l)
    ensures At(l, f).vote.Some? ==> At(l, At(l, f).vote.value).validator.Some?
  {
    assert NamesValidator(l, f);
  }

  /** A vote, a reward, and the revert of the vote, seen from one wallet: the reward alone remains. The forger's
      vote is `votedAfter` when the reward is paid and `votedBefore` once the vote is undone. */
  lemma VoteUndoneRewarded(w: Wallet, a: Address, tx: Transaction, amount: int, x: int, f: Address,
                           votedBefore: bool, votedAfter: bool)
    requires tx.asset.Vote? && |tx.asset.votes| <= 1 && |tx.asset.unvotes| <= 1
    requires |tx.asset.votes| + |tx.asset.unvotes| > 0
    requires a == tx.sender ==> w.nonce + 1 == tx.nonce && w.vote == Last(tx.asset.unvotes, None)
    requires tx.asset.votes != [] && tx.asset.votes[0] == a ==> w.validator.Some?
    requires tx.asset.unvotes != [] && tx.asset.unvotes[0] == a ==> w.validator.Some?
    requires votedBefore ==> w.validator.Some?
    requires if f == tx.sender
             then votedBefore == (Last(tx.asset.unvotes, None) == Some(a))
               && votedAfter == (Last(tx.asset.votes, None) == Some(a))
             else votedBefore == votedAfter
    ensures var Vote(votes, unvotes) := tx.asset;
            var s := a == tx.sender;
            var w1 := if s then Voted(w, tx.nonce, -tx.fee, VoteAfter(w.vote, votes, unvotes)) else w;
            var w2 := Rewarded(VoteMoved(w1, a, votes, unvotes, amount, tx.fee, false), a == f, votedAfter, x);
            var w3 := if s then Voted(w2, w2.nonce - 1, tx.fee, VoteAfter(w2.vote, unvotes, votes)) else w2;
            VoteMoved(w3, a, votes, unvotes, amount + (if f == tx.sender then x else 0), tx.fee, true)
            == Rewarded(w, a == f, votedBefore, x)
  {
  }

  lemma RevertVoteRewardedAt(l: Ledger, m: Ledger, h: Ledger, tx: Transaction, f: Address, x: int, a: Address)
    requires tx.asset.Vote? && VoteAllowed(l, tx)
    requires VoteAppliedAt(l, m, tx, a) && VoteAppliedAt(l, m, tx, tx.sender) && VoteAppliedAt(l, m, tx, f)
    requires VoteRevertedAt(Reward(m, f, x), h, tx, a) && VoteRevertedAt(Reward(m, f, x), h, tx, tx.sender)
    requires NamesValidator(l, f)
    ensures At(UpdateVoteBalances(h, tx, true), a) == At(Reward(l, f, x), a)
  {
    hide Reward, UpdateVoteBalances, VoteMoved, Rewarded;
    var amount := At(l, tx.sender).balance - tx.fee;
    assert At(h, tx.sender).balance - tx.fee == amount + (if f == tx.sender then x else 0) by {
      VoteMovedBalance(l, m, tx, tx.sender);
      RewardBalance(m, f, x, tx.sender);
    }
    RevertedUpdate(h, tx, a);
    RewardAt(m, f, x, a);
    RewardAt(l, f, x, a);
    VoteMovedBalance(l, m, tx, f);
    VoteUndoneRewarded(At(l, a), a, tx, amount, x, f, At(l, f).vote == Some(a), At(m, f).vote == Some(a));
  }

  lemma VoteMovedBalance(l: Ledger, m: Ledger, tx: Transaction, a: Address)
    requires tx.asset.Vote? && VoteAllowed(l, tx) && VoteAppliedAt(l, m, tx, a)
    ensures At(m, a).balance == At(l, a).balance - if a == tx.sender then tx.fee else 0
    ensures At(m, a).vote == if a == tx.sender then Last(tx.asset.votes, None) else At(l, a).vote
  {
  }

  lemma RewardBalance(l: Ledger, f: Address, x: int, a: Address)
    ensures At(Reward(l, f, x), a).balance == At(l, a).balance + if a == f then x else 0
    ensures At(Reward(l, f, x), a).vote == At(l, a).vote
    ensures At(Reward(l, f, x), a).nonce == At(l, a).nonce
  {
    hide Reward, At;
    RewardAt(l, f, x, a);
  }

  /** A transaction that is reverted after its block's forger was rewarded leaves just the reward. */
  lemma RevertVoteRewarded(l: Ledger, tx: Transaction, required: nat, f: Address, x: int)
    requires WellFormed(tx) && tx.asset.Vote? && VotesRegistered(l) && Check(l, tx, required).None?
    ensures UpdateVoteBalances(RevertHandler(Reward(Apply(l, tx, required), f, x), tx), tx, true) == Reward(l, f, x)
  {
    var m := Apply(l, tx, required);
    var r := Reward(m, f, x);
    var h := RevertHandler(r, tx);
    forall a ensures At(UpdateVoteBalances(h, tx, true), a) == At(Reward(l, f, x), a) {
      hide Apply, Check, Reward, RevertHandler, UpdateVoteBalances, At, VoteAppliedAt, VoteRevertedAt;
      AcceptedVote(l, tx, required);
      AppliedVoteAt(l, tx, required, a);
      AppliedVoteAt(l, tx, required, tx.sender);
      AppliedVoteAt(l, tx, required, f);
      RevertedVoteAt(r, tx, a);
      RevertedVoteAt(r, tx, tx.sender);
      assert NamesValidator(l, f);
      RevertVoteRewardedAt(l, m, h, tx, f, x, a);
    }
    Extensionality(UpdateVoteBalances(h, tx, true), Reward(l, f, x));
  }

  lemma RevertOtherRewarded(l: Ledger, tx: Transaction, required: nat, f: Address, x: int)
    requires WellFormed(tx) && !tx.asset.Vote? && VotesRegistered(l) && Check(l, tx, required).None?
    ensures UpdateVoteBalances(RevertHandler(Reward(Apply(l, tx, required), f, x), tx), tx, true) == Reward(l, f, x)
  {
    hide Reward, RevertHandler, ApplyHandler, Check, At, VotesRegistered, BumpForAll, MovementsOf, Negated;
    var m := Apply(l, tx, required);
    var ps := MovementsOf(tx);
    var h := RevertHandler(m, tx);
    assert NamesValidator(m, f) by { ApplyRegistered(l, tx, required); RegisteredVote(m, f); }
    assert At(m, f).vote == At(l, f).vote by {
      SameVotesApplied(l, tx, required);
      BumpForAllVotes(ApplyHandler(l, tx), ps);
    }
    RegisteredVote(l, f);
    if tx.asset.Registration? { RegistersOnce(l, tx, required); }
    RevertHandlerRewarded(m, tx, f, x);
    RevertedHandlerRegistered(l, tx, required);
    BumpForAllRewarded(h, Negated(ps), f, x);
  }

  /** The two halves of undoing a transaction that is not a vote. */
  lemma RevertedHandlerRegistered(l: Ledger, tx: Transaction, required: nat)
    requires WellFormed(tx) && !tx.asset.Vote? && VotesRegistered(l) && Check(l, tx, required).None?
    ensures var h := RevertHandler(Apply(l, tx, required), tx);
            VotesRegistered(h) && BumpForAll(h, Negated(MovementsOf(tx))) == l
  {
    hide RevertHandler, ApplyHandler, Check, At, BumpForAll, MovementsOf, Negated, NonceMatches;
    var h := RevertHandler(Apply(l, tx, required), tx);
    RevertApplied(l, tx, required);
    AppliedThenRevertedBumps(l, tx, required);
    BumpedKeepsVotes(l, h, MovementsOf(tx));
  }

  lemma RevertRewarded(l: Ledger, tx: Transaction, required: nat, f: Address, x: int)
    requires WellFormed(tx) && VotesRegistered(l) && Check(l, tx, required).None?
    ensures Revert(Reward(Apply(l, tx, required), f, x), tx) == Reward(l, f, x)
    ensures NonceMatches(Reward(Apply(l, tx, required), f, x), tx)
  {
    hide Apply, Reward, Check, RevertHandler, UpdateVoteBalances, At;
    AppliedNonce(l, tx, required);
    RewardBalance(Apply(l, tx, required), f, x, tx.sender);
    if tx.asset.Vote? {
      RevertVoteRewarded(l, tx, required, f, x);
    } else {
      RevertOtherRewarded(l, tx, required, f, x);
    }
  }

  /** Reverting the applied transactions newest first never fails and undoes all of them, even when the forger was
      already paid: then the payment alone remains. */
  lemma {:induction false} RevertRunUndoes(l: Ledger, txs: seq<Transaction>, required: nat, f: Address, x: int)
    requires WellFormedAll(txs) && VotesRegistered(l)
    ensures var (m, n) := ApplyRun(l, txs, required);
            n <= |txs| && RevertRun(Reward(m, f, x), txs[..n]) == (Reward(l, f, x), 0)
    decreases |txs|
  {
    hide Apply, Check, Revert, NonceMatches, Reward, VotesRegistered;
    if txs != [] && Check(l, txs[0], required).None? {
      var next := Apply(l, txs[0], required);
      var (m, n) := ApplyRun(next, txs[1..], required);
      ApplyRegistered(l, txs[0], required);
      RevertRunUndoes(next, txs[1..], required, f, x);
      RevertRewarded(l, txs[0], required, f, x);
      RevertRunCons(Reward(m, f, x), txs[0], txs[1..][..n]);
      assert txs[..n + 1] == [txs[0]] + txs[1..][..n];
    }
  }

  // ----- the window of last blocks -----

  lemma {:induction false} BelowContiguous(blocks: seq<Block>, height: int)
    requires Contiguous(blocks)
    ensures var n := if blocks == [] || height <= blocks[0].height then 0
                     else if height - blocks[0].height > |blocks| then |blocks| else height - blocks[0].height;
            Below(blocks, height) == blocks[..n]
    decreases |blocks|
  {
    if blocks != [] {
      assert Contiguous(blocks[1..]) by {
        forall i | 0 <= i < |blocks| - 1 ensures blocks[1..][i].height == blocks[1..][0].height + i {
          assert blocks[i + 1].height == blocks[0].height + (i + 1);
        }
      }
      if |blocks| > 1 { assert blocks[1].height == blocks[0].height + 1; }
      BelowContiguous(blocks[1..], height);
    }
  }

  /** A new last block keeps the window contiguous and within its size, ends it, and forgets at most what rolls back
      or overflows; only a skipped height is refused. */
  lemma WithLastWindow(blocks: seq<Block>, b: Block, max: nat)
    requires Contiguous(blocks) && |blocks| <= max && max > 0
    ensures WithLast(blocks, b, max).None? <==> blocks != [] && b.height > blocks[|blocks| - 1].height + 1
    ensures WithLast(blocks, b, max).Some? ==>
              var window := WithLast(blocks, b, max).value;
              && Contiguous(window) && 0 < |window| <= max && window[|window| - 1] == b
              && (forall x | x in blocks && b.height - max < x.height < b.height :: x in window)
  {
    hide Below;
    BelowContiguous(blocks, b.height);
    if blocks != [] { assert blocks[|blocks| - 1].height == blocks[0].height + (|blocks| - 1); }
    if WithLast(blocks, b, max).Some? {
      var kept :=
        if blocks == [] || blocks[|blocks| - 1].height == b.height - 1 then blocks else Below(blocks, b.height);
      AppendedWindow(kept, b, max);
    }
    forall x | WithLast(blocks, b, max).Some? && x in blocks && b.height - max < x.height < b.height
      ensures x in WithLast(blocks, b, max).value
    {
      WithLastKeeps(blocks, b, max, x);
    }
  }

  lemma AppendedWindow(kept: seq<Block>, b: Block, max: nat)
    requires Contiguous(kept) && |kept| <= max && max > 0
    requires kept != [] ==> kept[|kept| - 1].height == b.height - 1
    ensures var all := kept + [b];
            var window := if |all| > max then all[1..] else all;
            Contiguous(window) && 0 < |window| <= max && window[|window| - 1] == b
  {
    var all := kept + [b];
    assert Contiguous(all);
    if |all| > max {
      forall i | 0 <= i < |all| - 1 ensures all[1..][i].height == all[1..][0].height + i {
        assert all[i + 1].height == all[0].height + (i + 1);
      }
    }
  }

  lemma WithLastKeeps(blocks: seq<Block>, b: Block, max: nat, x: Block)
    requires Contiguous(blocks) && |blocks| <= max && max > 0 && WithLast(blocks, b, max).Some?
    requires x in blocks && b.height - max < x.height < b.height
    ensures x in WithLast(blocks, b, max).value
  {
    hide Below;
    BelowContiguous(blocks, b.height);
    var i :| 0 <= i < |blocks| && blocks[i] == x;
    var last := blocks[|blocks| - 1];
    assert blocks[i].height == blocks[0].height + i && last.height == blocks[0].height + (|blocks| - 1);
    var kept := if last.height == b.height - 1 then blocks else Below(blocks, b.height);
    assert kept[i] == x;
    var all := kept + [b];
    assert all[i] == x;
    if |all| > max { assert all[1..][i - 1] == x; }
  }

  /** Setting the last block to itself changes nothing. */
  lemma WithLastAgain(blocks: seq<Block>, max: nat)
    requires Contiguous(blocks) && 0 < |blocks| <= max
    ensures WithLast(blocks, blocks[|blocks| - 1], max) == Some(blocks)
  {
    var last := blocks[|blocks| - 1];
    assert last.height == blocks[0].height + (|blocks| - 1);
    BelowContiguous(blocks, last.height);
    assert blocks[..|blocks| - 1] + [last] == blocks;
  }
}
