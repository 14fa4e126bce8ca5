/** The state store and the block state as objects, updated in place and proved against the functions on values. */
module BlockStates {
  import opened Options
  import opened Ledgers
  import opened Movements
  import opened Handlers
  import opened Blocks

  class StateStore {
    var lastBlocks: seq<Block>
    const maxLastBlocks: nat

    constructor (max: nat)
      ensures lastBlocks == [] && maxLastBlocks == max
    {
      lastBlocks, maxLastBlocks := [], max;
    }

    method SetLastBlock(block: Block) returns (ok: bool)
      modifies this
      ensures ok == WithLast(old(lastBlocks), block, maxLastBlocks).Some?
      ensures lastBlocks == if ok then WithLast(old(lastBlocks), block, maxLastBlocks).value else old(lastBlocks)
    {
      if lastBlocks != [] && lastBlocks[|lastBlocks| - 1].height != block.height - 1 {
        if !(block.height - 1 <= lastBlocks[|lastBlocks| - 1].height) {
          return false;
        }
        lastBlocks := Below(lastBlocks, block.height);
      }
      lastBlocks := lastBlocks + [block];
      if |lastBlocks| > maxLastBlocks {
        lastBlocks := lastBlocks[1..];
      }
      return true;
    }

    /** Newest first. */
    method GetLastBlocks() returns (blocks: seq<Block>)
      ensures |blocks| == |lastBlocks|
      ensures forall i | 0 <= i < |blocks| :: blocks[i] == lastBlocks[|lastBlocks| - 1 - i]
    {
      blocks := [];
      var i := |lastBlocks|;
      while i > 0
        invariant 0 <= i <= |lastBlocks| && |blocks| == |lastBlocks| - i
        invariant forall k | 0 <= k < |blocks| :: blocks[k] == lastBlocks[|lastBlocks| - 1 - k]
      {
        i := i - 1;
        blocks := blocks + [lastBlocks[i]];
      }
    }

    /** An end of 0 is no end. From a window without gaps come the blocks of the requested heights that it holds, all of
        them, in order. */
    method GetLastBlocksByHeight(start: int, end: int) returns (blocks: seq<Block>)
      ensures forall b :: b in blocks <==> b in lastBlocks && start <= b.height <= if end == 0 then start else end
      ensures Contiguous(lastBlocks) && lastBlocks != [] ==>
                blocks == Slice(lastBlocks, start, if end == 0 then start else end, |lastBlocks|)
    {
      hide Slice;
      var tail := if end == 0 then start else end;
      blocks := [];
      var i := 0;
      SliceNone(lastBlocks, start, tail);
      while i < |lastBlocks|
        invariant 0 <= i <= |lastBlocks|
        invariant forall b :: b in blocks <==> b in lastBlocks[..i] && start <= b.height <= tail
        invariant Contiguous(lastBlocks) && lastBlocks != [] ==> blocks == Slice(lastBlocks, start, tail, i)
      {
        if Contiguous(lastBlocks) { SliceNext(lastBlocks, start, tail, i); }
        var block := lastBlocks[i];
        assert lastBlocks[..i + 1] == lastBlocks[..i] + [block];
        if block.height >= start && block.height <= tail {
          blocks := blocks + [block];
        }
        i := i + 1;
      }
      assert lastBlocks[..i] == lastBlocks;
    }
  }

  /** `x`, or the nearer bound. */
  function Within(x: int, low: nat, high: nat): (r: nat)
    requires low <= high
    ensures low <= r <= high
  {
    if x < low then low else if x > high then high else x
  }

  /** The blocks of the heights from `start` to `tail` among the first `n` of a window without gaps. */
  function Slice(blocks: seq<Block>, start: int, tail: int, n: nat): seq<Block>
    requires blocks != [] && n <= |blocks|
  {
    var low := Within(start - blocks[0].height, 0, n);
    blocks[low..Within(tail + 1 - blocks[0].height, low, n)]
  }

  lemma SliceNone(blocks: seq<Block>, start: int, tail: int)
    ensures blocks != [] ==> Slice(blocks, start, tail, 0) == []
  {
  }

  lemma SliceNext(blocks: seq<Block>, start: int, tail: int, n: nat)
    requires Contiguous(blocks) && n < |blocks|
    ensures Slice(blocks, start, tail, n + 1)
         == Slice(blocks, start, tail, n) + if start <= blocks[n].height <= tail then [blocks[n]] else []
  {
  }

  class BlockState {
    var wallets: Ledger
    const state: StateStore
    const percentage: Option<int>

    constructor (state: StateStore, percentage: Option<int>)
      ensures wallets == map[] && this.state == state && this.percentage == percentage
    {
      wallets := map[];
      this.state, this.percentage := state, percentage;
    }

    // ----- checks -----

    method CheckVote(vote: Option<Address>, votes: seq<Address>, unvotes: seq<Address>) returns (error: Option<Error>)
      ensures var unvoted := CheckUnvotes(wallets, vote, unvotes);
              error == if unvoted.Err? then Some(unvoted.error) else CheckVotes(wallets, unvoted.value, votes)
    {
      var walletVote := vote;
      var i := 0;
      while i < |unvotes|
        invariant 0 <= i <= |unvotes|
        invariant CheckUnvotes(wallets, vote, unvotes) == CheckUnvotes(wallets, walletVote, unvotes[i..])
      {
        if walletVote.None? {
          return Some(NoVote);
        } else if walletVote.value != unvotes[i] {
          return Some(UnvoteMismatch);
        }
        if At(wallets, unvotes[i]).validator.None? {
          return Some(VotedForNonValidator);
        }
        walletVote := None;
        i := i + 1;
      }
      var j := 0;
      while j < |votes|
        invariant 0 <= j <= |votes|
        invariant CheckVotes(wallets, walletVote, votes) == CheckVotes(wallets, walletVote, votes[j..])
      {
        if walletVote.Some? {
          return Some(AlreadyVoted);
        }
        var validator := At(wallets, votes[j]);
        if validator.validator.None? {
          return Some(VotedForNonValidator);
        }
        if validator.validator.value.resigned {
          return Some(VotedForResignedValidator);
        }
        j := j + 1;
      }
      return None;
    }

    method ThrowIfCannotBeApplied(tx: Transaction, required: nat) returns (error: Option<Error>)
      ensures error == Check(wallets, tx, required)
    {
      var sender := At(wallets, tx.sender);
      if tx.asset.Vote? {
        var Vote(votes, unvotes) := tx.asset;
        if |votes| > 1 { return Some(MaxVotesExceeded); }
        if |unvotes| > 1 { return Some(MaxUnvotesExceeded); }
        if |votes| + |unvotes| == 0 { return Some(EmptyVote); }
        error := CheckVote(sender.vote, votes, unvotes);
        if error.Some? { return; }
      } else {
        error := CheckAsset(wallets, tx, required);
        if error.Some? { return; }
      }
      if sender.nonce + 1 != tx.nonce { return Some(UnexpectedNonce); }
      if sender.balance - tx.amount - tx.fee < 0 { return Some(InsufficientBalance); }
      if sender.multiSignature.Some? {
        if sender.multiSignature.value.legacy { return Some(LegacyMultiSignature); }
      } else if tx.signatures.Some? && !tx.asset.MultiSignatureRegistration? {
        return Some(UnsupportedMultiSignature);
      }
      return None;
    }

    // ----- handlers -----

    method Increase(a: Address, amount: int)
      modifies this
      ensures wallets == Credit(old(wallets), a, amount)
    {
      var w := At(wallets, a);
      wallets := Put(wallets, a, w.(balance := w.balance + amount));
    }

    method ApplyHandlerToSender(tx: Transaction)
      modifies this
      ensures wallets == ApplyToSender(old(wallets), tx)
    {
      hide At, Put;
      var w := At(wallets, tx.sender);
      wallets := Put(wallets, tx.sender, w.(nonce := tx.nonce, balance := w.balance - tx.amount - tx.fee));
      w := At(wallets, tx.sender);
      match tx.asset
      case Transfer =>
      case MultiSignatureRegistration(_, _) =>
      case Registration(username) =>
        wallets := Put(wallets, tx.sender, w.(validator := Some(Validator(Some(username), 0, false))));
      case Resignation => wallets := Put(wallets, tx.sender, ResignedAs(w, true));
      case MultiPayment(payments) => Increase(tx.sender, -TotalOf(payments));
      case Vote(votes, unvotes) =>
        var vote := w.vote;
        if unvotes != [] {
          vote := None;
        }
        var i := 0;
        while i < |votes|
          invariant 0 <= i <= |votes|
          invariant vote == Last(votes[..i], if unvotes == [] then w.vote else None)
          invariant wallets == ApplyBase(old(wallets), tx) && w == At(wallets, tx.sender)
        {
          vote := Some(votes[i]);
          i := i + 1;
        }
        assert votes[..i] == votes;
        wallets := Put(wallets, tx.sender, w.(vote := vote));
    }

    method ApplyHandlerToRecipient(tx: Transaction)
      requires WellFormed(tx)
      modifies this
      ensures wallets == ApplyToRecipient(old(wallets), tx)
    {
      match tx.asset
      case Transfer => Increase(tx.recipient.value, tx.amount);
      case MultiSignatureRegistration(account, asset) =>
        wallets := Put(wallets, account, At(wallets, account).(multiSignature := Some(asset)));
      case MultiPayment(payments) =>
        CreditNone(wallets, payments);
        var i := 0;
        while i < |payments|
          invariant 0 <= i <= |payments|
          invariant wallets == CreditAll(old(wallets), payments[..i])
        {
          CreditAllNext(old(wallets), payments, i);
          Increase(payments[i].recipient, payments[i].amount);
          i := i + 1;
        }
      case _ =>
    }

    method RevertHandlerForSender(tx: Transaction)
      modifies this
      ensures wallets == RevertForSender(old(wallets), tx)
    {
      hide At, Put;
      var w := At(wallets, tx.sender);
      wallets := Put(wallets, tx.sender, w.(nonce := w.nonce - 1, balance := w.balance + (tx.amount + tx.fee)));
      w := At(wallets, tx.sender);
      match tx.asset
      case Transfer =>
      case MultiSignatureRegistration(_, _) =>
      case Registration(_) => wallets := Put(wallets, tx.sender, w.(validator := None));
      case Resignation => wallets := Put(wallets, tx.sender, ResignedAs(w, false));
      case MultiPayment(payments) => Increase(tx.sender, TotalOf(payments));
      case Vote(votes, unvotes) =>
        var vote := w.vote;
        if votes != [] {
          vote := None;
        }
        var i := 0;
        while i < |unvotes|
          invariant 0 <= i <= |unvotes|
          invariant vote == Last(unvotes[..i], if votes == [] then w.vote else None)
          invariant wallets == RevertBase(old(wallets), tx) && w == At(wallets, tx.sender)
        {
          vote := Some(unvotes[i]);
          i := i + 1;
        }
        assert unvotes[..i] == unvotes;
        wallets := Put(wallets, tx.sender, w.(vote := vote));
    }

    static lemma CreditAllNext(l: Ledger, ps: seq<Payment>, i: nat)
      requires i < |ps|
      ensures CreditAll(l, ps[..i + 1]) == Credit(CreditAll(l, ps[..i]), ps[i].recipient, ps[i].amount)
    {
      assert ps[..i + 1][..i] == ps[..i];
    }

    static lemma CreditNone(l: Ledger, ps: seq<Payment>)
      ensures CreditAll(l, ps[..0]) == l && ps[..|ps|] == ps
    {
    }

    method RevertHandlerForRecipient(tx: Transaction)
      requires WellFormed(tx)
      modifies this
      ensures wallets == RevertForRecipient(old(wallets), tx)
    {
      hide At, Put, Credit, CreditAll;
      match tx.asset
      case Transfer => Increase(tx.recipient.value, -tx.amount);
      case MultiSignatureRegistration(account, _) =>
        wallets := Put(wallets, account, At(wallets, account).(multiSignature := None));
      case MultiPayment(payments) =>
        CreditNone(wallets, Negated(payments));
        var i := 0;
        while i < |payments|
          invariant 0 <= i <= |payments|
          invariant wallets == CreditAll(old(wallets), Negated(payments)[..i])
        {
          CreditAllNext(old(wallets), Negated(payments), i);
          Increase(payments[i].recipient, -payments[i].amount);
          i := i + 1;
        }
      case _ =>
    }

    // ----- vote balances -----

    method AddVoteBalance(v: Address, amount: int)
      modifies this
      ensures wallets == Bump(old(wallets), v, amount)
    {
      wallets := Put(wallets, v, Bumped(At(wallets, v), amount));
    }

    /** Adds to the vote balance of the validator that `a` votes for, if it votes. */
    method AddToValidatorOf(a: Address, amount: int)
      modifies this
      ensures wallets == BumpFor(old(wallets), a, amount)
    {
      if At(wallets, a).vote.Some? {
        AddVoteBalance(At(wallets, a).vote.value, amount);
      }
    }

    method UpdateVoteBalancesOfPayments(payments: seq<Payment>, revert: bool)
      modifies this
      ensures wallets == BumpForAll(old(wallets), if revert then Negated(payments) else payments)
    {
      ghost var all := if revert then Negated(payments) else payments;
      var i := 0;
      while i < |payments|
        invariant 0 <= i <= |payments|
        invariant wallets == BumpForAll(old(wallets), all[..i])
      {
        AddToValidatorOf(payments[i].recipient, if revert then -payments[i].amount else payments[i].amount);
        i := i + 1;
        assert all[..i][..i - 1] == all[..i - 1];
      }
      assert all[..i] == all;
    }

    method UpdateVoteBalancesOf(tx: Transaction, revert: bool)
      modifies this
      ensures wallets == UpdateVoteBalances(old(wallets), tx, revert)
    {
      hide BumpForAll, MovementsOf, Bump, At;
      if tx.asset.Vote? {
        var Vote(votes, unvotes) := tx.asset;
        var amount := At(wallets, tx.sender).balance - if revert then tx.fee else 0;
        if |unvotes| > 0 {
          AddVoteBalance(unvotes[0], if revert then amount + tx.fee else -(amount + tx.fee));
        }
        if |votes| > 0 {
          AddVoteBalance(votes[0], if revert then -amount else amount);
        }
      } else {
        UpdateVoteBalancesOfMovements(tx, revert);
      }
    }

    method UpdateVoteBalancesOfMovements(tx: Transaction, revert: bool)
      modifies this
      ensures wallets == BumpForAll(old(wallets), if revert then Negated(MovementsOf(tx)) else MovementsOf(tx))
    {
      hide BumpForAll, BumpFor, TotalOf, At;
      var payments := PaymentsOf(tx);
      var total := (if tx.asset.MultiPayment? then TotalOf(payments) else tx.amount) + tx.fee;
      var first := Payment(tx.sender, -total);
      AddToValidatorOf(tx.sender, if revert then total else -total);
      ghost var l1 := wallets;
      UpdateVoteBalancesOfPayments(payments, revert);
      ghost var l2 := wallets;
      if tx.recipient.Some? {
        AddToValidatorOf(tx.recipient.value, if revert then -tx.amount else tx.amount);
      }
      ghost var last := if tx.recipient.Some? then [Payment(tx.recipient.value, tx.amount)] else [];
      BumpForOne(old(wallets), first);
      BumpForOne(old(wallets), Payment(tx.sender, total));
      BumpForEach(l2, if revert then Negated(last) else last);
      BumpForParts(old(wallets), [first], payments, last, revert);
      assert MovementsOf(tx) == [first] + payments + last;
      if revert {
        assert Negated([first]) == [Payment(tx.sender, total)];
        assert tx.recipient.Some? ==> Negated(last) == [Payment(tx.recipient.value, -tx.amount)];
      }
    }

    static lemma BumpForOne(l: Ledger, p: Payment)
      ensures BumpForAll(l, [p]) == BumpFor(l, p.recipient, p.amount)
    {
      assert [p][..0] == [];
    }

    static lemma BumpForEach(l: Ledger, ps: seq<Payment>)
      requires |ps| <= 1
      ensures BumpForAll(l, ps) == if ps == [] then l else BumpFor(l, ps[0].recipient, ps[0].amount)
    {
      if ps != [] { assert ps[..0] == []; }
    }

    static lemma BumpForParts(l: Ledger, a: seq<Payment>, b: seq<Payment>, c: seq<Payment>, negate: bool)
      ensures BumpForAll(l, if negate then Negated(a + b + c) else a + b + c)
              == if negate then BumpForAll(BumpForAll(BumpForAll(l, Negated(a)), Negated(b)), Negated(c))
                 else BumpForAll(BumpForAll(BumpForAll(l, a), b), c)
    {
      hide BumpForAll;
      var (x, y, z) := if negate then (Negated(a), Negated(b), Negated(c)) else (a, b, c);
      assert Negated(a + b + c) == Negated(a) + Negated(b) + Negated(c);
      BumpForAllConcat(l, x, y);
      BumpForAllConcat(l, x + y, z);
    }

    // ----- transactions -----

    method ApplyTransaction(tx: Transaction, required: nat) returns (error: Option<Error>)
      requires WellFormed(tx)
      modifies this
      ensures error == Check(old(wallets), tx, required)
      ensures wallets == Apply(old(wallets), tx, required)
    {
      error := ThrowIfCannotBeApplied(tx, required);
      if error.Some? { return; }
      ApplyHandlerToSender(tx);
      ApplyHandlerToRecipient(tx);
      UpdateVoteBalancesOf(tx, false);
    }

    method RevertTransaction(tx: Transaction) returns (error: Option<Error>)
      requires WellFormed(tx)
      modifies this
      ensures error == if NonceMatches(old(wallets), tx) then None else Some(UnexpectedNonce)
      ensures wallets == Revert(old(wallets), tx)
    {
      if At(wallets, tx.sender).nonce != tx.nonce {
        Increase(tx.sender, tx.amount + tx.fee);
        return Some(UnexpectedNonce);
      }
      RevertHandlerForSender(tx);
      RevertHandlerForRecipient(tx);
      UpdateVoteBalancesOf(tx, true);
      return None;
    }

    // ----- blocks -----

    method PayForger(forger: Address, amount: int)
      modifies this
      ensures wallets == Reward(old(wallets), forger, amount)
    {
      AddToValidatorOf(forger, amount);
      Increase(forger, amount);
    }

    /** Runs the mutators: the attribute and balance mutators, then the burn, where one is configured. */
    method MutateForger(b: Block, revert: bool) returns (error: Option<Error>)
      modifies this
      ensures error == ForgerError(old(wallets), b.generator)
      ensures wallets == if error.Some? then old(wallets)
                         else if revert then RevertFromForger(old(wallets), b, percentage)
                         else ApplyToForger(old(wallets), b, percentage)
    {
      hide Reward, ForgerError, Burned;
      error := ForgerError(wallets, b.generator);
      if error.Some? { return; }
      var earned, burned := b.reward + b.totalFee, Burned(b.totalFee, percentage);
      PayForger(b.generator, if revert then -earned else earned);
      PayForger(b.generator, if revert then burned else -burned);
    }

    method RevertTransactions(txs: seq<Transaction>) returns (left: nat)
      requires WellFormedAll(txs)
      modifies this
      ensures (wallets, left) == RevertRun(old(wallets), txs)
    {
      hide Revert, NonceMatches;
      assert txs[..|txs|] == txs;
      left := |txs|;
      while left > 0
        invariant left <= |txs|
        invariant RevertRun(old(wallets), txs) == RevertRun(wallets, txs[..left])
      {
        assert txs[..left][..left - 1] == txs[..left - 1];
        var error := RevertTransaction(txs[left - 1]);
        if error.Some? { return; }
        left := left - 1;
      }
    }

    method ApplyTransactions(txs: seq<Transaction>, required: nat) returns (applied: nat, error: Option<Error>)
      requires WellFormedAll(txs)
      modifies this
      ensures (wallets, applied) == ApplyRun(old(wallets), txs, required)
      ensures applied <= |txs|
      ensures error == if applied < |txs| then Check(wallets, txs[applied], required) else None
      ensures error.Some? <==> applied < |txs|
    {
      hide Apply, Check;
      applied, error := 0, None;
      assert txs[0..] == txs;
      while applied < |txs|
        invariant applied <= |txs| && error.None?
        invariant var rest := ApplyRun(wallets, txs[applied..], required);
                  ApplyRun(old(wallets), txs, required) == (rest.0, applied + rest.1)
      {
        ghost var before := wallets;
        error := ApplyTransaction(txs[applied], required);
        if error.Some? {
          CheckedUnchanged(before, txs[applied], required);
          return;
        }
        assert txs[applied..][1..] == txs[applied + 1..];
        applied := applied + 1;
      }
    }

    static lemma CheckedUnchanged(l: Ledger, tx: Transaction, required: nat)
      requires WellFormed(tx) && Check(l, tx, required).Some?
      ensures Apply(l, tx, required) == l
    {
    }

    ghost function SettingsFor(required: nat): Settings
      reads this, state
    {
      Settings(required, percentage, state.maxLastBlocks)
    }

    method RollBack(applied: seq<Transaction>, previous: Block, failure: Error, required: nat)
      returns (error: Option<Error>)
      requires WellFormedAll(applied)
      requires state.lastBlocks != [] && previous == state.lastBlocks[|state.lastBlocks| - 1]
      modifies this, state
      ensures Outcome(wallets, state.lastBlocks, error)
              == Rollback(old(wallets), old(state.lastBlocks), applied, failure, SettingsFor(required))
    {
      hide RevertRun;
      var left := RevertTransactions(applied);
      if left != 0 { return Some(UnexpectedNonce); }
      var ok := state.SetLastBlock(previous);
      return Some(failure);
    }

    method ApplyBlock(b: Block, required: nat) returns (error: Option<Error>)
      requires WellFormedAll(b.transactions)
      modifies this, state
      ensures Outcome(wallets, state.lastBlocks, error)
              == Blocks.ApplyBlock(old(wallets), old(state.lastBlocks), b, SettingsFor(required))
    {
      hide ApplyRun, RevertRun, Check, ForgerError, Rollback, ApplyToForger;
      if state.lastBlocks == [] {
        return Some(LastBlockUndefined);
      }
      var previous := state.lastBlocks[|state.lastBlocks| - 1];
      var applied, failure := ApplyTransactions(b.transactions, required);
      if failure.Some? {
        error := RollBack(b.transactions[..applied], previous, failure.value, required);
        return;
      }
      failure := MutateForger(b, false);
      if failure.Some? {
        error := RollBack(b.transactions, previous, failure.value, required);
        return;
      }
      var ok := state.SetLastBlock(b);
      if !ok {
        error := RollBack(b.transactions, previous, HeightGap, required);
        return;
      }
      return None;
    }

    method RevertBlock(b: Block, required: nat) returns (error: Option<Error>)
      requires WellFormedAll(b.transactions)
      modifies this
      ensures (wallets, error) == Blocks.RevertBlock(old(wallets), b, SettingsFor(required))
    {
      hide ApplyRun, RevertRun, Check, ForgerError, RevertFromForger;
      error := MutateForger(b, true);
      if error.Some? { return; }
      var left := RevertTransactions(b.transactions);
      if left == 0 { return None; }
      RevertRunCounts(RevertFromForger(old(wallets), b, percentage), b.transactions);
      var applied, failure := ApplyTransactions(b.transactions[left..], required);
      return if failure.Some? then failure else Some(UnexpectedNonce);
    }
  }
}
