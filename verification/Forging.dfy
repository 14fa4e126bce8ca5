/** From the pool to a block and back through the checks: the collator, the forging validator, the block verifier. */
module Forging {
  import opened Options
  import opened PoolTransactions
  import opened Sorting

  datatype Limits = Limits(maxPayload: int, maxTransactions: nat, reward: int, version: int, blockTime: int)

  /** What the header takes in the collator's account: 8 bytes for the timestamp, none for the signature. */
  const COLLATOR_HEADER := 4 + 8 + 4 + 32 + 4 + 8 + 8 + 8 + 4 + 32 + 32

  /** What it takes in a serialized block, with a 32-byte hash, a 32-byte key and a 64-byte signature. */
  const BLOCK_HEADER := 4 + 4 + 4 + 32 + 4 + 8 + 8 + 8 + 4 + 32 + 32 + 64

  function Payload(txs: seq<Tx>): nat {
    if txs == [] then 0 else Payload(txs[..|txs| - 1]) + 4 + txs[|txs| - 1].size
  }

  // ----- the collator -----

  /** The validator on copies of the wallets, to which the transactions accepted so far have been applied. */
  type Validates = (seq<Tx>, Tx) -> bool

  predicate SenderFailed(failed: seq<Tx>, t: Tx) {
    exists f | f in failed :: f.sender == t.sender
  }

  /** Candidates and failed transactions when the loop goes on from `rest`. */
  function Collated(rest: seq<Tx>, candidates: seq<Tx>, failed: seq<Tx>, left: int,
                    m: Limits, height: int, validates: Validates): (seq<Tx>, seq<Tx>)
    decreases |rest|
  {
    if rest == [] || |candidates| == m.maxTransactions then (candidates, failed)
    else if SenderFailed(failed, rest[0]) then Collated(rest[1..], candidates, failed, left, m, height, validates)
    else if Expired(rest[0], height)
    then Collated(rest[1..], candidates, failed + [rest[0]], left, m, height, validates)
    else if left - 4 - rest[0].size < 0 then (candidates, failed)
    else if !validates(candidates, rest[0])
    then Collated(rest[1..], candidates, failed + [rest[0]], left, m, height, validates)
    else Collated(rest[1..], candidates + [rest[0]], failed, left - 4 - rest[0].size, m, height, validates)
  }

  method GetBlockCandidateTransactions(all: seq<Tx>, m: Limits, lastHeight: int, validates: Validates)
    returns (candidates: seq<Tx>, failed: seq<Tx>)
    ensures (candidates, failed) == Collated(all, [], [], m.maxPayload - COLLATOR_HEADER, m, lastHeight + 1, validates)
  {
    var bytesLeft := m.maxPayload - COLLATOR_HEADER;
    candidates, failed := [], [];
    var i := 0;
    assert all[0..] == all;
    while i < |all|
      invariant 0 <= i <= |all|
      invariant Collated(all, [], [], m.maxPayload - COLLATOR_HEADER, m, lastHeight + 1, validates)
             == Collated(all[i..], candidates, failed, bytesLeft, m, lastHeight + 1, validates)
    {
      assert all[i..][1..] == all[i + 1..];
      var transaction := all[i];
      if |candidates| == m.maxTransactions { break; }
      if !SenderFailed(failed, transaction) {
        if Expired(transaction, lastHeight + 1) {
          failed := failed + [transaction];
        } else {
          if bytesLeft - 4 - transaction.size < 0 { break; }
          if validates(candidates, transaction) {
            candidates := candidates + [transaction];
            bytesLeft := bytesLeft - 4;
            bytesLeft := bytesLeft - transaction.size;
          } else {
            failed := failed + [transaction];
          }
        }
      }
      i := i + 1;
    }
  }

  ghost predicate DistinctIds(txs: seq<Tx>) {
    forall i, j | 0 <= i < j < |txs| :: txs[i].id != txs[j].id
  }

  /** Each candidate was accepted on top of the ones before it. */
  ghost predicate Validated(candidates: seq<Tx>, validates: Validates) {
    forall i | 0 <= i < |candidates| :: validates(candidates[..i], candidates[i])
  }

  /** What holds of the loop's state when the transactions in `done` have been looked at. */
  ghost predicate Sound(done: seq<Tx>, rest: seq<Tx>, candidates: seq<Tx>, failed: seq<Tx>, left: int,
                        m: Limits, height: int, validates: Validates)
  {
    && |candidates| <= m.maxTransactions
    && Payload(candidates) == m.maxPayload - COLLATOR_HEADER - left
    && (candidates != [] ==> left >= 0)
    && (forall t | t in candidates :: t in done && !Expired(t, height))
    && (forall f | f in failed :: f in done)
    && DistinctIds(candidates)
    && Validated(candidates, validates)
  }

  lemma AcceptedSound(done: seq<Tx>, rest: seq<Tx>, candidates: seq<Tx>, failed: seq<Tx>, left: int,
                      m: Limits, height: int, validates: Validates)
    requires rest != [] && DistinctIds(done + rest) && Sound(done, rest, candidates, failed, left, m, height, validates)
    requires |candidates| != m.maxTransactions && !Expired(rest[0], height) && left - 4 - rest[0].size >= 0
    requires validates(candidates, rest[0])
    ensures Sound(done + [rest[0]], rest[1..], candidates + [rest[0]], failed, left - 4 - rest[0].size, m, height,
                  validates)
  {
    var t := rest[0];
    var longer := candidates + [t];
    assert longer[..|longer| - 1] == candidates;
    forall i | 0 <= i < |candidates| ensures longer[i].id != t.id {
      assert candidates[i] in done;
      var j :| 0 <= j < |done| && done[j] == candidates[i];
      assert (done + rest)[j] == done[j] && (done + rest)[|done|] == t;
    }
    forall i | 0 <= i < |longer| ensures validates(longer[..i], longer[i]) {
      assert i < |candidates| ==> longer[..i] == candidates[..i];
    }
  }

  /** The candidates are few and small enough, none has expired, none appears twice, and each was validated on top of
      the ones before it. */
  lemma {:induction false} CollatedIsSound(done: seq<Tx>, rest: seq<Tx>, candidates: seq<Tx>, failed: seq<Tx>,
                                           left: int, m: Limits, height: int, validates: Validates)
    requires DistinctIds(done + rest) && Sound(done, rest, candidates, failed, left, m, height, validates)
    ensures var (cs, fs) := Collated(rest, candidates, failed, left, m, height, validates);
            && |cs| <= m.maxTransactions
            && (cs != [] ==> Payload(cs) <= m.maxPayload - COLLATOR_HEADER)
            && (forall t | t in cs :: t in done + rest && !Expired(t, height))
            && DistinctIds(cs) && Validated(cs, validates)
    decreases |rest|
  {
    hide Payload, DistinctIds, Validated, Expired, SenderFailed;
    if rest != [] && |candidates| != m.maxTransactions {
      var t := rest[0];
      assert (done + [t]) + rest[1..] == done + rest;
      if SenderFailed(failed, t) {
        CollatedIsSound(done + [t], rest[1..], candidates, failed, left, m, height, validates);
      } else if Expired(t, height) {
        CollatedIsSound(done + [t], rest[1..], candidates, failed + [t], left, m, height, validates);
      } else if left - 4 - t.size >= 0 {
        if validates(candidates, t) {
          AcceptedSound(done, rest, candidates, failed, left, m, height, validates);
          CollatedIsSound(done + [t], rest[1..], candidates + [t], failed, left - 4 - t.size, m, height, validates);
        } else {
          CollatedIsSound(done + [t], rest[1..], candidates, failed + [t], left, m, height, validates);
        }
      }
    }
  }

  // ----- what must be in the block -----

  /** `xs` can be had from `all` by leaving out some. */
  ghost predicate Within(xs: seq<Tx>, all: seq<Tx>)
    decreases |all|
  {
    xs == [] ||
    (all != [] &&
     var front := all[..|all| - 1];
     (xs[|xs| - 1] == all[|all| - 1] && Within(xs[..|xs| - 1], front)) || Within(xs, front))
  }

  /** Why the transaction at `j` failed: it has expired, or the validator has refused it on top of the first `n`
      candidates, which are those from in front of it. */
  ghost predicate FailedFor(all: seq<Tx>, j: nat, n: nat, candidates: seq<Tx>, height: int, validates: Validates)
    requires j < |all| && n <= |candidates|
  {
    || (all[j].expiration != 0 && all[j].expiration <= height)
    || (&& !validates(candidates[..n], all[j])
        && (forall t | t in candidates[..n] :: t in all[..j]) && (forall t | t in candidates[n..] :: t in all[j + 1..]))
  }

  ghost predicate HasReason(all: seq<Tx>, f: Tx, candidates: seq<Tx>, height: int, validates: Validates) {
    exists j: nat, n: nat | j < |all| && n <= |candidates| ::
      all[j] == f && FailedFor(all, j, n, candidates, height, validates)
  }

  /** A sender's earlier transaction has failed. */
  ghost predicate Barred(all: seq<Tx>, i: nat, failed: seq<Tx>)
    requires i < |all|
  {
    exists f | 0 <= f < i :: all[f] in failed && all[f].sender == all[i].sender
  }

  /** What is known of the loop when it comes to `i`. */
  ghost predicate Fair(all: seq<Tx>, i: nat, candidates: seq<Tx>, failed: seq<Tx>, height: int, validates: Validates)
    requires i <= |all|
  {
    && Within(candidates, all[..i])
    && (forall t | t in candidates :: t in all[..i])
    && Reasons(all, i, candidates, failed, height, validates)
    && (forall j | 0 <= j < i :: all[j] in candidates || all[j] in failed || Barred(all, j, failed))
  }

  lemma StillReason(all: seq<Tx>, f: Tx, candidates: seq<Tx>, t: Tx, i: nat, height: int, validates: Validates)
    requires i < |all| && t == all[i] && HasReason(all[..i], f, candidates, height, validates)
    ensures HasReason(all[..i + 1], f, candidates, height, validates)
    ensures HasReason(all[..i + 1], f, candidates + [t], height, validates)
  {
    var before, now, longer := all[..i], all[..i + 1], candidates + [t];
    var j: nat, n: nat :| j < |before| && n <= |candidates| && before[j] == f
                          && FailedFor(before, j, n, candidates, height, validates);
    assert now[..j] == before[..j] && now[j] == f && longer[..n] == candidates[..n];
    assert now[j + 1..] == before[j + 1..] + [t] && longer[n..] == candidates[n..] + [t];
    assert FailedFor(now, j, n, candidates, height, validates) && FailedFor(now, j, n, longer, height, validates);
  }

  lemma WithinNext(xs: seq<Tx>, all: seq<Tx>, i: nat)
    requires i < |all| && Within(xs, all[..i])
    ensures Within(xs, all[..i + 1]) && Within(xs + [all[i]], all[..i + 1])
  {
    assert all[..i + 1][..i] == all[..i];
    assert (xs + [all[i]])[..|xs|] == xs;
  }

  lemma PrefixNext(all: seq<Tx>, i: nat)
    requires i < |all|
    ensures all[..i + 1] == all[..i] + [all[i]]
  {
  }

  /** The reasons of a list of failures, when the loop has come to `i`. */
  ghost predicate Reasons(all: seq<Tx>, i: nat, candidates: seq<Tx>, failed: seq<Tx>, height: int, validates: Validates)
    requires i <= |all|
  {
    forall f | f in failed :: f in all[..i] && HasReason(all[..i], f, candidates, height, validates)
  }

  lemma ReasonsStay(all: seq<Tx>, i: nat, candidates: seq<Tx>, failed: seq<Tx>, height: int, validates: Validates)
    requires i < |all| && Reasons(all, i, candidates, failed, height, validates)
    ensures Reasons(all, i + 1, candidates, failed, height, validates)
    ensures Reasons(all, i + 1, candidates + [all[i]], failed, height, validates)
  {
    hide HasReason;
    PrefixNext(all, i);
    forall f | f in failed
      ensures HasReason(all[..i + 1], f, candidates, height, validates)
      ensures HasReason(all[..i + 1], f, candidates + [all[i]], height, validates)
    {
      StillReason(all, f, candidates, all[i], i, height, validates);
    }
  }

  /** A candidate. */
  lemma FairCandidate(all: seq<Tx>, i: nat, candidates: seq<Tx>, failed: seq<Tx>, height: int, validates: Validates)
    requires i < |all| && Fair(all, i, candidates, failed, height, validates)
    ensures Fair(all, i + 1, candidates + [all[i]], failed, height, validates)
  {
    hide Reasons, Within, Barred;
    PrefixNext(all, i);
    WithinNext(candidates, all, i);
    ReasonsStay(all, i, candidates, failed, height, validates);
  }

  /** A failure. */
  lemma FairFailure(all: seq<Tx>, i: nat, candidates: seq<Tx>, failed: seq<Tx>, height: int, validates: Validates)
    requires i < |all| && Fair(all, i, candidates, failed, height, validates)
    requires Expired(all[i], height) || !validates(candidates, all[i])
    ensures Fair(all, i + 1, candidates, failed + [all[i]], height, validates)
  {
    hide HasReason, Within, Barred, Expired, Reasons;
    PrefixNext(all, i);
    WithinNext(candidates, all, i);
    ReasonsStay(all, i, candidates, failed, height, validates);
    LastReason(all, i, candidates, height, validates);
    OneMoreReason(all, i + 1, candidates, failed, all[i], height, validates);
    forall j | 0 <= j < i && Barred(all, j, failed) ensures Barred(all, j, failed + [all[i]]) {
      StillBarred(all, j, failed, all[i]);
    }
  }

  lemma LastReason(all: seq<Tx>, i: nat, candidates: seq<Tx>, height: int, validates: Validates)
    requires i < |all| && (Expired(all[i], height) || !validates(candidates, all[i]))
    requires forall t | t in candidates :: t in all[..i]
    ensures HasReason(all[..i + 1], all[i], candidates, height, validates)
  {
    var now := all[..i + 1];
    assert candidates[..|candidates|] == candidates && candidates[|candidates|..] == [] && now[..i] == all[..i];
    assert FailedFor(now, i, |candidates|, candidates, height, validates);
  }

  lemma OneMoreReason(all: seq<Tx>, i: nat, candidates: seq<Tx>, failed: seq<Tx>, t: Tx, height: int,
                      validates: Validates)
    requires i <= |all| && Reasons(all, i, candidates, failed, height, validates)
    requires t in all[..i] && HasReason(all[..i], t, candidates, height, validates)
    ensures Reasons(all, i, candidates, failed + [t], height, validates)
  {
    hide HasReason;
  }

  lemma StillBarred(all: seq<Tx>, j: nat, failed: seq<Tx>, t: Tx)
    requires j < |all| && Barred(all, j, failed)
    ensures Barred(all, j, failed + [t])
  {
  }

  /** A transaction of a sender of which one has failed. */
  lemma FairSkip(all: seq<Tx>, i: nat, candidates: seq<Tx>, failed: seq<Tx>, height: int, validates: Validates)
    requires i < |all| && Fair(all, i, candidates, failed, height, validates) && SenderFailed(failed, all[i])
    ensures Fair(all, i + 1, candidates, failed, height, validates)
  {
    hide HasReason, Within, Barred;
    PrefixNext(all, i);
    WithinNext(candidates, all, i);
    ReasonsStay(all, i, candidates, failed, height, validates);
    BarredNow(all, i, failed);
  }

  lemma BarredNow(all: seq<Tx>, i: nat, failed: seq<Tx>)
    requires i < |all| && SenderFailed(failed, all[i]) && forall f | f in failed :: f in all[..i]
    ensures Barred(all, i, failed)
  {
    var f :| f in failed && f.sender == all[i].sender;
    var j :| 0 <= j < i && all[..i][j] == f;
    assert all[j] == f;
  }

  /** Why the loop ends at `k` with `candidates`: there are enough, or the next one does not fit. */
  ghost predicate EndsAt(all: seq<Tx>, k: nat, candidates: seq<Tx>, m: Limits, height: int) {
    || |candidates| == m.maxTransactions
    || (k < |all| && (all[k].expiration == 0 || all[k].expiration > height)
        && 144 + Payload(candidates) + 4 + all[k].size > m.maxPayload)
  }

  lemma {:induction false} CollatedFrom(all: seq<Tx>, i: nat, candidates: seq<Tx>, failed: seq<Tx>, left: int,
                                        m: Limits, height: int, validates: Validates) returns (end: nat)
    requires i <= |all| && Fair(all, i, candidates, failed, height, validates)
    requires left == m.maxPayload - COLLATOR_HEADER - Payload(candidates)
    ensures var (cs, fs) := Collated(all[i..], candidates, failed, left, m, height, validates);
            && end <= |all| && Fair(all, end, cs, fs, height, validates)
            && (end < |all| ==> EndsAt(all, end, cs, m, height))
    decreases |all| - i
  {
    hide Fair, Expired, SenderFailed;
    end := i;
    if i < |all| && |candidates| != m.maxTransactions {
      var t := all[i];
      assert all[i..][1..] == all[i + 1..];
      if SenderFailed(failed, t) {
        FairSkip(all, i, candidates, failed, height, validates);
        end := CollatedFrom(all, i + 1, candidates, failed, left, m, height, validates);
      } else if Expired(t, height) {
        FairFailure(all, i, candidates, failed, height, validates);
        end := CollatedFrom(all, i + 1, candidates, failed + [t], left, m, height, validates);
      } else if left - 4 - t.size < 0 {
        NotExpired(t, height);
      } else if !validates(candidates, t) {
        FairFailure(all, i, candidates, failed, height, validates);
        end := CollatedFrom(all, i + 1, candidates, failed + [t], left, m, height, validates);
      } else {
        FairCandidate(all, i, candidates, failed, height, validates);
        assert (candidates + [t])[..|candidates|] == candidates;
        end := CollatedFrom(all, i + 1, candidates + [t], failed, left - 4 - t.size, m, height, validates);
      }
    }
  }

  lemma NotExpired(t: Tx, height: int)
    ensures Expired(t, height) <==> t.expiration != 0 && t.expiration <= height
  {
  }

  /** Every transaction of the pool is a candidate, or failed, or is left out for one of three reasons: an earlier one
      of its sender has failed, there are as many candidates as a block may have, or one that comes no later and has
      not expired does not fit behind the candidates. A transaction fails only because it has expired or because the
      validator refuses it on top of the candidates before it, and the candidates come in the order of the pool. */
  lemma CollatedLeavesOut(all: seq<Tx>, m: Limits, height: int, validates: Validates, i: nat)
    requires i < |all|
    ensures var (cs, fs) := Collated(all, [], [], m.maxPayload - COLLATOR_HEADER, m, height, validates);
            && (all[i] in cs || all[i] in fs || Barred(all, i, fs) || |cs| == m.maxTransactions
                || exists k | 0 <= k <= i :: EndsAt(all, k, cs, m, height))
            && (forall f | f in fs :: HasReason(all, f, cs, height, validates))
            && Within(cs, all)
  {
    hide Barred, EndsAt, HasReason;
    assert all[0..] == all && all[..0] == [];
    assert Fair(all, 0, [], [], height, validates);
    var end := CollatedFrom(all, 0, [], [], m.maxPayload - COLLATOR_HEADER, m, height, validates);
    var (cs, fs) := Collated(all, [], [], m.maxPayload - COLLATOR_HEADER, m, height, validates);
    ReasonLater(all, end, cs, fs, height, validates);
    WithinLonger(cs, all, end);
  }

  lemma ReasonLater(all: seq<Tx>, end: nat, cs: seq<Tx>, fs: seq<Tx>, height: int, validates: Validates)
    requires end <= |all| && Reasons(all, end, cs, fs, height, validates)
    ensures forall f | f in fs :: HasReason(all, f, cs, height, validates)
  {
    hide HasReason;
    forall f | f in fs ensures HasReason(all, f, cs, height, validates) {
      OneReasonLater(all, end, cs, f, height, validates);
    }
  }

  lemma OneReasonLater(all: seq<Tx>, end: nat, cs: seq<Tx>, f: Tx, height: int, validates: Validates)
    requires end <= |all| && HasReason(all[..end], f, cs, height, validates)
    ensures HasReason(all, f, cs, height, validates)
  {
    var before := all[..end];
    var j: nat, n: nat :| j < |before| && n <= |cs| && before[j] == f
                          && FailedFor(before, j, n, cs, height, validates);
    assert all[..j] == before[..j] && all == before + all[end..];
    assert all[j + 1..] == before[j + 1..] + all[end..];
    assert FailedFor(all, j, n, cs, height, validates);
  }

  lemma {:induction false} WithinLonger(xs: seq<Tx>, all: seq<Tx>, end: nat)
    requires end <= |all| && Within(xs, all[..end])
    ensures Within(xs, all)
    decreases |all|
  {
    if end < |all| {
      assert all[..|all| - 1][..end] == all[..end];
      WithinLonger(xs, all[..|all| - 1], end);
    } else {
      assert all[..end] == all;
    }
  }

  /** The positions that the candidates and the failed transactions come from. */
  ghost predicate Follows(all: seq<Tx>, c: nat, f: nat, cs: seq<Tx>, fs: seq<Tx>) {
    c < |all| && f < |all| && all[c] in cs && all[f] in fs && all[c].sender == all[f].sender && f < c
  }

  /** After a sender's transaction has failed, no later one of that sender is a candidate. */
  lemma NoCandidateAfterFailure(all: seq<Tx>, m: Limits, height: int, validates: Validates, c: nat, f: nat)
    requires DistinctIds(all)
    ensures var (cs, fs) := Collated(all, [], [], m.maxPayload - COLLATOR_HEADER, m, height, validates);
            !Follows(all, c, f, cs, fs)
  {
    var (cs, fs) := Collated(all, [], [], m.maxPayload - COLLATOR_HEADER, m, height, validates);
    if Follows(all, c, f, cs, fs) {
      assert all[0..] == all;
      FailureSticks(all, 0, [], [], m.maxPayload - COLLATOR_HEADER, m, height, validates, c, f);
    }
  }

  lemma {:induction false} FailureSticks(all: seq<Tx>, i: nat, candidates: seq<Tx>, failed: seq<Tx>, left: int,
                                         m: Limits, height: int, validates: Validates, c: nat, f: nat)
    requires DistinctIds(all) && i <= |all| && f < c < |all| && all[c].sender == all[f].sender
    requires forall t | t in candidates || t in failed :: t in all[..i]
    requires !(all[f] in failed && all[c] in candidates)
    ensures var (cs, fs) := Collated(all[i..], candidates, failed, left, m, height, validates);
            !(all[f] in fs && all[c] in cs)
    decreases |all| - i
  {
    hide DistinctIds, Expired, SenderFailed;
    PrefixOnly(all, i, c, f);
    if i < |all| && |candidates| != m.maxTransactions {
      var t := all[i];
      assert all[i..][1..] == all[i + 1..] && all[..i + 1] == all[..i] + [t];
      FailedSender(failed, all[f], t);
      if SenderFailed(failed, t) {
        FailureSticks(all, i + 1, candidates, failed, left, m, height, validates, c, f);
      } else if Expired(t, height) {
        FailureSticks(all, i + 1, candidates, failed + [t], left, m, height, validates, c, f);
      } else if left - 4 - t.size >= 0 {
        if validates(candidates, t) {
          FailureSticks(all, i + 1, candidates + [t], failed, left - 4 - t.size, m, height, validates, c, f);
        } else {
          FailureSticks(all, i + 1, candidates, failed + [t], left, m, height, validates, c, f);
        }
      }
    }
  }

  lemma FailedSender(failed: seq<Tx>, f: Tx, t: Tx)
    ensures f in failed && f.sender == t.sender ==> SenderFailed(failed, t)
  {
  }

  lemma PrefixOnly(all: seq<Tx>, i: nat, c: nat, f: nat)
    requires DistinctIds(all) && i <= |all| && f < c < |all|
    ensures all[f] in all[..i] <==> f < i
    ensures all[c] in all[..i] <==> c < i
    ensures all[f] != all[c]
    ensures i < |all| ==> (all[i] == all[f] <==> i == f) && (all[i] == all[c] <==> i == c)
  {
    assert f < i ==> all[..i][f] == all[f];
    assert c < i ==> all[..i][c] == all[c];
  }

  // ----- forging -----

  /** The hash of the ids, in order. */
  type PayloadHash = seq<nat> -> nat

  datatype Block = Block(version: int, height: int, timestamp: int, previousBlock: Option<nat>,
                         numberOfTransactions: int,
                         totalAmount: int, totalFee: int, reward: int, payloadLength: int, payloadHash: nat,
                         transactions: seq<Tx>)

  function Ids(txs: seq<Tx>): seq<nat> {
    if txs == [] then [] else Ids(txs[..|txs| - 1]) + [txs[|txs| - 1].id]
  }

  function Amounts(txs: seq<Tx>): int {
    if txs == [] then 0 else Amounts(txs[..|txs| - 1]) + txs[|txs| - 1].amount
  }

  function Fees(txs: seq<Tx>): int {
    if txs == [] then 0 else Fees(txs[..|txs| - 1]) + txs[|txs| - 1].fee
  }

  method Forge(txs: seq<Tx>, previousHeight: int, previousId: nat, reward: int, timestamp: int, hash: PayloadHash)
    returns (block: Block)
    ensures block == Forged(txs, previousHeight, previousId, reward, timestamp, hash)
  {
    var amount, fee, payload := 0, 0, [];
    var i := 0;
    while i < |txs|
      invariant 0 <= i <= |txs| && amount == Amounts(txs[..i]) && fee == Fees(txs[..i]) && payload == Ids(txs[..i])
    {
      assert txs[..i + 1][..i] == txs[..i];
      amount, fee, payload := amount + txs[i].amount, fee + txs[i].fee, payload + [txs[i].id];
      i := i + 1;
    }
    assert txs[..i] == txs;
    block := Block(1, previousHeight + 1, timestamp, Some(previousId), |txs|, amount, fee, reward, 32 * |txs|,
                   hash(payload), txs);
  }

  function Forged(txs: seq<Tx>, previousHeight: int, previousId: nat, reward: int, timestamp: int,
                  hash: PayloadHash): Block {
    Block(1, previousHeight + 1, timestamp, Some(previousId), |txs|, Amounts(txs), Fees(txs), reward, 32 * |txs|,
          hash(Ids(txs)), txs)
  }

  // ----- verifying -----

  datatype Error =
    | InvalidPreviousBlock | InvalidReward | InvalidVersion | InvalidTimestamp | PayloadTooLarge
    | NotVerified(tx: Tx) | InvalidNumberOfTransactions | TooManyTransactions
    | Duplicate(tx: Tx) | ExpiredTransaction(tx: Tx) | InvalidTotalAmount | InvalidTotalFee | InvalidPayloadHash

  function Size(txs: seq<Tx>): nat {
    BLOCK_HEADER + Payload(txs)
  }

  /** What the checks look at. */
  ghost predicate Acceptable(b: Block, m: Limits, now: int, verified: Tx -> bool, hash: PayloadHash) {
    && (b.height == 1 || b.previousBlock.Some?)
    && b.reward == m.reward && b.version == m.version && b.timestamp <= now + m.blockTime
    && Size(b.transactions) <= m.maxPayload
    && (forall t | t in b.transactions :: verified(t) && !Expired(t, b.height))
    && |b.transactions| == b.numberOfTransactions
    && (|b.transactions| <= m.maxTransactions || b.height <= 1)
    && DistinctIds(b.transactions)
    && b.totalAmount == Amounts(b.transactions) && b.totalFee == Fees(b.transactions)
    && b.payloadHash == hash(Ids(b.transactions))
  }

  method CalculateSize(txs: seq<Tx>) returns (size: nat)
    ensures size == Size(txs)
  {
    size := BLOCK_HEADER;
    var i := 0;
    while i < |txs|
      invariant 0 <= i <= |txs| && size == Size(txs[..i])
    {
      assert txs[..i + 1][..i] == txs[..i];
      size := size + 4 + txs[i].size;
      i := i + 1;
    }
    assert txs[..i] == txs;
  }

  method VerifyTransactions(txs: seq<Tx>, verified: Tx -> bool) returns (errors: seq<Error>)
    ensures errors == [] <==> forall t | t in txs :: verified(t)
  {
    errors := [];
    var i := 0;
    while i < |txs|
      invariant 0 <= i <= |txs|
      invariant errors == [] <==> forall j | 0 <= j < i :: verified(txs[j])
    {
      if !verified(txs[i]) { errors := errors + [NotVerified(txs[i])]; }
      i := i + 1;
    }
  }

  lemma OneMoreId(txs: seq<Tx>, i: nat)
    requires i < |txs|
    ensures DistinctIds(txs[..i + 1]) <==> DistinctIds(txs[..i]) && txs[i].id !in Ids(txs[..i])
    ensures Amounts(txs[..i + 1]) == Amounts(txs[..i]) + txs[i].amount
    ensures Fees(txs[..i + 1]) == Fees(txs[..i]) + txs[i].fee
    ensures Ids(txs[..i + 1]) == Ids(txs[..i]) + [txs[i].id]
  {
    assert txs[..i + 1][..i] == txs[..i];
    IdsAt(txs[..i]);
    if txs[i].id in Ids(txs[..i]) {
      var j :| 0 <= j < i && Ids(txs[..i])[j] == txs[i].id;
      assert txs[..i + 1][j].id == txs[..i + 1][i].id;
    }
    assert forall j | 0 <= j < i :: txs[..i][j] == txs[..i + 1][j];
  }

  lemma {:induction false} IdsAt(txs: seq<Tx>)
    ensures |Ids(txs)| == |txs| && forall j | 0 <= j < |txs| :: Ids(txs)[j] == txs[j].id
    decreases |txs|
  {
    if txs != [] { IdsAt(txs[..|txs| - 1]); }
  }

  /** One pass over the transactions: duplicates, expirations, totals and the payload hash. */
  method VerifyTotals(b: Block, hash: PayloadHash) returns (errors: seq<Error>)
    ensures errors == [] <==>
            (&& DistinctIds(b.transactions) && (forall t | t in b.transactions :: !Expired(t, b.height))
             && b.totalAmount == Amounts(b.transactions) && b.totalFee == Fees(b.transactions)
             && b.payloadHash == hash(Ids(b.transactions)))
  {
    hide DistinctIds, Ids, Amounts, Fees, Expired;
    errors := [];
    var totalAmount, totalFee, payload := 0, 0, [];
    var applied: set<nat> := {};
    var txs := b.transactions;
    NothingApplied(txs);
    var i := 0;
    while i < |txs|
      invariant 0 <= i <= |txs|
      invariant totalAmount == Amounts(txs[..i]) && totalFee == Fees(txs[..i]) && payload == Ids(txs[..i])
      invariant forall id :: id in applied <==> id in payload
      invariant errors == [] <==> DistinctIds(txs[..i]) && forall j | 0 <= j < i :: !Expired(txs[j], b.height)
    {
      OneMoreId(txs, i);
      var t := txs[i];
      if t.id in applied { errors := errors + [Duplicate(t)]; }
      if Expired(t, b.height) { errors := errors + [ExpiredTransaction(t)]; }
      applied := applied + {t.id};
      totalAmount, totalFee, payload := totalAmount + t.amount, totalFee + t.fee, payload + [t.id];
      i := i + 1;
    }
    assert txs[..i] == txs;
    if totalAmount != b.totalAmount { errors := errors + [InvalidTotalAmount]; }
    if totalFee != b.totalFee { errors := errors + [InvalidTotalFee]; }
    if hash(payload) != b.payloadHash { errors := errors + [InvalidPayloadHash]; }
  }

  lemma NothingApplied(txs: seq<Tx>)
    ensures Amounts(txs[..0]) == 0 && Fees(txs[..0]) == 0 && Ids(txs[..0]) == [] && DistinctIds(txs[..0])
  {
  }

  /** No error is found exactly in the acceptable blocks. The signature does not matter: its check is a promise that
      nothing waits for, and a promise counts as true. */
  method Verify(b: Block, m: Limits, now: int, verified: Tx -> bool, hash: PayloadHash) returns (errors: seq<Error>)
    ensures errors == [] <==> Acceptable(b, m, now, verified, hash)
  {
    hide DistinctIds, Ids, Amounts, Fees, Expired, Size;
    errors := [];
    if b.height != 1 && b.previousBlock.None? { errors := errors + [InvalidPreviousBlock]; }
    if b.reward != m.reward { errors := errors + [InvalidReward]; }
    if b.version != m.version { errors := errors + [InvalidVersion]; }
    if b.timestamp > now + m.blockTime { errors := errors + [InvalidTimestamp]; }
    var size := CalculateSize(b.transactions);
    if size > m.maxPayload { errors := errors + [PayloadTooLarge]; }
    var invalid := VerifyTransactions(b.transactions, verified);
    errors := errors + invalid;
    if |b.transactions| != b.numberOfTransactions { errors := errors + [InvalidNumberOfTransactions]; }
    if |b.transactions| > m.maxTransactions && b.height > 1 { errors := errors + [TooManyTransactions]; }
    var others := VerifyTotals(b, hash);
    errors := errors + others;
  }

  // ----- collated, forged, verified -----

  /** A block forged from collated candidates is accepted exactly when the block version is 1, the clocks agree, every
      candidate's hash verifies, which the collator does not look at, and the payload leaves room for the header as it
      is really written. It is never more than 60 bytes too large. */
  lemma ForgedBlockIsAccepted(all: seq<Tx>, m: Limits, lastHeight: int, validates: Validates, previousId: nat,
                              timestamp: int, now: int, verified: Tx -> bool, hash: PayloadHash)
    requires DistinctIds(all)
    ensures var (cs, _) := Collated(all, [], [], m.maxPayload - COLLATOR_HEADER, m, lastHeight + 1, validates);
            var b := Forged(cs, lastHeight, previousId, m.reward, timestamp, hash);
            && (Acceptable(b, m, now, verified, hash) <==>
                  && m.version == 1 && timestamp <= now + m.blockTime
                  && (forall t | t in cs :: verified(t))
                  && 204 + Payload(cs) <= m.maxPayload)
            && (cs != [] ==> 144 + Payload(cs) <= m.maxPayload && Size(cs) <= m.maxPayload + 60)
            && b.payloadLength == 32 * |cs| && b.height == lastHeight + 1 && b.transactions == cs
  {
    hide Collated, DistinctIds, Ids, Amounts, Fees, Payload, Expired;
    var left := m.maxPayload - COLLATOR_HEADER;
    assert Payload([]) == 0 && DistinctIds([]) by { NothingCollated(); }
    assert [] + all == all;
    CollatedIsSound([], all, [], [], left, m, lastHeight + 1, validates);
  }

  lemma NothingCollated()
    ensures Payload([]) == 0 && DistinctIds([])
  {
  }

  /** The two headers differ enough for a collated block to be refused. */
  lemma CollatedBlockMayBeRefused()
    ensures var t := Tx(1, 1, 1, 1, 100, 0, 0);
            var m := Limits(300, 10, 0, 1, 8);
            var (cs, _) := Collated([t], [], [], m.maxPayload - COLLATOR_HEADER, m, 2, (_, _) => true);
            && cs == [t]
            && forall b: Block, now: int, verified: Tx -> bool, hash: PayloadHash ::
                 b.transactions == cs ==> !Acceptable(b, m, now, verified, hash)
  {
    var t := Tx(1, 1, 1, 1, 100, 0, 0);
    var m := Limits(300, 10, 0, 1, 8);
    assert !SenderFailed([], t);
    assert Collated([], [t], [], 156 - 104, m, 2, (_, _) => true) == ([t], []);
    assert [t][1..] == [];
    assert [t][..0] == [] && Payload([t]) == 104;
  }
}
