/** Rebuilding the mempool, on values: every step of it, and what the steps amount to. */
module Readding {
  import opened Options
  import opened Pools
  import opened PoolStorages
  import opened PoolTransactions
  import opened SenderPools
  import opened Sequences

  // ----- the steps -----

  /** What becomes of a forged transaction: refused, or taken by the mempool and then by the storage, or diverted, where
      the storage has it already and refuses it. */
  datatype Outcome = Refused | Accepted | Diverted

  function OutcomeOf<S>(t: Tx, x: Step<S>): Outcome {
    if x.error.Some? then Refused else if t in IdsOf(x.after.rows) then Diverted else Accepted
  }

  ghost predicate ForgedTry<S>(c: Limits<S>, lastHeight: int, s: Snapshot<S>, t: Tx, a: Option<Answer<S>>, x: Step<S>,
                               s1: Snapshot<S>)
  {
    && Retried(c, lastHeight, s, t, a, x)
    && s1 == if OutcomeOf(t, x) == Accepted then Snapshot(x.after.pools, x.after.rows + [Stored(t, lastHeight)])
       else x.after
  }

  /** A stored transaction that is young enough is tried again, and dropped if it is refused; the others are dropped. */
  ghost predicate StoredTry<S>(c: Limits<S>, lastHeight: int, s: Snapshot<S>, r: Stored, a: Option<Answer<S>>,
                               x: Step<S>, s1: Snapshot<S>)
  {
    if r.height > lastHeight - c.age
    then && Retried(c, lastHeight, s, r.tx, a, x)
         && s1 == if x.error.Some? then Snapshot(x.after.pools, Purged(x.after.rows, {r.tx})) else x.after
    else s1 == Snapshot(s.pools, Purged(s.rows, {r.tx}))
  }

  /** `trace` holds the stores before, between and after the attempts. */
  ghost predicate ForgedRun<S>(c: Limits<S>, lastHeight: int, forged: seq<Tx>, answers: nat -> Option<Answer<S>>,
                               trace: seq<Snapshot<S>>, steps: seq<Step<S>>)
  {
    && |trace| == |forged| + 1 && |steps| == |forged|
    && forall i | 0 <= i < |forged| :: ForgedTry(c, lastHeight, trace[i], forged[i], answers(i), steps[i], trace[i + 1])
  }

  ghost predicate StoredStep<S>(c: Limits<S>, lastHeight: int, r: Stored, skipped: seq<Tx>,
                                answers: Tx -> Option<Answer<S>>, s: Snapshot<S>, x: Step<S>, s1: Snapshot<S>)
  {
    if r.tx in skipped then s1 == s else StoredTry(c, lastHeight, s, r, answers(r.tx), x, s1)
  }

  ghost predicate StoredRun<S>(c: Limits<S>, lastHeight: int, all: seq<Stored>, skipped: seq<Tx>,
                               answers: Tx -> Option<Answer<S>>, trace: seq<Snapshot<S>>, steps: seq<Step<S>>)
  {
    && |trace| == |all| + 1 && |steps| == |all|
    && forall i | 0 <= i < |all| ::
       StoredStep(c, lastHeight, all[i], skipped, answers, trace[i], steps[i], trace[i + 1])
  }

  lemma ForgedRunNext<S>(c: Limits<S>, lastHeight: int, all: seq<Tx>, i: nat, answers: nat -> Option<Answer<S>>,
                         trace: seq<Snapshot<S>>, steps: seq<Step<S>>, x: Step<S>, s1: Snapshot<S>)
    requires i < |all| && ForgedRun(c, lastHeight, all[..i], answers, trace, steps)
    requires ForgedTry(c, lastHeight, trace[i], all[i], answers(i), x, s1)
    ensures ForgedRun(c, lastHeight, all[..i + 1], answers, trace + [s1], steps + [x])
    ensures AcceptedOf(all[..i + 1], steps + [x])
         == AcceptedOf(all[..i], steps) + if OutcomeOf(all[i], x) == Accepted then [all[i]] else []
  {
    hide ForgedTry;
    assert all[..i + 1][..i] == all[..i] && (steps + [x])[..i] == steps;
    var more, later := trace + [s1], steps + [x];
    forall j | 0 <= j < i + 1 ensures ForgedTry(c, lastHeight, more[j], all[j], answers(j), later[j], more[j + 1]) {
      if j < i { assert all[..i][j] == all[j]; }
    }
  }

  lemma StoredRunNext<S>(c: Limits<S>, lastHeight: int, all: seq<Stored>, i: nat, skipped: seq<Tx>,
                         answers: Tx -> Option<Answer<S>>, trace: seq<Snapshot<S>>, steps: seq<Step<S>>, x: Step<S>,
                         s1: Snapshot<S>)
    requires i < |all| && StoredRun(c, lastHeight, all[..i], skipped, answers, trace, steps)
    requires StoredStep(c, lastHeight, all[i], skipped, answers, trace[i], x, s1)
    ensures StoredRun(c, lastHeight, all[..i + 1], skipped, answers, trace + [s1], steps + [x])
  {
    hide StoredStep;
    var more, later := trace + [s1], steps + [x];
    forall j | 0 <= j < i + 1
      ensures StoredStep(c, lastHeight, all[j], skipped, answers, more[j], later[j], more[j + 1])
    {
      if j < i { assert all[..i][j] == all[j]; }
    }
  }

  /** The transactions that the storage took while the forged ones were tried. */
  function AcceptedOf<S>(forged: seq<Tx>, steps: seq<Step<S>>): (r: seq<Tx>)
    requires |forged| == |steps|
    ensures forall t | t in r :: t in forged
  {
    if forged == [] then [] else
      var n := |forged| - 1;
      AcceptedOf(forged[..n], steps[..n]) + if OutcomeOf(forged[n], steps[n]) == Accepted then [forged[n]] else []
  }

  /** The transactions that were diverted and have not been stored since. */
  function DivertedOf<S>(forged: seq<Tx>, steps: seq<Step<S>>): set<Tx>
    requires |forged| == |steps|
  {
    if forged == [] then {} else
      var n := |forged| - 1;
      var before := DivertedOf(forged[..n], steps[..n]);
      if OutcomeOf(forged[n], steps[n]) == Diverted then before + {forged[n]}
      else if OutcomeOf(forged[n], steps[n]) == Accepted then before - {forged[n]}
      else before
  }

  /** The stores and the steps of the two parts. */
  datatype Course<S> = Course(forgedTrace: seq<Snapshot<S>>, forgedSteps: seq<Step<S>>,
                              storedTrace: seq<Snapshot<S>>, storedSteps: seq<Step<S>>)

  /** A whole rebuild from a table: first the forged transactions on an empty mempool, and then what is stored by
      then. */
  ghost predicate Rebuilt<S>(c: Limits<S>, lastHeight: int, rows: seq<Stored>, forged: seq<Tx>,
                             forgedAnswers: nat -> Option<Answer<S>>, storedAnswers: Tx -> Option<Answer<S>>,
                             r: Course<S>, end: Snapshot<S>)
  {
    && ForgedRun(c, lastHeight, forged, forgedAnswers, r.forgedTrace, r.forgedSteps)
    && r.forgedTrace[0] == Snapshot(map[], rows)
    && var middle := r.forgedTrace[|forged|];
    && StoredRun(c, lastHeight, middle.rows, AcceptedOf(forged, r.forgedSteps), storedAnswers, r.storedTrace,
                 r.storedSteps)
    && r.storedTrace[0] == middle && r.storedTrace[|middle.rows|] == end
  }

  // ----- what is in which store -----

  /** While forged transactions are readded. `added` were stored on the way; `diverted` entered the mempool although the
      storage refused them, because it had them already. */
  ghost predicate ForgedState(txs: set<Tx>, ids: set<Tx>, before: set<Tx>, forged: set<Tx>, added: set<Tx>,
                              diverted: set<Tx>)
  {
    && (forall t | t in txs :: t in forged && t in ids && (t in added || t in diverted))
    && (forall t | t in added :: t in forged && t !in diverted)
    && (forall t | t in diverted :: t in forged && t in before)
    && (forall t | t in ids :: t in before || t in added)
    && (forall t | t in ids && (t in added || t in diverted) :: t in txs)
  }

  lemma ForgedStep(txs: set<Tx>, room: set<Tx>, ids: set<Tx>, after: set<Tx>, before: set<Tx>, forged: set<Tx>,
                   added: set<Tx>, diverted: set<Tx>, t: Tx)
    requires ForgedState(txs, ids, before, forged, added, diverted)
    requires room <= txs && after == ids - (txs - room) && t in forged
    ensures ForgedState(room, after, before, forged, added, diverted)
    ensures t !in room && t !in after ==>
              ForgedState(room + {t}, after + {t}, before, forged, added + {t}, diverted - {t})
    ensures t !in room && t in after ==> ForgedState(room + {t}, after, before, forged, added, diverted + {t})
  {
  }

  /** While stored transactions are readded, `rest` is still to come. What is stored is in the mempool or to come; what
      is in the mempool only was diverted; what was diverted and is stored still is in the mempool, and to come. */
  ghost predicate StoredState(txs: set<Tx>, ids: set<Tx>, before: set<Tx>, forged: set<Tx>, diverted: set<Tx>,
                              rest: set<Tx>)
  {
    && (forall t | t in txs :: t in before || t in forged)
    && (forall t | t in rest :: t in before)
    && (forall t | t in ids :: t in txs || t in rest)
    && (forall t | t in txs && t !in ids :: t in diverted)
    && (forall t | t in rest && t !in diverted :: t in ids && t !in txs)
    && (forall t | t in diverted && t in ids :: t in txs && t in rest)
  }

  lemma StoredBegins(txs: set<Tx>, ids: set<Tx>, before: set<Tx>, forged: set<Tx>, added: set<Tx>, diverted: set<Tx>)
    requires ForgedState(txs, ids, before, forged, added, diverted)
    ensures StoredState(txs, ids, before, forged, diverted, ids - added)
    ensures diverted <= forged * before
  {
  }

  lemma StoredTried(txs: set<Tx>, room: set<Tx>, ids: set<Tx>, after: set<Tx>, before: set<Tx>, forged: set<Tx>,
                    diverted: set<Tx>, rest: set<Tx>, t: Tx)
    requires StoredState(txs, ids, before, forged, diverted, rest + {t}) && t !in rest
    requires room <= txs && after == ids - (txs - room)
    ensures t !in room ==> StoredState(room + {t}, after, before, forged, diverted, rest)
    ensures StoredState(room, after - {t}, before, forged, diverted, rest)
  {
  }

  lemma StoredDropped(txs: set<Tx>, ids: set<Tx>, before: set<Tx>, forged: set<Tx>, diverted: set<Tx>, rest: set<Tx>,
                      t: Tx)
    requires StoredState(txs, ids, before, forged, diverted, rest + {t}) && t !in rest
    ensures StoredState(txs, ids - {t}, before, forged, diverted, rest)
  {
  }

  lemma StoredEnds(txs: set<Tx>, ids: set<Tx>, before: set<Tx>, forged: set<Tx>, diverted: set<Tx>)
    requires StoredState(txs, ids, before, forged, diverted, {})
    ensures ids <= txs <= before + forged && txs - ids == txs * diverted
    ensures txs == ids <==> txs !! diverted
  {
    if txs !! diverted {
      forall t ensures t in txs <==> t in ids { }
    }
  }

  // ----- the stores after a rebuild -----

  /** The forged part: both stores are sane, and it is known what is in which. */
  lemma {:induction false} ForgedKeeps<S>(c: Limits<S>, lastHeight: int, rows: seq<Stored>, all: seq<Tx>, n: nat,
                                         answers: nat -> Option<Answer<S>>, trace: seq<Snapshot<S>>,
                                         steps: seq<Step<S>>)
    requires ForgedRun(c, lastHeight, all, answers, trace, steps) && n <= |all|
    requires trace[0] == Snapshot(map[], rows) && UniqueIds(rows)
    ensures Sane(c, trace[n])
    ensures ForgedState(TxsOf(trace[n].pools), IdsOf(trace[n].rows), IdsOf(rows), Members(all),
                        Members(AcceptedOf(all[..n], steps[..n])), DivertedOf(all[..n], steps[..n]))
    decreases n
  {
    hide ForgedTry, Sane, ForgedState, IdsOf, TxsOf, Members, UniqueIds;
    if n == 0 {
      ForgedBegins(c, rows, Members(all));
      assert AcceptedOf(all[..0], steps[..0]) == [];
    } else {
      var k := n - 1;
      ForgedKeeps(c, lastHeight, rows, all, k, answers, trace, steps);
      assert ForgedTry(c, lastHeight, trace[k], all[k], answers(k), steps[k], trace[k + 1]);
      assert all[..n][..k] == all[..k] && steps[..n][..k] == steps[..k];
      IsMember(all, k);
      ForgedTryKeeps(c, lastHeight, trace[k], all[k], answers(k), steps[k], trace[k + 1], IdsOf(rows), Members(all),
                     AcceptedOf(all[..k], steps[..k]), DivertedOf(all[..k], steps[..k]));
    }
  }

  lemma IsMember(xs: seq<Tx>, i: nat)
    requires i < |xs|
    ensures xs[i] in Members(xs)
  {
  }

  lemma ForgedBegins<S>(c: Limits<S>, rows: seq<Stored>, forged: set<Tx>)
    requires UniqueIds(rows)
    ensures Sane(c, Snapshot(map[], rows))
    ensures ForgedState(TxsOf<S>(map[]), IdsOf(rows), IdsOf(rows), forged, Members([]), {})
  {
    NoPools<S>();
  }

  lemma MembersSnoc(xs: seq<Tx>, t: Tx)
    ensures Members(xs + [t]) == Members(xs) + {t}
  {
  }

  lemma ForgedTryKeeps<S>(c: Limits<S>, lastHeight: int, s: Snapshot<S>, t: Tx, a: Option<Answer<S>>, x: Step<S>,
                          s1: Snapshot<S>, before: set<Tx>, forged: set<Tx>, added: seq<Tx>, diverted: set<Tx>)
    requires Sane(c, s) && ForgedTry(c, lastHeight, s, t, a, x, s1) && t in forged
    requires ForgedState(TxsOf(s.pools), IdsOf(s.rows), before, forged, Members(added), diverted)
    ensures Sane(c, s1)
    ensures ForgedState(TxsOf(s1.pools), IdsOf(s1.rows), before, forged,
                        Members(added + if OutcomeOf(t, x) == Accepted then [t] else []),
                        if OutcomeOf(t, x) == Diverted then diverted + {t}
                        else if OutcomeOf(t, x) == Accepted then diverted - {t} else diverted)
  {
    hide Retried, ForgedState, IdsOf, TxsOf, Members, UniqueIds, AllKept;
    RetriedSets(c, lastHeight, s, t, a, x);
    ForgedStep(TxsOf(s.pools), TxsOf(x.room), IdsOf(s.rows), IdsOf(x.after.rows), before, forged, Members(added),
               diverted, t);
    AppendedIds(x.after.rows, Stored(t, lastHeight));
    MembersSnoc(added, t);
    assert added + [] == added;
  }

  /** The stored transactions from index `i` on, less those that are skipped. */
  ghost function RestOf(all: seq<Stored>, i: nat, skipped: seq<Tx>): set<Tx> {
    set j | i <= j < |all| && all[j].tx !in skipped :: all[j].tx
  }

  lemma RestOfNext(all: seq<Stored>, i: nat, skipped: seq<Tx>)
    requires i < |all| && UniqueIds(all)
    ensures RestOf(all, i, skipped) == RestOf(all, i + 1, skipped) + if all[i].tx in skipped then {} else {all[i].tx}
    ensures all[i].tx !in RestOf(all, i + 1, skipped)
  {
  }

  lemma RestOfAll(all: seq<Stored>, skipped: seq<Tx>)
    ensures RestOf(all, 0, skipped) == IdsOf(all) - Members(skipped)
    ensures RestOf(all, |all|, skipped) == {}
  {
    forall u ensures u in RestOf(all, 0, skipped) <==> u in IdsOf(all) && u !in skipped {
      if u in IdsOf(all) {
        var r :| r in all && r.tx == u;
        var j :| 0 <= j < |all| && all[j] == r;
        assert all[j].tx == u;
      }
    }
  }

  lemma {:induction false} StoredKeeps<S>(c: Limits<S>, lastHeight: int, all: seq<Stored>, n: nat, skipped: seq<Tx>,
                                         answers: Tx -> Option<Answer<S>>, trace: seq<Snapshot<S>>, steps: seq<Step<S>>,
                                         before: set<Tx>, forged: set<Tx>, diverted: set<Tx>)
    requires StoredRun(c, lastHeight, all, skipped, answers, trace, steps) && n <= |all| && UniqueIds(all)
    requires Sane(c, trace[0])
    requires StoredState(TxsOf(trace[0].pools), IdsOf(trace[0].rows), before, forged, diverted, RestOf(all, 0, skipped))
    ensures Sane(c, trace[n])
    ensures StoredState(TxsOf(trace[n].pools), IdsOf(trace[n].rows), before, forged, diverted, RestOf(all, n, skipped))
    decreases n
  {
    hide StoredTry, Sane, StoredState, IdsOf, TxsOf, UniqueIds, RestOf;
    if n > 0 {
      var k := n - 1;
      StoredKeeps(c, lastHeight, all, k, skipped, answers, trace, steps, before, forged, diverted);
      assert StoredStep(c, lastHeight, all[k], skipped, answers, trace[k], steps[k], trace[k + 1]);
      RestOfNext(all, k, skipped);
      if all[k].tx in skipped {
        assert RestOf(all, n, skipped) + {} == RestOf(all, n, skipped);
      } else {
        StoredTryKeeps(c, lastHeight, trace[k], all[k], answers(all[k].tx), steps[k], trace[n], before, forged,
                       diverted, RestOf(all, n, skipped));
      }
    }
  }

  lemma StoredTryKeeps<S>(c: Limits<S>, lastHeight: int, s: Snapshot<S>, r: Stored, a: Option<Answer<S>>, x: Step<S>,
                          s1: Snapshot<S>, before: set<Tx>, forged: set<Tx>, diverted: set<Tx>, rest: set<Tx>)
    requires Sane(c, s) && StoredTry(c, lastHeight, s, r, a, x, s1) && r.tx !in rest
    requires StoredState(TxsOf(s.pools), IdsOf(s.rows), before, forged, diverted, rest + {r.tx})
    ensures Sane(c, s1)
    ensures StoredState(TxsOf(s1.pools), IdsOf(s1.rows), before, forged, diverted, rest)
  {
    hide Retried, StoredState, IdsOf, TxsOf, UniqueIds, AllKept;
    if r.height > lastHeight - c.age {
      RetriedSets(c, lastHeight, s, r.tx, a, x);
      PurgedIds(x.after.rows, {r.tx});
      StoredTried(TxsOf(s.pools), TxsOf(x.room), IdsOf(s.rows), IdsOf(x.after.rows), before, forged, diverted, rest,
                  r.tx);
    } else {
      PurgedIds(s.rows, {r.tx});
      StoredDropped(TxsOf(s.pools), IdsOf(s.rows), before, forged, diverted, rest, r.tx);
    }
  }

  /** From any table with unique ids, whatever forged transactions come and whatever the answers: the stores are sane,
      nothing is stored that is not in the mempool, and the mempool has nothing that was not stored or passed in. What
      it has beyond the storage was diverted, so the stores agree exactly if nothing diverted is left, and always if
      nothing that is passed in was stored. */
  lemma RebuiltAgrees<S>(c: Limits<S>, lastHeight: int, rows: seq<Stored>, forged: seq<Tx>,
                         forgedAnswers: nat -> Option<Answer<S>>, storedAnswers: Tx -> Option<Answer<S>>, r: Course<S>,
                         end: Snapshot<S>)
    requires UniqueIds(rows) && Rebuilt(c, lastHeight, rows, forged, forgedAnswers, storedAnswers, r, end)
    ensures |forged| == |r.forgedSteps|
    ensures var txs, ids, diverted := TxsOf(end.pools), IdsOf(end.rows), DivertedOf(forged, r.forgedSteps);
            && Sane(c, end)
            && ids <= txs <= IdsOf(rows) + Members(forged)
            && txs - ids == txs * diverted && diverted <= Members(forged) * IdsOf(rows)
            && (txs == ids <==> txs !! diverted)
            && (Members(forged) !! IdsOf(rows) ==> txs == ids)
  {
    hide ForgedRun, StoredRun, ForgedState, StoredState, IdsOf, TxsOf, Members, UniqueIds, AllKept, RestOf;
    Lengths(c, lastHeight, forged, forgedAnswers, r.forgedTrace, r.forgedSteps);
    var n, kept, diverted := |forged|, AcceptedOf(forged, r.forgedSteps), DivertedOf(forged, r.forgedSteps);
    var middle := r.forgedTrace[n];
    ForgedKeeps(c, lastHeight, rows, forged, n, forgedAnswers, r.forgedTrace, r.forgedSteps);
    assert forged[..n] == forged && r.forgedSteps[..n] == r.forgedSteps;
    StoredBegins(TxsOf(middle.pools), IdsOf(middle.rows), IdsOf(rows), Members(forged), Members(kept), diverted);
    RestOfAll(middle.rows, kept);
    StoredKeeps(c, lastHeight, middle.rows, |middle.rows|, kept, storedAnswers, r.storedTrace, r.storedSteps,
                IdsOf(rows), Members(forged), diverted);
    StoredEnds(TxsOf(end.pools), IdsOf(end.rows), IdsOf(rows), Members(forged), diverted);
  }

  /** One of the answers that a transaction gets while the mempool is rebuilt has let it in. */
  ghost predicate VouchedFor<S>(c: Limits<S>, lastHeight: int, forged: seq<Tx>, forgedAnswers: nat -> Option<Answer<S>>,
                                storedAnswers: Tx -> Option<Answer<S>>, t: Tx)
  {
    || (exists i | 0 <= i < |forged| :: forged[i] == t && Vouches(c, lastHeight, t, forgedAnswers(i)))
    || Vouches(c, lastHeight, t, storedAnswers(t))
  }

  lemma {:induction false} ForgedVouched<S>(c: Limits<S>, lastHeight: int, rows: seq<Stored>, all: seq<Tx>, n: nat,
                                           answers: nat -> Option<Answer<S>>, trace: seq<Snapshot<S>>,
                                           steps: seq<Step<S>>)
    requires ForgedRun(c, lastHeight, all, answers, trace, steps) && n <= |all|
    requires trace[0] == Snapshot(map[], rows) && UniqueIds(rows)
    ensures forall t | t in TxsOf(trace[n].pools) ::
              exists i | 0 <= i < |all| :: all[i] == t && Vouches(c, lastHeight, t, answers(i))
    decreases n
  {
    hide Retried, Sane, ForgedState, IdsOf, TxsOf, UniqueIds, Vouches;
    if n == 0 {
      NoPools<S>();
    } else {
      var k := n - 1;
      ForgedVouched(c, lastHeight, rows, all, k, answers, trace, steps);
      ForgedKeeps(c, lastHeight, rows, all, k, answers, trace, steps);
      assert ForgedTry(c, lastHeight, trace[k], all[k], answers(k), steps[k], trace[k + 1]);
      RetriedIsFit(c, lastHeight, trace[k], all[k], answers(k), steps[k]);
    }
  }

  lemma {:induction false} StoredVouched<S>(c: Limits<S>, lastHeight: int, all: seq<Stored>, n: nat, skipped: seq<Tx>,
                                           answers: Tx -> Option<Answer<S>>, trace: seq<Snapshot<S>>,
                                           steps: seq<Step<S>>, before: set<Tx>, forged: set<Tx>, diverted: set<Tx>)
    requires StoredRun(c, lastHeight, all, skipped, answers, trace, steps) && n <= |all| && UniqueIds(all)
    requires Sane(c, trace[0])
    requires StoredState(TxsOf(trace[0].pools), IdsOf(trace[0].rows), before, forged, diverted, RestOf(all, 0, skipped))
    ensures forall t | t in TxsOf(trace[n].pools) ::
              t in TxsOf(trace[0].pools) || Vouches(c, lastHeight, t, answers(t))
    decreases n
  {
    hide Retried, Sane, StoredState, IdsOf, TxsOf, UniqueIds, RestOf, Vouches;
    if n > 0 {
      var k := n - 1;
      StoredVouched(c, lastHeight, all, k, skipped, answers, trace, steps, before, forged, diverted);
      StoredKeeps(c, lastHeight, all, k, skipped, answers, trace, steps, before, forged, diverted);
      assert StoredStep(c, lastHeight, all[k], skipped, answers, trace[k], steps[k], trace[k + 1]);
      if all[k].tx !in skipped && all[k].height > lastHeight - c.age {
        RetriedIsFit(c, lastHeight, trace[k], all[k].tx, answers(all[k].tx), steps[k]);
      }
    }
  }

  /** After a rebuild, everything in the mempool was verified and let in on the way. */
  lemma RebuiltIsVouchedFor<S>(c: Limits<S>, lastHeight: int, rows: seq<Stored>, forged: seq<Tx>,
                               forgedAnswers: nat -> Option<Answer<S>>, storedAnswers: Tx -> Option<Answer<S>>,
                               r: Course<S>, end: Snapshot<S>)
    requires UniqueIds(rows) && Rebuilt(c, lastHeight, rows, forged, forgedAnswers, storedAnswers, r, end)
    ensures forall t | t in TxsOf(end.pools) :: VouchedFor(c, lastHeight, forged, forgedAnswers, storedAnswers, t)
  {
    hide ForgedRun, StoredRun, ForgedState, StoredState, IdsOf, TxsOf, Members, UniqueIds, RestOf, Vouches, Sane;
    Lengths(c, lastHeight, forged, forgedAnswers, r.forgedTrace, r.forgedSteps);
    var n, kept, diverted := |forged|, AcceptedOf(forged, r.forgedSteps), DivertedOf(forged, r.forgedSteps);
    var middle := r.forgedTrace[n];
    ForgedKeeps(c, lastHeight, rows, forged, n, forgedAnswers, r.forgedTrace, r.forgedSteps);
    ForgedVouched(c, lastHeight, rows, forged, n, forgedAnswers, r.forgedTrace, r.forgedSteps);
    assert forged[..n] == forged && r.forgedSteps[..n] == r.forgedSteps;
    StoredBegins(TxsOf(middle.pools), IdsOf(middle.rows), IdsOf(rows), Members(forged), Members(kept), diverted);
    RestOfAll(middle.rows, kept);
    assert UniqueIds(middle.rows) by { hide UniqueIds; SaneIds(c, middle); }
    StoredVouched(c, lastHeight, middle.rows, |middle.rows|, kept, storedAnswers, r.storedTrace, r.storedSteps,
                  IdsOf(rows), Members(forged), diverted);
  }

  lemma SaneIds<S>(c: Limits<S>, s: Snapshot<S>)
    requires Sane(c, s)
    ensures UniqueIds(s.rows)
  {
  }

  lemma Lengths<S>(c: Limits<S>, lastHeight: int, forged: seq<Tx>, answers: nat -> Option<Answer<S>>,
                   trace: seq<Snapshot<S>>, steps: seq<Step<S>>)
    requires ForgedRun(c, lastHeight, forged, answers, trace, steps)
    ensures |trace| == |forged| + 1 && |steps| == |forged|
  {
  }

  // ----- a rebuild with room for everything -----

  function Attempted<S>(t: Tx, a: Option<Answer<S>>, lastHeight: int): seq<Attempt<S>> {
    if a.None? then [] else [Attempt(t, ArrivalOf(a.value, lastHeight), a.value.wallets)]
  }

  function ForgedAttempts<S>(forged: seq<Tx>, answers: nat -> Option<Answer<S>>, lastHeight: int): seq<Attempt<S>> {
    if forged == [] then [] else
      var n := |forged| - 1;
      ForgedAttempts(forged[..n], answers, lastHeight) + Attempted(forged[n], answers(n), lastHeight)
  }

  /** The stored transactions that are tried again: those that are young enough, and were not stored a moment ago. */
  function StoredAttempts<S>(rows: seq<Stored>, answers: Tx -> Option<Answer<S>>, lastHeight: int, height: int,
                             skipped: seq<Tx>): seq<Attempt<S>>
  {
    if rows == [] then [] else
      var n := |rows| - 1;
      StoredAttempts(rows[..n], answers, lastHeight, height, skipped) +
      if rows[n].tx !in skipped && rows[n].height > height
      then Attempted(rows[n].tx, answers(rows[n].tx), lastHeight) else []
  }

  /** The table is what it was, with rows for the stored transactions behind, none of which it had. */
  ghost predicate Extends(rows: seq<Stored>, table: seq<Stored>, stored: seq<Tx>) {
    && |rows| <= |table| && table[..|rows|] == rows
    && (forall r | r in rows :: r.tx !in stored)
    && (forall r | r in table[|rows|..] :: r.tx in stored)
    && IdsOf(rows) <= IdsOf(table)
  }

  lemma ExtendsNext(rows: seq<Stored>, table: seq<Stored>, stored: seq<Tx>, r: Stored)
    requires Extends(rows, table, stored) && r.tx !in IdsOf(table)
    ensures Extends(rows, table + [r], stored + [r.tx])
  {
    AppendedIds(table, r);
    assert (table + [r])[|rows|..] == table[|rows|..] + [r];
    forall q | q in rows ensures q.tx !in stored + [r.tx] {
      assert q.tx in IdsOf(rows);
    }
  }

  /** What is tried again from the table is what is tried again from the rows that it had before. */
  lemma SameAttempts<S>(rows: seq<Stored>, table: seq<Stored>, stored: seq<Tx>, answers: Tx -> Option<Answer<S>>,
                        lastHeight: int, height: int)
    requires Extends(rows, table, stored)
    ensures StoredAttempts(table, answers, lastHeight, height, stored)
         == StoredAttempts(rows, answers, lastHeight, height, [])
  {
    hide IdsOf, Attempted;
    SkipsNone(rows, stored, answers, lastHeight, height);
    SkipsAll(table, |rows|, stored, answers, lastHeight, height);
  }

  lemma {:induction false} SkipsNone<S>(rows: seq<Stored>, stored: seq<Tx>, answers: Tx -> Option<Answer<S>>,
                                       lastHeight: int, height: int)
    requires forall r | r in rows :: r.tx !in stored
    ensures StoredAttempts(rows, answers, lastHeight, height, stored)
            == StoredAttempts(rows, answers, lastHeight, height, [])
    decreases |rows|
  {
    hide Attempted;
    if rows != [] { SkipsNone(rows[..|rows| - 1], stored, answers, lastHeight, height); }
  }

  lemma {:induction false} SkipsAll<S>(table: seq<Stored>, n: nat, stored: seq<Tx>, answers: Tx -> Option<Answer<S>>,
                                      lastHeight: int, height: int)
    requires n <= |table| && forall r | r in table[n..] :: r.tx in stored
    ensures StoredAttempts(table, answers, lastHeight, height, stored)
         == StoredAttempts(table[..n], answers, lastHeight, height, stored)
    decreases |table|
  {
    hide Attempted;
    if n < |table| {
      var front := table[..|table| - 1];
      assert front[n..] == table[n..][..|table| - 1 - n] && front[..n] == table[..n];
      assert table[|table| - 1] == table[n..][|table| - 1 - n];
      SkipsAll(front, n, stored, answers, lastHeight, height);
    } else {
      assert table[..n] == table;
    }
  }

  /** With room, trying once more is one more attempt, or none for bytes that cannot be read. */
  lemma RetriedWithRoom<S>(c: Limits<S>, lastHeight: int, s: Snapshot<S>, t: Tx, a: Option<Answer<S>>, x: Step<S>,
                           attempts: seq<Attempt<S>>)
    requires Retried(c, lastHeight, s, t, a, x) && |TxsOf(s.pools)| < c.max
    requires s.pools == TryAll(c.handler, c.settings, attempts)
    ensures var all := attempts + Attempted(t, a, lastHeight);
            && x.after == Snapshot(TryAll(c.handler, c.settings, all), s.rows) && x.room == s.pools
            && Taken(c.handler, c.settings, all)
            == Taken(c.handler, c.settings, attempts) + if x.error.None? then {t} else {}
  {
    hide AddTo, TxsOf, Offered, TryAll, Taken;
    if a.Some? {
      OfferedWithRoom(c, lastHeight, s, t, a.value, x);
      TryAllNext(c.handler, c.settings, attempts, Attempt(t, ArrivalOf(a.value, lastHeight), a.value.wallets));
    } else {
      assert attempts + [] == attempts;
    }
  }

  lemma TakenNext(txs: set<Tx>, ids: set<Tx>, before: set<Tx>, forged: set<Tx>, added: set<Tx>, diverted: set<Tx>,
                  t: Tx, taken: bool, all: set<Tx>)
    requires ForgedState(txs, ids, before, forged, added, diverted) && diverted == all * before
    requires (taken ==> t !in txs) && before <= ids
    ensures (all + if taken then {t} else {}) * before
         == if !taken then diverted else if t in ids then diverted + {t} else diverted - {t}
  {
  }

  /** The forged part with room: the mempool is what the attempts make of an empty one, what was diverted is what they
      have taken of the stored ones, and the table has kept its rows. */
  lemma {:induction false} ForgedWithRoom<S>(c: Limits<S>, lastHeight: int, rows: seq<Stored>, all: seq<Tx>, n: nat,
                                            answers: nat -> Option<Answer<S>>, trace: seq<Snapshot<S>>,
                                            steps: seq<Step<S>>)
    requires ForgedRun(c, lastHeight, all, answers, trace, steps) && n <= |all|
    requires trace[0] == Snapshot(map[], rows) && UniqueIds(rows) && |Members(all)| < c.max
    ensures var attempts := ForgedAttempts(all[..n], answers, lastHeight);
            && trace[n].pools == TryAll(c.handler, c.settings, attempts)
            && DivertedOf(all[..n], steps[..n]) == Taken(c.handler, c.settings, attempts) * IdsOf(rows)
            && Extends(rows, trace[n].rows, AcceptedOf(all[..n], steps[..n]))
    decreases n
  {
    hide ForgedTry, Sane, ForgedState, IdsOf, TxsOf, Members, UniqueIds, Extends, Attempted;
    if n == 0 {
      assert all[..0] == [] && steps[..0] == [];
      ExtendsItself(rows);
    } else {
      var k := n - 1;
      ForgedWithRoom(c, lastHeight, rows, all, k, answers, trace, steps);
      ForgedKeeps(c, lastHeight, rows, all, k, answers, trace, steps);
      assert ForgedTry(c, lastHeight, trace[k], all[k], answers(k), steps[k], trace[k + 1]);
      assert all[..n][..k] == all[..k] && steps[..n][..k] == steps[..k];
      ForgedTryWithRoom(c, lastHeight, trace[k], all[k], answers(k), steps[k], trace[n], rows, Members(all),
                        AcceptedOf(all[..k], steps[..k]), DivertedOf(all[..k], steps[..k]),
                        ForgedAttempts(all[..k], answers, lastHeight));
    }
  }

  lemma ExtendsItself(rows: seq<Stored>)
    ensures Extends(rows, rows, [])
  {
  }

  lemma ForgedTryWithRoom<S>(c: Limits<S>, lastHeight: int, s: Snapshot<S>, t: Tx, a: Option<Answer<S>>, x: Step<S>,
                             s1: Snapshot<S>, rows: seq<Stored>, forged: set<Tx>, added: seq<Tx>, diverted: set<Tx>,
                             attempts: seq<Attempt<S>>)
    requires Sane(c, s) && ForgedTry(c, lastHeight, s, t, a, x, s1) && |forged| < c.max
    requires ForgedState(TxsOf(s.pools), IdsOf(s.rows), IdsOf(rows), forged, Members(added), diverted)
    requires s.pools == TryAll(c.handler, c.settings, attempts) && Extends(rows, s.rows, added)
    requires diverted == Taken(c.handler, c.settings, attempts) * IdsOf(rows)
    ensures var all := attempts + Attempted(t, a, lastHeight);
            && s1.pools == TryAll(c.handler, c.settings, all)
            && Taken(c.handler, c.settings, all) * IdsOf(rows)
            == (if OutcomeOf(t, x) == Diverted then diverted + {t}
                else if OutcomeOf(t, x) == Accepted then diverted - {t} else diverted)
            && Extends(rows, s1.rows, added + if OutcomeOf(t, x) == Accepted then [t] else [])
  {
    hide Retried, ForgedState, IdsOf, TxsOf, Members, Extends, Attempted, TryAll, Taken;
    RoomForForged(TxsOf(s.pools), IdsOf(s.rows), IdsOf(rows), forged, Members(added), diverted);
    RetriedWithRoom(c, lastHeight, s, t, a, x, attempts);
    RetriedSets(c, lastHeight, s, t, a, x);
    ExtendsIds(rows, s.rows, added);
    TakenNext(TxsOf(s.pools), IdsOf(s.rows), IdsOf(rows), forged, Members(added), diverted, t, x.error.None?,
              Taken(c.handler, c.settings, attempts));
    assert added + [] == added;
    if OutcomeOf(t, x) == Accepted { ExtendsNext(rows, s.rows, added, Stored(t, lastHeight)); }
  }

  lemma RoomForForged(txs: set<Tx>, ids: set<Tx>, before: set<Tx>, forged: set<Tx>, added: set<Tx>, diverted: set<Tx>)
    requires ForgedState(txs, ids, before, forged, added, diverted)
    ensures |txs| <= |forged|
  {
    SubsetSize(txs, forged);
  }

  lemma ExtendsIds(rows: seq<Stored>, table: seq<Stored>, stored: seq<Tx>)
    requires Extends(rows, table, stored)
    ensures IdsOf(rows) <= IdsOf(table)
  {
  }

  lemma {:induction false} StoredWithRoom<S>(c: Limits<S>, lastHeight: int, all: seq<Stored>, n: nat, skipped: seq<Tx>,
                                            answers: Tx -> Option<Answer<S>>, trace: seq<Snapshot<S>>,
                                            steps: seq<Step<S>>, before: set<Tx>, forged: set<Tx>, diverted: set<Tx>,
                                            attempts: seq<Attempt<S>>)
    requires StoredRun(c, lastHeight, all, skipped, answers, trace, steps) && n <= |all| && UniqueIds(all)
    requires Sane(c, trace[0]) && |before + forged| < c.max
    requires StoredState(TxsOf(trace[0].pools), IdsOf(trace[0].rows), before, forged, diverted, RestOf(all, 0, skipped))
    requires trace[0].pools == TryAll(c.handler, c.settings, attempts)
    ensures trace[n].pools == TryAll(c.handler, c.settings, attempts +
                                StoredAttempts(all[..n], answers, lastHeight, lastHeight - c.age, skipped))
    ensures TxsOf(trace[0].pools) <= TxsOf(trace[n].pools)
    decreases n
  {
    hide StoredTry, Sane, StoredState, IdsOf, TxsOf, UniqueIds, RestOf, Attempted, TryAll;
    if n == 0 {
      assert all[..0] == [] && attempts + [] == attempts;
    } else {
      var k := n - 1;
      StoredWithRoom(c, lastHeight, all, k, skipped, answers, trace, steps, before, forged, diverted, attempts);
      StoredKeeps(c, lastHeight, all, k, skipped, answers, trace, steps, before, forged, diverted);
      assert StoredStep(c, lastHeight, all[k], skipped, answers, trace[k], steps[k], trace[k + 1]);
      assert all[..n][..k] == all[..k];
      var earlier := StoredAttempts(all[..k], answers, lastHeight, lastHeight - c.age, skipped);
      if all[k].tx in skipped {
        assert earlier + [] == earlier;
      } else {
        StoredTryWithRoom(c, lastHeight, trace[k], all[k], answers(all[k].tx), steps[k], trace[n], before, forged,
                          diverted, RestOf(all, k, skipped), attempts + earlier);
        Associates(attempts, earlier, if all[k].height > lastHeight - c.age
                                      then Attempted(all[k].tx, answers(all[k].tx), lastHeight) else []);
      }
    }
  }

  lemma Associates<T>(xs: seq<T>, ys: seq<T>, zs: seq<T>)
    ensures xs + ys + zs == xs + (ys + zs)
  {
  }

  lemma StoredTryWithRoom<S>(c: Limits<S>, lastHeight: int, s: Snapshot<S>, r: Stored, a: Option<Answer<S>>, x: Step<S>,
                             s1: Snapshot<S>, before: set<Tx>, forged: set<Tx>, diverted: set<Tx>, rest: set<Tx>,
                             attempts: seq<Attempt<S>>)
    requires Sane(c, s) && StoredTry(c, lastHeight, s, r, a, x, s1) && |before + forged| < c.max
    requires StoredState(TxsOf(s.pools), IdsOf(s.rows), before, forged, diverted, rest)
    requires s.pools == TryAll(c.handler, c.settings, attempts)
    ensures s1.pools == TryAll(c.handler, c.settings,
                          attempts + if r.height > lastHeight - c.age then Attempted(r.tx, a, lastHeight) else [])
    ensures TxsOf(s.pools) <= TxsOf(s1.pools)
  {
    hide Retried, StoredState, IdsOf, TxsOf, Attempted, TryAll, Taken;
    if r.height > lastHeight - c.age {
      RoomForStored(TxsOf(s.pools), IdsOf(s.rows), before, forged, diverted, rest);
      RetriedWithRoom(c, lastHeight, s, r.tx, a, x, attempts);
      RetriedSets(c, lastHeight, s, r.tx, a, x);
    } else {
      assert attempts + [] == attempts;
    }
  }

  lemma RoomForStored(txs: set<Tx>, ids: set<Tx>, before: set<Tx>, forged: set<Tx>, diverted: set<Tx>, rest: set<Tx>)
    requires StoredState(txs, ids, before, forged, diverted, rest)
    ensures |txs| <= |before + forged|
  {
    SubsetSize(txs, before + forged);
  }

  /** With room for everything, the mempool is what trying the forged and then the stored transactions in order makes of
      an empty one, and the stores agree exactly if no stored transaction was taken as forged. */
  lemma RebuiltWithRoom<S>(c: Limits<S>, lastHeight: int, rows: seq<Stored>, forged: seq<Tx>,
                           forgedAnswers: nat -> Option<Answer<S>>, storedAnswers: Tx -> Option<Answer<S>>,
                           r: Course<S>, end: Snapshot<S>)
    requires UniqueIds(rows) && Rebuilt(c, lastHeight, rows, forged, forgedAnswers, storedAnswers, r, end)
    requires |IdsOf(rows) + Members(forged)| < c.max
    ensures |forged| == |r.forgedSteps|
    ensures var first := ForgedAttempts(forged, forgedAnswers, lastHeight);
            var second := StoredAttempts(rows, storedAnswers, lastHeight, lastHeight - c.age, []);
            var taken := Taken(c.handler, c.settings, first);
            && end.pools == TryAll(c.handler, c.settings, first + second)
            && DivertedOf(forged, r.forgedSteps) == taken * IdsOf(rows)
            && taken <= TxsOf(end.pools)
            && (TxsOf(end.pools) == IdsOf(end.rows) <==> taken !! IdsOf(rows))
  {
    hide ForgedRun, StoredRun, ForgedState, StoredState, IdsOf, TxsOf, Members, UniqueIds, AllKept, RestOf, Extends,
      TryAll, Taken, ForgedAttempts, StoredAttempts;
    RebuiltAgrees(c, lastHeight, rows, forged, forgedAnswers, storedAnswers, r, end);
    Lengths(c, lastHeight, forged, forgedAnswers, r.forgedTrace, r.forgedSteps);
    var n, kept, diverted := |forged|, AcceptedOf(forged, r.forgedSteps), DivertedOf(forged, r.forgedSteps);
    var middle := r.forgedTrace[n];
    var first := ForgedAttempts(forged, forgedAnswers, lastHeight);
    SubsetSize(Members(forged), IdsOf(rows) + Members(forged));
    ForgedWithRoom(c, lastHeight, rows, forged, n, forgedAnswers, r.forgedTrace, r.forgedSteps);
    ForgedKeeps(c, lastHeight, rows, forged, n, forgedAnswers, r.forgedTrace, r.forgedSteps);
    assert forged[..n] == forged && r.forgedSteps[..n] == r.forgedSteps;
    StoredBegins(TxsOf(middle.pools), IdsOf(middle.rows), IdsOf(rows), Members(forged), Members(kept), diverted);
    RestOfAll(middle.rows, kept);
    StoredWithRoom(c, lastHeight, middle.rows, |middle.rows|, kept, storedAnswers, r.storedTrace, r.storedSteps,
                   IdsOf(rows), Members(forged), diverted, first);
    assert middle.rows[..|middle.rows|] == middle.rows;
    SameAttempts(rows, middle.rows, kept, storedAnswers, lastHeight, lastHeight - c.age);
    TakenAre(c.handler, c.settings, first);
  }
}
