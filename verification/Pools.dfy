/** All sender pools together, on values: adding, removing, and what a removal takes along. */
module Pools {
  import opened Options
  import opened PoolTransactions
  import opened SenderPools
  import opened Sequences

  type Pools<S> = map<nat, SenderPool<S>>

  function ListOf<S>(pools: Pools<S>, s: nat): seq<Tx> {
    if s in pools then pools[s].transactions else []
  }

  function TxsOf<S>(pools: Pools<S>): set<Tx> {
    set s, t | s in pools && t in pools[s].transactions :: t
  }

  ghost predicate Kept<S>(s: nat, p: SenderPool<S>) {
    p.transactions != [] && Distinct(p.transactions) && forall t | t in p.transactions :: t.sender == s
  }

  /** Empty sender pools are disposed of; the others hold their sender's transactions, once each. */
  ghost predicate AllKept<S>(pools: Pools<S>) {
    forall s | s in pools :: Kept(s, pools[s])
  }

  lemma TxsOfAt<S>(pools: Pools<S>, t: Tx)
    requires AllKept(pools)
    ensures t in TxsOf(pools) <==> t in ListOf(pools, t.sender)
  {
    if s :| s in pools && t in pools[s].transactions { assert Kept(s, pools[s]); }
  }

  /** Puts a sender's pool back, or disposes of it. */
  function PutPool<S>(pools: Pools<S>, s: nat, p: SenderPool<S>): Pools<S> {
    if p.transactions == [] then pools - {s} else pools[s := p]
  }

  lemma PutPoolKept<S>(pools: Pools<S>, s: nat, p: SenderPool<S>)
    requires AllKept(pools) && (p.transactions != [] ==> Kept(s, p))
    ensures AllKept(PutPool(pools, s, p))
    ensures forall t: Tx ::
              t in TxsOf(PutPool(pools, s, p)) <==> if t.sender == s then t in p.transactions else t in TxsOf(pools)
  {
    var q := PutPool(pools, s, p);
    assert AllKept(q);
    forall t: Tx ensures t in TxsOf(q) <==> if t.sender == s then t in p.transactions else t in TxsOf(pools) {
      hide TxsOf;
      TxsOfAt(q, t);
      TxsOfAt(pools, t);
    }
  }

  // ----- adding -----

  /** A new sender pool starts from the wallets as they are then. A transaction that is pending already is refused, if
      not for another reason, then by its handler, because its nonce has been used. */
  function AddTo<S>(h: Handler<S>, settings: Settings, pools: Pools<S>, t: Tx, a: Arrival, wallets: S)
    : (Pools<S>, Option<Error>)
  {
    var p := if t.sender in pools then pools[t.sender] else SenderPool([], wallets, false);
    var (q, error) := Add(h, settings, p, t, a);
    if error.None? && t in p.transactions then (pools, Some(TransactionFailedToApply))
    else (PutPool(pools, t.sender, q), error)
  }

  lemma AddToTxs<S>(h: Handler<S>, settings: Settings, pools: Pools<S>, t: Tx, a: Arrival, wallets: S)
    requires AllKept(pools)
    ensures var (q, error) := AddTo(h, settings, pools, t, a, wallets);
            && AllKept(q)
            && (error.Some? ==> q == pools)
            && (error.None? ==> t !in TxsOf(pools))
            && TxsOf(q) == if error.None? then TxsOf(pools) + {t} else TxsOf(pools)
  {
    hide TxsOf, ApplyState;
    TxsOfAt(pools, t);
    var p: SenderPool<S> := if t.sender in pools then pools[t.sender] else SenderPool([], wallets, false);
    var (q, error) := Add(h, settings, p, t, a);
    assert t.sender in pools ==> Kept(t.sender, p);
    if error.Some? {
      assert q == p && PutPool(pools, t.sender, q) == pools;
    } else if t !in p.transactions {
      AppendedDistinct(p.transactions, t);
      PutPoolKept(pools, t.sender, q);
      forall u: Tx ensures u in TxsOf(PutPool(pools, t.sender, q)) <==> u in TxsOf(pools) + {t} {
        TxsOfAt(pools, u);
      }
    }
  }

  /** A transaction enters exactly if it is fit and not pending, the limit of its sender leaves room or does not
      apply, and the handler takes it, on the sender's state or, for a new sender, on the wallets as they are. */
  lemma AddToIffFit<S>(h: Handler<S>, settings: Settings, pools: Pools<S>, t: Tx, a: Arrival, wallets: S)
    ensures AddTo(h, settings, pools, t, a, wallets).1.None? <==>
              && Fit(settings, t, a) && t !in ListOf(pools, t.sender)
              && (|ListOf(pools, t.sender)| < settings.maxPerSender || t.sender in settings.allowedSenders)
              && (t.sender in pools ==> !pools[t.sender].corrupt)
              && h.apply(if t.sender in pools then pools[t.sender].state else wallets, t).Some?
  {
    AddedIffFit(h, settings, if t.sender in pools then pools[t.sender] else SenderPool([], wallets, false), t, a);
  }

  lemma AppendedDistinct(xs: seq<Tx>, t: Tx)
    ensures Distinct(xs) && t !in xs ==> Distinct(xs + [t])
  {
  }

  // ----- cutting -----

  /** The first of the causes in a list, or its length. */
  function FirstOf(xs: seq<Tx>, causes: set<Tx>): (i: nat)
    ensures i <= |xs| && (i < |xs| ==> xs[i] in causes)
    ensures forall j | 0 <= j < i :: xs[j] !in causes
  {
    if xs == [] || xs[0] in causes then 0 else 1 + FirstOf(xs[1..], causes)
  }

  /** What is left of one sender's pool when the causes are removed: everything before the first of them, or nothing, if
      a revert fails. Without a cause the pool stays as it is. */
  function CutPool<S>(h: Handler<S>, p: SenderPool<S>, causes: set<Tx>): SenderPool<S> {
    var i := FirstOf(p.transactions, causes);
    if i == |p.transactions| then p else
      var (state, ok) := RevertAll(h, p.state, p.transactions[i..]);
      if ok then SenderPool(p.transactions[..i], state, p.corrupt) else SenderPool([], state, true)
  }

  /** What is left of all pools: senders without a cause keep theirs. */
  function Cut<S>(h: Handler<S>, pools: Pools<S>, causes: set<Tx>): Pools<S> {
    map s | s in pools && CutPool(h, pools[s], causes).transactions != [] :: CutPool(h, pools[s], causes)
  }

  /** A transaction stays if its sender has no cause, or if it is before the first one and all reverts succeed. */
  ghost predicate Survives<S>(h: Handler<S>, p: SenderPool<S>, causes: set<Tx>, t: Tx) {
    var i := FirstOf(p.transactions, causes);
    i < |p.transactions| ==> t in p.transactions[..i] && RevertAll(h, p.state, p.transactions[i..]).1
  }

  lemma CutKept<S>(h: Handler<S>, pools: Pools<S>, causes: set<Tx>)
    requires AllKept(pools)
    ensures AllKept(Cut(h, pools, causes))
    ensures forall s :: ListOf(Cut(h, pools, causes), s) <= ListOf(pools, s)
  {
    hide RevertAll, FirstOf;
    forall s | s in Cut(h, pools, causes) ensures Kept(s, Cut(h, pools, causes)[s]) {
      assert Kept(s, pools[s]);
    }
  }

  /** Exactly the causes, what is behind them, and the pools in which a revert fails leave. */
  lemma CutTxs<S>(h: Handler<S>, pools: Pools<S>, causes: set<Tx>)
    requires AllKept(pools)
    ensures forall t :: t in TxsOf(Cut(h, pools, causes)) <==>
              t in TxsOf(pools) && t.sender in pools && Survives(h, pools[t.sender], causes, t)
    ensures TxsOf(Cut(h, pools, causes)) <= TxsOf(pools) && TxsOf(Cut(h, pools, causes)) !! causes
  {
    hide RevertAll, TxsOf, AllKept;
    CutKept(h, pools, causes);
    forall t
      ensures t in TxsOf(Cut(h, pools, causes)) <==>
                t in TxsOf(pools) && t.sender in pools && Survives(h, pools[t.sender], causes, t)
      ensures t in causes ==> t !in TxsOf(Cut(h, pools, causes))
    {
      TxsOfAt(pools, t);
      TxsOfAt(Cut(h, pools, causes), t);
      if t.sender in pools { SurvivorsOf(h, pools[t.sender], causes, t); }
    }
  }

  lemma SurvivorsOf<S>(h: Handler<S>, p: SenderPool<S>, causes: set<Tx>, t: Tx)
    ensures t in CutPool(h, p, causes).transactions <==> t in p.transactions && Survives(h, p, causes, t)
    ensures t in causes ==> t !in CutPool(h, p, causes).transactions
  {
    hide RevertAll;
    var i := FirstOf(p.transactions, causes);
    assert p.transactions == p.transactions[..i] + p.transactions[i..];
  }

  /** Nothing to remove: nothing leaves. */
  lemma CutNothing<S>(h: Handler<S>, pools: Pools<S>, causes: set<Tx>)
    requires AllKept(pools) && TxsOf(pools) !! causes
    ensures Cut(h, pools, causes) == pools
  {
    hide RevertAll;
    forall s | s in pools ensures CutPool(h, pools[s], causes) == pools[s] && pools[s].transactions != [] {
      assert Kept(s, pools[s]);
      assert forall t | t in pools[s].transactions :: t in TxsOf(pools);
    }
  }

  /** Reverting a list is reverting its end and then its beginning. */
  lemma {:induction false} RevertAllSplit<S>(h: Handler<S>, state: S, xs: seq<Tx>, ys: seq<Tx>)
    ensures var (middle, ok) := RevertAll(h, state, ys);
            && (!ok ==> !RevertAll(h, state, xs + ys).1)
            && (ok ==> RevertAll(h, state, xs + ys) == RevertAll(h, middle, xs))
    decreases |ys|
  {
    if ys == [] {
      assert xs + ys == xs;
    } else {
      var all := xs + ys;
      assert all[..|all| - 1] == xs + ys[..|ys| - 1];
      match h.revert(state, ys[|ys| - 1])
      case None =>
      case Some(s) => RevertAllSplit(h, s, xs, ys[..|ys| - 1]);
    }
  }

  lemma {:induction false} FirstOfPrefix(xs: seq<Tx>, n: nat, causes: set<Tx>)
    requires n <= |xs|
    ensures FirstOf(xs[..n], causes) == if FirstOf(xs, causes) < n then FirstOf(xs, causes) else n
    decreases |xs|
  {
    if n > 0 && xs[0] !in causes {
      assert xs[..n][1..] == xs[1..][..n - 1];
      FirstOfPrefix(xs[1..], n - 1, causes);
    }
  }

  lemma {:induction false} FirstOfUnion(xs: seq<Tx>, a: set<Tx>, b: set<Tx>)
    ensures FirstOf(xs, a + b) == if FirstOf(xs, a) < FirstOf(xs, b) then FirstOf(xs, a) else FirstOf(xs, b)
    decreases |xs|
  {
    if xs != [] && xs[0] !in a && xs[0] !in b { FirstOfUnion(xs[1..], a, b); }
  }

  lemma CutPoolTwice<S>(h: Handler<S>, p: SenderPool<S>, a: set<Tx>, b: set<Tx>)
    ensures CutPool(h, p, a).transactions == [] ==> CutPool(h, p, a + b).transactions == []
    ensures CutPool(h, p, a).transactions != [] ==>
              || CutPool(h, CutPool(h, p, a), b) == CutPool(h, p, a + b)
              || (CutPool(h, CutPool(h, p, a), b).transactions == [] && CutPool(h, p, a + b).transactions == [])
  {
    hide RevertAll, FirstOf;
    var xs := p.transactions;
    var i, j := FirstOf(xs, a), FirstOf(xs, b);
    FirstOfUnion(xs, a, b);
    FirstOfPrefix(xs, i, b);
    if i < |xs| && j < i {
      assert xs[j..] == xs[j..i] + xs[i..];
      assert xs[..i][j..] == xs[j..i] && xs[..i][..j] == xs[..j];
      RevertAllSplit(h, p.state, xs[j..i], xs[i..]);
    }
  }

  /** Removing some and then others leaves what removing all of them at once leaves, in whatever order. */
  lemma CutTwice<S>(h: Handler<S>, pools: Pools<S>, a: set<Tx>, b: set<Tx>)
    ensures Cut(h, Cut(h, pools, a), b) == Cut(h, pools, a + b)
  {
    hide CutPool;
    forall s | s in pools
      ensures s in Cut(h, Cut(h, pools, a), b) <==> s in Cut(h, pools, a + b)
      ensures s in Cut(h, pools, a + b) ==> Cut(h, Cut(h, pools, a), b)[s] == Cut(h, pools, a + b)[s]
    {
      CutPoolTwice(h, pools[s], a, b);
    }
  }

  // ----- removing -----

  function RemoveFrom<S>(h: Handler<S>, pools: Pools<S>, t: Tx): (Pools<S>, seq<Tx>) {
    if t.sender !in pools then (pools, []) else
      var (p, removed) := Remove(h, pools[t.sender], t);
      (PutPool(pools, t.sender, p), removed)
  }

  lemma {:induction false} FirstOfOne(xs: seq<Tx>, t: Tx)
    ensures FirstOf(xs, {t}) == if t in xs then IndexOf(xs, t) else |xs|
    decreases |xs|
  {
    if xs != [] && xs[0] != t { FirstOfOne(xs[1..], t); }
  }

  lemma RemoveIsCutPool<S>(h: Handler<S>, p: SenderPool<S>, t: Tx)
    requires Distinct(p.transactions)
    ensures Remove(h, p, t).0 == CutPool(h, p, {t})
         || (Remove(h, p, t).0.transactions == [] && CutPool(h, p, {t}).transactions == [])
    ensures forall u :: u in Remove(h, p, t).1 <==> u in p.transactions && u !in CutPool(h, p, {t}).transactions
  {
    hide RevertAll, FirstOf, Reversed, Distinct;
    FirstOfOne(p.transactions, t);
    if t in p.transactions { SplitMembers(p.transactions, IndexOf(p.transactions, t)); }
  }

  /** Cutting a list in two, and handing out one end or both newest first. */
  lemma SplitMembers(xs: seq<Tx>, i: nat)
    requires Distinct(xs) && i <= |xs|
    ensures forall u :: u in Reversed(xs[i..]) <==> u in xs && u !in xs[..i]
    ensures forall u :: u in Reversed(xs[i..]) + Reversed(xs[..i]) <==> u in xs
  {
    hide Reversed;
    ReversedMembers(xs[i..]);
    ReversedMembers(xs[..i]);
    assert xs == xs[..i] + xs[i..];
    forall u | u in xs[i..] ensures u !in xs[..i] {
      var j :| i <= j < |xs| && xs[j] == u;
    }
  }

  /** Removing a transaction takes it and what is behind it, and returns exactly what has left. */
  lemma RemoveIsCut<S>(h: Handler<S>, pools: Pools<S>, t: Tx)
    requires AllKept(pools)
    ensures RemoveFrom(h, pools, t).0 == Cut(h, pools, {t})
    ensures forall u :: u in RemoveFrom(h, pools, t).1 <==> u in TxsOf(pools) && u !in TxsOf(Cut(h, pools, {t}))
  {
    hide RevertAll, TxsOf, Remove, CutPool;
    var q := Cut(h, pools, {t});
    forall s | s in pools && s != t.sender ensures s in q && q[s] == pools[s] {
      assert Kept(s, pools[s]);
      OtherPoolUncut(h, pools[s], s, t);
    }
    if t.sender in pools {
      assert Kept(t.sender, pools[t.sender]);
      RemoveIsCutPool(h, pools[t.sender], t);
    }
    assert RemoveFrom(h, pools, t).0 == q;
    CutKept(h, pools, {t});
    forall u ensures u in RemoveFrom(h, pools, t).1 <==> u in TxsOf(pools) && u !in TxsOf(q) {
      TxsOfAt(pools, u);
      TxsOfAt(q, u);
      if u in RemoveFrom(h, pools, t).1 { assert u.sender == t.sender; }
    }
  }

  /** Where one transaction is removed, other senders keep everything, and its sender keeps what is before it, unless a
      revert fails. */
  lemma CutOne<S>(h: Handler<S>, pools: Pools<S>, t: Tx)
    requires AllKept(pools)
    ensures forall s | s != t.sender :: ListOf(Cut(h, pools, {t}), s) == ListOf(pools, s)
    ensures var list := ListOf(pools, t.sender);
            ListOf(Cut(h, pools, {t}), t.sender) ==
              if t !in list then list
              else if RevertAll(h, pools[t.sender].state, list[IndexOf(list, t)..]).1 then list[..IndexOf(list, t)]
              else []
  {
    hide RevertAll, FirstOf;
    forall s | s in pools && s != t.sender
      ensures CutPool(h, pools[s], {t}) == pools[s] && pools[s].transactions != []
    {
      assert Kept(s, pools[s]);
      OtherPoolUncut(h, pools[s], s, t);
    }
    if t.sender in pools {
      assert Kept(t.sender, pools[t.sender]);
      FirstOfOne(pools[t.sender].transactions, t);
    }
  }

  lemma OtherPoolUncut<S>(h: Handler<S>, p: SenderPool<S>, s: nat, t: Tx)
    requires Kept(s, p) && s != t.sender
    ensures CutPool(h, p, {t}) == p
  {
    hide RevertAll;
  }

  /** Removes a forged transaction and all before it from its sender's pool. */
  function RemoveForgedFrom<S>(pools: Pools<S>, t: Tx): (Pools<S>, seq<Tx>) {
    if t.sender !in pools then (pools, []) else
      var (p, removed) := RemoveForged(pools[t.sender], t);
      (PutPool(pools, t.sender, p), removed)
  }

  /** Other senders keep everything; the sender keeps what was behind the forged transaction; what has left is
      returned. */
  lemma RemoveForgedKeepsRest<S>(pools: Pools<S>, t: Tx)
    requires AllKept(pools)
    ensures var (q, removed) := RemoveForgedFrom(pools, t);
            && AllKept(q)
            && (forall s | s != t.sender :: (s in q <==> s in pools) && (s in pools ==> q[s] == pools[s]))
            && ListOf(pools, t.sender) == removed + ListOf(q, t.sender)
            && (if t in TxsOf(pools) then removed != [] && removed[|removed| - 1] == t else removed == [])
            && (forall u :: u in removed <==> u in TxsOf(pools) && u !in TxsOf(q))
            && TxsOf(q) <= TxsOf(pools) && t !in TxsOf(q)
  {
    hide TxsOf, RemoveForgedFrom;
    TxsOfAt(pools, t);
    ForgedLists(pools, t);
    var (q, removed) := RemoveForgedFrom(pools, t);
    forall u
      ensures u in removed <==> u in TxsOf(pools) && u !in TxsOf(q)
      ensures u in TxsOf(q) ==> u in TxsOf(pools)
      ensures t !in TxsOf(q)
    {
      TxsOfAt(pools, u);
      TxsOfAt(q, u);
      TxsOfAt(q, t);
    }
  }

  lemma ForgedLists<S>(pools: Pools<S>, t: Tx)
    requires AllKept(pools)
    ensures var (q, removed) := RemoveForgedFrom(pools, t);
            && AllKept(q)
            && (forall s | s != t.sender :: (s in q <==> s in pools) && (s in pools ==> q[s] == pools[s]))
            && ListOf(pools, t.sender) == removed + ListOf(q, t.sender)
            && (if t in ListOf(pools, t.sender) then removed != [] && removed[|removed| - 1] == t else removed == [])
            && t !in ListOf(q, t.sender)
            && (forall u | u in removed :: u !in ListOf(q, t.sender) && u.sender == t.sender)
  {
    hide RemoveForged, AllKept, TxsOf, Kept;
    if t.sender in pools {
      assert Kept(t.sender, pools[t.sender]) by { SenderKept(pools, t.sender); }
      ForgedSplits(pools[t.sender], t.sender, t);
      PutPoolKept(pools, t.sender, RemoveForged(pools[t.sender], t).0);
    }
  }

  lemma SenderKept<S>(pools: Pools<S>, s: nat)
    requires AllKept(pools) && s in pools
    ensures Kept(s, pools[s])
  {
  }

  lemma ForgedSplits<S>(p: SenderPool<S>, s: nat, t: Tx)
    requires Kept(s, p)
    ensures var (q, removed) := RemoveForged(p, t);
            && p.transactions == removed + q.transactions
            && (q.transactions != [] ==> Kept(s, q))
            && (if t in p.transactions then removed != [] && removed[|removed| - 1] == t else removed == [])
            && t !in q.transactions
            && (forall u | u in removed :: u !in q.transactions && u.sender == s)
  {
    var (q, removed) := RemoveForged(p, t);
    assert p.transactions == removed + q.transactions;
    forall u | u in removed ensures u !in q.transactions {
      var j :| 0 <= j < |removed| && removed[j] == u;
      assert p.transactions[j] == u;
    }
  }

  // ----- attempts -----

  datatype Attempt<S> = Attempt(tx: Tx, arrival: Arrival, wallets: S)

  /** The pools after a list of attempts on an empty mempool with room for all of them. */
  function TryAll<S>(h: Handler<S>, settings: Settings, attempts: seq<Attempt<S>>): Pools<S> {
    if attempts == [] then map[] else
      var last := attempts[|attempts| - 1];
      AddTo(h, settings, TryAll(h, settings, attempts[..|attempts| - 1]), last.tx, last.arrival, last.wallets).0
  }

  /** The transactions that the attempts have brought in. */
  function Taken<S>(h: Handler<S>, settings: Settings, attempts: seq<Attempt<S>>): set<Tx> {
    if attempts == [] then {} else
      var front, last := attempts[..|attempts| - 1], attempts[|attempts| - 1];
      Taken(h, settings, front) +
      if AddTo(h, settings, TryAll(h, settings, front), last.tx, last.arrival, last.wallets).1.None?
      then {last.tx} else {}
  }

  lemma {:induction false} TakenAre<S>(h: Handler<S>, settings: Settings, attempts: seq<Attempt<S>>)
    ensures AllKept(TryAll(h, settings, attempts))
    ensures TxsOf(TryAll(h, settings, attempts)) == Taken(h, settings, attempts)
  {
    hide AddTo, TxsOf;
    if attempts == [] {
      NoPools<S>();
    } else {
      var front, last := attempts[..|attempts| - 1], attempts[|attempts| - 1];
      TakenAre(h, settings, front);
      AddToTxs(h, settings, TryAll(h, settings, front), last.tx, last.arrival, last.wallets);
    }
  }

  lemma NoPools<S>()
    ensures var none: Pools<S> := map[]; AllKept(none) && TxsOf(none) == {}
  {
  }

  lemma TryAllNext<S>(h: Handler<S>, settings: Settings, attempts: seq<Attempt<S>>, a: Attempt<S>)
    ensures TryAll(h, settings, attempts + [a])
         == AddTo(h, settings, TryAll(h, settings, attempts), a.tx, a.arrival, a.wallets).0
    ensures Taken(h, settings, attempts + [a]) == Taken(h, settings, attempts) +
              if AddTo(h, settings, TryAll(h, settings, attempts), a.tx, a.arrival, a.wallets).1.None?
              then {a.tx} else {}
  {
    hide AddTo;
    assert (attempts + [a])[..|attempts|] == attempts;
  }

  // ----- making room -----

  lemma {:induction false} FirstOfSame(xs: seq<Tx>, a: set<Tx>, b: set<Tx>)
    requires forall t | t in xs :: t in a <==> t in b
    ensures FirstOf(xs, a) == FirstOf(xs, b)
    decreases |xs|
  {
    if xs != [] {
      assert xs[0] in a <==> xs[0] in b;
      if xs[0] !in a { FirstOfSame(xs[1..], a, b); }
    }
  }

  /** Only the causes that are pending matter. */
  lemma CutSame<S>(h: Handler<S>, pools: Pools<S>, a: set<Tx>, b: set<Tx>)
    requires forall t | t in TxsOf(pools) :: t in a <==> t in b
    ensures Cut(h, pools, a) == Cut(h, pools, b)
  {
    hide RevertAll, FirstOf;
    forall s | s in pools ensures CutPool(h, pools[s], a) == CutPool(h, pools[s], b) {
      assert forall t | t in pools[s].transactions :: t in TxsOf(pools);
      FirstOfSame(pools[s].transactions, a, b);
    }
  }

  datatype PoolError = AlreadyInPool | PoolFull | Rejected(error: Error) | NotFound | Unreadable

  /** How a pool of at most `max` transactions makes room for `t`. With room it stays as it is. A full one loses what is
      stale. If it is still full, it refuses `t` unless its fee is above the lowest, and then a transaction with the
      lowest fee is removed. */
  ghost predicate MakesRoom<S>(h: Handler<S>, pools: Pools<S>, stale: set<Tx>, max: nat, t: Tx,
                               room: Pools<S>, lowest: Option<Tx>, error: Option<PoolError>)
  {
    var cleaned := Cut(h, pools, stale);
    if |TxsOf(pools)| < max then room == pools && lowest == None && error == None
    else if |TxsOf(cleaned)| < max then room == cleaned && lowest == None && error == None
    else if TxsOf(cleaned) == {} then room == cleaned && lowest == None && error == Some(NotFound)
    else if forall u | u in TxsOf(cleaned) :: t.fee <= u.fee
    then room == cleaned && lowest == None && error == Some(PoolFull)
    else
      && lowest.Some? && IsLowest(cleaned, lowest.value) && lowest.value.fee < t.fee
      && room == Cut(h, cleaned, {lowest.value}) && error == None
  }

  ghost predicate IsLowest<S>(pools: Pools<S>, t: Tx) {
    t in TxsOf(pools) && forall u | u in TxsOf(pools) :: t.fee <= u.fee
  }

  /** The rule for a full pool in which nothing is stale: a fee no higher than any other is refused and costs nothing; a
      higher one costs a transaction with the lowest fee, what is behind it in its sender's pool, and nothing else. */
  lemma FullPoolRule<S>(h: Handler<S>, pools: Pools<S>, stale: set<Tx>, max: nat, t: Tx,
                        room: Pools<S>, lowest: Option<Tx>, error: Option<PoolError>)
    requires AllKept(pools) && MakesRoom(h, pools, stale, max, t, room, lowest, error)
    requires |TxsOf(pools)| >= max > 0 && TxsOf(pools) !! stale
    ensures if forall u | u in TxsOf(pools) :: t.fee <= u.fee
            then error == Some(PoolFull) && room == pools
            else && error == None && lowest.Some? && IsLowest(pools, lowest.value) && lowest.value.fee < t.fee
                 && room == Cut(h, pools, {lowest.value})
                 && lowest.value !in TxsOf(room)
                 && (forall u | u in TxsOf(pools) && u.sender != lowest.value.sender :: u in TxsOf(room))
                 && (forall u | u in TxsOf(pools) && u.sender == lowest.value.sender && u !in TxsOf(room) ::
                       u.sender in pools && !Survives(h, pools[u.sender], {lowest.value}, u))
  {
    hide TxsOf, Cut, FirstOf, RevertAll;
    CutNothing(h, pools, stale);
    if lowest.Some? {
      CutTxs(h, pools, {lowest.value});
      forall u | u in TxsOf(pools) && u.sender != lowest.value.sender ensures u in TxsOf(room) {
        TxsOfAt(pools, u);
        assert Kept(u.sender, pools[u.sender]);
        WithoutCause(h, pools[u.sender], u.sender, lowest.value, u);
      }
      forall u | u in TxsOf(pools) ensures u.sender in pools { TxsOfAt(pools, u); }
    }
  }

  lemma WithoutCause<S>(h: Handler<S>, p: SenderPool<S>, s: nat, cause: Tx, t: Tx)
    requires Kept(s, p) && cause.sender != s
    ensures Survives(h, p, {cause}, t)
  {
  }
}
