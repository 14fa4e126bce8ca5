/** The transaction pool: sender pools and storage that must agree, and eviction that keeps the pool bounded. */
module PoolServices {
  import opened Options
  import opened Merging
  import opened Pools
  import opened PoolStorages
  import opened PoolTransactions
  import opened Queries
  import opened Readding
  import opened SenderPools
  import opened Sequences

  // ----- the mempool -----

  class Mempool<S> {
    var senderMempools: Pools<S>
    const handler: Handler<S>
    const settings: Settings

    ghost predicate Valid()
      reads this
    {
      AllKept(senderMempools)
    }

    function Txs(): set<Tx>
      reads this
    {
      TxsOf(senderMempools)
    }

    constructor (handler: Handler<S>, settings: Settings)
      ensures Valid() && senderMempools == map[]
      ensures this.handler == handler && this.settings == settings
    {
      this.handler, this.settings := handler, settings;
      senderMempools := map[];
    }

    method GetSize() returns (size: nat)
      requires Valid()
      ensures size == |Txs()|
    {
      size := 0;
      var left := senderMempools.Keys;
      ghost var counted: set<Tx> := {};
      while left != {}
        invariant left <= senderMempools.Keys
        invariant size == |counted|
        invariant forall t :: t in counted <==>
          (t.sender in senderMempools && t.sender !in left && t in senderMempools[t.sender].transactions)
      {
        var s :| s in left;
        ghost var more := Members(senderMempools[s].transactions);
        assert Kept(s, senderMempools[s]);
        DistinctSize(senderMempools[s].transactions);
        size := size + |senderMempools[s].transactions|;
        assert more !! counted;
        counted := counted + more;
        left := left - {s};
      }
      assert counted == Txs() by {
        forall t ensures t in counted <==> t in Txs() { TxsOfAt(senderMempools, t); }
      }
    }

    method AddTransaction(t: Tx, a: Arrival, wallets: S) returns (error: Option<Error>)
      requires Valid()
      modifies this
      ensures Valid() && (senderMempools, error) == AddTo(handler, settings, old(senderMempools), t, a, wallets)
    {
      AddToTxs(handler, settings, senderMempools, t, a, wallets);
      var p := if t.sender in senderMempools then senderMempools[t.sender] else SenderPool([], wallets, false);
      var added := Add(handler, settings, p, t, a);
      error := added.1;
      if error.None? && t in p.transactions {
        return Some(TransactionFailedToApply);
      }
      senderMempools := PutPool(senderMempools, t.sender, added.0);
    }

    method RemoveTransaction(t: Tx) returns (removed: seq<Tx>)
      requires Valid()
      modifies this
      ensures Valid() && senderMempools == Cut(handler, old(senderMempools), {t})
      ensures Members(removed) == old(Txs()) - Txs()
    {
      RemoveIsCut(handler, senderMempools, t);
      CutKept(handler, senderMempools, {t});
      if t.sender !in senderMempools {
        return [];
      }
      var after := Remove(handler, senderMempools[t.sender], t);
      senderMempools := PutPool(senderMempools, t.sender, after.0);
      return after.1;
    }

    method RemoveForgedTransaction(t: Tx) returns (removed: seq<Tx>)
      requires Valid()
      modifies this
      ensures Valid() && senderMempools == RemoveForgedFrom(old(senderMempools), t).0
      ensures Members(removed) == old(Txs()) - Txs() && Txs() <= old(Txs()) && t !in Txs()
    {
      RemoveForgedKeepsRest(senderMempools, t);
      if t.sender !in senderMempools {
        return [];
      }
      var after := RemoveForged(senderMempools[t.sender], t);
      senderMempools := PutPool(senderMempools, t.sender, after.0);
      return after.1;
    }

    method Flush()
      modifies this
      ensures Valid() && senderMempools == map[]
    {
      senderMempools := map[];
    }
  }

  lemma StillBacked(p: set<Tx>, q: set<Tx>, ids: set<Tx>, after: set<Tx>)
    requires q <= p && after == ids - (p - q)
    ensures p == ids ==> q == after
  {
  }

  /** What the service listens for. */
  datatype Event = BuilderFinished | MilestoneChanged | BlockApplied

  class Service<S> {
    const mempool: Mempool<S>
    var storage: seq<Stored>
    var disposed: bool
    var lastHeight: int
    const maxTransactionsInPool: nat
    const maxTransactionAge: nat

    /** The mempool begins empty, and the table with the rows that the last session has left in it. */
    constructor (handler: Handler<S>, settings: Settings, maxTransactionsInPool: nat, maxTransactionAge: nat,
                 rows: seq<Stored>, lastHeight: int)
      requires UniqueIds(rows)
      ensures Valid() && fresh(mempool) && mempool.senderMempools == map[] && storage == rows
      ensures mempool.handler == handler && mempool.settings == settings
      ensures !disposed && this.lastHeight == lastHeight
      ensures this.maxTransactionsInPool == maxTransactionsInPool && this.maxTransactionAge == maxTransactionAge
    {
      mempool := new Mempool(handler, settings);
      storage, disposed, this.lastHeight := rows, false, lastHeight;
      this.maxTransactionsInPool, this.maxTransactionAge := maxTransactionsInPool, maxTransactionAge;
    }

    ghost predicate Valid()
      reads this, mempool
    {
      mempool.Valid() && UniqueIds(storage)
    }

    /** Both stores hold the same transactions, and no more than the pool may. */
    ghost predicate Synced()
      reads this, mempool
    {
      Valid() && mempool.Txs() == IdsOf(storage) && |mempool.Txs()| <= maxTransactionsInPool
    }

    ghost function Rules(): Limits<S>
      reads this
    {
      Limits(mempool.handler, mempool.settings, maxTransactionsInPool, maxTransactionAge)
    }

    ghost function Now(): Snapshot<S>
      reads this, mempool
    {
      Snapshot(mempool.senderMempools, storage)
    }

    ghost function StaleOnes(): set<Tx>
      reads this, mempool
    {
      StaleIn(Rules(), Now(), lastHeight)
    }

    /** The causes have left the mempool with what they take along, the row of each has left the storage too, and
        nothing else has happened. */
    twostate predicate CutBy(causes: set<Tx>)
      reads this, mempool
    {
      && mempool.senderMempools == Cut(mempool.handler, old(mempool.senderMempools), causes)
      && Shrunk()
    }

    twostate predicate Shrunk()
      reads this, mempool
    {
      && mempool.Txs() <= old(mempool.Txs())
      && storage == Purged(old(storage), old(mempool.Txs()) - mempool.Txs())
      && disposed == old(disposed) && lastHeight == old(lastHeight)
    }

    predicate HasTransaction(t: Tx)
      reads this
      ensures HasTransaction(t) <==> t in IdsOf(storage)
    {
      exists r | r in storage :: r.tx == t
    }

    /** The insertion fails where the id is in the table. */
    method StorageAdd(t: Tx) returns (ok: bool)
      requires UniqueIds(storage)
      modifies this`storage
      ensures ok <==> t !in old(IdsOf(storage))
      ensures storage == if ok then old(storage) + [Stored(t, lastHeight)] else old(storage)
      ensures UniqueIds(storage) && IdsOf(storage) == old(IdsOf(storage)) + {t}
    {
      ok := !HasTransaction(t);
      if ok {
        AppendedIds(storage, Stored(t, lastHeight));
        storage := storage + [Stored(t, lastHeight)];
      }
    }

    method StorageRemove(t: Tx)
      requires UniqueIds(storage)
      modifies this`storage
      ensures UniqueIds(storage) && storage == Purged(old(storage), {t})
    {
      PurgedIds(storage, {t});
      storage := Purged(storage, {t});
    }

    method StorageRemoveAll(removed: seq<Tx>)
      requires UniqueIds(storage)
      modifies this`storage
      ensures UniqueIds(storage) && storage == Purged(old(storage), Members(removed))
    {
      hide IdsOf, UniqueIds, Purged, Members;
      var i := 0;
      NonePurged(storage);
      assert removed[..0] == [];
      while i < |removed|
        invariant 0 <= i <= |removed| && UniqueIds(storage)
        invariant storage == Purged(old(storage), Members(removed[..i]))
      {
        PurgedTwice(old(storage), Members(removed[..i]), {removed[i]});
        MembersNext(removed, i);
        StorageRemove(removed[i]);
        i := i + 1;
      }
      assert removed[..i] == removed;
    }

    static lemma NonePurged(rows: seq<Stored>)
      ensures Purged(rows, Members([])) == rows && Purged(rows, {}) == rows
    {
      PurgedNothing(rows, {});
      assert Members<Tx>([]) == {};
    }

    /** Removes a transaction, and what goes with it, from the mempool and then from the storage. */
    method Evict(t: Tx)
      requires Valid()
      modifies this`storage, mempool
      ensures Valid() && CutBy({t})
    {
      hide TxsOf, IdsOf, UniqueIds, AllKept, Cut, Purged;
      CutTxs(mempool.handler, mempool.senderMempools, {t});
      var removed := mempool.RemoveTransaction(t);
      StorageRemoveAll(removed);
    }

    /** Evicts one more after those in `done`. */
    method EvictNext(ghost s: Snapshot<S>, ghost done: set<Tx>, t: Tx)
      requires Valid() && AllKept(s.pools) && mempool.senderMempools == Cut(mempool.handler, s.pools, done)
      requires storage == Purged(s.rows, TxsOf(s.pools) - mempool.Txs())
      modifies this`storage, mempool
      ensures Valid() && disposed == old(disposed) && lastHeight == old(lastHeight)
      ensures mempool.senderMempools == Cut(mempool.handler, s.pools, done + {t})
      ensures storage == Purged(s.rows, TxsOf(s.pools) - mempool.Txs())
    {
      hide TxsOf, IdsOf, UniqueIds, AllKept, Cut, Mempool.Txs, Purged;
      CutTwice(mempool.handler, s.pools, done, {t});
      CutTxs(mempool.handler, s.pools, done);
      ghost var middle := mempool.Txs();
      assert middle == TxsOf(mempool.senderMempools) by { SameTxs(); }
      Evict(t);
      PurgedTogether(s.rows, TxsOf(s.pools), middle, mempool.Txs());
    }

    lemma SameTxs()
      ensures mempool.Txs() == TxsOf(mempool.senderMempools)
    {
    }

    /** Exactly the transactions stored at or before the age limit leave, with what is behind them. */
    method RemoveOldTransactions()
      requires Valid()
      modifies this`storage, mempool
      ensures Valid() && CutBy(old(IdsOf(OldOnes(storage, lastHeight - maxTransactionAge))))
    {
      hide TxsOf, IdsOf, UniqueIds, AllKept, Cut, Mempool.Txs, OldOnes, Purged;
      var olds := OldOnes(storage, lastHeight - maxTransactionAge);
      ghost var s := Now();
      Begins(s);
      SameTxs();
      var i := 0;
      while i < |olds|
        invariant 0 <= i <= |olds| && Valid() && disposed == old(disposed) && lastHeight == old(lastHeight)
        invariant mempool.senderMempools == Cut(mempool.handler, s.pools, IdsOf(olds[..i]))
        invariant storage == Purged(s.rows, TxsOf(s.pools) - mempool.Txs())
      {
        EvictNext(s, IdsOf(olds[..i]), olds[i].tx);
        AppendedIds(olds[..i], olds[i]);
        assert olds[..i + 1] == olds[..i] + [olds[i]];
        i := i + 1;
      }
      assert olds[..i] == olds;
      SameTxs();
      CutTxs(mempool.handler, s.pools, IdsOf(olds));
    }

    lemma Begins(s: Snapshot<S>)
      requires AllKept(s.pools)
      ensures Cut(mempool.handler, s.pools, IdsOf([])) == s.pools && Cut(mempool.handler, s.pools, {}) == s.pools
      ensures s.rows == Purged(s.rows, TxsOf(s.pools) - TxsOf(s.pools))
    {
      CutNothing(mempool.handler, s.pools, {});
      NonePurged(s.rows);
      assert IdsOf([]) == {};
      assert TxsOf(s.pools) - TxsOf(s.pools) == {};
    }

    /** Exactly the expired transactions leave, with what is behind them. */
    method RemoveExpiredTransactions()
      requires Valid()
      modifies this`storage, mempool
      ensures Valid() && CutBy(old(ExpiredOnes(mempool.senderMempools, lastHeight)))
    {
      hide TxsOf, IdsOf, UniqueIds, AllKept, Cut, Mempool.Txs, Expired, Purged;
      ghost var s := Now();
      Begins(s);
      SameTxs();
      var left := TxsOf(mempool.senderMempools);
      ghost var done: set<Tx> := {};
      while left != {}
        invariant Valid() && disposed == old(disposed) && lastHeight == old(lastHeight) && left <= TxsOf(s.pools)
        invariant mempool.senderMempools == Cut(mempool.handler, s.pools, done)
        invariant storage == Purged(s.rows, TxsOf(s.pools) - mempool.Txs())
        invariant done == set t | t in TxsOf(s.pools) && t !in left && Expired(t, lastHeight + 1)
      {
        var t :| t in left;
        if Expired(t, lastHeight + 1) {
          EvictNext(s, done, t);
          done := done + {t};
        }
        left := left - {t};
      }
      assert done == ExpiredOnes(s.pools, lastHeight);
      SameTxs();
      CutTxs(mempool.handler, s.pools, done);
    }

    /** Exactly what is stale leaves, with what is behind it. */
    method RemoveStaleTransactions()
      requires Valid()
      modifies this`storage, mempool
      ensures Valid() && CutBy(old(StaleOnes())) && |mempool.Txs()| <= |old(mempool.Txs())|
      ensures mempool.Txs() !! old(StaleOnes())
    {
      hide TxsOf, IdsOf, UniqueIds, AllKept, Cut, Mempool.Txs, Expired, OldOnes, Stale, Purged;
      ghost var s := Now();
      StaleIsCut(mempool.handler, s.rows, s.pools, lastHeight, lastHeight - maxTransactionAge);
      RemoveOldTransactions();
      ghost var middle := mempool.Txs();
      RemoveExpiredTransactions();
      PurgedTogether(s.rows, old(mempool.Txs()), middle, mempool.Txs());
      CutTxs(mempool.handler, s.pools, old(StaleOnes()));
      SameTxs();
      SubsetSize(mempool.Txs(), old(mempool.Txs()));
    }

    /** The lists of the sender pools, in whatever order. */
    method SenderLists() returns (lists: seq<seq<Tx>>)
      ensures forall t :: t in TxsOf(mempool.senderMempools) <==> InSome(lists, t)
    {
      hide InSome;
      lists := [];
      var left := mempool.senderMempools.Keys;
      NoLists();
      while left != {}
        invariant left <= mempool.senderMempools.Keys
        invariant forall t :: InSome(lists, t) <==> t in TxsOf(mempool.senderMempools - left)
      {
        var s :| s in left;
        var list := mempool.senderMempools[s].transactions;
        forall t ensures InSome(lists + [list], t) <==> InSome(lists, t) || t in list { OneMoreList(lists, list, t); }
        OneMorePool(mempool.senderMempools, left, s);
        lists := lists + [list];
        left := left - {s};
      }
      assert mempool.senderMempools - {} == mempool.senderMempools;
    }

    static lemma NoLists()
      ensures forall t :: !InSome([], t)
    {
    }

    static lemma OneMoreList(lists: seq<seq<Tx>>, list: seq<Tx>, t: Tx)
      ensures InSome(lists + [list], t) <==> InSome(lists, t) || t in list
    {
      assert (lists + [list])[|lists|] == list;
      if i :| 0 <= i < |lists| && t in lists[i] { assert (lists + [list])[i] == lists[i]; }
    }

    static lemma OneMorePool(pools: Pools<S>, left: set<nat>, s: nat)
      requires s in left && s in pools
      ensures forall t :: t in TxsOf(pools - (left - {s})) <==> t in TxsOf(pools - left) || t in pools[s].transactions
    {
      var before, after := pools - left, pools - (left - {s});
      assert after == before[s := pools[s]];
      forall t ensures t in TxsOf(after) <==> t in TxsOf(before) || t in pools[s].transactions {
        assert after[s] == pools[s];
        if u :| u in before && t in before[u].transactions { assert u in after && after[u] == before[u]; }
      }
    }

    /** The first of the transactions that the query gives has the lowest fee. */
    method Lowest() returns (t: Tx)
      requires mempool.Valid() && mempool.Txs() != {}
      ensures IsLowest(mempool.senderMempools, t)
    {
      hide TxsOf, InSome, FromLowestPriority;
      ghost var someone :| someone in mempool.Txs();
      var lists := SenderLists();
      FirstHasLowestFee(lists);
      assert someone in FromLowestPriority(lists);
      NoPredicates(FromLowestPriority(lists));
      var query := new QueryIterable(FromLowestPriority(lists));
      var first := query.First();
      t := first.value;
    }

    /** One transaction with the lowest fee leaves, with what is behind it, unless the pool is empty. */
    method RemoveLowestPriorityTransaction() returns (ghost lowest: Option<Tx>)
      requires Valid()
      modifies this`storage, mempool
      ensures Valid() && CutBy(if lowest.Some? then {lowest.value} else {})
      ensures if old(mempool.Txs()) == {} then lowest.None?
              else lowest.Some? && IsLowest(old(mempool.senderMempools), lowest.value) && lowest.value !in mempool.Txs()
    {
      hide TxsOf, IdsOf, UniqueIds, AllKept, Cut, Mempool.Txs, Purged;
      SameTxs();
      var size := mempool.GetSize();
      if size == 0 {
        Begins(Now());
        return None;
      }
      var t := Lowest();
      CutTxs(mempool.handler, mempool.senderMempools, {t});
      Evict(t);
      SameTxs();
      lowest := Some(t);
    }

    /** Every pass removes a transaction at least, so the loop ends. What is evicted had the lowest fee when its turn
        came, and there are no more of these than the pool held too many. */
    method RemoveLowestPriorityTransactions() returns (ghost evicted: set<Tx>)
      requires Valid()
      modifies this`storage, mempool
      ensures Valid() && CutBy(evicted) && |mempool.Txs()| <= maxTransactionsInPool
      ensures evicted <= old(mempool.Txs()) && forall e, u | e in evicted && u in mempool.Txs() :: e.fee <= u.fee
      ensures evicted == {} || |evicted| + maxTransactionsInPool <= |old(mempool.Txs())|
      ensures |old(mempool.Txs())| <= maxTransactionsInPool ==>
                evicted == {} && mempool.senderMempools == old(mempool.senderMempools)
    {
      hide TxsOf, IdsOf, UniqueIds, AllKept, Cut, Mempool.Txs, Purged;
      ghost var s := Now();
      Begins(s);
      SameTxs();
      evicted := {};
      var size := mempool.GetSize();
      while size > maxTransactionsInPool
        invariant Valid() && disposed == old(disposed) && lastHeight == old(lastHeight) && size == |mempool.Txs()|
        invariant mempool.senderMempools == Cut(mempool.handler, s.pools, evicted)
        invariant storage == Purged(s.rows, TxsOf(s.pools) - mempool.Txs())
        invariant mempool.Txs() <= TxsOf(s.pools) && evicted <= TxsOf(s.pools) && evicted !! mempool.Txs()
        invariant forall e, u | e in evicted && u in mempool.Txs() :: e.fee <= u.fee
        invariant |evicted| + size <= |TxsOf(s.pools)|
        invariant evicted == {} || |evicted| + maxTransactionsInPool <= |TxsOf(s.pools)|
        invariant |TxsOf(s.pools)| <= maxTransactionsInPool ==> evicted == {}
        decreases size
      {
        ghost var before := mempool.Txs();
        SameTxs();
        ghost var lowest := RemoveLowestPriorityTransaction();
        CutTwice(mempool.handler, s.pools, evicted, {lowest.value});
        PurgedTogether(s.rows, TxsOf(s.pools), before, mempool.Txs());
        Smaller(mempool.Txs(), before, lowest.value);
        PlusOne(evicted, lowest.value);
        evicted := evicted + {lowest.value};
        size := mempool.GetSize();
      }
      SameTxs();
    }

    /** Exactly what is stale leaves, with what is behind it, and the lowest fees if the pool is still too large. */
    method CleanUp() returns (ghost evicted: set<Tx>)
      requires Valid()
      modifies this`storage, mempool
      ensures Valid() && (old(Synced()) ==> Synced())
      ensures disposed ==> unchanged(this) && unchanged(mempool)
      ensures !disposed ==>
                && CutBy(old(StaleOnes()) + evicted) && mempool.Txs() !! old(StaleOnes())
                && |mempool.Txs()| <= maxTransactionsInPool
                && (forall e, u | e in evicted && u in mempool.Txs() :: e.fee <= u.fee)
      ensures |old(mempool.Txs())| <= maxTransactionsInPool ==> evicted == {}
    {
      hide TxsOf, IdsOf, UniqueIds, AllKept, Cut, Mempool.Txs, Stale, Purged;
      evicted := {};
      if disposed { return; }
      ghost var s := Now();
      RemoveStaleTransactions();
      ghost var middle := mempool.Txs();
      evicted := RemoveLowestPriorityTransactions();
      CutTwice(mempool.handler, s.pools, old(StaleOnes()), evicted);
      PurgedTogether(s.rows, old(mempool.Txs()), middle, mempool.Txs());
      PurgedIds(s.rows, old(mempool.Txs()) - mempool.Txs());
      StillBacked(old(mempool.Txs()), mempool.Txs(), IdsOf(s.rows), IdsOf(storage));
    }

    /** Makes room for `t` where the pool is full, or says why there is none. */
    method MakeRoom(t: Tx) returns (error: Option<PoolError>, ghost lowest: Option<Tx>)
      requires Valid() && |mempool.Txs()| <= maxTransactionsInPool
      modifies this`storage, mempool
      ensures Valid() && Shrunk() && |mempool.Txs()| <= maxTransactionsInPool
      ensures MakesRoom(mempool.handler, old(mempool.senderMempools), old(StaleOnes()), maxTransactionsInPool, t,
                        mempool.senderMempools, lowest, error)
      ensures error.None? ==> |mempool.Txs()| < maxTransactionsInPool
    {
      hide TxsOf, IdsOf, UniqueIds, AllKept, Cut, Mempool.Txs, Stale, Purged;
      lowest, error := None, None;
      SameTxs();
      ghost var all, rows := mempool.Txs(), storage;
      Begins(Now());
      var size := mempool.GetSize();
      if size < maxTransactionsInPool { return; }
      RemoveStaleTransactions();
      ghost var middle := mempool.Txs();
      ghost var evicted := RemoveLowestPriorityTransactions();
      PurgedTogether(rows, all, middle, mempool.Txs());
      SameTxs();
      size := mempool.GetSize();
      if size < maxTransactionsInPool { return; }
      if size == 0 { return Some(NotFound), None; }
      var low := Lowest();
      if t.fee <= low.fee { return Some(PoolFull), None; }
      ghost var before := mempool.Txs();
      lowest := RemoveLowestPriorityTransaction();
      SameTxs();
      PurgedTogether(rows, all, before, mempool.Txs());
      Smaller(mempool.Txs(), before, lowest.value);
    }

    /** A transaction enters a pool with room as it is. It enters a full one, cleaned up and still full, only if its fee
        is above the lowest there, whose transaction then leaves. */
    method AddTransactionToMempool(t: Tx, a: Answer<S>) returns (error: Option<PoolError>, ghost x: Step<S>)
      requires Valid() && |mempool.Txs()| <= maxTransactionsInPool
      modifies this`storage, mempool
      ensures Valid() && |mempool.Txs()| <= maxTransactionsInPool
      ensures disposed == old(disposed) && lastHeight == old(lastHeight)
      ensures Offered(Rules(), lastHeight, old(Now()), t, a, x) && x.after == Now() && x.error == error
    {
      hide TxsOf, IdsOf, UniqueIds, AllKept, Cut, Mempool.Txs, Stale, MakesRoom, AddTo, Purged;
      SameTxs();
      ghost var lowest;
      error, lowest := MakeRoom(t);
      ghost var room := mempool.senderMempools;
      SameTxs();
      if error.None? {
        AddToTxs(mempool.handler, mempool.settings, room, t, ArrivalOf(a, lastHeight), a.wallets);
        PlusOne(TxsOf(room), t);
        var rejected := mempool.AddTransaction(t, ArrivalOf(a, lastHeight), a.wallets);
        SameTxs();
        error := if rejected.Some? then Some(Rejected(rejected.value)) else None;
      }
      x := Step(Now(), error, room, lowest);
    }

    /** A new transaction gets its row first, so that nothing else can add it meanwhile, and loses it where it is
        refused; it enters both stores or neither. A pool with room loses nothing, and a full one what makes room. */
    method AddTransaction(t: Tx, feeMatches: bool, a: Answer<S>) returns (error: Option<PoolError>, ghost x: Step<S>)
      requires Valid() && |mempool.Txs()| <= maxTransactionsInPool
      modifies this`storage, mempool
      ensures Valid() && |mempool.Txs()| <= maxTransactionsInPool && (old(Synced()) ==> Synced())
      ensures disposed == old(disposed) && lastHeight == old(lastHeight)
      ensures disposed ==> error.None? && unchanged(this) && unchanged(mempool)
      ensures !disposed && t in old(IdsOf(storage)) ==> error == Some(AlreadyInPool) && Now() == old(Now())
      ensures !disposed && t !in old(IdsOf(storage)) && !feeMatches ==>
                error == Some(Rejected(TransactionFailedToApply)) && Now() == old(Now())
      ensures !disposed && t !in old(IdsOf(storage)) && feeMatches ==>
                Entered(Rules(), lastHeight, old(Now()), t, a, x, Now()) && x.error == error
      ensures !disposed && t !in old(mempool.Txs()) && t !in old(IdsOf(storage)) ==>
                (error.None? <==> t in mempool.Txs()) && (error.None? <==> t in IdsOf(storage))
      ensures !disposed && error.None? ==> feeMatches && Fit(mempool.settings, t, ArrivalOf(a, lastHeight))
    {
      hide TxsOf, IdsOf, UniqueIds, AllKept, Cut, Mempool.Txs, Offered, Purged;
      x := Step(Now(), None, map[], None);
      if disposed { return None, x; }
      if HasTransaction(t) { return Some(AlreadyInPool), x; }
      ghost var s := Now();
      SameTxs();
      PurgedAppended(storage, Stored(t, lastHeight), {t});
      PurgedNothing(storage, {t});
      var stored := StorageAdd(t);
      if !feeMatches {
        error := Some(Rejected(TransactionFailedToApply));
      } else {
        error, x := AddTransactionToMempool(t, a);
      }
      if error.Some? {
        StorageRemove(t);
      }
      SameTxs();
      if feeMatches {
        EnteredAgrees(Rules(), lastHeight, s, t, a, x, Now());
        OfferedIsFit(Rules(), lastHeight, Snapshot(s.pools, s.rows + [Stored(t, lastHeight)]), t, a, x);
      } else {
        assert Now() == s;
      }
    }

    /** The transaction, if it is stored, leaves both stores with what is behind it, and nothing else does. */
    method RemoveTransaction(t: Tx)
      requires Valid()
      modifies this`storage, mempool
      ensures Valid() && (old(Synced()) ==> Synced())
      ensures disposed || t !in old(IdsOf(storage)) ==> unchanged(this) && unchanged(mempool)
      ensures !disposed && t in old(IdsOf(storage)) ==>
                && mempool.senderMempools == Cut(mempool.handler, old(mempool.senderMempools), {t})
                && t !in mempool.Txs() && mempool.Txs() <= old(mempool.Txs())
                && storage == Purged(old(storage), old(mempool.Txs()) - mempool.Txs() + {t})
    {
      hide TxsOf, IdsOf, UniqueIds, AllKept, Cut, Mempool.Txs, Purged;
      if disposed { return; }
      if !HasTransaction(t) { return; }
      SameTxs();
      CutTxs(mempool.handler, mempool.senderMempools, {t});
      var removed := mempool.RemoveTransaction(t);
      SameTxs();
      DropRows(removed, t);
      Gone(old(mempool.Txs()), mempool.Txs(), old(storage), t);
    }

    /** The rows of what has left the mempool go, and the row of the transaction itself. */
    method DropRows(removed: seq<Tx>, t: Tx)
      requires UniqueIds(storage)
      modifies this`storage
      ensures UniqueIds(storage) && storage == Purged(old(storage), Members(removed) + {t})
    {
      hide IdsOf, UniqueIds, Purged;
      PurgedTwice(storage, Members(removed), {t});
      StorageRemoveAll(removed);
      if t !in removed {
        StorageRemove(t);
      } else {
        assert Members(removed) + {t} == Members(removed);
      }
    }

    static lemma Gone(p: set<Tx>, q: set<Tx>, rows: seq<Stored>, t: Tx)
      requires q <= p && t !in q
      ensures |q| <= |p|
      ensures p == IdsOf(rows) ==> q == IdsOf(Purged(rows, p - q + {t}))
    {
      PurgedIds(rows, p - q + {t});
      SubsetSize(q, p);
    }

    /** The transaction, if it is stored, leaves both stores with what is before it in its sender's pool, and nothing
        else does. */
    method RemoveForgedTransaction(t: Tx)
      requires Valid()
      modifies this`storage, mempool
      ensures Valid() && (old(Synced()) ==> Synced())
      ensures disposed || t !in old(IdsOf(storage)) ==> unchanged(this) && unchanged(mempool)
      ensures !disposed && t in old(IdsOf(storage)) ==>
                && mempool.senderMempools == RemoveForgedFrom(old(mempool.senderMempools), t).0
                && t !in mempool.Txs() && mempool.Txs() <= old(mempool.Txs())
                && storage == Purged(old(storage), old(mempool.Txs()) - mempool.Txs() + {t})
    {
      hide TxsOf, IdsOf, UniqueIds, AllKept, RemoveForgedFrom, Mempool.Txs, Purged;
      if disposed { return; }
      if !HasTransaction(t) { return; }
      var removed := mempool.RemoveForgedTransaction(t);
      DropRows(removed, t);
      Gone(old(mempool.Txs()), mempool.Txs(), old(storage), t);
    }

    /** Both stores are empty, whatever was in them. */
    method Flush()
      requires Valid()
      modifies this`storage, mempool
      ensures Valid() && (!disposed ==> Synced())
      ensures disposed ==> unchanged(this) && unchanged(mempool)
      ensures !disposed ==> mempool.senderMempools == map[] && storage == []
    {
      if disposed { return; }
      mempool.Flush();
      storage := [];
    }

    // ----- readding -----

    /** Rebuilds the mempool: first from the forged transactions of blocks that were rolled back, then from storage,
        where what cannot be added again, or is too old, is dropped. Whatever was in the mempool before, and also
        where the stores did not agree, as at start-up: nothing is left in the storage alone; what was diverted was
        stored already when the mempool took it as forged, and if it is in the mempool at the end, it is there alone;
        with nothing passed in, the stores agree. */
    method ReaddTransactions(previouslyForged: seq<Tx>, forgedAnswers: nat -> Option<Answer<S>>,
                             storedAnswers: Tx -> Option<Answer<S>>) returns (ghost r: Course<S>)
      requires Valid()
      modifies this`storage, mempool
      ensures Valid() && disposed == old(disposed) && lastHeight == old(lastHeight)
      ensures disposed ==> unchanged(this) && unchanged(mempool)
      ensures !disposed ==>
                && Rebuilt(Rules(), lastHeight, old(storage), previouslyForged, forgedAnswers, storedAnswers, r, Now())
                && |r.forgedSteps| == |previouslyForged| && |mempool.Txs()| <= maxTransactionsInPool
                && IdsOf(storage) <= mempool.Txs() <= old(IdsOf(storage)) + Members(previouslyForged)
                && (forall t | t in mempool.Txs() ::
                      VouchedFor(Rules(), lastHeight, previouslyForged, forgedAnswers, storedAnswers, t))
                && var diverted := DivertedOf(previouslyForged, r.forgedSteps);
                && mempool.Txs() - IdsOf(storage) == mempool.Txs() * diverted
                && diverted <= Members(previouslyForged) * old(IdsOf(storage))
                && (Synced() <==> mempool.Txs() !! diverted)
      ensures !disposed && Members(previouslyForged) !! old(IdsOf(storage)) ==> Synced()
      ensures !disposed && |old(IdsOf(storage)) + Members(previouslyForged)| < maxTransactionsInPool ==>
                var forged := ForgedAttempts(previouslyForged, forgedAnswers, lastHeight);
                var kept := StoredAttempts(old(storage), storedAnswers, lastHeight, lastHeight - maxTransactionAge, []);
                var taken := Taken(mempool.handler, mempool.settings, forged);
                && mempool.senderMempools == TryAll(mempool.handler, mempool.settings, forged + kept)
                && DivertedOf(previouslyForged, r.forgedSteps) == taken * old(IdsOf(storage)) && taken <= mempool.Txs()
                && (Synced() <==> taken !! old(IdsOf(storage)))
    {
      hide TxsOf, IdsOf, UniqueIds, AllKept, Members, ForgedRun, StoredRun, Mempool.Txs, TryAll, Taken, ForgedAttempts,
        StoredAttempts, DivertedOf, AcceptedOf, VouchedFor;
      r := Course([], [], [], []);
      if disposed { return; }
      ghost var rows := storage;
      mempool.Flush();
      Nothing();
      var stored;
      ghost var forgedTrace, forgedSteps, storedTrace, storedSteps;
      stored, forgedTrace, forgedSteps := ReaddForged(previouslyForged, forgedAnswers);
      storedTrace, storedSteps := ReaddStored(stored, storedAnswers);
      r := Course(forgedTrace, forgedSteps, storedTrace, storedSteps);
      RebuiltAgrees(Rules(), lastHeight, rows, previouslyForged, forgedAnswers, storedAnswers, r, Now());
      RebuiltIsVouchedFor(Rules(), lastHeight, rows, previouslyForged, forgedAnswers, storedAnswers, r, Now());
      if |IdsOf(rows) + Members(previouslyForged)| < maxTransactionsInPool {
        RebuiltWithRoom(Rules(), lastHeight, rows, previouslyForged, forgedAnswers, storedAnswers, r, Now());
      }
      SameTxs();
    }

    lemma Nothing()
      requires mempool.senderMempools == map[]
      ensures mempool.Txs() == {}
    {
    }

    /** Returns the transactions that it has stored. */
    method ReaddForged(previouslyForged: seq<Tx>, answers: nat -> Option<Answer<S>>)
      returns (stored: seq<Tx>, ghost trace: seq<Snapshot<S>>, ghost steps: seq<Step<S>>)
      requires Valid() && |mempool.Txs()| <= maxTransactionsInPool
      modifies this`storage, mempool
      ensures Valid() && |mempool.Txs()| <= maxTransactionsInPool
      ensures disposed == old(disposed) && lastHeight == old(lastHeight)
      ensures ForgedRun(Rules(), lastHeight, previouslyForged, answers, trace, steps)
      ensures trace[0] == old(Now()) && trace[|previouslyForged|] == Now()
              && stored == AcceptedOf(previouslyForged, steps)
    {
      hide TxsOf, IdsOf, UniqueIds, AllKept, Mempool.Txs, ForgedTry;
      stored, trace, steps := [], [Now()], [];
      var i := 0;
      while i < |previouslyForged|
        invariant 0 <= i <= |previouslyForged| && Valid() && |mempool.Txs()| <= maxTransactionsInPool
        invariant disposed == old(disposed) && lastHeight == old(lastHeight)
        invariant ForgedRun(Rules(), lastHeight, previouslyForged[..i], answers, trace, steps)
        invariant trace[0] == old(Now()) && trace[i] == Now() && stored == AcceptedOf(previouslyForged[..i], steps)
      {
        ghost var before := Now();
        ghost var x;
        var added;
        added, x := ReaddForgedOne(previouslyForged[i], answers(i));
        ForgedRunNext(Rules(), lastHeight, previouslyForged, i, answers, trace, steps, x, Now());
        if added {
          stored := stored + [previouslyForged[i]];
        }
        trace, steps := trace + [Now()], steps + [x];
        i := i + 1;
      }
      assert previouslyForged[..i] == previouslyForged;
    }

    method ReaddForgedOne(t: Tx, a: Option<Answer<S>>) returns (stored: bool, ghost x: Step<S>)
      requires Valid() && |mempool.Txs()| <= maxTransactionsInPool
      modifies this`storage, mempool
      ensures Valid() && |mempool.Txs()| <= maxTransactionsInPool
      ensures disposed == old(disposed) && lastHeight == old(lastHeight)
      ensures ForgedTry(Rules(), lastHeight, old(Now()), t, a, x, Now()) && (stored <==> OutcomeOf(t, x) == Accepted)
    {
      hide TxsOf, IdsOf, UniqueIds, AllKept, Mempool.Txs, Offered;
      stored, x := false, Step(Now(), Some(Unreadable), mempool.senderMempools, None);
      if a.Some? {
        var error;
        error, x := AddTransactionToMempool(t, a.value);
        if error.None? {
          stored := StorageAdd(t);
        }
      }
    }

    method ReaddStored(skipped: seq<Tx>, answers: Tx -> Option<Answer<S>>)
      returns (ghost trace: seq<Snapshot<S>>, ghost steps: seq<Step<S>>)
      requires Valid() && |mempool.Txs()| <= maxTransactionsInPool
      modifies this`storage, mempool
      ensures Valid() && |mempool.Txs()| <= maxTransactionsInPool
      ensures disposed == old(disposed) && lastHeight == old(lastHeight)
      ensures StoredRun(Rules(), lastHeight, old(storage), skipped, answers, trace, steps)
      ensures trace[0] == old(Now()) && trace[|old(storage)|] == Now()
    {
      hide TxsOf, IdsOf, UniqueIds, AllKept, Mempool.Txs, StoredTry;
      var all := storage;
      trace, steps := [Now()], [];
      var i := 0;
      while i < |all|
        invariant 0 <= i <= |all| && Valid() && |mempool.Txs()| <= maxTransactionsInPool
        invariant disposed == old(disposed) && lastHeight == old(lastHeight)
        invariant StoredRun(Rules(), lastHeight, all[..i], skipped, answers, trace, steps)
        invariant trace[0] == old(Now()) && trace[i] == Now()
      {
        ghost var x := Step(Now(), None, mempool.senderMempools, None);
        if all[i].tx !in skipped {
          x := ReaddStoredOne(all[i], answers(all[i].tx));
        }
        StoredRunNext(Rules(), lastHeight, all, i, skipped, answers, trace, steps, x, Now());
        trace, steps := trace + [Now()], steps + [x];
        i := i + 1;
      }
      assert all[..i] == all;
    }

    method ReaddStoredOne(r: Stored, a: Option<Answer<S>>) returns (ghost x: Step<S>)
      requires Valid() && |mempool.Txs()| <= maxTransactionsInPool
      modifies this`storage, mempool
      ensures Valid() && |mempool.Txs()| <= maxTransactionsInPool
      ensures disposed == old(disposed) && lastHeight == old(lastHeight)
      ensures StoredTry(Rules(), lastHeight, old(Now()), r, a, x, Now())
    {
      hide TxsOf, IdsOf, UniqueIds, AllKept, Mempool.Txs, Offered, Purged;
      x := Step(Now(), Some(Unreadable), mempool.senderMempools, None);
      if r.height > lastHeight - maxTransactionAge {
        var error := Some(Unreadable);
        if a.Some? {
          error, x := AddTransactionToMempool(r.tx, a.value);
        }
        if error.Some? {
          StorageRemove(r.tx);
        }
      } else {
        StorageRemove(r.tx);
      }
    }

    /** What the pool does by itself: it rebuilds the mempool when the state has been built and when the milestone
        changes, whereupon the stores agree even if they did not before, and cleans up after a block. */
    method Handle(event: Event, answers: Tx -> Option<Answer<S>>)
      requires Valid()
      modifies this`storage, mempool
      ensures Valid() && (old(Synced()) ==> Synced())
      ensures disposed ==> unchanged(this) && unchanged(mempool)
      ensures !disposed && !event.BlockApplied? ==> Synced() && IdsOf(storage) <= old(IdsOf(storage))
      ensures !disposed && !event.BlockApplied? && |old(IdsOf(storage))| < maxTransactionsInPool ==>
                mempool.senderMempools == TryAll(mempool.handler, mempool.settings,
                  StoredAttempts(old(storage), answers, lastHeight, lastHeight - maxTransactionAge, []))
      ensures !disposed && event.BlockApplied? ==> mempool.Txs() !! old(StaleOnes())
    {
      hide TxsOf, IdsOf, UniqueIds, AllKept, Cut, Mempool.Txs, TryAll, Stale, Rebuilt, Purged, StoredAttempts;
      if event.BlockApplied? {
        ghost var evicted := CleanUp();
      } else {
        NothingPassedIn(old(IdsOf(storage)), answers);
        ghost var r := ReaddTransactions([], _ => None, answers);
      }
    }

    lemma NothingPassedIn(ids: set<Tx>, answers: Tx -> Option<Answer<S>>)
      ensures ids + Members([]) == ids && Members([]) !! ids
      ensures ForgedAttempts<S>([], _ => None, lastHeight) == []
      ensures var kept := StoredAttempts(storage, answers, lastHeight, lastHeight - maxTransactionAge, []);
              ForgedAttempts<S>([], _ => None, lastHeight) + kept == kept
    {
    }
  }

  /** A run that leaves a transaction in the mempool alone, for every transaction that an empty pool takes: it is stored
      when it is passed in as forged, so the storage refuses its row, and drops the one it has when the mempool refuses
      it for the second time, or when it is too old. */
  method ReaddedAlone<S>(handler: Handler<S>, settings: Settings, t: Tx, a: Answer<S>, maxTransactionAge: nat)
    returns (service: Service<S>)
    requires AddTo(handler, settings, map[], t, ArrivalOf(a, 0), a.wallets).1.None?
    ensures fresh(service) && service.Valid() && !service.Synced()
    ensures service.mempool.Txs() == {t} && service.storage == []
  {
    hide AddTo, TxsOf, Rebuilt, UniqueIds, IdsOf, TryAll, Taken, ForgedAttempts, StoredAttempts, AllKept, ArrivalOf,
      DivertedOf;
    var rows, answers: nat -> Option<Answer<S>> := [Stored(t, 0)], _ => Some(a);
    OneRow(t);
    OneAttempt(handler, settings, t, answers);
    service := new Service(handler, settings, 2, maxTransactionAge, rows, 0);
    ghost var r := service.ReaddTransactions([t], answers, _ => Some(a));
    NoRows(service.storage);
    Alone(service, t);
  }

  lemma OneRow(t: Tx)
    ensures UniqueIds([Stored(t, 0)]) && IdsOf([Stored(t, 0)]) == {t} && |{t} + Members([t])| == 1
  {
    assert {t} + Members([t]) == {t};
  }

  lemma Alone<S>(service: Service<S>, t: Tx)
    requires service.mempool.Txs() == {t} && IdsOf(service.storage) == {}
    ensures !service.Synced()
  {
    assert t in service.mempool.Txs();
  }

  lemma OneAttempt<S>(handler: Handler<S>, settings: Settings, t: Tx, answers: nat -> Option<Answer<S>>)
    requires var a := answers(0);
             a.Some? && AddTo(handler, settings, map[], t, ArrivalOf(a.value, 0), a.value.wallets).1.None?
    ensures Taken(handler, settings, ForgedAttempts([t], answers, 0)) == {t}
  {
    hide AddTo, ArrivalOf;
    assert [t][..0] == [];
    assert ForgedAttempts([t], answers, 0) == [] + Attempted(t, answers(0), 0);
    TryAllNext(handler, settings, [], Attempted(t, answers(0), 0)[0]);
  }
}
