/** The table that the pool keeps its transactions in, what is stale in it, and how a transaction is tried. */
module PoolStorages {
  import opened Options
  import opened Pools
  import opened PoolTransactions
  import opened SenderPools

  // ----- rows -----

  datatype Stored = Stored(tx: Tx, height: int)

  function IdsOf(rows: seq<Stored>): set<Tx> {
    set r | r in rows :: r.tx
  }

  /** The table has a unique index on the ids. */
  ghost predicate UniqueIds(rows: seq<Stored>) {
    forall i, j | 0 <= i < j < |rows| :: rows[i].tx != rows[j].tx
  }

  /** The rows in their order, less those of some transactions. */
  function Purged(rows: seq<Stored>, gone: set<Tx>): seq<Stored> {
    if rows == [] then []
    else (if rows[0].tx in gone then [] else [rows[0]]) + Purged(rows[1..], gone)
  }

  lemma {:induction false} PurgedMembers(rows: seq<Stored>, gone: set<Tx>)
    ensures forall r :: r in Purged(rows, gone) <==> r in rows && r.tx !in gone
    ensures UniqueIds(rows) ==> UniqueIds(Purged(rows, gone))
    decreases |rows|
  {
    if rows != [] {
      PurgedMembers(rows[1..], gone);
      assert rows == [rows[0]] + rows[1..];
      if UniqueIds(rows) {
        var rest := Purged(rows[1..], gone);
        assert forall i | 0 <= i < |rest| :: rest[i] in rows[1..];
      }
    }
  }

  lemma PurgedIds(rows: seq<Stored>, gone: set<Tx>)
    ensures IdsOf(Purged(rows, gone)) == IdsOf(rows) - gone
    ensures UniqueIds(rows) ==> UniqueIds(Purged(rows, gone))
  {
    PurgedMembers(rows, gone);
    forall u ensures u in IdsOf(Purged(rows, gone)) <==> u in IdsOf(rows) - gone {
      if u in IdsOf(rows) - gone {
        var r :| r in rows && r.tx == u;
        assert r in Purged(rows, gone);
      }
    }
  }

  lemma {:induction false} PurgedTwice(rows: seq<Stored>, a: set<Tx>, b: set<Tx>)
    ensures Purged(Purged(rows, a), b) == Purged(rows, a + b)
    decreases |rows|
  {
    if rows != [] {
      PurgedTwice(rows[1..], a, b);
      var rest := Purged(rows[1..], a);
      if rows[0].tx in a {
        assert [] + rest == rest && [] + Purged(rows[1..], a + b) == Purged(rows[1..], a + b);
      } else {
        assert ([rows[0]] + rest)[1..] == rest && ([rows[0]] + rest)[0] == rows[0];
      }
    }
  }

  /** Rows that leave in two steps, as the transactions go from `a` to `b` and on to `c`. */
  lemma PurgedTogether(rows: seq<Stored>, a: set<Tx>, b: set<Tx>, c: set<Tx>)
    requires c <= b <= a
    ensures Purged(Purged(rows, a - b), b - c) == Purged(rows, a - c)
  {
    PurgedTwice(rows, a - b, b - c);
    assert a - b + (b - c) == a - c;
  }

  lemma {:induction false} PurgedNothing(rows: seq<Stored>, gone: set<Tx>)
    requires IdsOf(rows) !! gone
    ensures Purged(rows, gone) == rows
    decreases |rows|
  {
    if rows != [] {
      assert rows[0].tx in IdsOf(rows);
      assert IdsOf(rows[1..]) <= IdsOf(rows);
      PurgedNothing(rows[1..], gone);
    }
  }

  lemma {:induction false} PurgedAppended(rows: seq<Stored>, r: Stored, gone: set<Tx>)
    ensures Purged(rows + [r], gone) == Purged(rows, gone) + if r.tx in gone then [] else [r]
    decreases |rows|
  {
    if rows == [] {
      assert [] + [r] == [r] && [r][1..] == [];
    } else {
      PurgedAppended(rows[1..], r, gone);
      assert (rows + [r])[1..] == rows[1..] + [r] && (rows + [r])[0] == rows[0];
      var head, tail := if rows[0].tx in gone then [] else [rows[0]], Purged(rows[1..], gone);
      var last := if r.tx in gone then [] else [r];
      assert head + (tail + last) == head + tail + last;
    }
  }

  lemma AppendedIds(rows: seq<Stored>, r: Stored)
    ensures IdsOf(rows + [r]) == IdsOf(rows) + {r.tx}
    ensures UniqueIds(rows) && r.tx !in IdsOf(rows) ==> UniqueIds(rows + [r])
  {
    assert forall q :: q in rows + [r] <==> q in rows || q == r;
  }

  lemma NoRows(rows: seq<Stored>)
    ensures IdsOf(rows) == {} <==> rows == []
  {
    if rows != [] { assert rows[0].tx in IdsOf(rows); }
  }

  // ----- what is stale -----

  /** The rows at or below a height, the last one first. */
  function OldOnes(rows: seq<Stored>, height: int): seq<Stored> {
    if rows == [] then [] else
      OldOnes(rows[1..], height) + if rows[0].height <= height then [rows[0]] else []
  }

  lemma {:induction false} OldOnesMembers(rows: seq<Stored>, height: int)
    ensures forall r :: r in OldOnes(rows, height) <==> r in rows && r.height <= height
    decreases |rows|
  {
    if rows != [] {
      OldOnesMembers(rows[1..], height);
      assert rows == [rows[0]] + rows[1..];
    }
  }

  /** Pending transactions that have expired, or were stored at or below a height. */
  function Stale<S>(rows: seq<Stored>, pools: Pools<S>, lastHeight: int, height: int): set<Tx> {
    set t | t in TxsOf(pools) && (Expired(t, lastHeight + 1) || t in IdsOf(OldOnes(rows, height)))
  }

  function ExpiredOnes<S>(pools: Pools<S>, lastHeight: int): set<Tx> {
    set t | t in TxsOf(pools) && Expired(t, lastHeight + 1)
  }

  /** Removing the old ones and then those that have expired removes what was stale. */
  lemma StaleIsCut<S>(h: Handler<S>, rows: seq<Stored>, pools: Pools<S>, lastHeight: int, height: int)
    requires AllKept(pools)
    ensures var olds := IdsOf(OldOnes(rows, height));
            var cut := Cut(h, pools, olds);
            Cut(h, cut, ExpiredOnes(cut, lastHeight)) == Cut(h, pools, Stale(rows, pools, lastHeight, height))
  {
    hide Cut, TxsOf, OldOnes, IdsOf, Expired;
    var olds := IdsOf(OldOnes(rows, height));
    var cut := Cut(h, pools, olds);
    CutTxs(h, pools, olds);
    CutSame(h, cut, ExpiredOnes(cut, lastHeight), ExpiredOnes(pools, lastHeight));
    CutTwice(h, pools, olds, ExpiredOnes(pools, lastHeight));
    CutSame(h, pools, olds + ExpiredOnes(pools, lastHeight), Stale(rows, pools, lastHeight, height));
  }

  /** A row for a transaction that is not pending makes nothing stale. */
  lemma {:induction false} StaleWithRow<S>(rows: seq<Stored>, r: Stored, pools: Pools<S>, lastHeight: int, height: int)
    requires r.tx !in TxsOf(pools)
    ensures Stale(rows + [r], pools, lastHeight, height) == Stale(rows, pools, lastHeight, height)
  {
    hide TxsOf, Expired;
    OldOnesMembers(rows, height);
    OldOnesMembers(rows + [r], height);
    forall t
      ensures t in Stale(rows + [r], pools, lastHeight, height) <==> t in Stale(rows, pools, lastHeight, height)
    {
      if t in IdsOf(OldOnes(rows, height)) {
        var q :| q in OldOnes(rows, height) && q.tx == t;
        assert q in OldOnes(rows + [r], height);
      }
    }
  }

  // ----- trying a transaction -----

  /** What the surroundings answer when a transaction is tried: whether it verifies, whether it may enter, and the
      wallets that a new sender pool starts from. */
  datatype Answer<S> = Answer(verified: bool, mayEnter: bool, wallets: S)

  function ArrivalOf<S>(a: Answer<S>, lastHeight: int): Arrival {
    Arrival(lastHeight, a.verified, a.mayEnter)
  }

  /** A transaction is tried: room is made for it, or it is refused for want of room, and then its sender's pool takes
      it or refuses it. */
  ghost predicate Tried<S>(h: Handler<S>, settings: Settings, before: Pools<S>, stale: set<Tx>, max: nat, t: Tx,
                           a: Arrival, wallets: S, after: Pools<S>, error: Option<PoolError>,
                           room: Pools<S>, lowest: Option<Tx>)
  {
    || (error.Some? && MakesRoom(h, before, stale, max, t, room, lowest, error) && after == room)
    || (&& MakesRoom(h, before, stale, max, t, room, lowest, None)
        && var (pools, rejected) := AddTo(h, settings, room, t, a, wallets);
           after == pools && error == if rejected.Some? then Some(Rejected(rejected.value)) else None)
  }

  /** A new transaction and a full pool in which nothing is stale: a fee no higher than any other gets `PoolFull`, and
      the pool stays as it is. A higher fee costs a transaction with the lowest fee and what is behind it, and nothing
      else; the new transaction is then offered to its sender's pool. */
  lemma FullPoolAnswer<S>(h: Handler<S>, settings: Settings, before: Pools<S>, stale: set<Tx>, max: nat, t: Tx,
                          a: Arrival, wallets: S, after: Pools<S>, error: Option<PoolError>,
                          room: Pools<S>, lowest: Option<Tx>)
    requires Tried(h, settings, before, stale, max, t, a, wallets, after, error, room, lowest)
    requires AllKept(before) && |TxsOf(before)| >= max > 0 && TxsOf(before) !! stale
    ensures if forall u | u in TxsOf(before) :: t.fee <= u.fee
            then error == Some(PoolFull) && after == before
            else && lowest.Some? && IsLowest(before, lowest.value) && lowest.value.fee < t.fee
                 && after == AddTo(h, settings, Cut(h, before, {lowest.value}), t, a, wallets).0
                 && (forall u | u in TxsOf(before) && u.sender != lowest.value.sender :: u in TxsOf(after))
                 && TxsOf(after) <= TxsOf(before) - {lowest.value} + {t}
                 && (error.None? ==> t in TxsOf(after))
  {
    hide TxsOf, Cut, AddTo, MakesRoom, IsLowest, Survives, AllKept;
    var refused := error.Some? && MakesRoom(h, before, stale, max, t, room, lowest, error);
    if refused {
      FullPoolRule(h, before, stale, max, t, room, lowest, error);
    } else {
      FullPoolRule(h, before, stale, max, t, room, lowest, None);
      CutTxs(h, before, {lowest.value});
      CutKept(h, before, {lowest.value});
      AddToTxs(h, settings, room, t, a, wallets);
    }
  }

  // ----- both stores together -----

  /** What stays the same while the pool runs. */
  datatype Limits<!S> = Limits(handler: Handler<S>, settings: Settings, max: nat, age: nat)

  datatype Snapshot<S> = Snapshot(pools: Pools<S>, rows: seq<Stored>)

  ghost predicate Sane<S>(c: Limits<S>, s: Snapshot<S>) {
    AllKept(s.pools) && UniqueIds(s.rows) && |TxsOf(s.pools)| <= c.max
  }

  function StaleIn<S>(c: Limits<S>, s: Snapshot<S>, lastHeight: int): set<Tx> {
    Stale(s.rows, s.pools, lastHeight, lastHeight - c.age)
  }

  /** How a transaction was tried: the stores afterwards, the error, the pools that room was made in, and who left for
      it. */
  datatype Step<S> = Step(after: Snapshot<S>, error: Option<PoolError>, room: Pools<S>, lowest: Option<Tx>)

  /** A transaction is tried on both stores: the rows of what made room for it have left the table. */
  ghost predicate Offered<S>(c: Limits<S>, lastHeight: int, s: Snapshot<S>, t: Tx, a: Answer<S>, x: Step<S>) {
    && Tried(c.handler, c.settings, s.pools, StaleIn(c, s, lastHeight), c.max, t, ArrivalOf(a, lastHeight), a.wallets,
             x.after.pools, x.error, x.room, x.lowest)
    && x.after.rows == Purged(s.rows, TxsOf(s.pools) - TxsOf(x.room))
  }

  /** Room only takes transactions away, and leaves space where it is found. */
  lemma RoomIsSmaller<S>(c: Limits<S>, pools: Pools<S>, stale: set<Tx>, t: Tx, room: Pools<S>, lowest: Option<Tx>,
                         error: Option<PoolError>)
    requires AllKept(pools) && |TxsOf(pools)| <= c.max
    requires MakesRoom(c.handler, pools, stale, c.max, t, room, lowest, error)
    ensures AllKept(room) && TxsOf(room) <= TxsOf(pools) && |TxsOf(room)| <= c.max
    ensures error.None? ==> |TxsOf(room)| < c.max
  {
    hide Cut, TxsOf, AllKept, Survives;
    var cleaned := Cut(c.handler, pools, stale);
    CutKept(c.handler, pools, stale);
    CutTxs(c.handler, pools, stale);
    SubsetSize(TxsOf(cleaned), TxsOf(pools));
    if lowest.Some? {
      CutKept(c.handler, cleaned, {lowest.value});
      CutTxs(c.handler, cleaned, {lowest.value});
      Smaller(TxsOf(room), TxsOf(cleaned), lowest.value);
    }
  }

  lemma Smaller(a: set<Tx>, b: set<Tx>, t: Tx)
    requires a <= b && t in b && t !in a
    ensures |a| < |b|
  {
    SubsetSize(a, b - {t});
  }

  lemma {:induction false} SubsetSize<T>(a: set<T>, b: set<T>)
    requires a <= b
    ensures |a| <= |b|
    decreases |a|
  {
    if a != {} {
      var x :| x in a;
      SubsetSize(a - {x}, b - {x});
    }
  }

  /** What trying does to the two sets of transactions. */
  lemma OfferedSets<S>(c: Limits<S>, lastHeight: int, s: Snapshot<S>, t: Tx, a: Answer<S>, x: Step<S>)
    requires Sane(c, s) && Offered(c, lastHeight, s, t, a, x)
    ensures Sane(c, x.after) && TxsOf(x.room) <= TxsOf(s.pools)
    ensures IdsOf(x.after.rows) == IdsOf(s.rows) - (TxsOf(s.pools) - TxsOf(x.room))
    ensures if x.error.None? then t !in TxsOf(x.room) && TxsOf(x.after.pools) == TxsOf(x.room) + {t}
            else TxsOf(x.after.pools) == TxsOf(x.room)
  {
    hide TxsOf, AllKept, MakesRoom, AddTo, Stale, UniqueIds, IdsOf;
    var Step(s1, error, room, lowest) := x;
    var stale := StaleIn(c, s, lastHeight);
    PurgedIds(s.rows, TxsOf(s.pools) - TxsOf(room));
    if s1.pools == room && error.Some? && MakesRoom(c.handler, s.pools, stale, c.max, t, room, lowest, error) {
      RoomIsSmaller(c, s.pools, stale, t, room, lowest, error);
    } else {
      RoomIsSmaller(c, s.pools, stale, t, room, lowest, None);
      AddToTxs(c.handler, c.settings, room, t, ArrivalOf(a, lastHeight), a.wallets);
      var (pools, rejected) := AddTo(c.handler, c.settings, room, t, ArrivalOf(a, lastHeight), a.wallets);
      assert s1.pools == pools && (error.None? <==> rejected.None?);
      if error.None? { PlusOne(TxsOf(room), t); }
    }
  }

  /** What enters is fit: among other things it was verified. */
  lemma OfferedIsFit<S>(c: Limits<S>, lastHeight: int, s: Snapshot<S>, t: Tx, a: Answer<S>, x: Step<S>)
    requires Offered(c, lastHeight, s, t, a, x)
    ensures x.error.None? ==> Fit(c.settings, t, ArrivalOf(a, lastHeight))
  {
    hide AddTo, MakesRoom, Fit;
    AddToIffFit(c.handler, c.settings, x.room, t, ArrivalOf(a, lastHeight), a.wallets);
  }

  /** With room, a transaction that is neither pending nor stored enters both stores exactly if it is fit, the limit
      of its sender leaves room or does not apply, and the handler takes it. */
  lemma NewcomerEnters<S>(c: Limits<S>, lastHeight: int, s: Snapshot<S>, t: Tx, a: Answer<S>, x: Step<S>,
                          s1: Snapshot<S>)
    requires Sane(c, s) && Entered(c, lastHeight, s, t, a, x, s1) && |TxsOf(s.pools)| < c.max
    requires t !in IdsOf(s.rows) && t !in TxsOf(s.pools)
    ensures var before := ListOf(s.pools, t.sender);
            && (t in TxsOf(s1.pools) <==>
                  && Fit(c.settings, t, ArrivalOf(a, lastHeight))
                  && (|before| < c.settings.maxPerSender || t.sender in c.settings.allowedSenders)
                  && (t.sender in s.pools ==> !s.pools[t.sender].corrupt)
                  && c.handler.apply(if t.sender in s.pools then s.pools[t.sender].state else a.wallets, t).Some?)
            && (t in IdsOf(s1.rows) <==> t in TxsOf(s1.pools))
  {
    hide TxsOf, IdsOf, AddTo, Fit, Offered, Entered, UniqueIds;
    EnteredAgrees(c, lastHeight, s, t, a, x, s1);
    EnteredWithRoom(c, lastHeight, s, t, a, x, s1);
    AddToIffFit(c.handler, c.settings, s.pools, t, ArrivalOf(a, lastHeight), a.wallets);
    TxsOfAt(s.pools, t);
  }

  lemma EnteredWithRoom<S>(c: Limits<S>, lastHeight: int, s: Snapshot<S>, t: Tx, a: Answer<S>, x: Step<S>,
                           s1: Snapshot<S>)
    requires Entered(c, lastHeight, s, t, a, x, s1) && |TxsOf(s.pools)| < c.max
    ensures x.error.None? <==> AddTo(c.handler, c.settings, s.pools, t, ArrivalOf(a, lastHeight), a.wallets).1.None?
  {
    hide TxsOf, AddTo, Offered, Purged;
    OfferedWithRoom(c, lastHeight, Snapshot(s.pools, s.rows + [Stored(t, lastHeight)]), t, a, x);
  }

  lemma PlusOne(a: set<Tx>, t: Tx)
    ensures t !in a ==> |a + {t}| == |a| + 1
  {
  }

  /** With room, a transaction is simply offered to its sender's pool, and the table stays as it is. */
  lemma OfferedWithRoom<S>(c: Limits<S>, lastHeight: int, s: Snapshot<S>, t: Tx, a: Answer<S>, x: Step<S>)
    requires Offered(c, lastHeight, s, t, a, x) && |TxsOf(s.pools)| < c.max
    ensures x.room == s.pools && x.after.rows == s.rows
    ensures x.after.pools == AddTo(c.handler, c.settings, s.pools, t, ArrivalOf(a, lastHeight), a.wallets).0
    ensures x.error.None? <==> AddTo(c.handler, c.settings, s.pools, t, ArrivalOf(a, lastHeight), a.wallets).1.None?
  {
    hide AddTo, Cut, TxsOf, Stale;
    assert TxsOf(x.room) == TxsOf(s.pools) ==> TxsOf(s.pools) - TxsOf(x.room) == {};
    PurgedNothing(s.rows, {});
  }

  /** A transaction is tried again from its bytes; ones that cannot be read make no room. */
  ghost predicate Retried<S>(c: Limits<S>, lastHeight: int, s: Snapshot<S>, t: Tx, a: Option<Answer<S>>, x: Step<S>) {
    if a.None? then x == Step(s, Some(Unreadable), s.pools, None) else Offered(c, lastHeight, s, t, a.value, x)
  }

  /** The answer that a transaction gets when it is tried again lets it in. */
  predicate Vouches<S>(c: Limits<S>, lastHeight: int, t: Tx, a: Option<Answer<S>>) {
    a.Some? && Fit(c.settings, t, ArrivalOf(a.value, lastHeight))
  }

  lemma RetriedIsFit<S>(c: Limits<S>, lastHeight: int, s: Snapshot<S>, t: Tx, a: Option<Answer<S>>, x: Step<S>)
    requires Sane(c, s) && Retried(c, lastHeight, s, t, a, x)
    ensures TxsOf(x.after.pools) <= TxsOf(s.pools) + if Vouches(c, lastHeight, t, a) then {t} else {}
  {
    hide Fit, TxsOf, Offered, Sane;
    RetriedSets(c, lastHeight, s, t, a, x);
    if a.Some? { OfferedIsFit(c, lastHeight, s, t, a.value, x); }
  }

  lemma RetriedSets<S>(c: Limits<S>, lastHeight: int, s: Snapshot<S>, t: Tx, a: Option<Answer<S>>, x: Step<S>)
    requires Sane(c, s) && Retried(c, lastHeight, s, t, a, x)
    ensures Sane(c, x.after) && TxsOf(x.room) <= TxsOf(s.pools)
    ensures IdsOf(x.after.rows) == IdsOf(s.rows) - (TxsOf(s.pools) - TxsOf(x.room))
    ensures if x.error.None? then t !in TxsOf(x.room) && TxsOf(x.after.pools) == TxsOf(x.room) + {t}
            else TxsOf(x.after.pools) == TxsOf(x.room)
  {
    hide TxsOf, IdsOf, Sane, Offered;
    if a.Some? {
      OfferedSets(c, lastHeight, s, t, a.value, x);
    } else {
      assert IdsOf(s.rows) == IdsOf(s.rows) - (TxsOf(s.pools) - TxsOf(s.pools));
    }
  }

  /** A new transaction: its row goes in first, and out again where it is refused. */
  ghost predicate Entered<S>(c: Limits<S>, lastHeight: int, s: Snapshot<S>, t: Tx, a: Answer<S>, x: Step<S>,
                             s1: Snapshot<S>)
  {
    && Offered(c, lastHeight, Snapshot(s.pools, s.rows + [Stored(t, lastHeight)]), t, a, x)
    && s1 == if x.error.Some? then Snapshot(x.after.pools, Purged(x.after.rows, {t})) else x.after
  }

  /** Where the stores agree, they agree afterwards, and a transaction that was in neither is in both or in neither. */
  lemma EnteredAgrees<S>(c: Limits<S>, lastHeight: int, s: Snapshot<S>, t: Tx, a: Answer<S>, x: Step<S>,
                         s1: Snapshot<S>)
    requires Sane(c, s) && t !in IdsOf(s.rows) && Entered(c, lastHeight, s, t, a, x, s1)
    ensures Sane(c, s1)
    ensures TxsOf(s.pools) == IdsOf(s.rows) ==> TxsOf(s1.pools) == IdsOf(s1.rows)
    ensures t !in TxsOf(s.pools) ==>
              (x.error.None? <==> t in TxsOf(s1.pools)) && (x.error.None? <==> t in IdsOf(s1.rows))
  {
    hide TxsOf, IdsOf, UniqueIds, AllKept, Offered, Purged;
    var first := Snapshot(s.pools, s.rows + [Stored(t, lastHeight)]);
    AppendedIds(s.rows, Stored(t, lastHeight));
    OfferedSets(c, lastHeight, first, t, a, x);
    PurgedIds(x.after.rows, {t});
    EntersBoth(TxsOf(s.pools), TxsOf(x.room), TxsOf(s1.pools), IdsOf(s.rows), IdsOf(x.after.rows), t);
  }

  /** The mempool goes from `p` to `room`, and then takes the stored `t` or does not. */
  lemma EntersBoth(p: set<Tx>, room: set<Tx>, q: set<Tx>, ids: set<Tx>, after: set<Tx>, t: Tx)
    requires room <= p && t !in ids && after == ids + {t} - (p - room)
    ensures q == room + {t} ==> (t !in p ==> t in after) && (p == ids ==> q == after)
    ensures q == room ==> (t !in p ==> t !in q) && (p == ids ==> q == after - {t})
  {
  }

  /** For a transaction that is not pending, its own row makes no difference to what is stale. */
  lemma EnteredTried<S>(c: Limits<S>, lastHeight: int, s: Snapshot<S>, t: Tx, a: Answer<S>, x: Step<S>, s1: Snapshot<S>)
    requires Entered(c, lastHeight, s, t, a, x, s1) && t !in TxsOf(s.pools)
    ensures Tried(c.handler, c.settings, s.pools, StaleIn(c, s, lastHeight), c.max, t, ArrivalOf(a, lastHeight),
                  a.wallets, s1.pools, x.error, x.room, x.lowest)
  {
    hide TxsOf, Tried, Stale, Purged;
    StaleWithRow(s.rows, Stored(t, lastHeight), s.pools, lastHeight, lastHeight - c.age);
  }
}
