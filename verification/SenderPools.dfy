/** One sender's pool: pending transactions over a private copy of the wallets, applied and reverted like a stack. */
module SenderPools {
  import opened Options
  import opened PoolTransactions

  datatype Error =
    | SenderExceededMaximumTransactionCount | TransactionExceedsMaximumByteSize | TransactionFromWrongNetwork
    | TransactionHasExpired | RetryTransaction | TransactionFailedToApply | TransactionFailedToVerify

  datatype Settings = Settings(maxTransactionBytes: nat, network: nat, maxPerSender: nat, allowedSenders: set<nat>)

  /** The transaction handlers, on whatever state `S` they keep. */
  datatype Handler<!S> = Handler(apply: (S, Tx) -> Option<S>, revert: (S, Tx) -> Option<S>)

  /** A revert may fail, but where it does not, it undoes the apply. */
  ghost predicate Undoes<S(!new)>(h: Handler<S>) {
    forall s, t :: h.apply(s, t).Some? && h.revert(h.apply(s, t).value, t).Some?
                   ==> h.revert(h.apply(s, t).value, t) == Some(s)
  }

  /** What the surroundings say about a transaction when it arrives. */
  datatype Arrival = Arrival(lastHeight: int, verified: bool, mayEnter: bool)

  datatype SenderPool<S> = SenderPool(transactions: seq<Tx>, state: S, corrupt: bool)

  function Reversed<T>(xs: seq<T>): (r: seq<T>)
    ensures |r| == |xs| && forall i | 0 <= i < |xs| :: r[i] == xs[|xs| - 1 - i]
  {
    if xs == [] then [] else [xs[|xs| - 1]] + Reversed(xs[..|xs| - 1])
  }

  lemma ReversedMembers<T(!new)>(xs: seq<T>)
    ensures forall u :: u in Reversed(xs) <==> u in xs
  {
    forall u ensures u in Reversed(xs) <==> u in xs {
      if u in xs {
        var i :| 0 <= i < |xs| && xs[i] == u;
        assert Reversed(xs)[|xs| - 1 - i] == u;
      }
    }
  }

  function IndexOf(xs: seq<Tx>, t: Tx): (i: nat)
    requires t in xs
    ensures i < |xs| && xs[i] == t && t !in xs[..i]
  {
    if xs[0] == t then 0 else 1 + IndexOf(xs[1..], t)
  }

  // ----- the sender state -----

  /** `SenderState.apply`. */
  function ApplyState<S>(h: Handler<S>, s: Settings, state: S, corrupt: bool, t: Tx, a: Arrival): Result<S, Error> {
    if t.size > s.maxTransactionBytes then Err(TransactionExceedsMaximumByteSize)
    else if t.network != 0 && t.network != s.network then Err(TransactionFromWrongNetwork)
    else if Expired(t, a.lastHeight + 1) then Err(TransactionHasExpired)
    else if !a.verified then Err(TransactionFailedToVerify)
    else if corrupt then Err(RetryTransaction)
    else if !a.mayEnter || h.apply(state, t).None? then Err(TransactionFailedToApply)
    else Ok(h.apply(state, t).value)
  }

  /** Reverts newest first until one revert fails. */
  function RevertAll<S>(h: Handler<S>, state: S, txs: seq<Tx>): (S, bool) {
    if txs == [] then (state, true) else
      match h.revert(state, txs[|txs| - 1])
      case None => (state, false)
      case Some(s) => RevertAll(h, s, txs[..|txs| - 1])
  }

  ghost function ApplyAll<S>(h: Handler<S>, state: S, txs: seq<Tx>): Option<S> {
    if txs == [] then Some(state) else
      match ApplyAll(h, state, txs[..|txs| - 1])
      case None => None
      case Some(s) => h.apply(s, txs[|txs| - 1])
  }

  // ----- the operations -----

  function Add<S>(h: Handler<S>, s: Settings, p: SenderPool<S>, t: Tx, a: Arrival): (SenderPool<S>, Option<Error>) {
    if |p.transactions| >= s.maxPerSender && t.sender !in s.allowedSenders
    then (p, Some(SenderExceededMaximumTransactionCount)) else
      match ApplyState(h, s, p.state, p.corrupt, t, a)
      case Err(e) => (p, Some(e))
      case Ok(state) => (p.(transactions := p.transactions + [t], state := state), None)
  }

  /** Whether a transaction may become pending, whatever the sender's wallet holds: it is small enough, from this
      network, not expired, verified, and let in. */
  predicate Fit(s: Settings, t: Tx, a: Arrival) {
    && t.size <= s.maxTransactionBytes
    && (t.network == 0 || t.network == s.network)
    && (t.expiration == 0 || t.expiration > a.lastHeight + 1)
    && a.verified && a.mayEnter
  }

  /** What each error says. */
  predicate Objection<S>(e: Error, h: Handler<S>, s: Settings, p: SenderPool<S>, t: Tx, a: Arrival) {
    match e
    case SenderExceededMaximumTransactionCount => |p.transactions| >= s.maxPerSender && t.sender !in s.allowedSenders
    case TransactionExceedsMaximumByteSize => t.size > s.maxTransactionBytes
    case TransactionFromWrongNetwork => t.network != 0 && t.network != s.network
    case TransactionHasExpired => t.expiration != 0 && t.expiration <= a.lastHeight + 1
    case TransactionFailedToVerify => !a.verified
    case RetryTransaction => p.corrupt
    case TransactionFailedToApply => !a.mayEnter || h.apply(p.state, t).None?
  }

  /** A transaction enters exactly if the sender's limit leaves room or does not apply, it is fit, and an uncorrupted
      pool's handler takes it; then it comes last and its effects are on the state. Otherwise it gets an error that
      says what is wrong, and nothing changes. */
  lemma AddedIffFit<S>(h: Handler<S>, s: Settings, p: SenderPool<S>, t: Tx, a: Arrival)
    ensures var (q, error) := Add(h, s, p, t, a);
            && (error.None? <==>
                  && (|p.transactions| < s.maxPerSender || t.sender in s.allowedSenders) && Fit(s, t, a)
                  && !p.corrupt && h.apply(p.state, t).Some?)
            && (error.None? ==> q == SenderPool(p.transactions + [t], h.apply(p.state, t).value, false))
            && (error.Some? ==> q == p && Objection(error.value, h, s, p, t, a))
            && (error.None? <==> forall e :: !Objection(e, h, s, p, t, a))
  {
    if Add(h, s, p, t, a).1.None? {
      forall e ensures !Objection(e, h, s, p, t, a) { }
    } else {
      assert Objection(Add(h, s, p, t, a).1.value, h, s, p, t, a);
    }
  }

  /** Removes a transaction and all after it; where a revert fails, all are removed and the pool is corrupt. */
  function Remove<S>(h: Handler<S>, p: SenderPool<S>, t: Tx): (SenderPool<S>, seq<Tx>) {
    if t !in p.transactions then (p, []) else
      var i := IndexOf(p.transactions, t);
      var (state, ok) := RevertAll(h, p.state, p.transactions[i..]);
      if ok then (SenderPool(p.transactions[..i], state, p.corrupt), Reversed(p.transactions[i..]))
      else (SenderPool([], state, true), Reversed(p.transactions[i..]) + Reversed(p.transactions[..i]))
  }

  /** Removes a forged transaction and all before it; their effects stay. */
  function RemoveForged<S>(p: SenderPool<S>, t: Tx): (SenderPool<S>, seq<Tx>) {
    if t !in p.transactions then (p, []) else
      var i := IndexOf(p.transactions, t);
      (p.(transactions := p.transactions[i + 1..]), p.transactions[..i + 1])
  }

  // ----- the invariant -----

  /** Unless corrupt, the state is what applying the forged and the pending transactions to `base` gives. */
  ghost predicate Faithful<S>(h: Handler<S>, base: S, forged: seq<Tx>, p: SenderPool<S>) {
    if p.corrupt then p.transactions == []
    else ApplyAll(h, base, forged + p.transactions) == Some(p.state)
  }

  lemma {:induction false} ApplyAllPrefix<S>(h: Handler<S>, base: S, xs: seq<Tx>, n: nat)
    requires ApplyAll(h, base, xs).Some? && n <= |xs|
    ensures ApplyAll(h, base, xs[..n]).Some?
    decreases |xs| - n
  {
    if n == |xs| {
      assert xs[..n] == xs;
    } else {
      ApplyAllPrefix(h, base, xs, n + 1);
      assert xs[..n + 1][..n] == xs[..n];
    }
  }

  /** Reverts that succeed lead back to the state before the reverted transactions. */
  lemma {:induction false} RevertAllUndoes<S(!new)>(h: Handler<S>, base: S, xs: seq<Tx>, ys: seq<Tx>, state: S)
    requires Undoes(h) && ApplyAll(h, base, xs + ys) == Some(state)
    requires RevertAll(h, state, ys).1
    ensures ApplyAll(h, base, xs) == Some(RevertAll(h, state, ys).0)
    decreases |ys|
  {
    if ys == [] {
      assert xs + ys == xs;
    } else {
      var front := ys[..|ys| - 1];
      assert (xs + ys)[..|xs + ys| - 1] == xs + front;
      RevertAllUndoes(h, base, xs, front, ApplyAll(h, base, xs + front).value);
    }
  }

  lemma AddFaithful<S>(h: Handler<S>, s: Settings, base: S, forged: seq<Tx>, p: SenderPool<S>, t: Tx, a: Arrival)
    requires Faithful(h, base, forged, p)
    ensures Faithful(h, base, forged, Add(h, s, p, t, a).0)
    ensures p.corrupt ==> Add(h, s, p, t, a).1.Some?
    ensures Add(h, s, p, t, a).1.Some? ==> Add(h, s, p, t, a).0 == p
  {
    var q := Add(h, s, p, t, a).0;
    if q != p {
      assert (forged + q.transactions)[..|forged + q.transactions| - 1] == forged + p.transactions;
    }
  }

  lemma RemoveFaithful<S(!new)>(h: Handler<S>, base: S, forged: seq<Tx>, p: SenderPool<S>, t: Tx)
    requires Undoes(h) && Faithful(h, base, forged, p)
    ensures var (q, removed) := Remove(h, p, t);
            && Faithful(h, base, forged, q)
            && (p.corrupt ==> q == p && removed == [])
            && q.transactions <= p.transactions
            && removed == (if q.corrupt && !p.corrupt && t in p.transactions
                           then Reversed(p.transactions[IndexOf(p.transactions, t)..])
                                + Reversed(p.transactions[..IndexOf(p.transactions, t)])
                           else Reversed(p.transactions[|q.transactions|..]))
  {
    hide Undoes, ApplyAll;
    if t in p.transactions {
      var i := IndexOf(p.transactions, t);
      assert forged + p.transactions == (forged + p.transactions[..i]) + p.transactions[i..];
      if RevertAll(h, p.state, p.transactions[i..]).1 {
        RevertAllUndoes(h, base, forged + p.transactions[..i], p.transactions[i..], p.state);
      }
    } else {
      assert p.transactions[|p.transactions|..] == [];
    }
  }

  lemma RemoveForgedFaithful<S>(h: Handler<S>, base: S, forged: seq<Tx>, p: SenderPool<S>, t: Tx)
    requires Faithful(h, base, forged, p)
    ensures var (q, removed) := RemoveForged(p, t);
            && Faithful(h, base, forged + removed, q)
            && removed + q.transactions == p.transactions
            && (removed != [] ==> removed[|removed| - 1] == t)
            && (t in p.transactions <==> removed != [])
  {
    var (q, removed) := RemoveForged(p, t);
    if t !in p.transactions {
      assert [] + p.transactions == p.transactions;
    } else {
      assert removed + q.transactions == p.transactions;
    }
    assert (forged + removed) + q.transactions == forged + p.transactions;
  }

  // ----- the object -----

  class SenderMempool<S(0)> {
    var transactions: seq<Tx>
    var state: S
    var corrupt: bool
    const handler: Handler<S>
    const settings: Settings

    function Value(): SenderPool<S>
      reads this
    {
      SenderPool(transactions, state, corrupt)
    }

    constructor (handler: Handler<S>, settings: Settings, state: S)
      ensures Value() == SenderPool([], state, false)
      ensures this.handler == handler && this.settings == settings
    {
      this.handler, this.settings := handler, settings;
      transactions, this.state, corrupt := [], state, false;
    }

    method AddTransaction(t: Tx, a: Arrival) returns (error: Option<Error>)
      modifies this
      ensures (Value(), error) == Add(handler, settings, old(Value()), t, a)
    {
      if |transactions| >= settings.maxPerSender {
        if t.sender !in settings.allowedSenders {
          return Some(SenderExceededMaximumTransactionCount);
        }
      }
      var applied := ApplyState(handler, settings, state, corrupt, t, a);
      if applied.Err? { return Some(applied.error); }
      state := applied.value;
      transactions := transactions + [t];
      return None;
    }

    method FindIndex(t: Tx) returns (index: int)
      ensures index == if t in transactions then IndexOf(transactions, t) else -1
    {
      index := 0;
      while index < |transactions|
        invariant 0 <= index <= |transactions| && t !in transactions[..index]
      {
        if transactions[index] == t {
          FirstIndex(transactions, t, index);
          return;
        }
        index := index + 1;
      }
      index := -1;
    }

    static lemma {:induction false} FirstIndex(xs: seq<Tx>, t: Tx, i: nat)
      requires i < |xs| && xs[i] == t && t !in xs[..i]
      ensures IndexOf(xs, t) == i
      decreases i
    {
      if i > 0 {
        assert xs[..i][0] == xs[0] && xs[1..][..i - 1] == xs[..i][1..];
        FirstIndex(xs[1..], t, i - 1);
      }
    }

    method Revert(t: Tx) returns (ok: bool)
      modifies this
      ensures transactions == old(transactions)
      ensures match handler.revert(old(state), t)
              case Some(s) => ok && state == s && corrupt == old(corrupt)
              case None => !ok && state == old(state) && corrupt
    {
      var s := handler.revert(state, t);
      if s.None? {
        corrupt := true;
        return false;
      }
      state := s.value;
      return true;
    }

    method RemoveTransaction(t: Tx) returns (removed: seq<Tx>)
      modifies this
      ensures (Value(), removed) == Remove(handler, old(Value()), t)
    {
      hide RevertAll, IndexOf, Reversed;
      var index := FindIndex(t);
      if index == -1 { return []; }
      ghost var suffix := transactions[index..];
      removed := Reversed(transactions[index..]);
      transactions := transactions[..index];
      var i := 0;
      assert suffix[..|suffix|] == suffix;
      while i < |removed|
        invariant 0 <= i <= |removed| == |suffix|
        invariant transactions == old(transactions)[..index] && corrupt == old(corrupt)
        invariant RevertAll(handler, old(state), suffix) == RevertAll(handler, state, suffix[..|suffix| - i])
      {
        RevertNext(handler, state, suffix, |suffix| - i);
        var ok := Revert(removed[i]);
        if !ok {
          removed := removed + Reversed(transactions);
          transactions := [];
          return;
        }
        i := i + 1;
      }
      RevertNone(handler, state);
      assert suffix[..0] == [];
    }

    static lemma RevertNext(h: Handler<S>, s: S, txs: seq<Tx>, n: nat)
      requires 0 < n <= |txs|
      ensures RevertAll(h, s, txs[..n]) ==
                if h.revert(s, txs[n - 1]).None? then (s, false)
                else RevertAll(h, h.revert(s, txs[n - 1]).value, txs[..n - 1])
    {
      assert txs[..n][..n - 1] == txs[..n - 1];
    }

    static lemma RevertNone(h: Handler<S>, s: S)
      ensures RevertAll(h, s, []) == (s, true)
    {
    }

    method RemoveForgedTransaction(t: Tx) returns (removed: seq<Tx>)
      modifies this
      ensures (Value(), removed) == RemoveForged(old(Value()), t)
    {
      var index := FindIndex(t);
      if index == -1 { return []; }
      removed := transactions[..index + 1];
      transactions := transactions[index + 1..];
    }
  }

  // ----- runs -----

  datatype Operation = AddTx(t: Tx, a: Arrival) | RemoveTx(t: Tx) | RemoveForgedTx(t: Tx)

  function Perform<S>(h: Handler<S>, s: Settings, p: SenderPool<S>, o: Operation): SenderPool<S> {
    match o
    case AddTx(t, a) => Add(h, s, p, t, a).0
    case RemoveTx(t) => Remove(h, p, t).0
    case RemoveForgedTx(t) => RemoveForged(p, t).0
  }

  function PerformAll<S>(h: Handler<S>, s: Settings, p: SenderPool<S>, os: seq<Operation>): SenderPool<S>
    decreases |os|
  {
    if os == [] then p else PerformAll(h, s, Perform(h, s, p, os[0]), os[1..])
  }

  /** The transactions that a run has taken out as forged, oldest first. */
  function ForgedIn<S>(h: Handler<S>, s: Settings, p: SenderPool<S>, os: seq<Operation>): seq<Tx>
    decreases |os|
  {
    if os == [] then [] else
      (if os[0].RemoveForgedTx? then RemoveForged(p, os[0].t).1 else [])
      + ForgedIn(h, s, Perform(h, s, p, os[0]), os[1..])
  }

  /** Some operation has brought `t` in, and it was fit when it arrived. */
  ghost predicate CameFit(s: Settings, os: seq<Operation>, t: Tx) {
    exists a :: AddTx(t, a) in os && Fit(s, t, a)
  }

  /** In every run, what is pending was pending before or was fit when it arrived: verified, let in, not expired. */
  lemma {:induction false} PendingCameFit<S>(h: Handler<S>, s: Settings, p: SenderPool<S>, os: seq<Operation>)
    ensures forall t | t in PerformAll(h, s, p, os).transactions :: t in p.transactions || CameFit(s, os, t)
    decreases |os|
  {
    hide CameFit, Perform;
    if os != [] {
      PendingCameFit(h, s, Perform(h, s, p, os[0]), os[1..]);
      OneCameFit(h, s, p, os[0]);
      forall t | CameFit(s, os[1..], t) || CameFit(s, [os[0]], t) ensures CameFit(s, os, t) { CameInRun(s, os, t); }
    }
  }

  lemma CameInRun(s: Settings, os: seq<Operation>, t: Tx)
    requires os != [] && (CameFit(s, os[1..], t) || CameFit(s, [os[0]], t))
    ensures CameFit(s, os, t)
  {
    var a :| (AddTx(t, a) in os[1..] || AddTx(t, a) in [os[0]]) && Fit(s, t, a);
    assert AddTx(t, a) in os;
  }

  lemma OneCameFit<S>(h: Handler<S>, s: Settings, p: SenderPool<S>, o: Operation)
    ensures forall t | t in Perform(h, s, p, o).transactions :: t in p.transactions || CameFit(s, [o], t)
  {
    match o
    case AddTx(t, a) => AddedIffFit(h, s, p, t, a); assert o in [o];
    case RemoveTx(_) =>
    case RemoveForgedTx(_) =>
  }

  ghost predicate WithinLimit<S>(s: Settings, sender: nat, p: SenderPool<S>) {
    sender !in s.allowedSenders ==> |p.transactions| <= s.maxPerSender
  }

  /** In every run of one sender's pool: unless a revert failed, the state is that of the forged and the pending
      transactions applied in order; after a failed revert the pool stays empty for the rest of the run; and a
      sender that is not allow-listed never has more pending transactions than the limit. */
  lemma {:induction false} RunsAreFaithful<S(!new)>(h: Handler<S>, s: Settings, base: S, forged: seq<Tx>,
                                                   p: SenderPool<S>, os: seq<Operation>, sender: nat)
    requires Undoes(h) && Faithful(h, base, forged, p) && WithinLimit(s, sender, p)
    requires forall o | o in os :: o.t.sender == sender
    ensures var q := PerformAll(h, s, p, os);
            && Faithful(h, base, forged + ForgedIn(h, s, p, os), q)
            && WithinLimit(s, sender, q)
            && (p.corrupt ==> q.corrupt && q.transactions == [])
    decreases |os|
  {
    hide Undoes, Faithful;
    if os == [] {
      assert forged + [] == forged;
      FaithfulCorrupt(h, base, forged, p);
    } else {
      var o := os[0];
      var q := Perform(h, s, p, o);
      var f := if o.RemoveForgedTx? then RemoveForged(p, o.t).1 else [];
      PerformFaithful(h, s, base, forged, p, o);
      RunsAreFaithful(h, s, base, forged + f, q, os[1..], sender);
      assert (forged + f) + ForgedIn(h, s, q, os[1..]) == forged + (f + ForgedIn(h, s, q, os[1..]));
    }
  }

  lemma FaithfulCorrupt<S>(h: Handler<S>, base: S, forged: seq<Tx>, p: SenderPool<S>)
    requires Faithful(h, base, forged, p)
    ensures p.corrupt ==> p.transactions == []
  {
  }

  lemma PerformFaithful<S(!new)>(h: Handler<S>, s: Settings, base: S, forged: seq<Tx>, p: SenderPool<S>, o: Operation)
    requires Undoes(h) && Faithful(h, base, forged, p)
    ensures var q := Perform(h, s, p, o);
            var f := if o.RemoveForgedTx? then RemoveForged(p, o.t).1 else [];
            && Faithful(h, base, forged + f, q)
            && (p.corrupt ==> q.corrupt)
            && |q.transactions| <= (if |p.transactions| >= s.maxPerSender && o.t.sender !in s.allowedSenders
                                    then |p.transactions| else |p.transactions| + 1)
  {
    hide Undoes, Faithful;
    assert forged + [] == forged;
    match o
    case AddTx(t, a) => AddFaithful(h, s, base, forged, p, t, a);
    case RemoveTx(t) => RemoveFaithful(h, base, forged, p, t);
    case RemoveForgedTx(t) => RemoveForgedFaithful(h, base, forged, p, t);
  }
}
