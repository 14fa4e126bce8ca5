/** The pool's queries: predicates over the transactions, and the two priority orders. */
module Queries {
  import opened Options
  import opened Sorting
  import opened PoolTransactions
  import opened SenderPools
  import opened Merging

  // ----- queries -----

  function Keep<T>(xs: seq<T>, p: T -> bool): seq<T> {
    if xs == [] then []
    else if p(xs[0]) then [xs[0]] + Keep(xs[1..], p)
    else Keep(xs[1..], p)
  }

  lemma {:induction false} KeepInsert<T(!new)>(x: T, xs: seq<T>, le: (T, T) -> bool, p: T -> bool)
    requires Ordering(le) && SortedBy(xs, le)
    ensures Keep(Insert(x, xs, le), p) == if p(x) then Insert(x, Keep(xs, p), le) else Keep(xs, p)
    decreases |xs|
  {
    if xs == [] || le(x, xs[0]) {
      assert ([x] + xs)[1..] == xs;
      KeepMembers(xs, p);
      if p(x) && Keep(xs, p) != [] {
        assert le(x, Keep(xs, p)[0]) by {
          assert Keep(xs, p)[0] in xs;
          HeadBefore(xs, le, Keep(xs, p)[0]);
        }
      }
    } else {
      SortedRest(xs, le);
      KeepInsert(x, xs[1..], le, p);
      assert ([xs[0]] + Insert(x, xs[1..], le))[1..] == Insert(x, xs[1..], le);
      assert ([xs[0]] + Keep(xs[1..], p))[1..] == Keep(xs[1..], p);
    }
  }

  lemma {:induction false} KeepMembers<T>(xs: seq<T>, p: T -> bool)
    ensures forall x :: x in Keep(xs, p) <==> x in xs && p(x)
    decreases |xs|
  {
    if xs != [] {
      KeepMembers(xs[1..], p);
      assert xs == [xs[0]] + xs[1..];
    }
  }

  /** Sorting a part is the same as taking the part from what is sorted. */
  lemma {:induction false} KeepSort<T(!new)>(xs: seq<T>, le: (T, T) -> bool, p: T -> bool)
    requires Ordering(le)
    ensures Keep(Sort(xs, le), p) == Sort(Keep(xs, p), le)
    decreases |xs|
  {
    hide Ordering, SortedBy;
    if xs != [] {
      SortSorted(xs[1..], le);
      KeepSort(xs[1..], le, p);
      KeepInsert(xs[0], Sort(xs[1..], le), le, p);
      assert p(xs[0]) ==> ([xs[0]] + Keep(xs[1..], p))[1..] == Keep(xs[1..], p);
    }
  }

  /** A query: transactions, and the predicates they have to satisfy. */
  class QueryIterable<T> {
    var transactions: seq<T>
    var predicates: seq<T -> bool>

    constructor (transactions: seq<T>)
      ensures this.transactions == transactions && predicates == []
    {
      this.transactions, predicates := transactions, [];
    }

    predicate Satisfies(t: T)
      reads this
    {
      forall i | 0 <= i < |predicates| :: predicates[i](t)
    }

    method WherePredicate(p: T -> bool)
      modifies this`predicates
      ensures predicates == old(predicates) + [p]
    {
      predicates := predicates + [p];
    }

    method SatisfiesPredicates(t: T) returns (ok: bool)
      ensures ok == Satisfies(t)
    {
      var i := 0;
      while i < |predicates|
        invariant 0 <= i <= |predicates| && forall j | 0 <= j < i :: predicates[j](t)
      {
        if !predicates[i](t) { return false; }
        i := i + 1;
      }
      return true;
    }

    method All() returns (all: seq<T>)
      ensures all == Keep(transactions, Sieve(predicates))
    {
      all := [];
      var i := 0;
      assert transactions[0..] == transactions;
      while i < |transactions|
        invariant 0 <= i <= |transactions|
        invariant all + Keep(transactions[i..], Sieve(predicates)) == Keep(transactions, Sieve(predicates))
      {
        assert transactions[i..][1..] == transactions[i + 1..];
        var ok := SatisfiesPredicates(transactions[i]);
        if ok { all := all + [transactions[i]]; }
        i := i + 1;
      }
      assert transactions[i..] == [];
    }

    /** The first that satisfies every predicate; where there is none, the query throws. */
    method First() returns (first: Option<T>)
      ensures first == if Keep(transactions, Sieve(predicates)) == [] then None
                       else Some(Keep(transactions, Sieve(predicates))[0])
    {
      var all := All();
      first := if all == [] then None else Some(all[0]);
    }
  }

  function Sieve<T>(predicates: seq<T -> bool>): T -> bool {
    t => forall i | 0 <= i < |predicates| :: predicates[i](t)
  }

  /** A predicate that is added to a query filters what the query gave before. */
  lemma {:induction false} MorePredicates<T>(xs: seq<T>, predicates: seq<T -> bool>, p: T -> bool)
    ensures Keep(xs, Sieve(predicates + [p])) == Keep(Keep(xs, Sieve(predicates)), p)
    decreases |xs|
  {
    if xs != [] {
      MorePredicates(xs[1..], predicates, p);
      var ps := predicates + [p];
      assert Sieve(ps)(xs[0]) <==> Sieve(predicates)(xs[0]) && p(xs[0]) by {
        assert ps[|predicates|] == p;
        assert forall i | 0 <= i < |predicates| :: ps[i] == predicates[i];
      }
      assert ([xs[0]] + Keep(xs[1..], Sieve(predicates)))[1..] == Keep(xs[1..], Sieve(predicates));
    }
  }

  lemma NoPredicates<T(!new)>(xs: seq<T>)
    ensures Keep(xs, Sieve([])) == xs
  {
    KeepWholeOrNone(xs, Sieve([]));
  }

  // ----- priorities -----

  predicate HigherFee(a: Tx, b: Tx) {
    a.fee >= b.fee
  }

  predicate LowerFee(a: Tx, b: Tx) {
    a.fee <= b.fee
  }

  predicate IsFrom(s: nat, t: Tx) {
    t.sender == s
  }

  function AllReversed(pools: seq<seq<Tx>>): seq<seq<Tx>> {
    if pools == [] then [] else [Reversed(pools[0])] + AllReversed(pools[1..])
  }

  /** The senders' pools, each from its earliest transaction, sorted by the fee alone. */
  function FromHighestPriority(pools: seq<seq<Tx>>): seq<Tx> {
    Sort(Flat(pools), HigherFee)
  }

  function FromLowestPriority(pools: seq<seq<Tx>>): seq<Tx> {
    Sort(Flat(AllReversed(pools)), LowerFee)
  }

  predicate InSome(pools: seq<seq<Tx>>, t: Tx) {
    exists i | 0 <= i < |pools| :: t in pools[i]
  }

  /** The first of the lowest priority has the lowest fee of all. */
  lemma FirstHasLowestFee(pools: seq<seq<Tx>>)
    ensures var q := FromLowestPriority(pools);
            && (forall t :: t in q <==> InSome(pools, t))
            && (q != [] ==> forall t | t in q :: q[0].fee <= t.fee)
  {
    hide Sort, Flat;
    var all := Flat(AllReversed(pools));
    assert Ordering(LowerFee);
    SortSorted(all, LowerFee);
    var q := FromLowestPriority(pools);
    forall t ensures t in q <==> InSome(pools, t) {
      assert t in q <==> t in multiset(all);
      FlatMembers(AllReversed(pools), t);
      AllReversedMembers(pools, t);
    }
    forall t | t in q ensures q[0].fee <= t.fee {
      var i :| 0 <= i < |q| && q[i] == t;
      assert i > 0 ==> LowerFee(q[0], q[i]);
    }
  }

  lemma {:induction false} AllReversedMembers(pools: seq<seq<Tx>>, t: Tx)
    ensures |AllReversed(pools)| == |pools|
    ensures forall i | 0 <= i < |pools| :: t in AllReversed(pools)[i] <==> t in pools[i]
    decreases |pools|
  {
    if pools != [] {
      AllReversedMembers(pools[1..], t);
      ReversedMembers(pools[0]);
    }
  }

  /** Pool `i` holds the transactions of `sender`, and no other pool does. */
  ghost predicate OwnPool(pools: seq<seq<Tx>>, i: nat, sender: nat) {
    i < |pools| && forall j, t | 0 <= j < |pools| && t in pools[j] :: t.sender == sender <==> j == i
  }

  lemma {:induction false} KeepAppend<T>(a: seq<T>, b: seq<T>, p: T -> bool)
    ensures Keep(a + b, p) == Keep(a, p) + Keep(b, p)
    decreases |a|
  {
    if a == [] {
      assert a + b == b;
    } else {
      KeepAppend(a[1..], b, p);
      assert (a + b)[1..] == a[1..] + b;
    }
  }

  lemma {:induction false} KeepWholeOrNone<T>(xs: seq<T>, p: T -> bool)
    ensures (forall x | x in xs :: p(x)) ==> Keep(xs, p) == xs
    ensures (forall x | x in xs :: !p(x)) ==> Keep(xs, p) == []
    decreases |xs|
  {
    if xs != [] {
      KeepWholeOrNone(xs[1..], p);
      assert xs == [xs[0]] + xs[1..];
    }
  }

  lemma {:induction false} KeepOwnPool(pools: seq<seq<Tx>>, i: nat, sender: nat)
    requires OwnPool(pools, i, sender)
    ensures Keep(Flat(pools), t => IsFrom(sender, t)) == pools[i]
  {
    var p := (t: Tx) => IsFrom(sender, t);
    SplitAt(pools, i);
    AroundPool(pools[..i], pools[i], pools[i + 1..], p);
    KeepWholeOrNone(pools[i], p);
    NoneElsewhere(pools[..i], p);
    NoneElsewhere(pools[i + 1..], p);
  }

  lemma AroundPool(before: seq<seq<Tx>>, pool: seq<Tx>, after: seq<seq<Tx>>, p: Tx -> bool)
    ensures Keep(Flat(before + [pool] + after), p) == Keep(Flat(before), p) + (Keep(pool, p) + Keep(Flat(after), p))
  {
    hide Keep, Flat;
    FlatMiddle(before, pool, after);
    KeepAppend(Flat(before), pool + Flat(after), p);
    KeepAppend(pool, Flat(after), p);
  }

  lemma SplitAt<T>(xs: seq<T>, i: nat)
    requires i < |xs|
    ensures xs == xs[..i] + [xs[i]] + xs[i + 1..]
  {
  }

  lemma NoneElsewhere(pools: seq<seq<Tx>>, p: Tx -> bool)
    requires forall j, t | 0 <= j < |pools| && t in pools[j] :: !p(t)
    ensures Keep(Flat(pools), p) == []
  {
    forall t | t in Flat(pools) ensures !p(t) {
      FlatMembers(pools, t);
    }
    KeepWholeOrNone(Flat(pools), p);
  }

  /** The collator meets one sender's transactions in the order they were made exactly when no fee among them rises. */
  lemma NonceOrderIffFeesFall(pools: seq<seq<Tx>>, i: nat, sender: nat)
    requires OwnPool(pools, i, sender)
    ensures Keep(FromHighestPriority(pools), t => IsFrom(sender, t)) == pools[i] <==> SortedBy(pools[i], HigherFee)
  {
    hide Sort, Keep, Flat;
    var p := (t: Tx) => IsFrom(sender, t);
    assert Ordering(HigherFee);
    KeepSort(Flat(pools), HigherFee, p);
    KeepOwnPool(pools, i, sender);
    SortSorted(pools[i], HigherFee);
    if SortedBy(pools[i], HigherFee) {
      SortSame(pools[i], HigherFee);
    }
  }

  /** Such a pool: the second transaction of a sender pays more than the first, and comes first. */
  lemma LaterTransactionComesFirst()
    ensures var first, second := Tx(1, 1, 1, 0, 100, 0, 0), Tx(2, 1, 2, 0, 100, 0, 0);
            FromHighestPriority([[first, second]]) == [second, first]
  {
    var first, second := Tx(1, 1, 1, 0, 100, 0, 0), Tx(2, 1, 2, 0, 100, 0, 0);
    var all := [first, second];
    var pools := [all];
    assert Flat(pools) == all by {
      assert pools[1..] == [];
      assert all + [] == all;
    }
    assert all[1..] == [second] && [second][1..] == [];
    assert Sort([second], HigherFee) == [second] by { assert Sort<Tx>([], HigherFee) == []; }
    assert Insert(first, [], HigherFee) == [first];
    assert Insert(first, [second], HigherFee) == [second] + Insert(first, [], HigherFee);
  }
}
