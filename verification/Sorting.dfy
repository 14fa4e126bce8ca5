/** `Array.prototype.sort`: a stable sort by a comparison function. */
module Sorting {
  ghost predicate Ordering<T(!new)>(le: (T, T) -> bool) {
    && (forall x, y :: le(x, y) || le(y, x))
    && (forall x, y, z :: le(x, y) && le(y, z) ==> le(x, z))
  }

  ghost predicate SortedBy<T>(xs: seq<T>, le: (T, T) -> bool) {
    forall i, j | 0 <= i < j < |xs| :: le(xs[i], xs[j])
  }

  function Insert<T>(x: T, xs: seq<T>, le: (T, T) -> bool): seq<T> {
    if xs == [] || le(x, xs[0]) then [x] + xs else [xs[0]] + Insert(x, xs[1..], le)
  }

  /** Elements that compare equal keep their order. */
  function Sort<T>(xs: seq<T>, le: (T, T) -> bool): seq<T> {
    if xs == [] then [] else Insert(xs[0], Sort(xs[1..], le), le)
  }

  lemma {:induction false} InsertMultiset<T>(x: T, xs: seq<T>, le: (T, T) -> bool)
    ensures multiset(Insert(x, xs, le)) == multiset{x} + multiset(xs)
  {
    if xs != [] && !le(x, xs[0]) {
      InsertMultiset(x, xs[1..], le);
      assert xs == [xs[0]] + xs[1..];
    }
  }

  lemma {:induction false} SortMultiset<T>(xs: seq<T>, le: (T, T) -> bool)
    ensures multiset(Sort(xs, le)) == multiset(xs)
  {
    if xs != [] {
      SortMultiset(xs[1..], le);
      InsertMultiset(xs[0], Sort(xs[1..], le), le);
      assert xs == [xs[0]] + xs[1..];
    }
  }

  lemma {:induction false} InsertSorted<T(!new)>(x: T, xs: seq<T>, le: (T, T) -> bool)
    requires Ordering(le) && SortedBy(xs, le)
    ensures SortedBy(Insert(x, xs, le), le)
  {
    if xs != [] && !le(x, xs[0]) {
      var rest := Insert(x, xs[1..], le);
      InsertSorted(x, xs[1..], le);
      InsertMultiset(x, xs[1..], le);
      forall j | 0 <= j < |rest| ensures le(xs[0], rest[j]) {
        assert rest[j] in multiset(rest);
        assert rest[j] == x || rest[j] in xs[1..];
      }
    }
  }

  /** The result is a sorted rearrangement. */
  lemma {:induction false} SortSorted<T(!new)>(xs: seq<T>, le: (T, T) -> bool)
    requires Ordering(le)
    ensures SortedBy(Sort(xs, le), le) && multiset(Sort(xs, le)) == multiset(xs) && |Sort(xs, le)| == |xs|
  {
    SortMultiset(xs, le);
    assert |multiset(Sort(xs, le))| == |multiset(xs)|;
    if xs != [] {
      SortSorted(xs[1..], le);
      InsertSorted(xs[0], Sort(xs[1..], le), le);
    }
  }

  lemma SortedFirst<T(!new)>(xs: seq<T>, ys: seq<T>, le: (T, T) -> bool)
    requires Ordering(le) && SortedBy(xs, le) && xs != [] && ys != [] && ys[0] in xs
    ensures le(xs[0], ys[0])
  {
    var j :| 0 <= j < |xs| && xs[j] == ys[0];
  }

  /** There is only one sorted rearrangement if different elements never compare equal. */
  lemma {:induction false} SortedUnique<T(!new)>(xs: seq<T>, ys: seq<T>, le: (T, T) -> bool)
    requires Ordering(le) && SortedBy(xs, le) && SortedBy(ys, le) && multiset(xs) == multiset(ys)
    requires forall x, y | x in xs && y in xs && le(x, y) && le(y, x) :: x == y
    ensures xs == ys
  {
    hide Ordering, SortedBy;
    assert |xs| == |multiset(xs)| == |multiset(ys)| == |ys|;
    if xs != [] {
      assert xs[0] in multiset(ys) && ys[0] in multiset(xs);
      SortedFirst(xs, ys, le);
      SortedFirst(ys, xs, le);
      assert xs[0] == ys[0];
      RestMultiset(xs);
      RestMultiset(ys);
      SortedRest(xs, le);
      SortedRest(ys, le);
      SortedUnique(xs[1..], ys[1..], le);
    }
  }

  lemma RestMultiset<T>(xs: seq<T>)
    requires xs != []
    ensures xs == [xs[0]] + xs[1..] && multiset(xs[1..]) == multiset(xs) - multiset{xs[0]}
  {
    assert xs == [xs[0]] + xs[1..];
  }

  lemma SortedRest<T>(xs: seq<T>, le: (T, T) -> bool)
    requires SortedBy(xs, le) && xs != []
    ensures SortedBy(xs[1..], le)
  {
  }

  /** What is among the first `n` of a sorted list is before what is only behind them. */
  lemma TopBefore<T>(xs: seq<T>, le: (T, T) -> bool, n: nat, x: T, y: T)
    requires SortedBy(xs, le) && n <= |xs| && x in xs[..n] && y in xs && y !in xs[..n]
    ensures le(x, y) && x != y
  {
    var i :| 0 <= i < n && xs[..n][i] == x;
    var j :| 0 <= j < |xs| && xs[j] == y;
    assert xs[j] !in xs[..n];
    assert le(xs[i], xs[j]);
  }

  lemma {:induction false} InsertSame<T>(x: T, xs: seq<T>, le: (T, T) -> bool)
    requires SortedBy([x] + xs, le)
    ensures Insert(x, xs, le) == [x] + xs
  {
    if xs != [] { assert ([x] + xs)[0] == x && ([x] + xs)[1] == xs[0]; }
  }

  /** A sorted list is left alone. */
  lemma {:induction false} SortSame<T>(xs: seq<T>, le: (T, T) -> bool)
    requires SortedBy(xs, le)
    ensures Sort(xs, le) == xs
  {
    if xs != [] {
      assert [xs[0]] + xs[1..] == xs;
      SortSame(xs[1..], le);
      InsertSame(xs[0], xs[1..], le);
    }
  }
}
