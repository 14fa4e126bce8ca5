/** The iterator over many sources: it merges them, and merging sorted sources is sorting. */
module Merging {
  import opened Options
  import opened Sorting

  function Flat<T>(queues: seq<seq<T>>): seq<T> {
    if queues == [] then [] else queues[0] + Flat(queues[1..])
  }

  // ----- merging -----

  /** `a` is strictly before `b`. */
  predicate Less<T>(le: (T, T) -> bool, a: T, b: T) {
    !le(b, a)
  }

  predicate AllEmpty<T>(queues: seq<seq<T>>) {
    forall i | 0 <= i < |queues| :: queues[i] == []
  }

  /** The earliest queue among those whose head no other head is strictly before. */
  function Least<T>(queues: seq<seq<T>>, le: (T, T) -> bool): (i: nat)
    requires !AllEmpty(queues)
    ensures i < |queues| && queues[i] != []
  {
    var n := |queues| - 1;
    if AllEmpty(queues[..n]) then n else
      var i := Least(queues[..n], le);
      if queues[n] != [] && Less(le, queues[n][0], queues[i][0]) then n else i
  }

  function Length<T>(queues: seq<seq<T>>): nat {
    if queues == [] then 0 else Length(queues[..|queues| - 1]) + |queues[|queues| - 1]|
  }

  lemma {:induction false} ShorterLength<T>(queues: seq<seq<T>>, i: nat)
    requires i < |queues| && queues[i] != []
    ensures Length(queues[i := queues[i][1..]]) == Length(queues) - 1
    decreases |queues|
  {
    var n := |queues| - 1;
    var shorter := queues[i := queues[i][1..]];
    if i < n {
      ShorterLength(queues[..n], i);
      assert shorter[..n] == queues[..n][i := queues[i][1..]];
    } else {
      assert shorter[..n] == queues[..n];
    }
  }

  function Popped<T>(queues: seq<seq<T>>, i: nat): (r: seq<seq<T>>)
    requires i < |queues| && queues[i] != []
    ensures |r| == |queues| && Length(r) == Length(queues) - 1
  {
    ShorterLength(queues, i);
    queues[i := queues[i][1..]]
  }

  function Merged<T>(queues: seq<seq<T>>, le: (T, T) -> bool): seq<T>
    decreases Length(queues)
  {
    if AllEmpty(queues) then [] else
      var i := Least(queues, le);
      [queues[i][0]] + Merged(Popped(queues, i), le)
  }

  /** The sources that the elements are taken from. */
  function Sources<T>(queues: seq<seq<T>>, le: (T, T) -> bool): seq<nat>
    decreases Length(queues)
  {
    if AllEmpty(queues) then [] else
      var i := Least(queues, le);
      [i] + Sources(Popped(queues, i), le)
  }

  function From<T>(xs: seq<T>, sources: seq<nat>, i: nat): seq<T>
    requires |xs| == |sources|
    decreases |xs|
  {
    if xs == [] then [] else (if sources[0] == i then [xs[0]] else []) + From(xs[1..], sources[1..], i)
  }

  /** Whatever the order, what comes from one source is that source, complete and in its order. */
  lemma {:induction false} MergeKeepsSources<T>(queues: seq<seq<T>>, le: (T, T) -> bool, i: nat)
    requires i < |queues|
    ensures |Merged(queues, le)| == |Sources(queues, le)| == Length(queues)
    ensures From(Merged(queues, le), Sources(queues, le), i) == queues[i]
    decreases Length(queues)
  {
    if AllEmpty(queues) {
      NothingLeft(queues);
    } else {
      var k := Least(queues, le);
      MergeKeepsSources(Popped(queues, k), le, i);
      assert queues[k] == [queues[k][0]] + queues[k][1..];
    }
  }

  lemma {:induction false} NothingLeft<T>(queues: seq<seq<T>>)
    requires AllEmpty(queues)
    ensures Length(queues) == 0
  {
    if queues != [] { NothingLeft(queues[..|queues| - 1]); }
  }

  // ----- merging sorted sources is sorting -----

  ghost predicate AllSorted<T>(queues: seq<seq<T>>, le: (T, T) -> bool) {
    forall i | 0 <= i < |queues| :: SortedBy(queues[i], le)
  }

  /** The head that is taken is strictly before the earlier heads, and not after the later ones. */
  lemma {:induction false} LeastIsLeast<T(!new)>(queues: seq<seq<T>>, le: (T, T) -> bool)
    requires Ordering(le) && !AllEmpty(queues)
    ensures var i := Least(queues, le);
            && (forall j | 0 <= j < i && queues[j] != [] :: Less(le, queues[i][0], queues[j][0]))
            && (forall j | i < j < |queues| && queues[j] != [] :: le(queues[i][0], queues[j][0]))
    decreases |queues|
  {
    var n := |queues| - 1;
    if !AllEmpty(queues[..n]) {
      LeastIsLeast(queues[..n], le);
      var i := Least(queues[..n], le);
      assert forall j | 0 <= j < n :: queues[..n][j] == queues[j];
    } else {
      assert forall j | 0 <= j < n :: queues[..n][j] == queues[j];
    }
  }

  lemma {:induction false} FlatAppend<T>(a: seq<seq<T>>, b: seq<seq<T>>)
    ensures Flat(a + b) == Flat(a) + Flat(b)
    decreases |a|
  {
    if a == [] {
      assert a + b == b;
    } else {
      FlatAppend(a[1..], b);
      assert (a + b)[1..] == a[1..] + b;
    }
  }

  lemma {:induction false} FlatMembers<T>(queues: seq<seq<T>>, x: T)
    ensures x in Flat(queues) <==> exists i | 0 <= i < |queues| :: x in queues[i]
    decreases |queues|
  {
    if queues != [] {
      FlatMembers(queues[1..], x);
      assert queues == [queues[0]] + queues[1..];
      if x in Flat(queues[1..]) {
        var i :| 0 <= i < |queues| - 1 && x in queues[1..][i];
        assert x in queues[i + 1];
      }
      if i :| 0 <= i < |queues| && x in queues[i] {
        assert i > 0 ==> queues[i] == queues[1..][i - 1];
      }
    }
  }

  /** An element that is strictly before all in front of it, and not after any behind it, comes first in a stable
      sort. */
  lemma {:induction false} FirstInSort<T(!new)>(a: seq<T>, x: T, b: seq<T>, le: (T, T) -> bool)
    requires Ordering(le)
    requires (forall y | y in a :: Less(le, x, y)) && (forall y | y in b :: le(x, y))
    ensures Sort(a + [x] + b, le) == [x] + Sort(a + b, le)
    decreases |a|
  {
    hide Ordering, SortedBy;
    var xs := a + [x] + b;
    if a == [] {
      assert xs == [x] + b && a + b == b;
      assert xs[1..] == b;
      SortMultiset(b, le);
      if Sort(b, le) != [] {
        assert Sort(b, le)[0] in multiset(b);
      }
    } else {
      assert xs[1..] == a[1..] + [x] + b && (a + b)[1..] == a[1..] + b;
      FirstInSort(a[1..], x, b, le);
      assert Less(le, x, a[0]);
      assert ([x] + Sort(a[1..] + b, le))[1..] == Sort(a[1..] + b, le);
    }
  }

  lemma FlatMiddle<T>(before: seq<seq<T>>, queue: seq<T>, after: seq<seq<T>>)
    ensures Flat(before + [queue] + after) == Flat(before) + (queue + Flat(after))
  {
    assert before + [queue] + after == before + ([queue] + after);
    assert ([queue] + after)[1..] == after;
    FlatAppend(before, [queue] + after);
  }

  lemma AroundIndex<T>(queues: seq<seq<T>>, i: nat)
    requires i < |queues| && queues[i] != []
    ensures queues == queues[..i] + [queues[i]] + queues[i + 1..]
    ensures Popped(queues, i) == queues[..i] + [queues[i][1..]] + queues[i + 1..]
  {
  }

  lemma Around<T>(queues: seq<seq<T>>, i: nat, a: seq<T>, x: T, b: seq<T>)
    requires i < |queues| && queues[i] != []
    requires x == queues[i][0] && a == Flat(queues[..i]) && b == queues[i][1..] + Flat(queues[i + 1..])
    ensures Flat(queues) == a + [x] + b && Flat(Popped(queues, i)) == a + b
  {
    hide Flat, Length, Popped;
    AroundIndex(queues, i);
    FlatMiddle(queues[..i], queues[i], queues[i + 1..]);
    FlatMiddle(queues[..i], queues[i][1..], queues[i + 1..]);
    HeadAndTail(queues[i], a, Flat(queues[i + 1..]));
  }

  lemma HeadAndTail<T>(xs: seq<T>, a: seq<T>, c: seq<T>)
    requires xs != []
    ensures a + (xs + c) == a + [xs[0]] + (xs[1..] + c)
  {
  }

  lemma HeadsFirst<T(!new)>(queues: seq<seq<T>>, le: (T, T) -> bool, a: seq<T>, x: T, b: seq<T>)
    requires Ordering(le) && AllSorted(queues, le) && !AllEmpty(queues)
    requires var i := Least(queues, le);
             x == queues[i][0] && a == Flat(queues[..i]) && b == queues[i][1..] + Flat(queues[i + 1..])
    ensures (forall y | y in a :: Less(le, x, y)) && (forall y | y in b :: le(x, y))
  {
    LeastIsLeast(queues, le);
    var i := Least(queues, le);
    forall y | y in a ensures Less(le, x, y) {
      FlatMembers(queues[..i], y);
      var j :| 0 <= j < i && y in queues[..i][j];
      HeadBefore(queues[j], le, y);
    }
    forall y | y in b ensures le(x, y) {
      if y in queues[i][1..] {
        HeadBefore(queues[i], le, y);
      } else {
        FlatMembers(queues[i + 1..], y);
        var j :| 0 <= j < |queues| - i - 1 && y in queues[i + 1..][j];
        assert queues[i + 1..][j] == queues[i + 1 + j];
        HeadBefore(queues[i + 1 + j], le, y);
      }
    }
  }

  lemma HeadBefore<T(!new)>(xs: seq<T>, le: (T, T) -> bool, y: T)
    requires Ordering(le) && SortedBy(xs, le) && y in xs
    ensures le(xs[0], y)
  {
  }

  lemma PoppedSorted<T>(queues: seq<seq<T>>, le: (T, T) -> bool, i: nat)
    requires AllSorted(queues, le) && i < |queues| && queues[i] != []
    ensures AllSorted(Popped(queues, i), le)
  {
    assert SortedBy(queues[i], le);
    SortedRest(queues[i], le);
  }

  lemma LeastComesFirst<T(!new)>(queues: seq<seq<T>>, le: (T, T) -> bool)
    requires Ordering(le) && AllSorted(queues, le) && !AllEmpty(queues)
    ensures var i := Least(queues, le);
            Sort(Flat(queues), le) == [queues[i][0]] + Sort(Flat(Popped(queues, i)), le)
  {
    hide Ordering, AllSorted, Sort, Least, Flat, Popped;
    var i := Least(queues, le);
    var x, a, b := queues[i][0], Flat(queues[..i]), queues[i][1..] + Flat(queues[i + 1..]);
    HeadsFirst(queues, le, a, x, b);
    Around(queues, i, a, x, b);
    FirstInSort(a, x, b, le);
  }

  /** Merging sorted sources gives what a stable sort of all of them, one source after the other, gives: sorted, nothing
      lost, and ties to the earliest source. */
  lemma {:induction false} MergeIsSort<T(!new)>(queues: seq<seq<T>>, le: (T, T) -> bool)
    requires Ordering(le) && AllSorted(queues, le)
    ensures Merged(queues, le) == Sort(Flat(queues), le)
    decreases Length(queues)
  {
    hide Ordering, AllSorted, Sort, Popped, Least, Flat;
    if AllEmpty(queues) {
      NothingToSort(queues, le);
    } else {
      var i := Least(queues, le);
      LeastComesFirst(queues, le);
      PoppedSorted(queues, le, i);
      MergeIsSort(Popped(queues, i), le);
    }
  }

  lemma {:induction false} NothingToSort<T>(queues: seq<seq<T>>, le: (T, T) -> bool)
    requires AllEmpty(queues)
    ensures Sort(Flat(queues), le) == []
    decreases |queues|
  {
    if queues != [] { NothingToSort(queues[1..], le); }
  }

  // ----- the iterator -----

  datatype Entry<T> = Entry(source: nat, head: T)

  /** Holds the head of every source that is not used up, in the order of the sources. */
  class IteratorMany<T> {
    var results: seq<Entry<T>>
    var rests: seq<seq<T>>
    const le: (T, T) -> bool
    ghost var queues: seq<seq<T>>

    ghost predicate Valid()
      reads this
    {
      && |rests| == |queues|
      && (forall k | 0 <= k < |results| :: results[k].source < |queues| && queues[results[k].source] != []
            && results[k].head == queues[results[k].source][0]
            && rests[results[k].source] == queues[results[k].source][1..])
      && (forall j, k | 0 <= j < k < |results| :: results[j].source < results[k].source)
      && (forall i | 0 <= i < |queues| && queues[i] != [] :: exists k | 0 <= k < |results| :: results[k].source == i)
    }

    constructor (sources: seq<seq<T>>, le: (T, T) -> bool)
      ensures Valid() && queues == sources && this.le == le
    {
      var entries: seq<Entry<T>>, remaining: seq<seq<T>> := [], sources;
      var i := 0;
      while i < |sources|
        invariant 0 <= i <= |sources| == |remaining|
        invariant forall j | 0 <= j < i && sources[j] != [] :: remaining[j] == sources[j][1..]
        invariant forall j | i <= j < |sources| :: remaining[j] == sources[j]
        invariant forall k | 0 <= k < |entries| ::
            entries[k].source < i && sources[entries[k].source] != []
            && entries[k].head == sources[entries[k].source][0]
        invariant forall j, k | 0 <= j < k < |entries| :: entries[j].source < entries[k].source
        invariant forall j | 0 <= j < i && sources[j] != [] :: exists k | 0 <= k < |entries| :: entries[k].source == j
      {
        if remaining[i] != [] {
          ghost var before := entries;
          entries := entries + [Entry(i, remaining[i][0])];
          remaining := remaining[i := remaining[i][1..]];
          assert entries[|before|].source == i;
          forall j | 0 <= j < i && sources[j] != [] ensures exists k | 0 <= k < |entries| :: entries[k].source == j {
            var k :| 0 <= k < |before| && before[k].source == j;
            assert entries[k].source == j;
          }
        }
        i := i + 1;
      }
      results, rests, queues, this.le := entries, remaining, sources, le;
    }

    /** The earliest of the least heads, found entry by entry. */
    method Reduce() returns (min: nat)
      requires Valid() && results != []
      ensures min < |results| && !AllEmpty(queues) && results[min].source == Least(queues, le)
    {
      hide Least, AllEmpty, Less;
      min := 0;
      var k := 1;
      OnlyOne(queues, le, results[0].source);
      while k < |results|
        invariant 0 <= min < k <= |results|
        invariant LeastOf(queues, le, results[k - 1].source + 1, results[min].source)
      {
        OneMore(queues, le, results[k - 1].source + 1, results[k].source, results[min].source);
        if Less(le, results[k].head, results[min].head) {
          min := k;
        }
        k := k + 1;
      }
      NoMore(queues, le, results[k - 1].source + 1, results[min].source);
    }

    method Next() returns (value: Option<T>)
      requires Valid()
      modifies this
      ensures Valid()
      ensures if AllEmpty(old(queues)) then value == None && queues == old(queues)
              else value == Some(old(queues)[Least(old(queues), le)][0])
                   && queues == Popped(old(queues), Least(old(queues), le))
    {
      hide Least, Less, Length;
      if results == [] { return None; }
      var min := Reduce();
      var entry := results[min];
      Advance(min);
      return Some(entry.head);
    }

    method Advance(min: nat)
      requires Valid() && min < |results|
      modifies this
      ensures Valid() && queues == Popped(old(queues), old(results)[min].source)
    {
      hide Length;
      var s := results[min].source;
      queues := Popped(queues, s);
      if rests[s] == [] {
        results := results[..min] + results[min + 1..];
      } else {
        results := results[min := Entry(s, rests[s][0])];
        rests := rests[s := rests[s][1..]];
      }
      KeepsEntries(old(queues), queues, old(results), results, min);
    }
  }

  /** `i` is the least of the first `n` queues. */
  ghost predicate LeastOf<T>(queues: seq<seq<T>>, le: (T, T) -> bool, n: nat, i: nat) {
    n <= |queues| && !AllEmpty(queues[..n]) && Least(queues[..n], le) == i
  }

  lemma {:induction false} Gap<T>(queues: seq<seq<T>>, le: (T, T) -> bool, n: nat, m: nat, i: nat)
    requires LeastOf(queues, le, n, i) && n <= m <= |queues| && forall j | n <= j < m :: queues[j] == []
    ensures LeastOf(queues, le, m, i)
    decreases m - n
  {
    if n < m {
      Gap(queues, le, n, m - 1, i);
      assert queues[..m][..m - 1] == queues[..m - 1];
      assert !AllEmpty(queues[..m]) by {
        var j :| 0 <= j < m - 1 && queues[..m - 1][j] != [];
        assert queues[..m][j] != [];
      }
    }
  }

  lemma {:induction false} OnlyOne<T>(queues: seq<seq<T>>, le: (T, T) -> bool, i: nat)
    requires i < |queues| && queues[i] != [] && forall j | 0 <= j < i :: queues[j] == []
    ensures LeastOf(queues, le, i + 1, i)
  {
    assert queues[..i + 1][i] != [];
    assert queues[..i + 1][..i] == queues[..i];
  }

  lemma OneMore<T>(queues: seq<seq<T>>, le: (T, T) -> bool, n: nat, k: nat, i: nat)
    requires LeastOf(queues, le, n, i) && n <= k < |queues| && queues[k] != []
    requires forall j | n <= j < k :: queues[j] == []
    ensures i < n && queues[i] != []
    ensures LeastOf(queues, le, k + 1, if Less(le, queues[k][0], queues[i][0]) then k else i)
  {
    Gap(queues, le, n, k, i);
    assert queues[..k + 1][..k] == queues[..k];
    assert queues[..k + 1][k] != [];
    assert queues[..k][i] == queues[i];
  }

  lemma NoMore<T>(queues: seq<seq<T>>, le: (T, T) -> bool, n: nat, i: nat)
    requires LeastOf(queues, le, n, i) && forall j | n <= j < |queues| :: queues[j] == []
    ensures !AllEmpty(queues) && Least(queues, le) == i
  {
    Gap(queues, le, n, |queues|, i);
    assert queues[..|queues|] == queues;
  }

  /** Every source that is not used up has an entry still, after the entry at `min` was replaced or dropped. */
  lemma KeepsEntries<T>(before: seq<seq<T>>, after: seq<seq<T>>, was: seq<Entry<T>>, now: seq<Entry<T>>, min: nat)
    requires min < |was| && |before| == |after|
    requires forall i | 0 <= i < |before| && i != was[min].source :: after[i] == before[i]
    requires forall i | 0 <= i < |before| && before[i] != [] :: exists k | 0 <= k < |was| :: was[k].source == i
    requires was[min].source < |before|
    requires if after[was[min].source] == [] then now == was[..min] + was[min + 1..]
             else |now| == |was| && forall k | 0 <= k < |was| :: now[k].source == was[k].source
    ensures forall i | 0 <= i < |after| && after[i] != [] :: exists k | 0 <= k < |now| :: now[k].source == i
  {
    var s := was[min].source;
    forall i | 0 <= i < |after| && after[i] != [] ensures exists k | 0 <= k < |now| :: now[k].source == i {
      if i != s || after[s] != [] {
        if i == s {
          assert now[min].source == s;
        } else {
          var k :| 0 <= k < |was| && was[k].source == i;
          if after[s] != [] || k < min { assert now[k].source == i; } else { assert now[k - 1] == was[k]; }
        }
      }
    }
  }
}
