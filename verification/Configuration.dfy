/** The crypto configuration: milestones merged in place and searched with a cursor that every query moves. */
module Configurations {
  import opened Options
  import opened Milestones
  import opened Sorting

  datatype Error = NoMilestones | HeightBeforeFirstMilestone | InvalidMilestoneConfiguration

  /** The milestones that set a validator count, as heights and counts. */
  function CountEntries(ms: seq<Milestone>): seq<Milestone> {
    if ms == [] then [] else
      var last := ms[|ms| - 1];
      CountEntries(ms[..|ms| - 1]) + if Truthy(last, ActiveValidators) then [last] else []
  }

  /** The entries that count are those that set a count other than 0. */
  lemma {:induction false} EntriesAre(ms: seq<Milestone>)
    ensures forall m ::
              m in CountEntries(ms) <==> m in ms && ActiveValidators in m.data && m.data[ActiveValidators] != 0
  {
    if ms != [] {
      EntriesAre(ms[..|ms| - 1]);
      assert ms == ms[..|ms| - 1] + [ms[|ms| - 1]];
    }
  }

  function CountOf(m: Milestone): int {
    if ActiveValidators in m.data then m.data[ActiveValidators] else 0
  }

  /** A count may change only where it is a whole number of rounds away from the entry before. */
  predicate EntryFits(previous: Milestone, current: Milestone) {
    CountOf(previous) == CountOf(current)
    || (CountOf(previous) != 0 && (current.height - previous.height) % CountOf(previous) == 0)
  }

  ghost predicate EntriesFit(entries: seq<Milestone>) {
    forall i | 0 < i < |entries| :: EntryFits(entries[i - 1], entries[i])
  }

  predicate LowerHeight(a: Milestone, b: Milestone) {
    a.height <= b.height
  }

  class Configuration {
    var config: seq<Milestone> // the list as it was set last, which `isNewRound` reads
    var milestones: seq<Milestone>
    var index: int
    var height: int // 0 while no height was set

    ghost predicate Valid()
      reads this
    {
      Ordered(milestones) && -1 <= index && (index < |milestones| || index == 0)
    }

    constructor ()
      ensures Valid() && config == [] && milestones == [] && height == 0
    {
      config, milestones, index, height := [], [], 0, 0;
    }

    method FilterCounts(ms: seq<Milestone>) returns (entries: seq<Milestone>)
      ensures entries == CountEntries(ms)
    {
      entries := [];
      var i := 0;
      while i < |ms|
        invariant 0 <= i <= |ms| && entries == CountEntries(ms[..i])
      {
        if Truthy(ms[i], ActiveValidators) { entries := entries + [ms[i]]; }
        i := i + 1;
        assert ms[..i][..i - 1] == ms[..i - 1];
      }
      assert ms[..i] == ms;
    }

    method ValidateMilestones(sorted: seq<Milestone>) returns (ok: bool)
      ensures ok <==> EntriesFit(CountEntries(sorted))
    {
      var entries := FilterCounts(sorted);
      TruthyEntries(sorted);
      var i := 1;
      while i < |entries|
        invariant 1 <= i && (entries == [] || i <= |entries|)
        invariant forall k | 0 < k < i && k < |entries| :: EntryFits(entries[k - 1], entries[k])
      {
        var previous, current := entries[i - 1], entries[i];
        if CountOf(previous) != CountOf(current)
           && (current.height - previous.height) % CountOf(previous) != 0 {
          assert !EntryFits(entries[i - 1], entries[i]);
          return false;
        }
        i := i + 1;
      }
      return true;
    }

    static lemma {:induction false} TruthyEntries(ms: seq<Milestone>)
      ensures forall i | 0 <= i < |CountEntries(ms)| :: Truthy(CountEntries(ms)[i], ActiveValidators)
    {
      if ms != [] { TruthyEntries(ms[..|ms| - 1]); }
    }

    /** Validates, then merges every milestone into the next. The configuration and the milestones are then one array. A
        refused list leaves the milestones as they were, but stays behind, sorted, as the configuration. */
    method SetConfig(raw: seq<Milestone>) returns (r: Result<(), Error>)
      modifies this
      ensures var sorted := Sort(raw, LowerHeight);
              if EntriesFit(CountEntries(sorted))
              then r == Ok(()) && milestones == Merged(sorted) && config == milestones && Valid()
              else r == Err(InvalidMilestoneConfiguration) && config == sorted
                   && milestones == old(milestones) && index == old(index)
      ensures height == old(height)
    {
      hide Sort, SortedBy, EntriesFit, CountEntries;
      var sorted := Sort(raw, LowerHeight);
      SortedIsOrdered(raw);
      config := sorted;
      var ok := ValidateMilestones(sorted);
      if !ok { return Err(InvalidMilestoneConfiguration); }
      BuildConstants(sorted);
      return Ok(());
    }

    static lemma SortedIsOrdered(raw: seq<Milestone>)
      ensures Ordered(Merged(Sort(raw, LowerHeight)))
    {
      hide Sort, Merged;
      SortSorted(raw, LowerHeight);
      var sorted := Sort(raw, LowerHeight);
      forall i, j | 0 <= i < j < |sorted| ensures Merged(sorted)[i].height <= Merged(sorted)[j].height {
        assert LowerHeight(sorted[i], sorted[j]);
      }
    }

    method BuildConstants(sorted: seq<Milestone>)
      modifies this
      ensures milestones == Merged(sorted) && config == milestones && index == 0 && height == old(height)
    {
      hide Merged;
      milestones, index := sorted, 0;
      MergeStart(sorted);
      var lastMerged := 0;
      while lastMerged < |milestones| - 1
        invariant |milestones| == |sorted| && 0 <= lastMerged && (sorted == [] || lastMerged < |sorted|)
        invariant sorted != [] ==> milestones == Merged(sorted[..lastMerged + 1]) + sorted[lastMerged + 1..]
        invariant sorted == [] ==> milestones == []
        invariant index == 0 && height == old(height)
      {
        MergeStep(milestones, sorted, lastMerged + 1);
        milestones := milestones[lastMerged + 1 :=
          Milestone(milestones[lastMerged + 1].height,
                    milestones[lastMerged].data + milestones[lastMerged + 1].data)];
        lastMerged := lastMerged + 1;
      }
      assert sorted[..|sorted|] == sorted && Merged(sorted) + [] == Merged(sorted);
      config := milestones;
    }

    static lemma MergeStart(ms: seq<Milestone>)
      ensures Merged([]) == []
      ensures ms != [] ==> ms == Merged(ms[..1]) + ms[1..]
    {
    }

    static lemma {:induction false} MergeStep(current: seq<Milestone>, ms: seq<Milestone>, n: nat)
      requires 0 < n < |ms| && current == Merged(ms[..n]) + ms[n..]
      ensures current[n := Milestone(current[n].height, current[n - 1].data + current[n].data)]
              == Merged(ms[..n + 1]) + ms[n + 1..]
    {
      assert ms[..n + 1][..n] == ms[..n];
      var next := Milestone(ms[n].height, current[n - 1].data + ms[n].data);
      assert Merged(ms[..n + 1]) == Merged(ms[..n]) + [next];
      hide Merged;
      assert ms[n..] == [ms[n]] + ms[n + 1..];
      Replaced(Merged(ms[..n]), ms[n], ms[n + 1..], next);
    }

    static lemma Replaced<T>(front: seq<T>, x: T, rest: seq<T>, y: T)
      ensures (front + ([x] + rest))[|front| := y] == front + [y] + rest
    {
    }

    function Effective(h: int): int
      reads this
    {
      if h != 0 then h else if height != 0 then height else 1
    }

    /** Height 0 stands for the configuration's own height, or for 1 where it has none; and the milestone of a height is
        the last one that is no later. */
    lemma MilestoneOf(h: int)
      requires Valid() && Started(milestones, Effective(h))
      ensures Effective(h) == if h > 0 || h < 0 then h else if height > 0 || height < 0 then height else 1
      ensures var r := ActiveIndex(milestones, Effective(h));
              && milestones[r].height <= Effective(h)
              && forall j | 0 <= j < |milestones| && milestones[j].height <= Effective(h) :: j <= r
    {
    }

    /** The answer does not depend on where earlier queries, even failed ones, have left the cursor. */
    method GetMilestone(h: int) returns (r: Result<Milestone, Error>)
      requires Valid()
      modifies this`index
      ensures Valid()
      ensures r == if milestones == [] then Err(NoMilestones)
                   else if Started(milestones, Effective(h))
                   then Ok(milestones[ActiveIndex(milestones, Effective(h))])
                   else Err(HeightBeforeFirstMilestone)
    {
      if milestones == [] { return Err(NoMilestones); }
      var at := Effective(h);
      while index < |milestones| - 1 && at >= milestones[index + 1].height
        invariant Valid()
        decreases |milestones| - index
      {
        index := index + 1;
      }
      while index >= 0 && at < milestones[index].height
        invariant Valid()
        invariant index < |milestones| - 1 ==> at < milestones[index + 1].height
      {
        index := index - 1;
      }
      if index < 0 { return Err(HeightBeforeFirstMilestone); }
      return Ok(milestones[index]);
    }

    method GetNextMilestoneWithNewKey(prev: int, key: Key) returns (r: Result<SearchResult, Error>)
      requires Valid()
      modifies this`index
      ensures Valid()
      ensures milestones == [] ==> r == Err(NoMilestones)
      ensures Started(milestones, Effective(prev)) ==>
                r == Ok(NextFrom(milestones, ValueAt(milestones, Effective(prev), key), prev, key, 0))
      ensures milestones != [] && !Started(milestones, Effective(prev)) ==>
                r == if exists m | m in milestones :: Truthy(m, key)
                     then Err(HeightBeforeFirstMilestone) else Ok(SearchResult(false, prev, None))
    {
      hide ActiveIndex, Ordered;
      if milestones == [] { return Err(NoMilestones); }
      var i := 0;
      while i < |milestones|
        invariant 0 <= i <= |milestones| && Valid()
        invariant Started(milestones, Effective(prev)) ==>
                    var current := ValueAt(milestones, Effective(prev), key);
                    NextFrom(milestones, current, prev, key, 0) == NextFrom(milestones, current, prev, key, i)
        invariant !Started(milestones, Effective(prev)) ==> forall j | 0 <= j < i :: !Truthy(milestones[j], key)
      {
        var milestone := milestones[i];
        if Truthy(milestone, key) {
          var current := GetMilestone(prev);
          if current.Err? { return Err(current.error); }
          if Lookup(milestone, key) != Lookup(current.value, key) && milestone.height > prev {
            return Ok(SearchResult(true, milestone.height, Some(milestone.data[key])));
          }
        }
        i := i + 1;
      }
      return Ok(SearchResult(false, prev, None));
    }

    /** The list of all values of `key` and the heights they start at: it ends, and it misses and repeats none. */
    method GetMilestonesWhichAffect(key: Key) returns (r: Result<seq<SearchResult>, Error>)
      requires Valid()
      modifies this`index
      ensures Valid()
      ensures milestones == [] ==> r == Err(NoMilestones)
      ensures milestones != [] && milestones[0].height > 1 ==> r == Err(HeightBeforeFirstMilestone)
      ensures Started(milestones, 1) ==>
                r == Ok([SearchResult(true, 1, ValueAt(milestones, 1, key))] + ChangesAfter(milestones, 1, key))
    {
      hide ActiveIndex, NextFrom, Ordered, Lookup;
      var first := GetMilestone(1);
      if first.Err? { return Err(first.error); }
      var list := [SearchResult(true, 1, Lookup(first.value, key))];
      ghost var head := list;
      var next := GetNextMilestoneWithNewKey(1, key);
      ghost var from := 1;
      while next.Ok? && next.value.found
        invariant Valid()
        invariant Started(milestones, from) && from >= 1
        invariant next == Ok(NextChange(milestones, from, key))
        invariant head + ChangesAfter(milestones, 1, key) == list + ChangesAfter(milestones, from, key)
        decreases milestones[|milestones| - 1].height - from
      {
        NextChangeBelowLast(milestones, from, key);
        assert ChangesAfter(milestones, from, key)
               == [next.value] + ChangesAfter(milestones, next.value.height, key);
        list := list + [next.value];
        from := next.value.height;
        next := GetNextMilestoneWithNewKey(next.value.height, key);
      }
      assert ChangesAfter(milestones, from, key) == [];
      assert list + [] == list;
      return Ok(list);
    }
  }
}
