/** The order in which a round's validators forge: the seeded shuffle, and the forger of each slot. */
module Schedules {
  import opened Options
  import opened Arithmetic
  import opened Milestones
  import opened Configurations
  import opened Ledgers
  import opened Sequences
  import Dpos

  // ----- the shuffle -----

  /** The bytes of the hash chain: the `x`-th byte of the `k`-th hash. */
  type Seeds = (nat, nat) -> nat

  function Swapped<T>(xs: seq<T>, i: nat, j: nat): (r: seq<T>)
    requires i < |xs| && j < |xs|
    ensures |r| == |xs|
  {
    xs[i := xs[j]][j := xs[i]]
  }

  /** From position `i` on, every position is swapped with one that the seeds pick, except every fifth. */
  function Shuffled<T>(xs: seq<T>, seeds: Seeds, i: nat): (r: seq<T>)
    ensures |r| == |xs|
    decreases |xs| - i
  {
    if i >= |xs| then xs
    else if i % 5 == 4 then Shuffled(xs, seeds, i + 1)
    else Shuffled(Swapped(xs, i, Modulo(seeds(i / 5, i % 5), |xs|)), seeds, i + 1)
  }

  lemma SwapPermutes<T>(xs: seq<T>, i: nat, j: nat)
    requires i < |xs| && j < |xs|
    ensures multiset(Swapped(xs, i, j)) == multiset(xs)
  {
  }

  lemma {:induction false} ShufflePermutes<T>(xs: seq<T>, seeds: Seeds, i: nat)
    ensures multiset(Shuffled(xs, seeds, i)) == multiset(xs)
    decreases |xs| - i
  {
    hide Swapped;
    if i < |xs| {
      if i % 5 == 4 {
        ShufflePermutes(xs, seeds, i + 1);
      } else {
        var j := Modulo(seeds(i / 5, i % 5), |xs|);
        SwapPermutes(xs, i, j);
        ShufflePermutes(Swapped(xs, i, j), seeds, i + 1);
      }
    }
  }

  /** Works in place, four positions to a hash. The outer loop steps over one more position each time. */
  method ShuffleValidators(validators: array<Address>, seeds: Seeds)
    modifies validators
    ensures validators[..] == Shuffled(old(validators[..]), seeds, 0)
    ensures multiset(validators[..]) == multiset(old(validators[..]))
  {
    hide Shuffled, Modulo;
    ShufflePermutes(validators[..], seeds, 0);
    var index, delCount, k := 0, validators.Length, 0;
    while index < delCount
      invariant 0 <= index && index == 5 * k
      invariant Shuffled(validators[..], seeds, index) == Shuffled(old(validators[..]), seeds, 0)
    {
      var x := 0;
      while x < 4 && index < delCount
        invariant 0 <= x <= 4 && index == 5 * k + x && index <= delCount
        invariant Shuffled(validators[..], seeds, index) == Shuffled(old(validators[..]), seeds, 0)
      {
        ShuffleStep(validators[..], seeds, index, k, x);
        var newIndex := Modulo(seeds(k, x), delCount);
        ghost var before := validators[..];
        var b := validators[newIndex];
        validators[newIndex] := validators[index];
        validators[index] := b;
        assert validators[..] == Swapped(before, index, newIndex);
        index := index + 1;
        x := x + 1;
      }
      ShuffleSkips(validators[..], seeds, index, k, x);
      index := if x == 4 then index + 1 else 5 * k + 5;
      k := k + 1;
    }
    ShuffleEnds(validators[..], seeds, index);
  }

  lemma ShuffleStep<T>(xs: seq<T>, seeds: Seeds, i: nat, k: nat, x: nat)
    requires i < |xs| && x < 4 && i == 5 * k + x
    ensures Shuffled(xs, seeds, i) == Shuffled(Swapped(xs, i, Modulo(seeds(k, x), |xs|)), seeds, i + 1)
  {
    hide Swapped, Modulo;
    Position(k, x);
  }

  lemma Position(k: nat, x: nat)
    requires x <= 4
    ensures (5 * k + x) / 5 == k && (5 * k + x) % 5 == x
  {
  }

  lemma ShuffleSkips<T>(xs: seq<T>, seeds: Seeds, i: nat, k: nat, x: nat)
    requires i == 5 * k + x && x <= 4 && (x == 4 || i >= |xs|)
    ensures Shuffled(xs, seeds, i) == Shuffled(xs, seeds, 5 * k + 5)
  {
    hide Swapped, Modulo;
    Position(k, x);
  }

  lemma ShuffleEnds<T>(xs: seq<T>, seeds: Seeds, i: nat)
    requires i >= |xs|
    ensures Shuffled(xs, seeds, i) == xs
  {
  }

  /** Two positions have changed places. */
  ghost predicate Exchanged<T(!new)>(xs: seq<T>, ys: seq<T>, i: nat, j: nat)
    requires i < |xs| && j < |xs|
  {
    && |ys| == |xs| && ys[i] == xs[j] && ys[j] == xs[i]
    && forall p | 0 <= p < |xs| && p != i && p != j :: ys[p] == xs[p]
  }

  /** What the validators look like before every position and after the last. */
  ghost predicate ShuffleTrace<T(!new)>(xs: seq<T>, seeds: Seeds, trace: seq<seq<T>>) {
    && |trace| == |xs| + 1 && trace[0] == xs
    && (forall i | 0 <= i <= |xs| :: |trace[i]| == |xs|)
    && forall i | 0 <= i < |xs| ::
         if i % 5 == 4 then trace[i + 1] == trace[i]
         else Exchanged(trace[i], trace[i + 1], i, seeds(i / 5, i % 5) % |xs|)
  }

  /** One position after the other, the first four of every five change places with the position that a byte of the hash
      picks, four bytes to a hash, and the fifth does not: that, step by step, is the whole shuffle. */
  lemma ShuffleIsTraced<T(!new)>(xs: seq<T>, seeds: Seeds) returns (trace: seq<seq<T>>)
    ensures ShuffleTrace(xs, seeds, trace) && trace[|xs|] == Shuffled(xs, seeds, 0)
  {
    hide Shuffled, Exchanged;
    trace := [xs];
    var i := 0;
    while i < |xs|
      invariant i <= |xs| && |trace| == i + 1 && trace[0] == xs && forall j | 0 <= j <= i :: |trace[j]| == |xs|
      invariant forall j | 0 <= j < i ::
                  if j % 5 == 4 then trace[j + 1] == trace[j]
                  else Exchanged(trace[j], trace[j + 1], j, seeds(j / 5, j % 5) % |xs|)
      invariant Shuffled(trace[i], seeds, i) == Shuffled(xs, seeds, 0)
    {
      ShuffleAt(trace[i], seeds, i);
      trace := trace + [if i % 5 == 4 then trace[i] else Swapped(trace[i], i, seeds(i / 5, i % 5) % |xs|)];
      i := i + 1;
    }
    ShuffleEnds(trace[i], seeds, i);
  }

  lemma ShuffleAt<T(!new)>(xs: seq<T>, seeds: Seeds, i: nat)
    requires i < |xs|
    ensures if i % 5 == 4 then Shuffled(xs, seeds, i) == Shuffled(xs, seeds, i + 1)
            else var ys := Swapped(xs, i, seeds(i / 5, i % 5) % |xs|);
                 Shuffled(xs, seeds, i) == Shuffled(ys, seeds, i + 1)
                 && Exchanged(xs, ys, i, seeds(i / 5, i % 5) % |xs|)
  {
  }

  // ----- the forger of a slot -----

  /** JavaScript's `%`. */
  function Remainder(a: int, b: int): int
    requires b > 0
  {
    if a >= 0 then Modulo(a, b) else -Modulo(-a, b)
  }

  function Modulo(a: int, n: int): (r: int)
    requires n > 0
    ensures 0 <= r < n
  {
    a % n
  }

  /** The positions of the forger of a slot and of the one after; none where they are not numbers, because the start
      of a later span is computed from a promise. */
  ghost function Forgers(ms: seq<Milestone>, height: int, slot: int): Option<(int, int)>
    requires Started(ms, 1) && Ordered(ms)
    requires ValueAt(ms, 1, ActiveValidators).Some? && ValueAt(ms, 1, ActiveValidators).value > 0
  {
    var n := ValueAt(ms, 1, ActiveValidators).value;
    var first := NextChange(ms, 1, ActiveValidators);
    if first.found && height >= first.height then None
    else Some((Remainder(slot, n), Remainder(Remainder(slot, n) + 1, n)))
  }

  /** A forger is found exactly up to the first change of the validator count that is listed after height 1; and then,
      from the epoch on, the positions are the slot and the next one modulo that count. */
  lemma ForgerPositions(ms: seq<Milestone>, height: int, slot: int, n: int)
    requires Started(ms, 1) && Ordered(ms) && ValueAt(ms, 1, ActiveValidators) == Some(n) && n > 0
    ensures var changes := ChangesAfter(ms, 1, ActiveValidators);
            Forgers(ms, height, slot).Some? <==> changes == [] || height < changes[0].height
    ensures slot >= 0 && Forgers(ms, height, slot).Some? ==>
              Forgers(ms, height, slot) == Some((slot % n, (slot + 1) % n))
  {
    hide NextFrom, ValueAt, Modulo;
    if slot >= 0 {
      NextForgerIsNext(slot, n);
      ModuloOf(slot, n);
      ModuloOf(slot + 1, n);
    }
  }

  lemma ModuloOf(a: int, n: int)
    requires n > 0
    ensures Modulo(a, n) == a % n
  {
  }

  /** Such a configuration: 4 validators, and 3 from height 5 on, where no forger is found for any slot. */
  lemma NoForgerAfterChange(slot: int)
    ensures var ms := [Milestone(1, map[ActiveValidators := 4]), Milestone(5, map[ActiveValidators := 3])];
            && Started(ms, 1) && Ordered(ms) && ValueAt(ms, 1, ActiveValidators) == Some(4)
            && Forgers(ms, 4, slot).Some? && Forgers(ms, 5, slot) == None
  {
    var ms := [Milestone(1, map[ActiveValidators := 4]), Milestone(5, map[ActiveValidators := 3])];
    assert ActiveIndex(ms, 1) == 0;
    assert !Changes(ms[0], Some(4), 1, ActiveValidators) && Changes(ms[1], Some(4), 1, ActiveValidators);
    assert NextFrom(ms, Some(4), 1, ActiveValidators, 1) == SearchResult(true, 5, Some(3));
  }

  method FindIndex(configuration: Configuration, height: int, slot: int) returns (result: Option<(int, int)>)
    requires configuration.Valid() && Started(configuration.milestones, 1)
    requires ValueAt(configuration.milestones, 1, ActiveValidators).Some?
    requires ValueAt(configuration.milestones, 1, ActiveValidators).value > 0
    modifies configuration`index
    ensures configuration.Valid() && result == Forgers(configuration.milestones, height, slot)
  {
    hide ActiveIndex, NextFrom, ValueAt, ChangesAfter, Remainder, Lookup;
    ghost var ms := configuration.milestones;
    assert ms[0].height <= 1;
    var next := configuration.GetNextMilestoneWithNewKey(1, ActiveValidators);
    var lastSpanSlotNumber: Option<int> := Some(0);
    var first := configuration.GetMilestone(1);
    var activeValidators := Lookup(first.value, ActiveValidators);
    LookupAt(ms, 1);
    var affecting := configuration.GetMilestonesWhichAffect(ActiveValidators);
    FirstChange(ms);
    var index := 0;
    while index < |affecting.value| - 1
      invariant 0 <= index <= |affecting.value| - 1
      invariant configuration.Valid() && configuration.milestones == ms && next.Ok? && next.value.height >= 1
      invariant index == 0 ==> lastSpanSlotNumber == Some(0) && activeValidators == ValueAt(ms, 1, ActiveValidators)
                               && next == Ok(NextChange(ms, 1, ActiveValidators))
      invariant index > 0 ==> lastSpanSlotNumber == None && height >= NextChange(ms, 1, ActiveValidators).height
                              && NextChange(ms, 1, ActiveValidators).found
    {
      if height < next.value.height { break; }
      lastSpanSlotNumber := None;
      activeValidators := next.value.data;
      NextHeight(ms, next.value.height);
      next := configuration.GetNextMilestoneWithNewKey(next.value.height, ActiveValidators);
      index := index + 1;
    }
    if lastSpanSlotNumber.None? { return None; }
    var currentForger := Remainder(slot - lastSpanSlotNumber.value, activeValidators.value);
    return Some((currentForger, Remainder(currentForger + 1, activeValidators.value)));
  }

  lemma LookupAt(ms: seq<Milestone>, h: int)
    requires Started(ms, h)
    ensures Lookup(ms[ActiveIndex(ms, h)], ActiveValidators) == ValueAt(ms, h, ActiveValidators)
  {
  }

  /** The list has a second entry exactly when the search from height 1 finds one. */
  lemma FirstChange(ms: seq<Milestone>)
    requires Started(ms, 1) && Ordered(ms)
    ensures ChangesAfter(ms, 1, ActiveValidators) != [] <==> NextChange(ms, 1, ActiveValidators).found
    ensures NextChange(ms, 1, ActiveValidators).height >= 1
  {
    hide NextFrom;
    NextHeight(ms, 1);
  }

  lemma NextHeight(ms: seq<Milestone>, h: int)
    requires Started(ms, 1) && h >= 1
    ensures Started(ms, h) && NextChange(ms, h, ActiveValidators).height >= 1
  {
    NextFromFound(ms, ValueAt(ms, h, ActiveValidators), h, ActiveValidators, 0);
    NextFromMissed(ms, ValueAt(ms, h, ActiveValidators), h, 0);
  }

  lemma {:induction false} NextFromMissed(ms: seq<Milestone>, current: Option<int>, prev: int, i: nat)
    ensures var r := NextFrom(ms, current, prev, ActiveValidators, i); !r.found ==> r.height == prev
    decreases |ms| - i
  {
    if i < |ms| && !Changes(ms[i], current, prev, ActiveValidators) { NextFromMissed(ms, current, prev, i + 1); }
  }

  /** `nextForger` is the next slot's `currentForger`, for every slot but those before the epoch where the count
      wraps. */
  lemma NextForgerIsNext(slot: int, n: int)
    requires n > 0
    ensures Remainder(Remainder(slot, n) + 1, n) == Remainder(slot + 1, n)
       <==> (slot >= 0 || n == 1 || Modulo(-slot, n) != 0)
  {
    hide Modulo;
    var m := Modulo(slot, n);
    if slot >= 0 {
      AfterModulo(slot, n);
      if m + 1 < n { SmallModulo(m + 1, n); } else { WholeModulo(n); }
    } else {
      BeforeRemainder(-slot, n);
    }
  }

  lemma WholeModulo(n: int)
    requires n > 0
    ensures Modulo(n, n) == 0
  {
    ModuloIs(n, n, 1, 0);
  }

  lemma ModuloIs(a: int, n: int, q: int, r: int)
    requires n > 0 && 0 <= r < n && a == n * q + r
    ensures Modulo(a, n) == r
  {
    QuotientIs(a, n, q);
  }

  lemma AfterModulo(a: int, n: int)
    requires n > 0
    ensures Modulo(a + 1, n) == if Modulo(a, n) + 1 == n then 0 else Modulo(a, n) + 1
  {
    var q, r := a / n, Modulo(a, n);
    MulDistributes(n, q, 1);
    if r + 1 == n { ModuloIs(a + 1, n, q + 1, 0); } else { ModuloIs(a + 1, n, q, r + 1); }
  }

  lemma BeforeModulo(a: int, n: int)
    requires n > 0
    ensures Modulo(a - 1, n) == if Modulo(a, n) == 0 then n - 1 else Modulo(a, n) - 1
  {
    hide Modulo;
    AfterModulo(a - 1, n);
  }

  lemma SmallModulo(r: int, n: int)
    requires 0 <= r < n
    ensures Modulo(r, n) == r
  {
    ModuloIs(r, n, 0, r);
  }

  lemma BeforeRemainder(m: int, n: int)
    requires n > 0 && m > 0
    ensures Remainder(Remainder(-m, n) + 1, n) == Remainder(1 - m, n) <==> n == 1 || Modulo(m, n) != 0
  {
    hide Modulo;
    var r := Modulo(m, n);
    BeforeModulo(m, n);
    SmallModulo(0, n);
    if n > 1 { SmallModulo(1, n); }
    if r > 0 { SmallModulo(r - 1, n); }
  }

  /** Who forges the `count` slots from `k` on. */
  function Duty<T>(forgers: seq<T>, k: nat, count: nat): (r: seq<T>)
    requires forgers != []
    ensures |r| == count
  {
    seq(count, i requires 0 <= i => forgers[Modulo(k + i, |forgers|)])
  }

  /** As many consecutive slots as there are validators are a rotation of the validators, wherever they begin. */
  lemma {:induction false} DutyIsPermutation<T>(forgers: seq<T>, k: nat)
    requires forgers != []
    ensures multiset(Duty(forgers, k, |forgers|)) == multiset(forgers)
  {
    hide Modulo;
    var n := |forgers|;
    if k == 0 {
      forall i | 0 <= i < n ensures Modulo(i, n) == i { SmallModulo(i, n); }
      assert Duty(forgers, 0, n) == forgers;
    } else {
      DutyIsPermutation(forgers, k - 1);
      var before := Duty(forgers, k - 1, n);
      TurnModulo(k - 1, n);
      assert Duty(forgers, k, n) == before[1..] + [before[0]];
      assert before == [before[0]] + before[1..];
    }
  }

  lemma TurnModulo(a: int, n: int)
    requires n > 0
    ensures Modulo(a + n, n) == Modulo(a, n)
  {
    MulDistributes(n, a / n, 1);
    ModuloIs(a + n, n, a / n + 1, Modulo(a, n));
  }

  /** From ranking to slots: while the validator count stays, any `n` consecutive slots are forged by the top `n` of the
      ranking, each of them exactly once, and by nobody else. */
  lemma EveryValidatorForgesOnce(l: Ledger, all: seq<Address>, n: nat, seeds: Seeds, k: nat, a: Address)
    requires Dpos.ListsValidators(l, all) && 0 < n <= |Dpos.Ranking(l, all)|
    ensures var round := Dpos.Ranking(l, all)[..n];
            multiset(Duty(Shuffled(round, seeds, 0), k, n))[a] == if a in round then 1 else 0
  {
    hide Dpos.Ranking, Shuffled, Duty;
    var round := Dpos.Ranking(l, all)[..n];
    Dpos.RankingSorts(l, all);
    ShufflePermutes(round, seeds, 0);
    DutyIsPermutation(Shuffled(round, seeds, 0), k);
    OnceIn(round, a);
  }

  /** The forger that the index names is the one on duty. */
  lemma ForgerOnDuty<T>(ms: seq<Milestone>, height: int, slot: nat, forgers: seq<T>)
    requires Started(ms, 1) && Ordered(ms) && forgers != []
    requires ValueAt(ms, 1, ActiveValidators) == Some(|forgers|)
    requires Forgers(ms, height, slot).Some?
    ensures var (current, next) := Forgers(ms, height, slot).value;
            && 0 <= current < |forgers| && 0 <= next < |forgers|
            && Duty(forgers, slot, 2) == [forgers[current], forgers[next]]
  {
    hide ValueAt, NextChange, Modulo;
    NextForgerIsNext(slot, |forgers|);
  }

  // ----- missed slots -----

  /** Goes through the slots between two blocks, but not further than once through all forgers. */
  method DetectMissedBlocks<T>(forgers: seq<T>, lastHeight: int, lastSlot: nat, currentSlot: int)
    returns (missed: seq<T>)
    ensures lastHeight == 1 || forgers == [] || currentSlot <= lastSlot ==> missed == []
    ensures lastHeight != 1 && forgers != [] && currentSlot > lastSlot ==>
              var gap := currentSlot - lastSlot - 1;
              missed == Duty(forgers, lastSlot + 1, if gap < |forgers| then gap else |forgers|)
  {
    missed := [];
    if lastHeight == 1 { return; }
    var missedSlots := if currentSlot - lastSlot - 1 < |forgers| then currentSlot - lastSlot - 1 else |forgers|;
    var index := 0;
    while index < missedSlots
      invariant 0 <= index && (index <= missedSlots || index == 0)
      invariant forgers == [] ==> missed == [] && index == 0
      invariant forgers != [] ==> missed == Duty(forgers, lastSlot + 1, index)
    {
      var missedSlot := lastSlot + index + 1;
      missed := missed + [forgers[Modulo(missedSlot, |forgers|)]];
      index := index + 1;
    }
  }

  /** A validator is reported exactly if a slot of its own lies between the two blocks, and is reported once. */
  lemma MissedAreOnDuty<T(!new)>(forgers: seq<T>, lastSlot: nat, gap: nat, v: T)
    requires forgers != [] && Distinct(forgers)
    ensures var missed := Duty(forgers, lastSlot + 1, if gap < |forgers| then gap else |forgers|);
            && Distinct(missed)
            && (v in missed <==> v in Duty(forgers, lastSlot + 1, gap))
  {
    hide Modulo;
    var n, k := |forgers|, lastSlot + 1;
    var round := Duty(forgers, k, n);
    DutyIsPermutation(forgers, k);
    forall x ensures multiset(round)[x] <= 1 { OnceIn(forgers, x); }
    OnceEach(round);
    var missed := Duty(forgers, k, if gap < n then gap else n);
    assert forall i | 0 <= i < |missed| :: missed[i] == round[i];
    if gap >= n {
      assert missed == round;
      if v in Duty(forgers, k, gap) {
        var i :| 0 <= i < gap && Duty(forgers, k, gap)[i] == v;
        assert v == forgers[Modulo(k + i, n)];
        assert v in multiset(round);
      }
      if v in missed {
        var i :| 0 <= i < n && missed[i] == v;
        assert Duty(forgers, k, gap)[i] == v;
      }
    }
  }
}
