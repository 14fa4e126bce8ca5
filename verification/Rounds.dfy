/** Rounds: two ways of computing them, and the heights at which each of them agrees with the counts in force. */
module Rounds {
  import opened Options
  import opened Arithmetic
  import opened Milestones
  import opened Configurations

  datatype RoundInfo = RoundInfo(round: int, roundHeight: int, nextRound: int, maxValidators: nat)

  /** `a` heights are a whole number of rounds of `n` blocks. */
  predicate Whole(a: int, n: int)
    requires n != 0
  {
    a % n == 0
  }

  /** How many rounds of `n` blocks fit into `a` heights. */
  function Fitting(a: int, n: int): int
    requires n > 0
  {
    a / n
  }

  /** Merged milestones from height 1 on, in order, each with a validator count. Heights may repeat. */
  ghost predicate Usable(ms: seq<Milestone>) {
    ms != [] && ms[0].height == 1 && Ordered(ms) && Positive(ms, ActiveValidators)
  }

  /** The validator count in force at a height. */
  ghost function CountAt(ms: seq<Milestone>, h: int): (n: int)
    requires Usable(ms) && h >= 1
    ensures n > 0 && Started(ms, h) && ValueAt(ms, h, ActiveValidators) == Some(n)
  {
    CountOf(ms[ActiveIndex(ms, h)])
  }

  /** The height since which the count at `h` has been in force. */
  ghost function Since(ms: seq<Milestone>, h: int): (r: int)
    requires Usable(ms) && h >= 1
    ensures 1 <= r <= h
    decreases h
  {
    if h == 1 || CountAt(ms, h) != CountAt(ms, h - 1) then h else Since(ms, h - 1)
  }

  /** A round starts every so many heights since the count came into force. */
  ghost predicate NewRound(ms: seq<Milestone>, h: int)
    requires Usable(ms) && h >= 1
  {
    Whole(h - Since(ms, h), CountAt(ms, h))
  }

  /** How many of the heights from 1 to `h` start a round. */
  ghost function RoundCount(ms: seq<Milestone>, h: nat): nat
    requires Usable(ms)
  {
    if h == 0 then 0 else RoundCount(ms, h - 1) + if NewRound(ms, h) then 1 else 0
  }

  /** If the count changes at `t`, it does so at the end of a round. */
  ghost predicate AlignedAt(ms: seq<Milestone>, t: int)
    requires Usable(ms) && t > 1
  {
    CountAt(ms, t) != CountAt(ms, t - 1) ==> Whole(t - Since(ms, t - 1), CountAt(ms, t - 1))
  }

  ghost predicate AlignedTo(ms: seq<Milestone>, h: int)
    requires Usable(ms)
  {
    forall t | 1 < t <= h :: AlignedAt(ms, t)
  }

  /** `info` describes the round of height `h`: its number, its first height, and its size. */
  ghost predicate Describes(ms: seq<Milestone>, h: nat, info: RoundInfo)
    requires Usable(ms) && h >= 1
  {
    && info.round == RoundCount(ms, h)
    && info.maxValidators == CountAt(ms, h)
    && 1 <= info.roundHeight <= h < info.roundHeight + info.maxValidators
    && NewRound(ms, info.roundHeight)
    && forall k | info.roundHeight < k <= h :: !NewRound(ms, k)
  }

  // ----- while a count stays in force -----

  lemma {:induction false} SinceStays(ms: seq<Milestone>, k: int, h: int)
    requires Usable(ms) && h >= 1 && Since(ms, h) <= k <= h
    ensures Since(ms, k) == Since(ms, h) && CountAt(ms, k) == CountAt(ms, h)
    decreases h
  {
    hide CountAt, Since, Usable;
    if k < h {
      SinceUnfolds(ms, h);
      SinceStays(ms, k, h - 1);
    }
  }

  lemma SinceUnfolds(ms: seq<Milestone>, h: int)
    requires Usable(ms) && h > 1
    ensures Since(ms, h) == if CountAt(ms, h) != CountAt(ms, h - 1) then h else Since(ms, h - 1)
  {
    hide CountAt, Usable;
  }

  lemma NewRoundInSpan(ms: seq<Milestone>, k: int, h: int)
    requires Usable(ms) && h >= 1 && Since(ms, h) <= k <= h
    ensures NewRound(ms, k) <==> Whole(k - Since(ms, h), CountAt(ms, h))
  {
    hide CountAt, Since, Whole;
    SinceStays(ms, k, h);
  }

  lemma SinceNext(ms: seq<Milestone>, t: int)
    requires Usable(ms) && t >= 1
    ensures Since(ms, t + 1) == if CountAt(ms, t + 1) == CountAt(ms, t) then Since(ms, t) else t + 1
    ensures AlignedAt(ms, t + 1) <==>
              (CountAt(ms, t + 1) == CountAt(ms, t) || Whole(t + 1 - Since(ms, t), CountAt(ms, t)))
    ensures NewRound(ms, t + 1) <==>
              (CountAt(ms, t + 1) != CountAt(ms, t) || Whole(t + 1 - Since(ms, t), CountAt(ms, t)))
  {
    hide CountAt, Whole, Since, Usable;
    SinceUnfolds(ms, t + 1);
    WholeZero(CountAt(ms, t + 1));
  }

  lemma DivisionTick(a: int, n: int)
    requires n > 0 && a > 0
    ensures Fitting(a, n) == Fitting(a - 1, n) + if Whole(a, n) then 1 else 0
  {
    var q, r := a / n, a % n;
    MulDistributes(n, q, -1);
    QuotientIs(a - 1, n, if r == 0 then q - 1 else q);
  }

  /** While the count stays, a round starts every so many heights. */
  lemma {:induction false} CountInSpan(ms: seq<Milestone>, k: nat, h: nat)
    requires Usable(ms) && h >= 1 && Since(ms, h) <= k <= h
    ensures RoundCount(ms, k) == RoundCount(ms, Since(ms, h)) + Fitting(k - Since(ms, h), CountAt(ms, h))
    decreases k
  {
    hide NewRound, Since, CountAt, Whole, Fitting;
    FitsNone(CountAt(ms, h));
    if k > Since(ms, h) {
      CountInSpan(ms, k - 1, h);
      NewRoundInSpan(ms, k, h);
      DivisionTick(k - Since(ms, h), CountAt(ms, h));
    }
  }

  /** A change at the end of a round: the rounds up to there are as many as fit. */
  lemma CountToChange(ms: seq<Milestone>, t: nat)
    requires Usable(ms) && t > 1 && CountAt(ms, t) != CountAt(ms, t - 1) && AlignedAt(ms, t)
    ensures Since(ms, t) == t
    ensures RoundCount(ms, t) == RoundCount(ms, Since(ms, t - 1)) + Fitting(t - Since(ms, t - 1), CountAt(ms, t - 1))
  {
    hide CountAt, Whole, Fitting, Since, NewRound;
    SinceNext(ms, t - 1);
    CountInSpan(ms, t - 1, t - 1);
    DivisionTick(t - Since(ms, t - 1), CountAt(ms, t - 1));
  }

  lemma FitsNone(n: int)
    requires n > 0
    ensures Fitting(0, n) == 0
  {
  }

  lemma WholeZero(n: int)
    requires n != 0
    ensures Whole(0, n)
  {
  }

  lemma FittingBounds(a: int, n: int)
    requires n > 0 && a >= 0
    ensures 0 <= Fitting(a, n) * n <= a < Fitting(a, n) * n + n
  {
    Division(a, n);
    MulSign(a / n, n);
  }

  lemma MultipleMod(q: int, n: int)
    requires n > 0
    ensures Whole(q * n, n)
  {
    QuotientIs(q * n, n, q);
  }

  lemma BetweenMultiples(a: int, q: int, n: int)
    requires n > 0 && q * n < a < q * n + n
    ensures !Whole(a, n)
  {
    QuotientIs(a, n, q);
  }

  /** Number, first height and size, computed from where the count came into force. */
  lemma DescribesInSpan(ms: seq<Milestone>, h: nat, info: RoundInfo)
    requires Usable(ms) && h >= 1
    requires var n, past := CountAt(ms, h), h - Since(ms, h);
             && info.round == RoundCount(ms, Since(ms, h)) + Fitting(past, n)
             && info.roundHeight == Since(ms, h) + Fitting(past, n) * n
             && info.maxValidators == n
    ensures Describes(ms, h, info)
  {
    hide NewRound, RoundCount, Since, CountAt, Whole, Fitting;
    var n, start := CountAt(ms, h), Since(ms, h);
    var past := h - start;
    CountInSpan(ms, h, h);
    FittingBounds(past, n);
    NewRoundInSpan(ms, info.roundHeight, h);
    MultipleMod(Fitting(past, n), n);
    forall k | info.roundHeight < k <= h ensures !NewRound(ms, k) {
      NewRoundInSpan(ms, k, h);
      BetweenMultiples(k - start, Fitting(past, n), n);
    }
  }

  /** The formula for the next round agrees with counting exactly where no count changes within a round at the next
      height. */
  lemma NextRound(ms: seq<Milestone>, h: nat)
    requires Usable(ms) && h >= 1 && AlignedTo(ms, h)
    ensures RoundCount(ms, h + 1) == RoundCount(ms, h) + (if Whole(h - Since(ms, h) + 1, CountAt(ms, h)) then 1 else 0)
            <==> AlignedTo(ms, h + 1)
  {
    hide CountAt, Whole, Since, AlignedAt, NewRound;
    assert h - Since(ms, h) + 1 == h + 1 - Since(ms, h);
    SinceNext(ms, h);
    assert AlignedTo(ms, h + 1) <==> AlignedAt(ms, h + 1);
  }

  // ----- calculateRound -----

  /** Through the changes that the search lists, up to the span of `h`. */
  function Calculate(h: int, changes: seq<SearchResult>, round: int, start: int, size: int): Result<RoundInfo, Error>
    requires AllPositive(changes) && size > 0
    decreases |changes|
  {
    if changes == [] || h < changes[0].height then
      var increase := Fitting(h - start, size);
      Ok(RoundInfo(round + increase, start + increase * size,
                   round + increase + (if Whole(h - start + 1, size) then 1 else 0), size))
    else
      var span := changes[0].height - start;
      if !Whole(span, size) then Err(InvalidMilestoneConfiguration)
      else Calculate(h, changes[1..], round + Fitting(span, size), changes[0].height, changes[0].data.value)
  }

  /** What is left to calculate when the search stands at height `t`. */
  ghost function CalculateFrom(ms: seq<Milestone>, h: int, t: int, round: int, start: int, size: int)
    : Result<RoundInfo, Error>
    requires Usable(ms) && t >= 1 && size > 0
  {
    assert Started(ms, t);
    ChangesArePositive(ms, t, ActiveValidators);
    Calculate(h, ChangesAfter(ms, t, ActiveValidators), round, start, size)
  }

  ghost function Calculated(ms: seq<Milestone>, h: int): Result<RoundInfo, Error>
    requires Usable(ms)
  {
    CalculateFrom(ms, h, 1, 1, 1, CountAt(ms, 1))
  }

  ghost predicate Right(ms: seq<Milestone>, h: nat)
    requires Usable(ms) && h >= 1
  {
    Calculated(ms, h).Ok? && Describes(ms, h, Calculated(ms, h).value)
  }

  ghost predicate SoundAtHeight(ms: seq<Milestone>, t: int)
    requires Usable(ms) && t > 1
  {
    assert Started(ms, t - 1);
    SoundAt(ms, ActiveValidators, t)
  }

  ghost predicate SoundTo(ms: seq<Milestone>, h: int)
    requires Usable(ms)
  {
    forall t | 1 < t <= h :: SoundAtHeight(ms, t)
  }

  /** The calculation where the search has listed all that matters. */
  lemma AtTheHeight(ms: seq<Milestone>, h: int, t: int, round: int, start: int, size: int)
    requires Usable(ms) && 1 <= t && size > 0 && h <= t
    ensures CalculateFrom(ms, h, t, round, start, size)
         == Ok(RoundInfo(round + Fitting(h - start, size), start + Fitting(h - start, size) * size,
                         round + Fitting(h - start, size) + (if Whole(h - start + 1, size) then 1 else 0), size))
  {
    hide NextChange, Whole;
    NextChangeBelowLast(ms, t, ActiveValidators);
  }

  /** The first count at `t` that differs from the one in force below. */
  ghost function FoundAt(ms: seq<Milestone>, t: int): (n: Option<int>)
    requires Usable(ms) && t > 1
    ensures n.Some? ==> n.value > 0 && n.value != CountAt(ms, t - 1)
    ensures n.None? ==> SoundAtHeight(ms, t) && CountAt(ms, t) == CountAt(ms, t - 1)
    ensures n.Some? ==> (SoundAtHeight(ms, t) <==> n.value == CountAt(ms, t))
  {
    var below := ValueAt(ms, t - 1, ActiveValidators);
    var first := FirstAt(ms, ActiveValidators, below, t, 0);
    if CountAt(ms, t) != CountAt(ms, t - 1) then
      DiffersWhereItChanges(ms, t);
      Lookup(ms[first], ActiveValidators)
    else if first < |ms| then Lookup(ms[first], ActiveValidators) else None
  }

  /** One height further: nothing, or a change that the search reports. */
  lemma OneHeight(ms: seq<Milestone>, h: int, t: int, round: int, start: int, size: int)
    requires Usable(ms) && 1 <= t < h && size > 0
    ensures CalculateFrom(ms, h, t, round, start, size) ==
              if FoundAt(ms, t + 1).None? then CalculateFrom(ms, h, t + 1, round, start, size)
              else if !Whole(t + 1 - start, size) then Err(InvalidMilestoneConfiguration)
              else CalculateFrom(ms, h, t + 1, round + Fitting(t + 1 - start, size), t + 1, FoundAt(ms, t + 1).value)
  {
    hide Whole, Fitting, ActiveIndex, NextChange, ChangesAfter;
    assert Started(ms, t);
    SearchStep(ms, t, ActiveValidators);
    var e := FirstAt(ms, ActiveValidators, ValueAt(ms, t, ActiveValidators), t + 1, 0);
    if e < |ms| {
      assert ChangesAfter(ms, t, ActiveValidators)[1..] == ChangesAfter(ms, t + 1, ActiveValidators);
    }
  }

  /** Where the count in force changes, some milestone differs. */
  lemma DiffersWhereItChanges(ms: seq<Milestone>, t: int)
    requires Usable(ms) && t > 1 && CountAt(ms, t) != CountAt(ms, t - 1)
    ensures FirstAt(ms, ActiveValidators, ValueAt(ms, t - 1, ActiveValidators), t, 0) < |ms|
  {
  }

  /** Where everything up to `h` can be searched, `calculateRound` succeeds exactly if no count changes within a round
      up to there, and then it is right; its next round is right exactly if no count changes within a round at the
      next height. */
  lemma {:induction false} CalculatedWalk(ms: seq<Milestone>, h: nat, t: nat, round: int)
    requires Usable(ms) && 1 <= t <= h && SoundTo(ms, h) && AlignedTo(ms, t) && round == RoundCount(ms, Since(ms, t))
    ensures var r := CalculateFrom(ms, h, t, round, Since(ms, t), CountAt(ms, t));
            && (r.Ok? <==> AlignedTo(ms, h))
            && (r.Ok? ==> Describes(ms, h, r.value))
            && (r.Ok? ==> (r.value.nextRound == RoundCount(ms, h + 1) <==> AlignedTo(ms, h + 1)))
    decreases h - t
  {
    hide CountAt, Whole, Fitting, CalculateFrom, SoundAtHeight, RoundCount, Describes, NewRound, FoundAt, Since,
      AlignedAt;
    if t == h {
      CalculatedEnds(ms, h, round);
    } else {
      OneHeight(ms, h, t, round, Since(ms, t), CountAt(ms, t));
      assert SoundAtHeight(ms, t + 1);
      SinceNext(ms, t);
      assert AlignedTo(ms, t + 1) <==> AlignedAt(ms, t + 1);
      if CountAt(ms, t + 1) == CountAt(ms, t) {
        CalculatedWalk(ms, h, t + 1, round);
      } else if AlignedAt(ms, t + 1) {
        CountToChange(ms, t + 1);
        CalculatedWalk(ms, h, t + 1, RoundCount(ms, t + 1));
      }
    }
  }

  lemma CalculatedEnds(ms: seq<Milestone>, h: nat, round: int)
    requires Usable(ms) && h >= 1 && AlignedTo(ms, h) && round == RoundCount(ms, Since(ms, h))
    ensures var r := CalculateFrom(ms, h, h, round, Since(ms, h), CountAt(ms, h));
            && r.Ok? && Describes(ms, h, r.value)
            && (r.value.nextRound == RoundCount(ms, h + 1) <==> AlignedTo(ms, h + 1))
  {
    hide CountAt, Whole, Fitting, CalculateFrom, RoundCount, Describes, NewRound, Since, AlignedTo;
    AtTheHeight(ms, h, h, round, Since(ms, h), CountAt(ms, h));
    DescribesInSpan(ms, h, CalculateFrom(ms, h, h, round, Since(ms, h), CountAt(ms, h)).value);
    CountInSpan(ms, h, h);
    NextRound(ms, h);
  }

  lemma CalculatedOnSound(ms: seq<Milestone>, h: nat)
    requires Usable(ms) && h >= 1 && SoundTo(ms, h)
    ensures var r := Calculated(ms, h);
            && (r.Ok? <==> AlignedTo(ms, h))
            && (r.Ok? ==> Describes(ms, h, r.value))
            && (r.Ok? ==> (r.value.nextRound == RoundCount(ms, h + 1) <==> AlignedTo(ms, h + 1)))
  {
    hide CalculateFrom, Describes, CountAt;
    FirstRound(ms);
    CalculatedWalk(ms, h, 1, 1);
  }

  lemma FirstRound(ms: seq<Milestone>)
    requires Usable(ms)
    ensures RoundCount(ms, 1) == 1 && Since(ms, 1) == 1
  {
    hide CountAt;
    WholeZero(CountAt(ms, 1));
    assert RoundCount(ms, 0) == 0 && NewRound(ms, 1);
  }

  /** At the first height that cannot be searched, `calculateRound` throws or gives a count that is not in force. */
  lemma {:induction false} Misled(ms: seq<Milestone>, h: nat, t: nat, round: int, start: int)
    requires Usable(ms) && 1 <= t < h && SoundTo(ms, h - 1) && !SoundAtHeight(ms, h)
    ensures var r := CalculateFrom(ms, h, t, round, start, CountAt(ms, t));
            r.Ok? ==> r.value.maxValidators != CountAt(ms, h)
    decreases h - t
  {
    hide CountAt, Whole, Fitting, CalculateFrom, SoundAtHeight, FoundAt;
    OneHeight(ms, h, t, round, start, CountAt(ms, t));
    if t + 1 == h {
      AtTheHeight(ms, h, h, round + Fitting(h - start, CountAt(ms, t)), h, FoundAt(ms, h).value);
    } else {
      assert SoundAtHeight(ms, t + 1);
      Misled(ms, h, t + 1, round, start);
      Misled(ms, h, t + 1, round + Fitting(t + 1 - start, CountAt(ms, t)), t + 1);
    }
  }

  lemma SoundToIs(ms: seq<Milestone>, h: int)
    requires Usable(ms)
    ensures Started(ms, 1) && (SoundTo(ms, h) <==> SoundUpTo(ms, ActiveValidators, 1, h))
  {
    assert forall t | 1 < t :: SoundAtHeight(ms, t) == SoundAt(ms, ActiveValidators, t);
  }

  /** `calculateRound` describes the round of every height up to `h` if and only if the milestones up to `h` can be
      searched and no count changes within a round up to there. */
  lemma CalculateRoundIsRight(ms: seq<Milestone>, h: nat)
    requires Usable(ms) && h >= 1
    ensures (forall k: nat | 1 <= k <= h :: Right(ms, k)) <==> SoundTo(ms, h) && AlignedTo(ms, h)
  {
    hide CalculateFrom, SoundAtHeight, AlignedAt, CountAt, NewRound, RoundCount;
    if SoundTo(ms, h) {
      forall k: nat | 1 <= k <= h ensures Right(ms, k) <==> AlignedTo(ms, k) {
        CalculatedOnSound(ms, k);
      }
    } else {
      SoundToIs(ms, h);
      var t := FirstUnsound(ms, ActiveValidators, 1, h);
      SoundToIs(ms, t - 1);
      SoundToIs(ms, t);
      Misled(ms, t, 1, 1, 1);
      assert !Right(ms, t);
    }
  }

  // ----- isNewRound -----

  /** The first milestone of the run of equal counts that ends with milestone `i`. */
  function FirstOfRun(ms: seq<Milestone>, i: nat): (r: nat)
    requires i < |ms|
    ensures r <= i
  {
    if i == 0 || CountOf(ms[i - 1]) != CountOf(ms[i]) then i else FirstOfRun(ms, i - 1)
  }

  /** The height that `isNewRound` counts from. */
  ghost function RunStart(ms: seq<Milestone>, h: int): int
    requires Usable(ms) && h >= 1
  {
    assert Started(ms, h);
    ms[FirstOfRun(ms, ActiveIndex(ms, h))].height
  }

  ghost predicate ListedNewRound(ms: seq<Milestone>, h: int)
    requires Usable(ms) && h >= 1
  {
    h == 1 || Whole(h - RunStart(ms, h), CountAt(ms, h))
  }

  /** `isNewRound` walks the milestones backwards to the first one of the count in force. */
  method IsNewRound(ms: seq<Milestone>, h: int) returns (r: bool)
    requires Usable(ms) && h >= 1
    ensures r == ListedNewRound(ms, h)
  {
    hide FirstOfRun;
    assert Started(ms, h);
    ghost var active := ActiveIndex(ms, h);
    var milestone := |ms|; // none yet
    var index := |ms| - 1;
    while index >= 0
      invariant -1 <= index < |ms| && milestone <= |ms|
      invariant milestone == |ms| ==> active <= index
      invariant milestone < |ms| ==> milestone == index + 1 <= active
      invariant milestone < |ms| ==> FirstOfRun(ms, active) == FirstOfRun(ms, milestone)
      invariant milestone < |ms| ==> CountOf(ms[milestone]) == CountAt(ms, h)
    {
      var temporary := ms[index];
      if milestone < |ms| { RunGoesOn(ms, milestone); }
      if temporary.height > h {
        NotActive(ms, h, index);
      } else if milestone == |ms| || CountOf(temporary) == CountOf(ms[milestone]) {
        milestone := index;
      } else {
        break;
      }
      index := index - 1;
    }
    RunBegins(ms);
    return h == 1 || Whole(h - ms[milestone].height, CountOf(ms[milestone]));
  }

  lemma RunBegins(ms: seq<Milestone>)
    requires ms != []
    ensures FirstOfRun(ms, 0) == 0
  {
  }

  lemma RunGoesOn(ms: seq<Milestone>, i: nat)
    requires 0 < i < |ms|
    ensures FirstOfRun(ms, i) == if CountOf(ms[i - 1]) == CountOf(ms[i]) then FirstOfRun(ms, i - 1) else i
  {
  }

  lemma NotActive(ms: seq<Milestone>, h: int, i: nat)
    requires Usable(ms) && h >= 1 && i < |ms| && ms[i].height > h
    ensures Started(ms, h) && ActiveIndex(ms, h) < i
  {
  }

  /** No milestone at `t` hides behind one with the count in force below, unless a round ends there. */
  ghost predicate QuietAt(ms: seq<Milestone>, t: int)
    requires Usable(ms) && t > 1
  {
    CountAt(ms, t) == CountAt(ms, t - 1) && SomeDiffers(ms, t)
    ==> Whole(t - Since(ms, t - 1), CountAt(ms, t - 1))
  }

  ghost predicate DiffersAt(ms: seq<Milestone>, j: nat, t: int)
    requires Usable(ms) && t >= 1 && j < |ms|
  {
    ms[j].height == t && CountOf(ms[j]) != CountAt(ms, t)
  }

  ghost predicate SomeDiffers(ms: seq<Milestone>, t: int)
    requires Usable(ms) && t >= 1
  {
    exists j | 0 <= j < |ms| :: DiffersAt(ms, j, t)
  }

  ghost predicate QuietTo(ms: seq<Milestone>, h: int)
    requires Usable(ms)
  {
    forall t | 1 < t <= h :: QuietAt(ms, t)
  }

  /** A run reaches back over milestones with its count, and no further. */
  lemma {:induction false} RunReaches(ms: seq<Milestone>, a: nat, b: nat)
    requires a <= b < |ms|
    ensures if forall j | a <= j < b :: CountOf(ms[j]) == CountOf(ms[b])
            then FirstOfRun(ms, b) == FirstOfRun(ms, a) else FirstOfRun(ms, b) > a
    decreases b
  {
    if a < b { RunReaches(ms, a, b - 1); }
  }

  /** One height further: the run starts there if the count changes or some milestone differs. */
  lemma RunNext(ms: seq<Milestone>, t: int)
    requires Usable(ms) && t >= 1
    ensures RunStart(ms, t + 1) ==
              if CountAt(ms, t + 1) == CountAt(ms, t) && !SomeDiffers(ms, t + 1)
              then RunStart(ms, t) else t + 1
  {
    hide FirstOfRun;
    var a, b := ActiveBefore(ms, t);
    RunReaches(ms, a, b);
    var u := t + 1;
    if forall j | a <= j < b :: CountOf(ms[j]) == CountOf(ms[b]) {
      forall j | 0 <= j < |ms| ensures !DiffersAt(ms, j, u) {
        if ms[j].height == u { assert a < j <= b; }
      }
    } else {
      var j :| a <= j < b && CountOf(ms[j]) != CountOf(ms[b]);
      assert j > a ==> DiffersAt(ms, j, u);
    }
  }

  /** The milestones between the active ones of two heights start at the second. */
  lemma ActiveBefore(ms: seq<Milestone>, t: int) returns (a: nat, b: nat)
    requires Usable(ms) && t >= 1
    ensures Started(ms, t) && Started(ms, t + 1) && a == ActiveIndex(ms, t) && b == ActiveIndex(ms, t + 1)
    ensures a <= b && forall j | 0 <= j < |ms| :: ms[j].height == t + 1 <==> a < j <= b
  {
    assert Started(ms, t) && Started(ms, t + 1);
    a, b := ActiveIndex(ms, t), ActiveIndex(ms, t + 1);
    forall j | 0 <= j < |ms| ensures ms[j].height == t + 1 <==> a < j <= b {
      if a < j <= b { assert ms[j].height <= ms[b].height; }
      if j <= a { assert ms[j].height <= ms[a].height; }
    }
  }

  lemma WholeSum(a: int, b: int, n: int)
    requires n > 0 && Whole(a, n)
    ensures Whole(a + b, n) <==> Whole(b, n)
  {
    RemainderIs(a, n);
    RemainderShift(b, n, a / n);
    assert a + b == b + n * (a / n);
  }

  /** Where nothing hides, the walk counts from a height that is whole rounds away from where the count came into
      force. */
  lemma {:induction false} RunFits(ms: seq<Milestone>, h: int)
    requires Usable(ms) && h >= 1 && QuietTo(ms, h)
    ensures Whole(RunStart(ms, h) - Since(ms, h), CountAt(ms, h))
    decreases h
  {
    hide CountAt, Since, RunStart, Whole, SomeDiffers;
    WholeZero(CountAt(ms, h));
    if h == 1 {
      RunAtOne(ms);
    } else {
      assert QuietAt(ms, h);
      RunFits(ms, h - 1);
      RunNext(ms, h - 1);
      SinceNext(ms, h - 1);
    }
  }

  lemma RunAtOne(ms: seq<Milestone>)
    requires Usable(ms)
    ensures RunStart(ms, 1) == 1 && Since(ms, 1) == 1
  {
    assert Started(ms, 1);
    assert ms[0].height <= ms[FirstOfRun(ms, ActiveIndex(ms, 1))].height <= ms[ActiveIndex(ms, 1)].height;
  }

  lemma SameNewRound(ms: seq<Milestone>, h: int)
    requires Usable(ms) && h >= 1 && QuietTo(ms, h)
    ensures ListedNewRound(ms, h) <==> NewRound(ms, h)
  {
    hide CountAt, Since, RunStart, Whole, QuietTo;
    RunFits(ms, h);
    WholeSum(RunStart(ms, h) - Since(ms, h), h - RunStart(ms, h), CountAt(ms, h));
    assert RunStart(ms, h) - Since(ms, h) + (h - RunStart(ms, h)) == h - Since(ms, h);
    if h == 1 { RunAtOne(ms); WholeZero(CountAt(ms, 1)); }
  }

  lemma LoudIsWrong(ms: seq<Milestone>, t: int)
    requires Usable(ms) && t > 1 && !QuietAt(ms, t)
    ensures ListedNewRound(ms, t) && !NewRound(ms, t)
  {
    hide CountAt, Since, RunStart, Whole, SomeDiffers;
    RunNext(ms, t - 1);
    SinceNext(ms, t - 1);
    WholeZero(CountAt(ms, t));
  }

  /** `isNewRound` is right at every height up to `h` if and only if, at each height up to there where the count in
      force stays, all milestones have it, or a round ends there. */
  lemma IsNewRoundIsRight(ms: seq<Milestone>, h: int)
    requires Usable(ms)
    ensures (forall k | 1 <= k <= h :: ListedNewRound(ms, k) <==> NewRound(ms, k)) <==> QuietTo(ms, h)
  {
    hide ListedNewRound, NewRound, QuietAt;
    if QuietTo(ms, h) {
      forall k | 1 <= k <= h ensures ListedNewRound(ms, k) <==> NewRound(ms, k) { SameNewRound(ms, k); }
    } else {
      var t :| 1 < t <= h && !QuietAt(ms, t);
      LoudIsWrong(ms, t);
    }
  }

  /** Milestones that can be searched hide nothing, so there the two computations agree. */
  lemma SoundIsQuiet(ms: seq<Milestone>, h: int)
    requires Usable(ms) && SoundTo(ms, h)
    ensures QuietTo(ms, h)
  {
    forall t | 1 < t <= h ensures QuietAt(ms, t) {
      assert SoundAtHeight(ms, t);
      var below := ValueAt(ms, t - 1, ActiveValidators);
      var first := FirstAt(ms, ActiveValidators, below, t, 0);
      if CountAt(ms, t) == CountAt(ms, t - 1) {
        assert first == |ms|;
        forall j | 0 <= j < |ms| ensures !DiffersAt(ms, j, t) { assert Truthy(ms[j], ActiveValidators); }
      }
    }
  }

  // ----- the loop of calculateRound -----

  method FindNext(c: Configuration, prev: int) returns (r: SearchResult)
    requires c.Valid() && Started(c.milestones, prev) && prev > 0
    modifies c`index
    ensures c.Valid() && r == NextChange(c.milestones, prev, ActiveValidators)
  {
    var found := c.GetNextMilestoneWithNewKey(prev, ActiveValidators);
    r := found.value;
  }

  /** What is left of the changes leads to the result. */
  ghost predicate LeadsToRound(ms: seq<Milestone>, h: nat, left: seq<SearchResult>, round: int, start: int, size: int) {
    && Usable(ms) && Searching(ms, ActiveValidators, start, left) && size > 0
    && Calculate(h, left, round, start, size) == Calculated(ms, h)
  }

  lemma RoundsBegin(ms: seq<Milestone>, h: nat)
    requires Usable(ms)
    ensures Started(ms, 1) && Ordered(ms)
    ensures LeadsToRound(ms, h, ChangesAfter(ms, 1, ActiveValidators), 1, 1, CountAt(ms, 1))
  {
    hide Calculate;
    SearchBegins(ms, ActiveValidators);
  }

  lemma RoundsGoOn(ms: seq<Milestone>, h: nat, left: seq<SearchResult>, round: int, start: int, size: int)
    requires LeadsToRound(ms, h, left, round, start, size) && left != []
    ensures Started(ms, start) && size > 0
    ensures var next := NextChange(ms, start, ActiveValidators);
            && next == left[0] && next.data.Some? && next.height >= 1 && Started(ms, next.height)
            && (h >= next.height ==>
                  if Whole(next.height - start, size)
                  then LeadsToRound(ms, h, left[1..], round + Fitting(next.height - start, size), next.height,
                                    next.data.value)
                  else Calculated(ms, h) == Err(InvalidMilestoneConfiguration))
  {
    hide NextFrom, ActiveIndex, Whole, Calculated;
    SearchGoesOn(ms, ActiveValidators, start, left);
  }

  lemma RoundsEnd(ms: seq<Milestone>, h: nat, left: seq<SearchResult>, round: int, start: int, size: int)
    requires LeadsToRound(ms, h, left, round, start, size) && (left == [] || h < left[0].height)
    ensures size > 0
    ensures Calculated(ms, h) == Ok(RoundInfo(round + Fitting(h - start, size), start + Fitting(h - start, size) * size,
              round + Fitting(h - start, size) + (if Whole(h - start + 1, size) then 1 else 0), size))
  {
    hide NextFrom, ActiveIndex, Whole, Calculated;
  }

  /** Where the milestones up to the height can be searched, this fails exactly if a validator count changes within a
      round at or below the height. Otherwise it describes the round of that height, and the number of the next height's
      round is right exactly if no count changes within a round there. */
  method CalculateRound(h: nat, c: Configuration) returns (r: Result<RoundInfo, Error>)
    requires c.Valid() && Usable(c.milestones) && h >= 1
    modifies c`index
    ensures c.Valid() && r == Calculated(c.milestones, h)
    ensures SoundTo(c.milestones, h) ==>
              && (r.Ok? <==> AlignedTo(c.milestones, h))
              && (r.Ok? ==> Describes(c.milestones, h, r.value))
              && (r.Ok? ==> (r.value.nextRound == RoundCount(c.milestones, h + 1) <==> AlignedTo(c.milestones, h + 1)))
  {
    hide ActiveIndex, RoundCount, NextChange, ChangesAfter, Whole, Usable, Describes, AlignedTo, SoundTo, Ordered,
      LeadsToRound, Calculated, Started;
    ghost var ms := c.milestones;
    RoundsBegin(ms, h);
    if SoundTo(ms, h) { CalculatedOnSound(ms, h); }
    var round, roundHeight := 1, 1;
    var nextMilestone := FindNext(c, 1);
    var first := c.GetMilestone(1);
    var activeValidators := CountOf(first.value);
    var milestoneHeight := 1;
    var milestones := c.GetMilestonesWhichAffect(ActiveValidators);
    var index := 0;
    while index < |milestones.value| - 1
      invariant c.Valid() && 0 <= index < |milestones.value| && roundHeight == milestoneHeight
      invariant Started(ms, milestoneHeight) && nextMilestone == NextChange(ms, milestoneHeight, ActiveValidators)
      invariant LeadsToRound(ms, h, milestones.value[index + 1..], round, milestoneHeight, activeValidators)
    {
      RoundsGoOn(ms, h, milestones.value[index + 1..], round, milestoneHeight, activeValidators);
      if h < nextMilestone.height { break; }
      var spanHeight := nextMilestone.height - milestoneHeight;
      if !Whole(spanHeight, activeValidators) {
        return Err(InvalidMilestoneConfiguration);
      }
      round := round + Fitting(spanHeight, activeValidators);
      roundHeight := nextMilestone.height;
      activeValidators := nextMilestone.data.value;
      milestoneHeight := nextMilestone.height;
      nextMilestone := FindNext(c, milestoneHeight);
      index := index + 1;
    }
    RoundsEnd(ms, h, milestones.value[index + 1..], round, milestoneHeight, activeValidators);
    var heightFromLastSpan := h - milestoneHeight;
    var roundIncrease := Fitting(heightFromLastSpan, activeValidators);
    var nextRoundIncrease := if Whole(heightFromLastSpan + 1, activeValidators) then 1 else 0;
    r := Ok(RoundInfo(round + roundIncrease, roundHeight + roundIncrease * activeValidators,
                      round + roundIncrease + nextRoundIncrease, activeValidators));
  }

  // ----- two milestones at one height -----

  function CountFrom(height: int, count: int): Milestone {
    Milestone(height, map[ActiveValidators := count])
  }

  /** 4 validators all along, but `calculateRound` counts with the 3 that never come into force: from height 5 on it has
      rounds of 3, while `isNewRound` has rounds of 4. */
  lemma RepeatedHeightDisagrees()
    ensures var ms := [CountFrom(1, 4), CountFrom(5, 3), CountFrom(5, 4)];
            && Usable(ms) && CountAt(ms, 5) == 4 && !SoundAtHeight(ms, 5)
            && Calculated(ms, 5) == Ok(RoundInfo(2, 5, 2, 3))
            && Calculated(ms, 8) == Ok(RoundInfo(3, 8, 3, 3)) && !ListedNewRound(ms, 8)
  {
    hide CalculateFrom;
    var ms := [CountFrom(1, 4), CountFrom(5, 3), CountFrom(5, 4)];
    RepeatedHeightMisleads();
    assert CountAt(ms, 1) == 4 by { assert ActiveIndex(ms, 1) == 0; }
    assert CountAt(ms, 5) == 4 && CountAt(ms, 8) == 4;
    assert RunStart(ms, 8) == 5 by { assert FirstOfRun(ms, 2) == 2; }
    MisledAtFive(ms, 5);
    MisledAtFive(ms, 8);
  }

  /** The search from height 1 reports 3 validators from height 5 on, so this is what `calculateRound` goes by. */
  lemma MisledAtFive(ms: seq<Milestone>, h: int)
    requires Usable(ms) && h >= 5 && CountAt(ms, 1) == 4
    requires NextChange(ms, 1, ActiveValidators) == SearchResult(true, 5, Some(3))
    ensures Calculated(ms, h) == CalculateFrom(ms, h, 5, 2, 5, 3)
    ensures ms[|ms| - 1].height <= 5 ==>
              Calculated(ms, h) == Ok(RoundInfo(2 + (h - 5) / 3, 5 + (h - 5) / 3 * 3,
                                                2 + (h - 5) / 3 + (if (h - 4) % 3 == 0 then 1 else 0), 3))
  {
    hide NextChange, ActiveIndex;
    assert ChangesAfter(ms, 1, ActiveValidators)
        == [SearchResult(true, 5, Some(3))] + ChangesAfter(ms, 5, ActiveValidators);
    assert Whole(4, 4);
    if ms[|ms| - 1].height <= 5 { LastStays(ms, 5, ActiveValidators); }
  }
}
