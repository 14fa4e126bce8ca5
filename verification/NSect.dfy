/** The n-ary search for the highest match in a range, over a probe that answers for a list of indexes. */
module NSects {
  import opened Options
  import opened Arithmetic

  type Probe = seq<int> -> Option<int>

  datatype Outcome = Found(index: Option<int>) | AssertionFailed

  /** `Math.round(a / n)`: halves are rounded up. */
  function Rounded(a: int, n: int): int
    requires n > 0
  {
    (2 * a + n) / (2 * n)
  }

  function Power(base: nat, exponent: nat): nat {
    if exponent == 0 then 1 else base * Power(base, exponent - 1)
  }

  ghost predicate StrictlyIncreasing(xs: seq<int>) {
    forall i, j | 0 <= i < j < |xs| :: xs[i] < xs[j]
  }

  /** A gap no wider than `d / nAry`, rounded up. */
  ghost predicate Close(nAry: int, d: int, gap: int) {
    nAry * gap <= d + nAry - 1
  }

  ghost predicate AllClose(xs: seq<int>, low: int, high: int, nAry: int) {
    forall i | 0 <= i < |xs| - 1 :: Close(nAry, high - low, xs[i + 1] - xs[i])
  }

  /** The probed indexes: the ends, at most `nAry + 1` of them, nowhere further apart than an even spread needs. */
  ghost predicate Spread(xs: seq<int>, low: int, high: int, nAry: int) {
    && 0 < |xs| <= nAry + 1
    && xs[0] == low && xs[|xs| - 1] == high
    && StrictlyIncreasing(xs)
    && AllClose(xs, low, high, nAry)
  }

  /** The probe at position `i` of `n`. */
  function Position(low: int, high: int, n: int, i: int): int
    requires n > 0
  {
    low + Rounded((high - low) * i, n)
  }

  lemma PositionStep(low: int, high: int, n: int, i: int)
    requires n > 0 && low <= high
    ensures var gap := Position(low, high, n, i + 1) - Position(low, high, n, i);
            0 <= gap && Close(n, high - low, gap)
  {
    var d := high - low;
    MulDistributes(d, i, 1);
    QuotientStep(2 * (d * i) + n, 2 * d, 2 * n);
    MulAssociates(2, n, Position(low, high, n, i + 1) - Position(low, high, n, i));
  }

  lemma PositionEnds(low: int, high: int, n: int)
    requires n > 0
    ensures Position(low, high, n, 0) == low && Position(low, high, n, n) == high
  {
    var d := high - low;
    QuotientIs(n, 2 * n, 0);
    MulAssociates(2, d, n);
    QuotientShift(n, 2 * n, d);
    assert 2 * (d * n) == (2 * n) * d;
  }

  lemma Increasing(xs: seq<int>)
    requires |xs| <= 1
    ensures StrictlyIncreasing(xs) && forall low, high, nAry :: AllClose(xs, low, high, nAry)
  {
  }

  /** A position that is not below the last one is new exactly if it is above it. */
  lemma Appended(p: seq<int>, h: int, low: int, high: int, nAry: int)
    requires p != [] && StrictlyIncreasing(p) && AllClose(p, low, high, nAry)
    requires p[|p| - 1] <= h && Close(nAry, high - low, h - p[|p| - 1])
    ensures h in p <==> h == p[|p| - 1]
    ensures h !in p ==> StrictlyIncreasing(p + [h]) && AllClose(p + [h], low, high, nAry)
  {
    hide Close;
  }

  /** `#calcProbes`: the rounded positions, without repetitions, in the order in which they come up. */
  method CalcProbes(low: int, high: int, nAry: int) returns (p: seq<int>)
    requires nAry > 0 && low <= high
    ensures Spread(p, low, high, nAry)
    ensures forall i | 0 <= i <= nAry :: Position(low, high, nAry, i) in p
    ensures forall x | x in p :: exists i | 0 <= i <= nAry :: x == Position(low, high, nAry, i)
  {
    hide Position, Close, StrictlyIncreasing, AllClose;
    Increasing([]);
    PositionEnds(low, high, nAry);
    p := [];
    ghost var sources: seq<int>, places: seq<int> := [], [];
    var index := 0;
    while index < nAry + 1
      invariant 0 <= index <= nAry + 1
      invariant index == 0 <==> p == []
      invariant |p| <= index
      invariant p != [] ==> p[0] == low && p[|p| - 1] == Position(low, high, nAry, index - 1)
      invariant StrictlyIncreasing(p) && AllClose(p, low, high, nAry)
      invariant |sources| == |p| && |places| == index
      invariant forall j {:trigger sources[j]} | 0 <= j < |p| ::
                  0 <= sources[j] < index && p[j] == Position(low, high, nAry, sources[j])
      invariant forall i {:trigger places[i]} | 0 <= i < index ::
                  0 <= places[i] < |p| && p[places[i]] == Position(low, high, nAry, i)
    {
      var h := Position(low, high, nAry, index);
      if index > 0 { PositionStep(low, high, nAry, index - 1); }
      if p != [] { Appended(p, h, low, high, nAry); }
      if h !in p {
        Increasing([h]);
        assert p == [] ==> p + [h] == [h];
        p, sources := p + [h], sources + [index];
      }
      places := places + [|p| - 1];
      index := index + 1;
    }
    forall i | 0 <= i <= nAry ensures Position(low, high, nAry, i) in p {
      assert p[places[i]] == Position(low, high, nAry, i);
    }
    forall x | x in p ensures exists i | 0 <= i <= nAry :: x == Position(low, high, nAry, i) {
      var j :| 0 <= j < |p| && p[j] == x;
      assert x == Position(low, high, nAry, sources[j]);
    }
  }

  // ----- honest probes -----

  /** What an honest probe replies: the highest of the probed indexes that matches, if any does. */
  ghost predicate HonestReply(matches: int -> bool, xs: seq<int>, reply: Option<int>) {
    match reply
    case None => forall x | x in xs :: !matches(x)
    case Some(v) => v in xs && matches(v) && forall x | x in xs && x > v :: !matches(x)
  }

  ghost predicate Honest(probe: Probe, matches: int -> bool) {
    forall xs :: HonestReply(matches, xs, probe(xs))
  }

  ghost predicate DownwardClosed(matches: int -> bool, low: int, high: int) {
    forall x, y | low <= x <= y <= high && matches(y) :: matches(x)
  }

  /** `index` is the highest match between `low` and `high`, or there is none there. */
  ghost predicate IsHighestMatch(matches: int -> bool, low: int, high: int, index: Option<int>) {
    match index
    case None => forall x | low <= x <= high :: !matches(x)
    case Some(v) => low <= v <= high && matches(v) && forall x | v < x <= high :: !matches(x)
  }

  /** A probe that only ever names indexes it was asked about, or none. */
  ghost predicate Relevant(probe: Probe) {
    forall xs | probe(xs).Some? :: probe(xs).value in xs
  }

  method IndexOf(xs: seq<int>, x: int) returns (index: int)
    ensures index == -1 ==> x !in xs
    ensures index != -1 ==> 0 <= index < |xs| && xs[index] == x && x !in xs[..index]
  {
    index := 0;
    while index < |xs|
      invariant 0 <= index <= |xs|
      invariant x !in xs[..index]
    {
      if xs[index] == x { return; }
      index := index + 1;
    }
    index := -1;
  }

  lemma NarrowSpread(xs: seq<int>, low: int, high: int, nAry: int, x: int)
    requires nAry > 0 && Spread(xs, low, high, nAry) && high - low <= nAry && low <= x <= high
    ensures x in xs
  {
    var i := 0;
    while i < |xs| - 1 && xs[i + 1] <= x
      invariant 0 <= i < |xs| && xs[i] <= x
    {
      i := i + 1;
    }
    if xs[i] < x {
      var gap := xs[i + 1] - xs[i];
      assert Close(nAry, high - low, gap);
      MulOrder(nAry, 2, gap);
    }
  }

  /** How far `calls` probes have narrowed a range of width `d0` down to the width `d`. */
  ghost predicate Narrowed(nAry: nat, calls: nat, d: int, d0: int) {
    Power(nAry, calls) * d <= d0 && (calls >= 1 ==> Power(nAry, calls) < d0)
  }

  lemma NarrowedFurther(nAry: nat, calls: nat, d: int, gap: int, d0: int)
    requires Narrowed(nAry, calls, d, d0)
    requires 0 < nAry < d && gap >= 2 && Close(nAry, d, gap)
    ensures Narrowed(nAry, calls + 1, gap - 2, d0)
  {
    var p := Power(nAry, calls);
    PowerPositive(nAry, calls);
    MulDistributes(p, nAry, d - nAry);
    MulAtLeast(p, d - nAry);
    assert p * nAry == Power(nAry, calls + 1);
    MulDistributes(nAry, gap - 2, 2);
    MulAssociates(p, nAry, gap - 2);
    MulOrder(p, nAry * (gap - 2), d);
  }

  lemma {:induction false} PowerPositive(base: nat, exponent: nat)
    requires base > 0
    ensures Power(base, exponent) > 0
  {
    if exponent > 0 {
      PowerPositive(base, exponent - 1);
      MulAtLeast(base, Power(base, exponent - 1));
    }
  }

  lemma NarrowedBound(nAry: nat, calls: nat, d: int, d0: int)
    requires Narrowed(nAry, calls, d, d0)
    ensures calls >= 1 ==> Power(nAry, calls) < d0
  {
  }

  /** The part of the range still searched: it starts above the last match. */
  ghost predicate Bracket(low0: int, high0: int, low: int, high: int, matching: Option<int>) {
    && low0 <= low <= high <= high0
    && if matching.None? then low == low0 && high == high0 else matching.value == low - 1 >= low0
  }

  /** What honest replies have established outside that part. */
  ghost predicate Settled(matches: int -> bool, high0: int, high: int, matching: Option<int>) {
    && (matching.Some? ==> matches(matching.value))
    && forall x | high < x <= high0 :: !matches(x)
  }

  /** The reply ends the search if no index above it, up to `high`, can match. */
  lemma ReplyIsHighest(matches: int -> bool, low0: int, high0: int, high: int, matching: Option<int>, v: int)
    requires Settled(matches, high0, high, matching) && low0 <= v <= high <= high0
    requires matches(v) && forall x | v < x <= high :: !matches(x)
    ensures IsHighestMatch(matches, low0, high0, Some(v))
  {
  }

  lemma NothingAbove(matches: int -> bool, low0: int, high0: int, v: int, next: int)
    requires DownwardClosed(matches, low0, high0) && low0 <= next && !matches(next) && v < next
    ensures forall x | next <= x <= high0 :: !matches(x)
  {
  }

  lemma NoReplyMeansDone(matches: int -> bool, low0: int, high0: int, low: int, high: int, matching: Option<int>)
    requires DownwardClosed(matches, low0, high0) && Bracket(low0, high0, low, high, matching)
    requires Settled(matches, high0, high, matching) && !matches(low)
    ensures IsHighestMatch(matches, low0, high0, matching)
  {
    NothingAbove(matches, low0, high0, low - 1, low);
  }

  lemma HonestIsRelevant(probe: Probe, matches: int -> bool)
    requires Honest(probe, matches)
    ensures Relevant(probe)
  {
    forall xs | probe(xs).Some? ensures probe(xs).value in xs {
      assert HonestReply(matches, xs, probe(xs));
    }
  }

  lemma Asked(probe: Probe, matches: int -> bool, xs: seq<int>)
    ensures Honest(probe, matches) ==> HonestReply(matches, xs, probe(xs))
    ensures Relevant(probe) && probe(xs).Some? ==> probe(xs).value in xs
  {
  }

  /** `find`: for an honest probe of a downward closed predicate it returns the highest match; no probe that stays
      within the list it is given can make it fail; and `n >= 2` calls of the probe need a range wider than
      `nAry` to the power `n - 1`. A range the wrong way round fails the first assertion. */
  method Find(low0: int, high0: int, nAry: int, probe: Probe, ghost matches: int -> bool)
    returns (r: Outcome, ghost calls: nat)
    requires nAry > 0
    ensures Honest(probe, matches) && DownwardClosed(matches, low0, high0) && low0 <= high0
            ==> r.Found? && IsHighestMatch(matches, low0, high0, r.index)
    ensures Relevant(probe) && low0 <= high0 ==> r.Found?
    ensures low0 > high0 ==> r == AssertionFailed
    ensures calls >= 2 ==> Power(nAry, calls - 1) < high0 - low0
  {
    hide Power, Narrowed, Close, Honest, DownwardClosed, Relevant, IsHighestMatch;
    ghost var honest := Honest(probe, matches) && DownwardClosed(matches, low0, high0);
    if honest { HonestIsRelevant(probe, matches); }
    if !(low0 <= high0) { return AssertionFailed, 0; }
    var low, high := low0, high0;
    var highestMatching: Option<int> := None;
    calls := 0;
    StartNarrowed(nAry, high - low);
    while true
      invariant Narrowed(nAry, calls, high - low, high0 - low0)
      invariant Bracket(low0, high0, low, high, highestMatching)
      invariant honest ==> Settled(matches, high0, high, highestMatching)
      decreases high - low
    {
      var indexesToProbe := CalcProbes(low, high, nAry);
      var reply := probe(indexesToProbe);
      NarrowedBound(nAry, calls, high - low, high0 - low0);
      Asked(probe, matches, indexesToProbe);
      calls := calls + 1;
      if reply.None? {
        if honest { NoReplyMeansDone(matches, low0, high0, low, high, highestMatching); }
        return Found(highestMatching), calls;
      }
      ghost var before := highestMatching;
      highestMatching := reply;
      if low + nAry >= high {
        forall x | low <= x <= high ensures x in indexesToProbe {
          NarrowSpread(indexesToProbe, low, high, nAry, x);
        }
        if honest { ReplyIsHighest(matches, low0, high0, high, before, reply.value); }
        return Found(highestMatching), calls;
      }
      if reply.value == indexesToProbe[|indexesToProbe| - 1] {
        if honest { ReplyIsHighest(matches, low0, high0, high, before, reply.value); }
        return Found(highestMatching), calls;
      }
      var index := IndexOf(indexesToProbe, reply.value);
      if index == -1 || !(index < |indexesToProbe| - 1) { return AssertionFailed, calls; }
      var next := indexesToProbe[index + 1];
      if honest { NothingAbove(matches, low0, high0, reply.value, next); }
      if reply.value + 1 == next {
        if honest { ReplyIsHighest(matches, low0, high0, high, before, reply.value); }
        return Found(highestMatching), calls;
      }
      NarrowedFurther(nAry, calls - 1, high - low, next - reply.value, high0 - low0);
      low, high := reply.value + 1, next - 1;
    }
  }

  lemma StartNarrowed(nAry: nat, d: int)
    ensures Narrowed(nAry, 0, d, d)
  {
  }
}
