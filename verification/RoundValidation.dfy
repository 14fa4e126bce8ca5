/** What the validation of milestones guarantees for the rounds, and what it does not. */
module RoundValidation {
  import opened Options
  import opened Arithmetic
  import opened Milestones
  import opened Configurations
  import opened Rounds

  /** Milestones as configured: in order from height 1 on, the first with a validator count, no count of zero. Heights
      may repeat. */
  ghost predicate Configured(raw: seq<Milestone>) {
    && raw != [] && raw[0].height == 1 && Ordered(raw) && Truthy(raw[0], ActiveValidators)
    && forall i | 0 <= i < |raw| && ActiveValidators in raw[i].data :: raw[i].data[ActiveValidators] > 0
  }

  /** No count changes within a round, at whatever height. */
  ghost predicate Aligned(ms: seq<Milestone>)
    requires Usable(ms)
  {
    forall t | t > 1 :: AlignedAt(ms, t)
  }

  // ----- merging keeps the counts in force -----

  ghost predicate SameCounts(ms: seq<Milestone>, es: seq<Milestone>)
    requires Usable(ms) && Usable(es)
  {
    forall h | h >= 1 :: CountAt(ms, h) == CountAt(es, h)
  }

  lemma FrontConfigured(raw: seq<Milestone>)
    requires Configured(raw) && |raw| > 1
    ensures Configured(raw[..|raw| - 1])
  {
  }

  /** The counts in force are those of the entries that set one. */
  lemma {:induction false} EntriesInForce(raw: seq<Milestone>)
    requires Configured(raw)
    ensures var ms, es := Merged(raw), CountEntries(raw);
            && Usable(ms) && Usable(es) && SameCounts(ms, es)
            && es[|es| - 1].height <= raw[|raw| - 1].height && CountOf(ms[|ms| - 1]) == CountOf(es[|es| - 1])
    decreases |raw|
  {
    hide SameCounts, CountOf, Merged, CountEntries;
    if |raw| == 1 {
      OneEntry(raw);
    } else {
      var front, m := raw[..|raw| - 1], raw[|raw| - 1];
      FrontConfigured(raw);
      EntriesInForce(front);
      OneMore(raw);
      MergedNext(Merged(front), CountEntries(front), m);
    }
  }

  lemma {:induction false} OneEntry(raw: seq<Milestone>)
    requires Configured(raw) && |raw| == 1
    ensures Merged(raw) == raw && CountEntries(raw) == raw && Usable(raw) && SameCounts(raw, raw)
  {
    hide Merged;
    MergedOne(raw);
    var none := raw[..0];
    assert none == [] && CountEntries(none) == [];
    assert CountEntries(raw) == CountEntries(none) + [raw[0]];
  }

  lemma {:induction false} MergedOne(raw: seq<Milestone>)
    requires |raw| == 1
    ensures Merged(raw) == raw
  {
  }

  lemma OneMore(raw: seq<Milestone>)
    requires Configured(raw) && |raw| > 1
    ensures var front, m := raw[..|raw| - 1], raw[|raw| - 1];
            && Merged(raw) == Merged(front) + [Milestone(m.height, Merged(front)[|front| - 1].data + m.data)]
            && CountEntries(raw) == CountEntries(front) + (if Truthy(m, ActiveValidators) then [m] else [])
            && raw[|raw| - 2].height <= m.height && Merged(front)[|front| - 1].height == raw[|raw| - 2].height
            && (ActiveValidators in m.data ==> m.data[ActiveValidators] > 0)
  {
  }

  lemma MergedNext(ms: seq<Milestone>, es: seq<Milestone>, m: Milestone)
    requires Usable(ms) && Usable(es) && SameCounts(ms, es)
    requires es[|es| - 1].height <= ms[|ms| - 1].height <= m.height && CountOf(ms[|ms| - 1]) == CountOf(es[|es| - 1])
    requires ActiveValidators in m.data ==> m.data[ActiveValidators] > 0
    ensures var merged := Milestone(m.height, ms[|ms| - 1].data + m.data);
            var ms', es' := ms + [merged], es + if Truthy(m, ActiveValidators) then [m] else [];
            Usable(ms') && Usable(es') && SameCounts(ms', es') && CountOf(merged) == CountOf(es'[|es'| - 1])
  {
    var merged := Milestone(m.height, ms[|ms| - 1].data + m.data);
    var ms', es' := ms + [merged], es + if Truthy(m, ActiveValidators) then [m] else [];
    assert ms'[..|ms|] == ms && es'[..|es|] == es && (!Truthy(m, ActiveValidators) ==> es' == es);
    forall h | h >= 1 ensures CountAt(ms', h) == CountAt(es', h) {
      assert CountAt(ms, h) == CountAt(es, h);
    }
  }

  lemma {:induction false} SameSince(ms: seq<Milestone>, es: seq<Milestone>, h: int)
    requires Usable(ms) && Usable(es) && h >= 1
    requires forall k | 1 <= k <= h :: CountAt(ms, k) == CountAt(es, k)
    ensures Since(ms, h) == Since(es, h)
    decreases h
  {
    hide CountAt, Since, Usable;
    if h > 1 {
      SinceUnfolds(ms, h);
      SinceUnfolds(es, h);
      SameSince(ms, es, h - 1);
    }
  }

  lemma SameAlignedAt(ms: seq<Milestone>, es: seq<Milestone>, t: int)
    requires Usable(ms) && Usable(es) && t > 1
    requires forall k | 1 <= k <= t :: CountAt(ms, k) == CountAt(es, k)
    ensures AlignedAt(ms, t) <==> AlignedAt(es, t)
  {
    hide CountAt, Since, Whole;
    SameSince(ms, es, t - 1);
  }

  lemma SameAligned(ms: seq<Milestone>, es: seq<Milestone>)
    requires Usable(ms) && Usable(es) && SameCounts(ms, es)
    ensures Aligned(ms) <==> Aligned(es)
  {
    hide CountAt, AlignedAt;
    forall t | t > 1 ensures AlignedAt(ms, t) <==> AlignedAt(es, t) { SameAlignedAt(ms, es, t); }
  }

  // ----- the exact condition -----

  /** The entries below a height. */
  function BelowHeight(es: seq<Milestone>, h: int): (r: seq<Milestone>)
    ensures |r| <= |es| && r == es[..|r|]
    ensures r != [] ==> r[|r| - 1].height < h
    ensures forall i | |r| <= i < |es| :: es[i].height >= h
  {
    if es == [] || es[|es| - 1].height < h then es else BelowHeight(es[..|es| - 1], h)
  }

  datatype Scan = Scan(last: Milestone, fits: bool)

  /** The entry that introduced the count in force, and whether every such entry fits the one before it. Of several
      entries at one height only the last counts, and an entry that repeats the count in force is passed over. */
  function ScanEntries(es: seq<Milestone>): Scan
    requires es != []
    decreases |es|
  {
    var last := es[|es| - 1];
    var below := BelowHeight(es, last.height);
    if below == [] then Scan(last, true) else
      var s := ScanEntries(below);
      if CountOf(last) == CountOf(s.last) then s else Scan(last, s.fits && EntryFits(s.last, last))
  }

  /** What a scan says about the counts in force. */
  ghost predicate Scanned(es: seq<Milestone>, h: int, s: Scan)
    requires Usable(es) && h >= 1
  {
    s.last.height == Since(es, h) && CountOf(s.last) == CountAt(es, h) && (s.fits <==> AlignedTo(es, h))
  }

  /** While no entry comes, what the scan says stays. */
  lemma {:induction false} ScannedStays(es: seq<Milestone>, u: int, h: int, s: Scan)
    requires Usable(es) && 1 <= u <= h && Scanned(es, u, s)
             && forall k | u <= k <= h :: CountAt(es, k) == CountAt(es, u)
    ensures Scanned(es, h, s)
    decreases h
  {
    hide CountAt, Whole, Since, CountOf, AlignedAt;
    if u < h {
      ScannedStays(es, u, h - 1, s);
      SinceNext(es, h - 1);
      assert AlignedTo(es, h) <==> AlignedTo(es, h - 1) && AlignedAt(es, h);
    }
  }

  lemma ScannedNext(es: seq<Milestone>, t: int, s: Scan, last: Milestone)
    requires Usable(es) && t > 1 && Scanned(es, t - 1, s) && last.height == t && CountOf(last) == CountAt(es, t)
    ensures Scanned(es, t,
                    if CountOf(last) == CountOf(s.last) then s else Scan(last, s.fits && EntryFits(s.last, last)))
  {
    hide CountAt, Since, CountOf, AlignedAt;
    SinceNext(es, t - 1);
    assert AlignedTo(es, t) <==> AlignedTo(es, t - 1) && AlignedAt(es, t);
  }

  lemma ScannedOfPrefix(es: seq<Milestone>, below: seq<Milestone>, u: int, s: Scan)
    requires Usable(es) && Usable(below) && u >= 1 && Scanned(below, u, s)
    requires forall k | 1 <= k <= u :: CountAt(below, k) == CountAt(es, k)
    ensures Scanned(es, u, s)
  {
    hide CountAt, Since, CountOf, AlignedAt;
    SameSince(below, es, u);
    forall t | 1 < t <= u ensures AlignedAt(below, t) <==> AlignedAt(es, t) { SameAlignedAt(below, es, t); }
  }

  lemma BelowUsable(es: seq<Milestone>, t: int, below: seq<Milestone>)
    requires Usable(es) && below == BelowHeight(es, t) && below != []
    ensures Usable(below) && 1 <= below[|below| - 1].height < t
    ensures forall k | 1 <= k < t :: CountAt(below, k) == CountAt(es, k)
    ensures forall k | below[|below| - 1].height <= k < t :: CountAt(es, k) == CountOf(below[|below| - 1])
  {
    hide BelowHeight;
    assert below[0] == es[0];
    assert below[0].height <= below[|below| - 1].height;
    forall k | 1 <= k < t
      ensures CountAt(below, k) == CountAt(es, k)
      ensures below[|below| - 1].height <= k ==> CountAt(es, k) == CountOf(below[|below| - 1])
    {
      hide ActiveIndex;
      assert Started(es, k) && Started(below, k);
      var i, j := ActiveIndex(es, k), ActiveIndex(below, k);
      assert i < |below|;
      assert below[i] == es[i] && below[j] == es[j];
      assert i == j;
    }
  }

  lemma {:induction false} ScanSays(es: seq<Milestone>)
    requires Usable(es)
    ensures es[|es| - 1].height >= 1 && Scanned(es, es[|es| - 1].height, ScanEntries(es))
    decreases |es|
  {
    hide Scanned, Usable, CountAt, EntryFits, CountOf;
    EntriesExist(es);
    var last := es[|es| - 1];
    var t, below := last.height, BelowHeight(es, last.height);
    LastCount(es);
    if below == [] {
      OnlyAtOne(es);
    } else {
      BelowUsable(es, t, below);
      ScanSays(below);
      var u := below[|below| - 1].height;
      ScannedOfPrefix(es, below, u, ScanEntries(below));
      ScannedStays(es, u, t - 1, ScanEntries(below));
      ScannedNext(es, t, ScanEntries(below), last);
    }
  }

  lemma LastCount(es: seq<Milestone>)
    requires Usable(es)
    ensures es[|es| - 1].height >= 1 && CountAt(es, es[|es| - 1].height) == CountOf(es[|es| - 1])
  {
    assert es[0].height <= es[|es| - 1].height;
  }

  lemma OnlyAtOne(es: seq<Milestone>)
    requires Usable(es) && BelowHeight(es, es[|es| - 1].height) == []
    ensures es[|es| - 1].height == 1 && Scanned(es, 1, Scan(es[|es| - 1], true))
  {
    assert es[0].height >= es[|es| - 1].height;
  }

  lemma AlignedFromLast(es: seq<Milestone>)
    requires Usable(es)
    ensures es[|es| - 1].height >= 1
    ensures AlignedTo(es, es[|es| - 1].height) <==> Aligned(es)
  {
    hide Since, Whole;
    LastCount(es);
    forall t | t > es[|es| - 1].height ensures AlignedAt(es, t) {
    }
  }

  /** Merged milestones change counts between rounds only, whatever the height, exactly if every entry with a new count
      fits the entry that introduced the count before it. */
  lemma AlignedIffEntriesFit(raw: seq<Milestone>)
    requires Configured(raw)
    ensures Usable(Merged(raw)) && CountEntries(raw) != []
    ensures Aligned(Merged(raw)) <==> ScanEntries(CountEntries(raw)).fits
  {
    hide Merged, CountEntries, ScanEntries, Aligned, AlignedTo, Usable, CountAt;
    EntriesInForce(raw);
    var es := CountEntries(raw);
    EntriesExist(es);
    SameAligned(Merged(raw), es);
    ScanSays(es);
    AlignedFromLast(es);
  }

  lemma EntriesExist(es: seq<Milestone>)
    requires Usable(es)
    ensures es != []
  {
  }

  // ----- what validation checks instead -----

  ghost predicate NeighboursDiffer(entries: seq<Milestone>) {
    forall i | 0 < i < |entries| :: CountOf(entries[i - 1]) != CountOf(entries[i])
  }

  /** Every height with an entry is whole rounds away from where the count in force below came into force. */
  lemma {:induction false} EntryHeightsFit(es: seq<Milestone>, j: nat)
    requires Usable(es) && EntriesFit(es) && NeighboursDiffer(es) && j < |es| && es[j].height > 1
    ensures var t := es[j].height; Whole(t - Since(es, t - 1), CountAt(es, t - 1))
    decreases j
  {
    hide CountAt, Since, EntriesFit, NeighboursDiffer, Whole, CountOf, Usable;
    var t := es[j].height;
    var i := EntryBelow(es, j);
    var u, n := es[i].height, CountAt(es, t - 1);
    FitsNeighbour(es, i);
    SinceEntry(es, u, t - 1);
    if u > 1 {
      SinceNext(es, u - 1);
      if Since(es, u) != u {
        EntryHeightsFit(es, i);
        WholeSum(u - Since(es, u - 1), t - u, n);
        assert u - Since(es, u - 1) + (t - u) == t - Since(es, t - 1);
      }
    } else {
      FirstRound(es);
    }
  }

  lemma {:induction false} SinceEntry(es: seq<Milestone>, u: int, h: int)
    requires Usable(es) && 1 <= u <= h && forall k | u <= k <= h :: CountAt(es, k) == CountAt(es, u)
    ensures Since(es, h) == Since(es, u)
    decreases h
  {
    hide CountAt, Since, Usable;
    if u < h {
      SinceUnfolds(es, h);
      SinceEntry(es, u, h - 1);
    }
  }

  lemma EntryBelow(es: seq<Milestone>, j: nat) returns (i: nat)
    requires Usable(es) && j < |es| && es[j].height > 1
    ensures i < j && 1 <= es[i].height < es[j].height == es[i + 1].height
    ensures forall k | es[i].height <= k < es[j].height :: CountAt(es, k) == CountOf(es[i])
  {
    var t := es[j].height;
    assert Started(es, t - 1);
    i := ActiveIndex(es, t - 1);
    assert es[i + 1].height <= es[j].height && es[0].height <= es[i].height;
    forall k | es[i].height <= k < t ensures CountAt(es, k) == CountOf(es[i]) {
      assert Started(es, k) && ActiveIndex(es, k) == i;
    }
  }

  lemma FitsNeighbour(es: seq<Milestone>, i: nat)
    requires EntriesFit(es) && NeighboursDiffer(es) && i + 1 < |es|
    ensures CountOf(es[i]) != 0 && Whole(es[i + 1].height - es[i].height, CountOf(es[i]))
  {
    var j := i + 1;
    assert EntryFits(es[j - 1], es[j]);
  }

  lemma EntriesAligned(es: seq<Milestone>)
    requires Usable(es) && EntriesFit(es) && NeighboursDiffer(es)
    ensures Aligned(es)
  {
    hide CountAt, Since, EntriesFit, NeighboursDiffer;
    forall t | t > 1 ensures AlignedAt(es, t) {
      if CountAt(es, t) != CountAt(es, t - 1) {
        var j := ChangeHasEntry(es, t);
        EntryHeightsFit(es, j);
      }
    }
  }

  lemma ChangeHasEntry(es: seq<Milestone>, t: int) returns (j: nat)
    requires Usable(es) && t > 1 && CountAt(es, t) != CountAt(es, t - 1)
    ensures j < |es| && es[j].height == t
  {
    assert Started(es, t) && Started(es, t - 1);
    j := ActiveIndex(es, t);
  }

  /** A merged milestone at a height without an entry has the count in force below. */
  lemma {:induction false} MergedInherits(raw: seq<Milestone>, t: int, i: nat)
    requires Configured(raw) && t > 1 && i < |raw| && raw[i].height == t
    requires forall e | e in CountEntries(raw) :: e.height != t
    ensures Usable(CountEntries(raw)) && CountOf(Merged(raw)[i]) == CountAt(CountEntries(raw), t - 1)
    decreases |raw|
  {
    hide CountOf;
    EntriesInForce(raw);
    var es := CountEntries(raw);
    if i == |raw| - 1 {
      assert es[|es| - 1] in es;
      EntriesPast(es, t);
    } else {
      var front, m := raw[..|raw| - 1], raw[|raw| - 1];
      FrontConfigured(raw);
      MergedInherits(front, t, i);
      assert m.height >= t;
      EntriesFront(CountEntries(front), es, m, t - 1);
    }
  }

  lemma EntriesPast(es: seq<Milestone>, t: int)
    requires Usable(es) && t > 1 && es[|es| - 1].height < t
    ensures CountAt(es, t - 1) == CountOf(es[|es| - 1])
  {
  }

  lemma EntriesFront(es: seq<Milestone>, all: seq<Milestone>, m: Milestone, h: int)
    requires Usable(es) && Usable(all) && h >= 1 && m.height > h && (all == es || all == es + [m])
    ensures CountAt(all, h) == CountAt(es, h)
  {
    if all != es { assert all[..|es|] == es; }
  }

  lemma ValidatedIsQuiet(raw: seq<Milestone>, h: int)
    requires Configured(raw) && EntriesFit(CountEntries(raw)) && NeighboursDiffer(CountEntries(raw))
    ensures Usable(Merged(raw)) && QuietTo(Merged(raw), h)
  {
    hide QuietAt, EntriesFit, NeighboursDiffer, CountEntries, Merged;
    EntriesInForce(raw);
    forall t | 1 < t <= h ensures QuietAt(Merged(raw), t) { ValidatedQuietAt(raw, t); }
  }

  lemma ValidatedQuietAt(raw: seq<Milestone>, t: int)
    requires Configured(raw) && EntriesFit(CountEntries(raw)) && NeighboursDiffer(CountEntries(raw)) && t > 1
    ensures Usable(Merged(raw)) && QuietAt(Merged(raw), t)
  {
    hide CountAt, Since, EntriesFit, NeighboursDiffer, CountEntries, Merged, Whole, Configured;
    EntriesInForce(raw);
    var ms, es := Merged(raw), CountEntries(raw);
    if j :| 0 <= j < |es| && es[j].height == t {
      EntryHeightsFit(es, j);
      SameSince(ms, es, t - 1);
    } else {
      forall i | 0 <= i < |ms| && ms[i].height == t && CountAt(ms, t) == CountAt(ms, t - 1)
        ensures !DiffersAt(ms, i, t)
      {
        MergedInherits(raw, t, i);
      }
    }
  }

  /** In a validated configuration whose neighbouring counts differ, counts change between rounds only, so
      `calculateRound` does not throw where its search is right; `isNewRound` is right at every height; and
      `calculateRound` is right at every height if and only if its search can be trusted at every height. */
  lemma ValidatedNeverThrows(raw: seq<Milestone>)
    requires Configured(raw) && EntriesFit(CountEntries(raw)) && NeighboursDiffer(CountEntries(raw))
    ensures var ms := Merged(raw);
            && Usable(ms) && Aligned(ms)
            && (forall h: nat | h >= 1 && SoundTo(ms, h) :: Calculated(ms, h).Ok?)
            && (forall h: nat | h >= 1 :: ListedNewRound(ms, h) <==> NewRound(ms, h))
            && ((forall h: nat | h >= 1 :: Right(ms, h)) <==> (forall t | t > 1 :: SoundAtHeight(ms, t)))
  {
    hide Merged, CountEntries, EntriesFit, NeighboursDiffer, Usable, AlignedAt, SoundAtHeight, ListedNewRound, NewRound,
      Calculated, Describes, QuietTo, CountAt;
    EntriesInForce(raw);
    var ms := Merged(raw);
    EntriesAligned(CountEntries(raw));
    SameAligned(ms, CountEntries(raw));
    forall h: nat | h >= 1
      ensures ListedNewRound(ms, h) <==> NewRound(ms, h)
      ensures (forall k: nat | 1 <= k <= h :: Right(ms, k)) <==> SoundTo(ms, h)
      ensures SoundTo(ms, h) ==> Calculated(ms, h).Ok?
    {
      ValidatedIsQuiet(raw, h);
      SameNewRound(ms, h);
      CalculateRoundIsRight(ms, h);
      if SoundTo(ms, h) { assert Right(ms, h); }
    }
    if forall h: nat | h >= 1 :: Right(ms, h) {
      forall t | t > 1 ensures SoundAtHeight(ms, t) { assert SoundTo(ms, t); }
    }
  }

  /** With one milestone a height, validation of differing counts is enough: both computations are right everywhere. */
  lemma OneAHeightIsRight(raw: seq<Milestone>, h: nat)
    requires Configured(raw) && EntriesFit(CountEntries(raw)) && NeighboursDiffer(CountEntries(raw))
             && StrictlyOrdered(raw)
    requires h >= 1
    ensures var ms := Merged(raw);
            && Usable(ms) && Right(ms, h) && (ListedNewRound(ms, h) <==> NewRound(ms, h))
            && Calculated(ms, h).value.nextRound == RoundCount(ms, h + 1)
  {
    hide Merged, CountEntries, EntriesFit, NeighboursDiffer, AlignedAt, SoundAtHeight, ListedNewRound, NewRound,
      Calculated, Describes, CountAt, RoundCount, SoundAt;
    EntriesInForce(raw);
    var ms := Merged(raw);
    assert Started(ms, 1) && StrictlyOrdered(ms);
    AllTruthy(ms);
    OneAHeightIsSound(ms, ActiveValidators, 1);
    SoundToIs(ms, h);
    ValidatedNeverThrows(raw);
    CalculatedOnSound(ms, h);
  }

  lemma AllTruthy(ms: seq<Milestone>)
    requires Usable(ms)
    ensures forall i | 0 <= i < |ms| :: Truthy(ms[i], ActiveValidators)
  {
  }

  // ----- configurations that are validated and fail -----

  lemma ScanOfThree(a: Milestone, b: Milestone, c: Milestone)
    requires a == CountFrom(1, 4) && b == CountFrom(3, 4) && c == CountFrom(7, 5)
    ensures ScanEntries([a, b, c]) == Scan(c, false)
  {
    hide CountOf, EntryFits;
    assert [a, b, c][..2] == [a, b] && [a, b][..1] == [a] && [a][..0] == [];
    assert BelowHeight([a, b, c], 7) == [a, b] && BelowHeight([a, b], 3) == [a] && BelowHeight([a], 1) == [];
    assert ScanEntries([a]) == Scan(a, true);
    assert ScanEntries([a, b]) == Scan(a, true) by { SameCount(a, b); }
    Unfit(a, c);
  }

  lemma SameCount(a: Milestone, b: Milestone)
    requires a == CountFrom(1, 4) && b == CountFrom(3, 4)
    ensures CountOf(a) == CountOf(b)
  {
  }

  lemma Unfit(a: Milestone, c: Milestone)
    requires a == CountFrom(1, 4) && c == CountFrom(7, 5)
    ensures CountOf(a) != CountOf(c) && !EntryFits(a, c)
  {
  }

  /** Validation compares neighbouring entries: a repeated count hides a change within a round. */
  lemma RepeatedCountSlipsThrough()
    ensures var raw := [CountFrom(1, 4), CountFrom(3, 4), CountFrom(7, 5)];
            Configured(raw) && EntriesFit(CountEntries(raw)) && Usable(Merged(raw)) && !Aligned(Merged(raw))
  {
    hide CountEntries, ScanEntries, Merged, Aligned, Since, Usable;
    var raw := [CountFrom(1, 4), CountFrom(3, 4), CountFrom(7, 5)];
    assert CountOnly(CountFrom(1, 4)) && CountOnly(CountFrom(3, 4)) && CountOnly(CountFrom(7, 5));
    AllCounted(raw);
    ScanOfThree(raw[0], raw[1], raw[2]);
    assert EntriesFit(raw);
    AlignedIffEntriesFit(raw);
  }

  function Hiding(): seq<Milestone> {
    [CountFrom(1, 4), CountFrom(3, 4), CountFrom(7, 3), CountFrom(7, 4)]
  }

  /** 4 validators all along, and rounds that start at heights 1, 5 and 9; but `isNewRound` takes the last entry for the
      start of the count, and height 7 for the start of a round. */
  lemma RepeatedHeightHidesCount()
    ensures var raw := Hiding();
            && Configured(raw) && EntriesFit(CountEntries(raw)) && Usable(Merged(raw))
            && ListedNewRound(Merged(raw), 7) && !NewRound(Merged(raw), 7)
  {
    hide CountEntries, Merged, CountAt, Since, RunStart, EntriesFit;
    var raw := Hiding();
    HidingFits();
    HidingIsConfigured();
    EntriesInForce(raw);
    HidingCounts();
    SinceEntry(raw, 1, 6);
    FirstRound(raw);
    assert DiffersAt(raw, 2, 7);
    assert !Whole(6, 4);
    LoudIsWrong(raw, 7);
  }

  lemma HidingFits()
    ensures EntriesFit(Hiding())
  {
  }

  lemma HidingIsConfigured()
    ensures Configured(Hiding()) && Merged(Hiding()) == Hiding() && CountEntries(Hiding()) == Hiding()
  {
    hide CountEntries, Merged;
    assert CountOnly(CountFrom(1, 4)) && CountOnly(CountFrom(3, 4)) && CountOnly(CountFrom(7, 3))
           && CountOnly(CountFrom(7, 4));
    AllCounted(Hiding());
  }

  lemma HidingCounts()
    ensures Usable(Hiding()) && forall k | 1 <= k <= 7 :: CountAt(Hiding(), k) == 4
  {
    var raw := Hiding();
    forall k | 1 <= k <= 7 ensures CountAt(raw, k) == 4 {
      assert Started(raw, k);
      assert ActiveIndex(raw, k) != 2 by { assert k < 7 || raw[3].height <= k; }
    }
  }

  function Misleading(): seq<Milestone> {
    [CountFrom(1, 4), CountFrom(5, 3), CountFrom(5, 4), CountFrom(9, 5)]
  }

  /** Neighbouring counts differ and fit, and no count in force changes within a round; still `calculateRound` throws at
      height 9, because it takes the 3 validators at height 5, which never come into force, for a change. */
  lemma RepeatedHeightSlipsThrough()
    ensures var raw := Misleading();
            && Configured(raw) && EntriesFit(CountEntries(raw)) && NeighboursDiffer(CountEntries(raw))
            && Usable(Merged(raw)) && Aligned(Merged(raw))
            && Calculated(Merged(raw), 9) == Err(InvalidMilestoneConfiguration)
  {
    hide CalculateFrom, NextChange, CountEntries, Merged, Aligned, CountAt;
    var raw := Misleading();
    assert Configured(raw) && EntriesFit(raw) && NeighboursDiffer(raw);
    assert CountOnly(CountFrom(1, 4)) && CountOnly(CountFrom(5, 3)) && CountOnly(CountFrom(5, 4))
           && CountOnly(CountFrom(9, 5));
    AllCounted(raw);
    ValidatedNeverThrows(raw);
    MisleadingSearch();
    MisledAtFive(raw, 9);
    ThrowsAtNine(raw);
  }

  lemma MisleadingSearch()
    ensures var raw := Misleading();
            && Usable(raw) && CountAt(raw, 1) == 4
            && NextChange(raw, 1, ActiveValidators) == SearchResult(true, 5, Some(3))
            && NextChange(raw, 5, ActiveValidators) == SearchResult(true, 9, Some(5))
  {
    hide NextFrom;
    var raw := Misleading();
    assert Started(raw, 1) && Started(raw, 5);
    assert ActiveIndex(raw, 1) == 0 && ActiveIndex(raw, 5) == 2;
    assert !Changes(raw[0], Some(4), 1, ActiveValidators) && Changes(raw[1], Some(4), 1, ActiveValidators);
    Finds(raw, 1, 1);
    Finds(raw, 5, 3);
  }

  lemma ThrowsAtNine(ms: seq<Milestone>)
    requires Usable(ms) && NextChange(ms, 5, ActiveValidators) == SearchResult(true, 9, Some(5))
    ensures CalculateFrom(ms, 9, 5, 2, 5, 3) == Err(InvalidMilestoneConfiguration)
  {
    hide NextChange;
    assert Started(ms, 5);
    assert ChangesAfter(ms, 5, ActiveValidators)
        == [SearchResult(true, 9, Some(5))] + ChangesAfter(ms, 9, ActiveValidators);
    assert !Whole(4, 3);
  }

  /** The search stops at the first milestone that changes. */
  lemma Finds(ms: seq<Milestone>, prev: int, j: nat)
    requires Started(ms, prev) && j < |ms|
             && Changes(ms[j], ValueAt(ms, prev, ActiveValidators), prev, ActiveValidators)
    requires forall i | 0 <= i < j :: !Changes(ms[i], ValueAt(ms, prev, ActiveValidators), prev, ActiveValidators)
    ensures NextChange(ms, prev, ActiveValidators)
            == SearchResult(true, ms[j].height, Some(ms[j].data[ActiveValidators]))
  {
    FindsFrom(ms, ValueAt(ms, prev, ActiveValidators), prev, 0, j);
  }

  lemma {:induction false} FindsFrom(ms: seq<Milestone>, c: Option<int>, prev: int, i: nat, j: nat)
    requires i <= j < |ms| && Changes(ms[j], c, prev, ActiveValidators)
    requires forall k | i <= k < j :: !Changes(ms[k], c, prev, ActiveValidators)
    ensures NextFrom(ms, c, prev, ActiveValidators, i)
            == SearchResult(true, ms[j].height, Some(ms[j].data[ActiveValidators]))
    decreases j - i
  {
    if i < j { FindsFrom(ms, c, prev, i + 1, j); }
  }

  ghost predicate CountOnly(m: Milestone) {
    m.data.Keys == {ActiveValidators} && m.data[ActiveValidators] != 0
  }

  lemma LaterWins(a: Milestone, b: Milestone)
    requires CountOnly(a) && CountOnly(b)
    ensures a.data + b.data == b.data
  {
  }

  /** Milestones that set nothing but the count are their own entries, and merging changes none. */
  lemma {:induction false} AllCounted(raw: seq<Milestone>)
    requires forall i | 0 <= i < |raw| :: CountOnly(raw[i])
    ensures Merged(raw) == raw && CountEntries(raw) == raw
    decreases |raw|
  {
    hide CountOnly;
    if raw != [] {
      var front, m := raw[..|raw| - 1], raw[|raw| - 1];
      AllCounted(front);
      assert raw == front + [m];
      IsEntry(m);
      if front != [] { LaterWins(front[|front| - 1], m); }
    }
  }

  lemma IsEntry(m: Milestone)
    requires CountOnly(m)
    ensures Truthy(m, ActiveValidators)
  {
  }
}
