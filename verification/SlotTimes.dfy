/** Slot numbers and slot times, which depend on every change of the block time so far. */
module SlotTimes {
  import opened Options
  import opened Arithmetic
  import opened Milestones
  import opened Configurations

  datatype SlotInfo = SlotInfo(blockTime: int, endTime: int, forgingStatus: bool, slotNumber: int, startTime: int)

  /** The span of equal block times that a height lies in: its block time, the slots and the time before it, and the
      height it starts at. */
  datatype Span = Span(blockTime: int, slots: int, start: int, from: int)

  function Quotient(a: int, b: int): int
    requires b > 0
  {
    a / b
  }

  /** A span that ends with the block below `h`; `lookup` gives the timestamps of blocks. */
  function NextSpan(s: Span, h: int, blockTime: int, lookup: int -> int): Span
    requires s.blockTime > 0
  {
    var end := lookup(h - 1) + s.blockTime;
    Span(blockTime, s.slots + Quotient(end - lookup(s.from), s.blockTime), end, h)
  }

  /** Through the changes of the block time, up to the span that `height` lies in. */
  ghost function SpanAt(changes: seq<SearchResult>, height: int, lookup: int -> int, s: Span): (r: Span)
    requires AllPositive(changes) && s.blockTime > 0
    ensures r.blockTime > 0
    decreases |changes|
  {
    if changes == [] || height < changes[0].height then s
    else SpanAt(changes[1..], height, lookup, NextSpan(s, changes[0].height, changes[0].data.value, lookup))
  }

  // ----- slots of one span -----

  function SlotOf(s: Span, t: int): int
    requires s.blockTime > 0
  {
    s.slots + Quotient(t - s.start, s.blockTime)
  }

  function TimeOf(s: Span, slot: int): int {
    s.start + (slot - s.slots) * s.blockTime
  }

  function InfoAt(s: Span, t: int): SlotInfo
    requires s.blockTime > 0
  {
    var start := s.start + Quotient(t - s.start, s.blockTime) * s.blockTime;
    SlotInfo(s.blockTime, start + s.blockTime - 1, t < start + Quotient(s.blockTime, 2), SlotOf(s, t), start)
  }

  /** A time lies in slot `k` exactly when it is between the times of `k` and `k + 1`. */
  lemma SlotHolds(s: Span, t: int, k: int)
    requires s.blockTime > 0
    ensures SlotOf(s, t) == k <==> TimeOf(s, k) <= t < TimeOf(s, k + 1)
  {
    var q := k - s.slots;
    MulDistributes(q, 1, s.blockTime);
    assert (q + 1) * s.blockTime == q * s.blockTime + s.blockTime;
    if TimeOf(s, k) <= t < TimeOf(s, k + 1) {
      QuotientIs(t - s.start, s.blockTime, q);
    }
    Division(t - s.start, s.blockTime);
  }

  /** The slot time and the slot number undo each other, at every time and every slot. */
  lemma SlotAndTimeAreInverse(s: Span, t: int, k: int)
    requires s.blockTime > 0
    ensures TimeOf(s, SlotOf(s, t)) == InfoAt(s, t).startTime
    ensures InfoAt(s, t).startTime <= t <= InfoAt(s, t).endTime
    ensures SlotOf(s, TimeOf(s, k)) == k
    ensures InfoAt(s, TimeOf(s, k)).startTime == TimeOf(s, k)
    ensures 0 < TimeOf(s, SlotOf(s, t) + 1) - t <= s.blockTime
  {
    SlotHolds(s, t, SlotOf(s, t));
    SlotHolds(s, TimeOf(s, k), k);
    var q := SlotOf(s, t) - s.slots;
    MulDistributes(q, 1, s.blockTime);
    MulDistributes(k - s.slots, 1, s.blockTime);
  }

  /** Forging is allowed in the first half of every slot, rounded down, and in it only; the four other values are
      those of the slot. */
  lemma ForgingIsAllowed(s: Span, k: int, d: int)
    requires 0 <= d < s.blockTime
    ensures var info := InfoAt(s, TimeOf(s, k) + d);
            && (info.forgingStatus <==> d < s.blockTime / 2)
            && info.slotNumber == k && info.startTime == TimeOf(s, k) && info.endTime == TimeOf(s, k + 1) - 1
            && info.blockTime == TimeOf(s, k + 1) - TimeOf(s, k)
  {
    var q := k - s.slots;
    assert (q + 1) * s.blockTime == q * s.blockTime + s.blockTime;
    QuotientIs(TimeOf(s, k) + d - s.start, s.blockTime, q);
  }

  /** So it is allowed when a slot of 2 or more begins, and once it is not, it stays so until the next slot. */
  lemma ForgingEndsOnce(s: Span, k: int, d: int, e: int)
    requires 0 <= d <= e < s.blockTime
    ensures s.blockTime >= 2 ==> InfoAt(s, TimeOf(s, k)).forgingStatus
    ensures !InfoAt(s, TimeOf(s, k) + d).forgingStatus ==> !InfoAt(s, TimeOf(s, k) + e).forgingStatus
  {
    ForgingIsAllowed(s, k, 0);
    ForgingIsAllowed(s, k, d);
    ForgingIsAllowed(s, k, e);
  }

  lemma SlotsAreMonotone(s: Span, t: int, u: int)
    requires s.blockTime > 0 && t <= u
    ensures SlotOf(s, t) <= SlotOf(s, u)
    ensures InfoAt(s, t).startTime <= InfoAt(s, u).startTime
  {
    QuotientStep(t - s.start, u - t, s.blockTime);
    MulOrder(s.blockTime, Quotient(t - s.start, s.blockTime), Quotient(u - s.start, s.blockTime));
  }

  /** How far a time is into its slot. */
  function Offset(s: Span, t: int): int
    requires s.blockTime > 0
  {
    t - InfoAt(s, t).startTime
  }

  /** Where the block time changes, slot numbers go on right after the last block's slot, less one for each slot that
      was missed before the old span's first block, and less one more if that block came later in its slot than the last
      one. So numbers are used twice exactly if a slot was missed or the offset fell. */
  lemma NumberingAcrossSpans(s: Span, h: int, blockTime: int, lookup: int -> int)
    requires s.blockTime > 0
    ensures var first, last := lookup(s.from), lookup(h - 1);
            var next := NextSpan(s, h, blockTime, lookup);
            var missed := SlotOf(s, first) - s.slots;
            var expected := SlotOf(s, last) + 1;
            && next.slots == expected - missed - (if Offset(s, last) < Offset(s, first) then 1 else 0)
            && (blockTime > 0 ==> SlotOf(next, last + s.blockTime) == next.slots)
            && (missed >= 0 ==>
                  (next.slots == expected <==> missed == 0 && Offset(s, last) >= Offset(s, first))
                  && next.slots <= expected)
  {
    var b, first, last := s.blockTime, lookup(s.from), lookup(h - 1);
    QuotientDifference(last - s.start, first - s.start, b);
    QuotientOneMore(last - first, b);
    assert last + b - first == last - first + b;
  }

  lemma QuotientOneMore(a: int, d: int)
    requires d > 0
    ensures Quotient(a + d, d) == Quotient(a, d) + 1
  {
    QuotientShift(a, d, 1);
  }

  /** Such a chain: slot 0 was missed, the blocks came in slots 1 and 2, and the slot after the change is 2 again. */
  lemma SlotIsNumberedTwice()
    ensures var s := Span(8, 0, 0, 1);
            var lookup: int -> int := height => 8 * height;
            var next := NextSpan(s, 3, 4, lookup);
            SlotOf(s, lookup(2)) == 2 && SlotOf(next, lookup(2) + 8) == 2
  {
    var s := Span(8, 0, 0, 1);
    var lookup: int -> int := height => 8 * height;
    var next := NextSpan(s, 3, 4, lookup);
    assert next == Span(4, 2, 24, 3);
  }

  // ----- the object -----

  /** Every milestone has a block time, and the first holds from height 1. */
  ghost predicate Timed(ms: seq<Milestone>) {
    Started(ms, 1) && Ordered(ms) && Positive(ms, BlockTime)
  }

  ghost function FirstSpan(ms: seq<Milestone>, epoch: int): (s: Span)
    requires Timed(ms)
    ensures s.blockTime > 0
  {
    Span(ms[ActiveIndex(ms, 1)].data[BlockTime], 0, epoch, 1)
  }

  /** The span that `height` lies in. */
  ghost function SpanOf(ms: seq<Milestone>, epoch: int, height: int, lookup: int -> int): (s: Span)
    requires Timed(ms)
    ensures s.blockTime > 0
  {
    ChangesArePositive(ms, 1, BlockTime);
    SpanAt(ChangesAfter(ms, 1, BlockTime), height, lookup, FirstSpan(ms, epoch))
  }

  /** Before the first change, slots are counted from 0 at the epoch. */
  lemma EpochIsSlotZero(ms: seq<Milestone>, epoch: int, height: int, lookup: int -> int)
    requires Timed(ms) && (ChangesAfter(ms, 1, BlockTime) == [] || height < ChangesAfter(ms, 1, BlockTime)[0].height)
    ensures var s := SpanOf(ms, epoch, height, lookup);
            && Some(s.blockTime) == ValueAt(ms, 1, BlockTime) && TimeOf(s, 0) == epoch
            && InfoAt(s, epoch).slotNumber == 0 && InfoAt(s, epoch).startTime == epoch
  {
    hide ChangesAfter;
    var s := SpanOf(ms, epoch, height, lookup);
    QuotientIs(0, s.blockTime, 0);
  }

  lemma {:induction false} SpanIsListed(changes: seq<SearchResult>, height: int, lookup: int -> int, s: Span)
    requires AllPositive(changes) && s.blockTime > 0
    ensures Listed(changes, height, Some(s.blockTime)) == Some(SpanAt(changes, height, lookup, s).blockTime)
    decreases |changes|
  {
    if changes != [] && height >= changes[0].height {
      SpanIsListed(changes[1..], height, lookup, NextSpan(s, changes[0].height, changes[0].data.value, lookup));
    }
  }

  /** Up to a height, the spans have the block times in force if and only if the search for block times is right at
      every height up to there. */
  lemma SpansAreInForce(ms: seq<Milestone>, epoch: int, h: int, lookup: int -> int)
    requires Timed(ms)
    ensures (forall k | 1 <= k <= h ::
               Started(ms, k) && ValueAt(ms, k, BlockTime) == Some(SpanOf(ms, epoch, k, lookup).blockTime))
            <==> SoundUpTo(ms, BlockTime, 1, h)
  {
    hide ChangesAfter, Listed, SoundAt, SpanAt;
    ChangesArePositive(ms, 1, BlockTime);
    ListedIsInForce(ms, 1, h, BlockTime);
    forall k | 1 <= k <= h
      ensures Started(ms, k)
      ensures ListedRight(ms, 1, k, BlockTime)
              <==> ValueAt(ms, k, BlockTime) == Some(SpanOf(ms, epoch, k, lookup).blockTime)
    {
      SpanIsListed(ChangesAfter(ms, 1, BlockTime), k, lookup, FirstSpan(ms, epoch));
    }
  }

  /** What is left of the changes leads to the span of `height`. */
  ghost predicate LeadsToSpan(ms: seq<Milestone>, epoch: int, height: int, lookup: int -> int,
                              s: Span, left: seq<SearchResult>)
  {
    && Timed(ms) && s.blockTime > 0 && Searching(ms, BlockTime, s.from, left)
    && SpanAt(left, height, lookup, s) == SpanOf(ms, epoch, height, lookup)
  }

  lemma SpansBegin(ms: seq<Milestone>, epoch: int, height: int, lookup: int -> int)
    requires Timed(ms)
    ensures Started(ms, 1) && Ordered(ms)
    ensures LeadsToSpan(ms, epoch, height, lookup, FirstSpan(ms, epoch), ChangesAfter(ms, 1, BlockTime))
  {
    SearchBegins(ms, BlockTime);
  }

  lemma SpansGoOn(ms: seq<Milestone>, epoch: int, height: int, lookup: int -> int, s: Span, left: seq<SearchResult>)
    requires LeadsToSpan(ms, epoch, height, lookup, s, left) && left != []
    ensures Started(ms, s.from)
    ensures var next := NextChange(ms, s.from, BlockTime);
            && next == left[0] && next.found && next.data.Some? && next.data.value > 0
            && Started(ms, next.height) && next.height > 1
            && (height >= next.height ==>
                  LeadsToSpan(ms, epoch, height, lookup, NextSpan(s, next.height, next.data.value, lookup), left[1..]))
  {
    hide ChangesAfter;
    SearchGoesOn(ms, BlockTime, s.from, left);
  }

  lemma SpansEnd(ms: seq<Milestone>, epoch: int, height: int, lookup: int -> int, s: Span, left: seq<SearchResult>)
    requires LeadsToSpan(ms, epoch, height, lookup, s, left) && (left == [] || height < left[0].height)
    ensures s == SpanOf(ms, epoch, height, lookup)
  {
  }

  class Slots {
    const configuration: Configuration
    const epoch: int
    const blockTimeLookup: int -> int
    var transientLookup: Option<int -> int>

    constructor (configuration: Configuration, epoch: int, lookup: int -> int)
      ensures this.configuration == configuration && this.epoch == epoch && blockTimeLookup == lookup
      ensures transientLookup == None
    {
      this.configuration, this.epoch, blockTimeLookup, transientLookup := configuration, epoch, lookup, None;
    }

    ghost predicate Valid()
      reads this, configuration
    {
      configuration.Valid() && Timed(configuration.milestones)
    }

    method WithBlockTimeLookup(callback: int -> int)
      modifies this`transientLookup
      ensures transientLookup == Some(callback)
    {
      transientLookup := Some(callback);
    }

    function Lookup(): int -> int
      reads this
    {
      if transientLookup.Some? then transientLookup.value else blockTimeLookup
    }

    ghost function SpanOfHeight(height: int): (s: Span)
      requires Valid()
      reads this, configuration
      ensures s.blockTime > 0
    {
      SpanOf(configuration.milestones, epoch, configuration.Effective(height), Lookup())
    }

    method CalculateBlockTime(height: int) returns (blockTime: int)
      requires Valid() && height >= 1
      ensures blockTime == configuration.milestones[ActiveIndex(configuration.milestones, height)].data[BlockTime]
    {
      var milestones := configuration.milestones;
      var index := |milestones| - 1;
      while index >= 0 && milestones[index].height > height
        invariant -1 <= index < |milestones|
        invariant forall j | index < j < |milestones| :: milestones[j].height > height
      {
        index := index - 1;
      }
      blockTime := milestones[index].data[BlockTime];
    }

    method GetSlotInfo(timestamp: int, requested: int) returns (info: SlotInfo)
      requires Valid()
      modifies configuration`index
      ensures Valid() && info == InfoAt(SpanOfHeight(requested), timestamp)
    {
      hide ActiveIndex, NextFrom, Ordered, Timed, ChangesAfter, LeadsToSpan, SpanOf, AllPositive, Started, InfoAt,
        Quotient, ValueAt, SpanAt, Changes;
      ghost var ms := configuration.milestones;
      var height := configuration.Effective(requested);
      SpansBegin(ms, epoch, height, Lookup());
      ghost var left := ChangesAfter(ms, 1, BlockTime);
      var blockTime := CalculateBlockTime(1);
      var totalSlotsFromLastSpan := 0;
      var lastSpanEndTime := epoch;
      var previousMilestoneHeight := 1;
      var next := configuration.GetNextMilestoneWithNewKey(1, BlockTime);
      var affecting := configuration.GetMilestonesWhichAffect(BlockTime);
      var index := 0;
      while index < |affecting.value| - 1
        invariant 0 <= index && |left| == |affecting.value| - 1 - index
        invariant Valid() && configuration.milestones == ms && previousMilestoneHeight >= 1 && blockTime > 0
        invariant Started(ms, previousMilestoneHeight) && next == Ok(NextChange(ms, previousMilestoneHeight, BlockTime))
        invariant LeadsToSpan(ms, epoch, height, Lookup(),
                           Span(blockTime, totalSlotsFromLastSpan, lastSpanEndTime, previousMilestoneHeight), left)
      {
        SpansGoOn(ms, epoch, height, Lookup(),
                  Span(blockTime, totalSlotsFromLastSpan, lastSpanEndTime, previousMilestoneHeight), left);
        if height < next.value.height { break; }
        var spanStartTimestamp := Lookup()(previousMilestoneHeight);
        lastSpanEndTime := Lookup()(next.value.height - 1) + blockTime;
        totalSlotsFromLastSpan := totalSlotsFromLastSpan + Quotient(lastSpanEndTime - spanStartTimestamp, blockTime);
        blockTime := next.value.data.value;
        previousMilestoneHeight := next.value.height;
        next := configuration.GetNextMilestoneWithNewKey(next.value.height, BlockTime);
        left := left[1..];
        index := index + 1;
      }
      SpansEnd(ms, epoch, height, Lookup(),
              Span(blockTime, totalSlotsFromLastSpan, lastSpanEndTime, previousMilestoneHeight), left);
      info := InfoAt(Span(blockTime, totalSlotsFromLastSpan, lastSpanEndTime, previousMilestoneHeight), timestamp);
    }

    method CalculateSlotTime(slot: int, height: int) returns (time: int)
      requires Valid() && height != 0
      modifies configuration`index
      ensures Valid() && time == TimeOf(SpanOf(configuration.milestones, epoch, height, Lookup()), slot)
    {
      hide ActiveIndex, NextFrom, Ordered, Timed, ChangesAfter, LeadsToSpan, SpanOf, AllPositive, Started, Quotient,
        ValueAt, SpanAt, Changes;
      ghost var ms := configuration.milestones;
      SpansBegin(ms, epoch, height, Lookup());
      ghost var left := ChangesAfter(ms, 1, BlockTime);
      var blockTime := CalculateBlockTime(1);
      var totalSlotsFromLastSpan := 0;
      var lastSpanEndTime := epoch;
      var milestoneHeight := 1;
      var next := configuration.GetNextMilestoneWithNewKey(1, BlockTime);
      var affecting := configuration.GetMilestonesWhichAffect(BlockTime);
      var index := 0;
      while index < |affecting.value| - 1
        invariant 0 <= index && |left| == |affecting.value| - 1 - index
        invariant Valid() && configuration.milestones == ms && milestoneHeight >= 1 && blockTime > 0
        invariant Started(ms, milestoneHeight) && next == Ok(NextChange(ms, milestoneHeight, BlockTime))
        invariant LeadsToSpan(ms, epoch, height, Lookup(),
                           Span(blockTime, totalSlotsFromLastSpan, lastSpanEndTime, milestoneHeight), left)
      {
        SpansGoOn(ms, epoch, height, Lookup(),
                  Span(blockTime, totalSlotsFromLastSpan, lastSpanEndTime, milestoneHeight), left);
        if height < next.value.height { break; }
        var spanStartTimestamp := Lookup()(milestoneHeight);
        lastSpanEndTime := Lookup()(next.value.height - 1) + blockTime;
        totalSlotsFromLastSpan := totalSlotsFromLastSpan + Quotient(lastSpanEndTime - spanStartTimestamp, blockTime);
        blockTime := next.value.data.value;
        milestoneHeight := next.value.height;
        next := configuration.GetNextMilestoneWithNewKey(next.value.height, BlockTime);
        left := left[1..];
        index := index + 1;
      }
      SpansEnd(ms, epoch, height, Lookup(),
              Span(blockTime, totalSlotsFromLastSpan, lastSpanEndTime, milestoneHeight), left);
      time := lastSpanEndTime + (slot - totalSlotsFromLastSpan) * blockTime;
    }

    method GetSlotTime(slot: int, requested: int) returns (time: int)
      requires Valid()
      modifies configuration`index
      ensures Valid() && time == TimeOf(SpanOfHeight(requested), slot)
    {
      time := CalculateSlotTime(slot, configuration.Effective(requested));
    }

    /** Uses up the lookup that was set for one call. */
    method GetSlotNumber(timestamp: int, requested: int) returns (slot: int)
      requires Valid()
      modifies this`transientLookup, configuration`index
      ensures Valid() && transientLookup == None
      ensures slot == SlotOf(old(SpanOfHeight(requested)), timestamp)
    {
      var info := GetSlotInfo(timestamp, requested);
      transientLookup := None;
      slot := info.slotNumber;
    }

    /** The clock is read before the slots are looked up and once more afterwards. The wait is at most a block time, and
        positive exactly if no slot has begun in between, unless a lookup set for one call interferes. */
    method GetTimeInMsUntilNextSlot(now: int, later: int) returns (wait: int)
      requires Valid() && now <= later
      modifies this`transientLookup, configuration`index
      ensures Valid()
      ensures old(transientLookup) == None ==>
                var span := old(SpanOfHeight(0));
                && wait == (TimeOf(span, SlotOf(span, now) + 1) - later) * 1000
                && wait <= span.blockTime * 1000
                && (wait > 0 <==> SlotOf(span, later) == SlotOf(span, now))
    {
      hide SlotOf, TimeOf, InfoAt, SpanOf, Timed;
      var slot := GetSlotNumber(now, 0);
      var time := GetSlotTime(slot + 1, 0);
      wait := (time - later) * 1000;
      if old(transientLookup) == None {
        ghost var span := old(SpanOfHeight(0));
        SlotAndTimeAreInverse(span, now, slot);
        SlotHolds(span, later, slot);
        SlotHolds(span, now, slot);
      }
    }
  }
}
