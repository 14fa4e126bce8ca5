/** Merged milestones and the questions asked of them, on values. */
module Milestones {
  import opened Options

  datatype Key = ActiveValidators | BlockTime | OtherKey(name: string)

  datatype Milestone = Milestone(height: int, data: map<Key, int>)

  datatype SearchResult = SearchResult(found: bool, height: int, data: Option<int>)

  /** Each milestone inherits what it does not set from the one before. */
  function Merged(ms: seq<Milestone>): (r: seq<Milestone>)
    ensures |r| == |ms| && forall i | 0 <= i < |ms| :: r[i].height == ms[i].height
  {
    if |ms| <= 1 then ms else
      var front := Merged(ms[..|ms| - 1]);
      var last := ms[|ms| - 1];
      front + [Milestone(last.height, front[|front| - 1].data + last.data)]
  }

  ghost predicate Ordered(ms: seq<Milestone>) {
    forall i, j | 0 <= i < j < |ms| :: ms[i].height <= ms[j].height
  }

  ghost predicate StrictlyOrdered(ms: seq<Milestone>) {
    forall i, j | 0 <= i < j < |ms| :: ms[i].height < ms[j].height
  }

  predicate Started(ms: seq<Milestone>, h: int) {
    ms != [] && ms[0].height <= h
  }

  /** The last milestone at or below `h`. */
  function ActiveIndex(ms: seq<Milestone>, h: int): (r: nat)
    requires Started(ms, h)
    ensures r < |ms| && ms[r].height <= h
    ensures forall j | r < j < |ms| :: ms[j].height > h
  {
    if ms[|ms| - 1].height <= h then |ms| - 1 else ActiveIndex(ms[..|ms| - 1], h)
  }

  function Lookup(m: Milestone, key: Key): Option<int> {
    if key in m.data then Some(m.data[key]) else None
  }

  function ValueAt(ms: seq<Milestone>, h: int, key: Key): Option<int>
    requires Started(ms, h)
  {
    Lookup(ms[ActiveIndex(ms, h)], key)
  }

  predicate Truthy(m: Milestone, key: Key) {
    key in m.data && m.data[key] != 0
  }

  predicate Changes(m: Milestone, current: Option<int>, prev: int, key: Key) {
    Truthy(m, key) && Lookup(m, key) != current && m.height > prev
  }

  /** The first milestone from index `i` on that lies above `prev` and sets `key` to something else than `current`. */
  function NextFrom(ms: seq<Milestone>, current: Option<int>, prev: int, key: Key, i: nat): SearchResult
    decreases |ms| - i
  {
    if i >= |ms| then SearchResult(false, prev, None)
    else if Changes(ms[i], current, prev, key) then SearchResult(true, ms[i].height, Some(ms[i].data[key]))
    else NextFrom(ms, current, prev, key, i + 1)
  }

  function NextChange(ms: seq<Milestone>, prev: int, key: Key): SearchResult
    requires Started(ms, prev)
  {
    NextFrom(ms, ValueAt(ms, prev, key), prev, key, 0)
  }

  lemma {:induction false} NextFromFound(ms: seq<Milestone>, current: Option<int>, prev: int, key: Key, i: nat)
    ensures var r := NextFrom(ms, current, prev, key, i);
            r.found ==> r.height > prev && exists j | i <= j < |ms| :: ms[j].height == r.height
    decreases |ms| - i
  {
    if i < |ms| && !Changes(ms[i], current, prev, key) { NextFromFound(ms, current, prev, key, i + 1); }
  }

  lemma NextChangeBelowLast(ms: seq<Milestone>, prev: int, key: Key)
    requires Started(ms, prev) && Ordered(ms)
    ensures NextChange(ms, prev, key).found ==> prev < NextChange(ms, prev, key).height <= ms[|ms| - 1].height
  {
    NextFromFound(ms, ValueAt(ms, prev, key), prev, key, 0);
  }

  /** Asking for the next change again and again from `h` on. */
  ghost function ChangesAfter(ms: seq<Milestone>, h: int, key: Key): seq<SearchResult>
    requires Started(ms, h) && Ordered(ms)
    decreases if ms[|ms| - 1].height > h then ms[|ms| - 1].height - h else 0
  {
    NextChangeBelowLast(ms, h, key);
    var next := NextChange(ms, h, key);
    if !next.found then [] else [next] + ChangesAfter(ms, next.height, key)
  }

  /** What is listed is set by a milestone above, and is never 0. */
  lemma {:induction false} ListedIsSet(ms: seq<Milestone>, h: int, key: Key)
    requires Started(ms, h) && Ordered(ms)
    ensures forall c | c in ChangesAfter(ms, h, key) ::
              c.found && c.data.Some? && c.data.value != 0 && c.height > h
              && exists m | m in ms :: m.height == c.height && key in m.data && m.data[key] == c.data.value
    decreases if ms[|ms| - 1].height > h then ms[|ms| - 1].height - h else 0
  {
    hide ActiveIndex, NextFrom;
    NextChangeBelowLast(ms, h, key);
    var next := NextChange(ms, h, key);
    if next.found {
      NextIsSet(ms, ValueAt(ms, h, key), h, key, 0);
      ListedIsSet(ms, next.height, key);
    }
  }

  lemma {:induction false} NextIsSet(ms: seq<Milestone>, current: Option<int>, prev: int, key: Key, i: nat)
    ensures var r := NextFrom(ms, current, prev, key, i);
            r.found ==> r.data.Some? && r.data.value != 0 && r.height > prev
                        && exists m | m in ms :: m.height == r.height && key in m.data && m.data[key] == r.data.value
    decreases |ms| - i
  {
    if i < |ms| {
      if Changes(ms[i], current, prev, key) { assert ms[i] in ms; } else { NextIsSet(ms, current, prev, key, i + 1); }
    }
  }

  ghost predicate Positive(ms: seq<Milestone>, key: Key) {
    forall i | 0 <= i < |ms| :: key in ms[i].data && ms[i].data[key] > 0
  }

  ghost predicate AllPositive(changes: seq<SearchResult>) {
    forall c | c in changes :: c.data.Some? && c.data.value > 0
  }

  lemma {:induction false} NextIsPositive(ms: seq<Milestone>, current: Option<int>, prev: int, key: Key, i: nat)
    requires Positive(ms, key)
    ensures var r := NextFrom(ms, current, prev, key, i); r.found ==> r.data.Some? && r.data.value > 0
    decreases |ms| - i
  {
    if i < |ms| && !Changes(ms[i], current, prev, key) { NextIsPositive(ms, current, prev, key, i + 1); }
  }

  lemma {:induction false} ChangesArePositive(ms: seq<Milestone>, h: int, key: Key)
    requires Positive(ms, key) && Ordered(ms) && Started(ms, h)
    ensures AllPositive(ChangesAfter(ms, h, key))
    decreases if ms[|ms| - 1].height > h then ms[|ms| - 1].height - h else 0
  {
    hide NextFrom, ActiveIndex;
    NextChangeBelowLast(ms, h, key);
    var next := NextChange(ms, h, key);
    NextIsPositive(ms, ValueAt(ms, h, key), h, key, 0);
    if next.found { ChangesArePositive(ms, next.height, key); }
  }

  /** A loop over the changes stands at `from`, and `left` are those to come. */
  ghost predicate Searching(ms: seq<Milestone>, key: Key, from: int, left: seq<SearchResult>) {
    && Ordered(ms) && Positive(ms, key) && from >= 1 && Started(ms, from)
    && left == ChangesAfter(ms, from, key) && AllPositive(left)
  }

  lemma SearchBegins(ms: seq<Milestone>, key: Key)
    requires Ordered(ms) && Positive(ms, key) && Started(ms, 1)
    ensures Searching(ms, key, 1, ChangesAfter(ms, 1, key))
  {
    ChangesArePositive(ms, 1, key);
  }

  /** The search finds the first change that is left. */
  lemma SearchGoesOn(ms: seq<Milestone>, key: Key, from: int, left: seq<SearchResult>)
    requires Searching(ms, key, from, left) && left != []
    ensures Started(ms, from)
    ensures var next := NextChange(ms, from, key);
            && next == left[0] && next.found && next.height > from && next.data.Some? && next.data.value > 0
            && Searching(ms, key, next.height, left[1..])
  {
    hide NextFrom, ActiveIndex;
    NextChangeBelowLast(ms, from, key);
    NextIsPositive(ms, ValueAt(ms, from, key), from, key, 0);
  }

  // ----- where the value in force changes -----

  /** The heights above `from` at which the value in force changes, with the values that come into force there. */
  ghost function InForce(ms: seq<Milestone>, from: int, key: Key): (r: seq<SearchResult>)
    requires Started(ms, from)
    ensures forall i | 0 <= i < |r| :: r[i].found && r[i].height > from
    decreases if ms[|ms| - 1].height > from then ms[|ms| - 1].height - from else 0
  {
    if ms[|ms| - 1].height <= from then [] else
      var rest := InForce(ms, from + 1, key);
      if ValueAt(ms, from + 1, key) == ValueAt(ms, from, key) then rest
      else [SearchResult(true, from + 1, ValueAt(ms, from + 1, key))] + rest
  }

  /** The first milestone from index `i` on that starts at `h` and sets `key` to something else than `c`. */
  function FirstAt(ms: seq<Milestone>, key: Key, c: Option<int>, h: int, i: nat): (r: nat)
    requires i <= |ms|
    ensures i <= r <= |ms|
    ensures r < |ms| ==> ms[r].height == h && Truthy(ms[r], key) && Lookup(ms[r], key) != c
    ensures forall j | i <= j < r :: !(ms[j].height == h && Truthy(ms[j], key) && Lookup(ms[j], key) != c)
    decreases |ms| - i
  {
    if i == |ms| || (ms[i].height == h && Truthy(ms[i], key) && Lookup(ms[i], key) != c) then i
    else FirstAt(ms, key, c, h, i + 1)
  }

  /** The milestones at `h` can be searched: the first that differs from the value in force below sets the value that is
      in force there, and if none differs, that value stays. */
  predicate SoundAt(ms: seq<Milestone>, key: Key, h: int)
    requires Started(ms, h - 1)
  {
    var below := ValueAt(ms, h - 1, key);
    var first := FirstAt(ms, key, below, h, 0);
    ValueAt(ms, h, key) == if first < |ms| then Lookup(ms[first], key) else below
  }

  ghost predicate Sound(ms: seq<Milestone>, key: Key, from: int)
    requires Started(ms, from)
  {
    forall h | h > from :: SoundAt(ms, key, h)
  }

  /** One height further, while no milestone there differs. */
  lemma {:induction false} NextFromSkips(ms: seq<Milestone>, c: Option<int>, prev: int, key: Key, i: nat)
    requires i <= |ms| && FirstAt(ms, key, c, prev + 1, i) == |ms|
    ensures var r := NextFrom(ms, c, prev, key, i);
            NextFrom(ms, c, prev + 1, key, i) == (if r.found then r else SearchResult(false, prev + 1, None))
            && (r.found ==> r.height > prev + 1)
    decreases |ms| - i
  {
    if i < |ms| && !Changes(ms[i], c, prev, key) { NextFromSkips(ms, c, prev, key, i + 1); }
  }

  /** A milestone at the next height that differs is found. */
  lemma {:induction false} NextFromHits(ms: seq<Milestone>, c: Option<int>, prev: int, key: Key, i: nat)
    requires Ordered(ms) && i <= |ms| && FirstAt(ms, key, c, prev + 1, i) < |ms|
    ensures NextFrom(ms, c, prev, key, i)
         == SearchResult(true, prev + 1, Lookup(ms[FirstAt(ms, key, c, prev + 1, i)], key))
    decreases |ms| - i
  {
    var e := FirstAt(ms, key, c, prev + 1, i);
    assert ms[i].height <= ms[e].height;
    if !Changes(ms[i], c, prev, key) { NextFromHits(ms, c, prev, key, i + 1); }
  }

  lemma {:induction false} NothingAbove(ms: seq<Milestone>, c: Option<int>, prev: int, key: Key, i: nat)
    requires Ordered(ms) && ms != [] && ms[|ms| - 1].height <= prev
    ensures NextFrom(ms, c, prev, key, i) == SearchResult(false, prev, None)
    decreases |ms| - i
  {
    if i < |ms| { NothingAbove(ms, c, prev, key, i + 1); }
  }

  /** What the repeated search makes of one height more. */
  lemma SearchStep(ms: seq<Milestone>, h: int, key: Key)
    requires Ordered(ms) && Started(ms, h)
    ensures var c := ValueAt(ms, h, key);
            var e := FirstAt(ms, key, c, h + 1, 0);
            if e < |ms|
            then ChangesAfter(ms, h, key)
              == [SearchResult(true, h + 1, Lookup(ms[e], key))] + ChangesAfter(ms, h + 1, key)
            else && (ValueAt(ms, h + 1, key) == c ==> ChangesAfter(ms, h, key) == ChangesAfter(ms, h + 1, key))
                 && (ChangesAfter(ms, h, key) != [] ==> ChangesAfter(ms, h, key)[0].height > h + 1)
  {
    hide ActiveIndex, NextFrom, Lookup;
    var c := ValueAt(ms, h, key);
    if FirstAt(ms, key, c, h + 1, 0) < |ms| {
      NextFromHits(ms, c, h, key, 0);
    } else {
      NextFromSkips(ms, c, h, key, 0);
    }
  }

  lemma LastStays(ms: seq<Milestone>, h: int, key: Key)
    requires Ordered(ms) && Started(ms, h) && ms[|ms| - 1].height <= h
    ensures forall k | k > h :: SoundAt(ms, key, k)
    ensures ChangesAfter(ms, h, key) == []
  {
    NothingAbove(ms, ValueAt(ms, h, key), h, key, 0);
  }

  /** Where the next height can be searched, the two lists begin alike. */
  lemma SoundStep(ms: seq<Milestone>, from: int, key: Key)
    requires Ordered(ms) && Started(ms, from) && SoundAt(ms, key, from + 1) && ms[|ms| - 1].height > from
    ensures ChangesAfter(ms, from, key) == InForce(ms, from, key)
            <==> ChangesAfter(ms, from + 1, key) == InForce(ms, from + 1, key)
  {
    hide ActiveIndex, NextChange, Lookup, ChangesAfter;
    SearchStep(ms, from, key);
    SameTail(ChangesAfter(ms, from, key), InForce(ms, from, key),
             ChangesAfter(ms, from + 1, key), InForce(ms, from + 1, key));
  }

  /** Where it cannot, they differ in their first element. */
  lemma UnsoundStep(ms: seq<Milestone>, from: int, key: Key)
    requires Ordered(ms) && Started(ms, from) && !SoundAt(ms, key, from + 1) && ms[|ms| - 1].height > from
    ensures ChangesAfter(ms, from, key) != InForce(ms, from, key)
  {
    hide ActiveIndex, NextChange, Lookup, ChangesAfter;
    SearchStep(ms, from, key);
    var listed, inForce := ChangesAfter(ms, from, key), InForce(ms, from, key);
    if ValueAt(ms, from + 1, key) == ValueAt(ms, from, key) {
      assert inForce == InForce(ms, from + 1, key);
      assert listed[0].height == from + 1;
      assert inForce == [] || inForce[0].height > from + 1;
    } else {
      assert inForce[0] == SearchResult(true, from + 1, ValueAt(ms, from + 1, key));
      assert listed == [] || listed[0] != inForce[0];
    }
  }

  lemma SoundNext(ms: seq<Milestone>, from: int, key: Key)
    requires Started(ms, from) && SoundAt(ms, key, from + 1)
    ensures Sound(ms, key, from) <==> Sound(ms, key, from + 1)
  {
    hide SoundAt;
  }

  /** The repeated search lists exactly the heights at which the value in force changes, with the values that come into
      force there, if and only if the milestones at every height above can be searched. */
  lemma {:induction false} SearchFindsChanges(ms: seq<Milestone>, from: int, key: Key)
    requires Ordered(ms) && Started(ms, from)
    ensures ChangesAfter(ms, from, key) == InForce(ms, from, key) <==> Sound(ms, key, from)
    decreases if ms[|ms| - 1].height > from then ms[|ms| - 1].height - from else 0
  {
    hide SoundAt, NextChange, ChangesAfter, ActiveIndex, Ordered, Lookup;
    if ms[|ms| - 1].height <= from {
      LastStays(ms, from, key);
    } else if SoundAt(ms, key, from + 1) {
      SoundStep(ms, from, key);
      SearchFindsChanges(ms, from + 1, key);
      SoundNext(ms, from, key);
    } else {
      UnsoundStep(ms, from, key);
    }
  }

  lemma SameTail<T>(a: seq<T>, b: seq<T>, x: seq<T>, y: seq<T>)
    requires (a == x && b == y) || (a != [] && b != [] && a[0] == b[0] && a[1..] == x && b[1..] == y)
    ensures a == b <==> x == y
  {
    if a != x || b != y {
      assert a == [a[0]] + a[1..] && b == [b[0]] + b[1..];
    }
  }

  // ----- what the list says at one height -----

  /** The value at `h` that a list of changes gives, when `current` is the value before the first. */
  function Listed(changes: seq<SearchResult>, h: int, current: Option<int>): Option<int>
    decreases |changes|
  {
    if changes == [] || h < changes[0].height then current else Listed(changes[1..], h, changes[0].data)
  }

  ghost predicate ListedRight(ms: seq<Milestone>, from: int, h: int, key: Key)
    requires Ordered(ms) && Started(ms, from) && h >= from
  {
    Listed(ChangesAfter(ms, from, key), h, ValueAt(ms, from, key)) == ValueAt(ms, h, key)
  }

  ghost predicate SoundUpTo(ms: seq<Milestone>, key: Key, from: int, h: int)
    requires Started(ms, from)
  {
    forall k | from < k <= h :: SoundAt(ms, key, k)
  }

  lemma ListedHere(ms: seq<Milestone>, h: int, key: Key, current: Option<int>)
    requires Ordered(ms) && Started(ms, h)
    ensures Listed(ChangesAfter(ms, h, key), h, current) == current
  {
    hide NextChange, ActiveIndex;
    NextChangeBelowLast(ms, h, key);
  }

  /** One height further: the first milestone there that differs is listed, and otherwise nothing. */
  lemma ListedStep(ms: seq<Milestone>, t: int, h: int, key: Key)
    requires Ordered(ms) && Started(ms, t) && t < h
    ensures var c := ValueAt(ms, t, key);
            var e := FirstAt(ms, key, c, t + 1, 0);
            && (e < |ms| ==>
                  Listed(ChangesAfter(ms, t, key), h, c)
                  == Listed(ChangesAfter(ms, t + 1, key), h, Lookup(ms[e], key)))
            && (e == |ms| && ValueAt(ms, t + 1, key) == c ==>
                  Listed(ChangesAfter(ms, t, key), h, c) == Listed(ChangesAfter(ms, t + 1, key), h, c))
            && (e == |ms| && h == t + 1 ==> Listed(ChangesAfter(ms, t, key), h, c) == c)
  {
    hide ActiveIndex, NextChange, ChangesAfter, Lookup;
    SearchStep(ms, t, key);
    var c := ValueAt(ms, t, key);
    var e := FirstAt(ms, key, c, t + 1, 0);
    var listed := ChangesAfter(ms, t, key);
    if e < |ms| {
      assert listed[1..] == ChangesAfter(ms, t + 1, key);
    }
  }

  /** Over a height that can be searched, the list goes on saying the same. */
  lemma ListedSoundStep(ms: seq<Milestone>, t: int, h: int, key: Key)
    requires Ordered(ms) && Started(ms, t) && t < h && SoundAt(ms, key, t + 1)
    ensures ListedRight(ms, t, h, key) <==> ListedRight(ms, t + 1, h, key)
  {
    hide ActiveIndex, ChangesAfter, Listed, FirstAt, Lookup;
    ListedStep(ms, t, h, key);
  }

  lemma ListedLast(ms: seq<Milestone>, h: int, key: Key)
    requires Ordered(ms) && Started(ms, h - 1)
    ensures ListedRight(ms, h - 1, h, key) <==> SoundAt(ms, key, h)
  {
    hide ActiveIndex, ChangesAfter, Listed, FirstAt, Lookup;
    ListedStep(ms, h - 1, h, key);
    var e := FirstAt(ms, key, ValueAt(ms, h - 1, key), h, 0);
    if e < |ms| { ListedHere(ms, h, key, Lookup(ms[e], key)); }
  }

  lemma {:induction false} ListedWalk(ms: seq<Milestone>, t: int, h: int, key: Key)
    requires Ordered(ms) && Started(ms, t) && t <= h
    ensures SoundUpTo(ms, key, t, h) ==> ListedRight(ms, t, h, key)
    ensures t < h && SoundUpTo(ms, key, t, h - 1) && !SoundAt(ms, key, h) ==> !ListedRight(ms, t, h, key)
    decreases h - t
  {
    hide ActiveIndex, ChangesAfter, Listed, SoundAt;
    if t == h {
      ListedHere(ms, h, key, ValueAt(ms, h, key));
    } else {
      ListedWalk(ms, t + 1, h, key);
      if SoundAt(ms, key, t + 1) { ListedSoundStep(ms, t, h, key); }
      if t + 1 == h { ListedLast(ms, h, key); }
    }
  }

  /** The list gives the value in force at every height up to `h` if and only if the milestones at every height up to
      there can be searched. */
  lemma ListedIsInForce(ms: seq<Milestone>, from: int, h: int, key: Key)
    requires Ordered(ms) && Started(ms, from)
    ensures (forall k | from <= k <= h :: ListedRight(ms, from, k, key)) <==> SoundUpTo(ms, key, from, h)
  {
    hide ListedRight, SoundAt;
    if SoundUpTo(ms, key, from, h) {
      forall k | from <= k <= h ensures ListedRight(ms, from, k, key) { ListedWalk(ms, from, k, key); }
    } else {
      var k := FirstUnsound(ms, key, from, h);
      ListedWalk(ms, from, k, key);
    }
  }

  lemma {:induction false} FirstUnsound(ms: seq<Milestone>, key: Key, from: int, h: int) returns (k: int)
    requires Started(ms, from) && !SoundUpTo(ms, key, from, h)
    ensures from < k <= h && SoundUpTo(ms, key, from, k - 1) && !SoundAt(ms, key, k)
    decreases h - from
  {
    hide SoundAt;
    k := h;
    if !SoundUpTo(ms, key, from, h - 1) { k := FirstUnsound(ms, key, from, h - 1); }
  }

  /** One milestone a height, and none that switches the key off: the search is right. */
  lemma OneAHeightIsSound(ms: seq<Milestone>, key: Key, from: int)
    requires StrictlyOrdered(ms) && Started(ms, from)
    requires forall i | 0 < i < |ms| && ms[i].height > from ::
               Truthy(ms[i], key) || Lookup(ms[i], key) == Lookup(ms[i - 1], key)
    ensures Sound(ms, key, from)
  {
    hide SoundAt;
    forall h | h > from ensures SoundAt(ms, key, h) {
      OneAHeight(ms, h);
      var b := ActiveIndex(ms, h);
      assert ms[b].height == h && b > 0 ==> Truthy(ms[b], key) || Lookup(ms[b], key) == Lookup(ms[b - 1], key);
      OneIsSound(ms, key, h);
    }
  }

  lemma OneIsSound(ms: seq<Milestone>, key: Key, h: int)
    requires Started(ms, h - 1)
    requires var a, b := ActiveIndex(ms, h - 1), ActiveIndex(ms, h);
             && (b == a || (&& b == a + 1 && ms[b].height == h
                            && (Truthy(ms[b], key) || Lookup(ms[b], key) == Lookup(ms[a], key))))
             && forall j | 0 <= j < |ms| && ms[j].height == h :: j == b && b == a + 1
    ensures SoundAt(ms, key, h)
  {
    hide ActiveIndex;
    var b := ActiveIndex(ms, h);
    var first := FirstAt(ms, key, ValueAt(ms, h - 1, key), h, 0);
    assert first < |ms| ==> first == b;
  }

  lemma OneAHeight(ms: seq<Milestone>, h: int)
    requires StrictlyOrdered(ms) && Started(ms, h - 1)
    ensures var a, b := ActiveIndex(ms, h - 1), ActiveIndex(ms, h);
            && (b == a || (b == a + 1 && ms[b].height == h))
            && forall j | 0 <= j < |ms| && ms[j].height == h :: j == b && b == a + 1
  {
    var a, b := ActiveIndex(ms, h - 1), ActiveIndex(ms, h);
    if a < b {
      assert h <= ms[a + 1].height <= ms[b].height;
    }
    forall j | 0 <= j < |ms| && ms[j].height == h ensures j == b && b == a + 1 {
      assert a < j <= b;
    }
  }

  /** Two milestones at one height: the search from the first height stops at a value that is never in force. */
  lemma RepeatedHeightMisleads()
    ensures var ms := [Milestone(1, map[ActiveValidators := 4]), Milestone(5, map[ActiveValidators := 3]),
                       Milestone(5, map[ActiveValidators := 4])];
            Ordered(ms) && Started(ms, 1) && !SoundAt(ms, ActiveValidators, 5)
            && NextChange(ms, 1, ActiveValidators) == SearchResult(true, 5, Some(3))
            && ValueAt(ms, 5, ActiveValidators) == Some(4)
  {
    var ms := [Milestone(1, map[ActiveValidators := 4]), Milestone(5, map[ActiveValidators := 3]),
               Milestone(5, map[ActiveValidators := 4])];
    assert ActiveIndex(ms, 1) == 0 by { assert ms[1].height > 1; }
    assert ActiveIndex(ms, 4) == 0 by { assert ms[1].height > 4; }
    assert ActiveIndex(ms, 5) == 2;
    assert !Changes(ms[0], Some(4), 1, ActiveValidators);
    assert Changes(ms[1], Some(4), 1, ActiveValidators);
    assert NextFrom(ms, Some(4), 1, ActiveValidators, 1) == SearchResult(true, 5, Some(3));
    assert FirstAt(ms, ActiveValidators, Some(4), 5, 1) == 1;
    assert FirstAt(ms, ActiveValidators, Some(4), 5, 0) == 1;
  }
}
