/** The readers/writer lock. Each piece of code between two awaits runs at once; the pieces of different calls
    interleave in any order, so a run of the lock is a sequence of such pieces. */
module Locks {
  import opened Options

  datatype Kind = Shared | Exclusive

  /** How far one call of `runNonExclusive` or `runExclusive` has come. A call stands for its promise as well. */
  datatype Phase =
    | Waiting(kind: Kind, on: nat)      // awaits the promise of the exclusive call `on`
    | Entering                          // its non-exclusive callback is in its first, synchronous piece
    | Draining(snapshot: set<nat>)      // exclusive: awaits the non-exclusive promises it found
    | Running(kind: Kind)               // its callback is under way
    | Settled(kind: Kind)               // its callback's promise has settled; `finally` has not run yet
    | Done(kind: Kind)

  /** `entering` is the call stack of callbacks that are in their first piece, `missed` what it held when the present
      exclusive promise was set. */
  datatype State = State(calls: map<nat, Phase>, exclusive: Option<nat>, shared: set<nat>,
                         entering: seq<nat>, missed: set<nat>)

  datatype Action =
    Call(t: nat, kind: Kind) | Wake(t: nat) | Register | Drained(t: nat) | Settle(t: nat) | Finish(t: nat)

  const INITIAL := State(map[], None, {}, [], {})

  predicate HasSettled(s: State, t: nat) {
    t in s.calls && (s.calls[t].Settled? || s.calls[t].Done?)
  }

  predicate Active(s: State, t: nat) {
    t in s.calls && (s.calls[t].Entering? || s.calls[t].Running?)
  }

  predicate ActiveExclusive(s: State, t: nat) {
    t in s.calls && s.calls[t] == Running(Exclusive)
  }

  /** From the head of the loop to the next await. */
  function Attempt(s: State, t: nat, kind: Kind): State {
    match s.exclusive
    case Some(e) => s.(calls := s.calls[t := Waiting(kind, e)])
    case None =>
      if kind.Shared? then s.(calls := s.calls[t := Entering], entering := s.entering + [t])
      else s.(calls := s.calls[t := Draining(s.shared)], exclusive := Some(t), missed := set u | u in s.entering)
  }

  /** One piece of code; none where it cannot run now. While a callback is in its first piece, only that callback runs:
      it may call the lock, or return its promise. */
  function Step(s: State, a: Action): Option<State> {
    match a
    case Call(t, kind) =>
      if t in s.calls then None else Some(Attempt(s, t, kind))
    case Register =>
      if s.entering == [] then None else
        var t := s.entering[|s.entering| - 1];
        Some(s.(calls := s.calls[t := Running(Shared)], shared := s.shared + {t},
                entering := s.entering[..|s.entering| - 1]))
    case Wake(t) =>
      if s.entering == [] && t in s.calls && s.calls[t].Waiting? && HasSettled(s, s.calls[t].on)
      then Some(Attempt(s, t, s.calls[t].kind)) else None
    case Drained(t) =>
      if s.entering == [] && t in s.calls && s.calls[t].Draining?
         && forall u | u in s.calls[t].snapshot :: HasSettled(s, u)
      then Some(s.(calls := s.calls[t := Running(Exclusive)])) else None
    case Settle(t) =>
      if s.entering == [] && t in s.calls && s.calls[t].Running?
      then Some(s.(calls := s.calls[t := Settled(s.calls[t].kind)])) else None
    case Finish(t) =>
      if s.entering == [] && t in s.calls && s.calls[t].Settled?
      then Some(if s.calls[t].kind.Shared?
                then s.(calls := s.calls[t := Done(Shared)], shared := s.shared - {t})
                else s.(calls := s.calls[t := Done(Exclusive)], exclusive := None)) else None
  }

  function Run(s: State, actions: seq<Action>): Option<State>
    decreases |actions|
  {
    if actions == [] then Some(s) else
      match Step(s, actions[0])
      case None => None
      case Some(next) => Run(next, actions[1..])
  }

  // ----- the lock's own code -----

  /** The lock has two fields, the exclusive promise and the set of non-exclusive ones; where each call stands, and
      which callbacks are in their first piece, is what the runtime keeps. */
  class Lock {
    var calls: map<nat, Phase>
    var exclusivePromise: Option<nat>
    var nonExclusivePromises: set<nat>
    var entering: seq<nat>
    var missed: set<nat>

    function Value(): State
      reads this
    {
      State(calls, exclusivePromise, nonExclusivePromises, entering, missed)
    }

    constructor ()
      ensures Value() == INITIAL
    {
      calls, exclusivePromise, nonExclusivePromises, entering, missed := map[], None, {}, [], {};
    }

    method RunNonExclusive(t: nat)
      modifies this
      ensures Value() == Attempt(old(Value()), t, Shared)
    {
      if exclusivePromise.Some? {
        calls := calls[t := Waiting(Shared, exclusivePromise.value)];
      } else {
        calls := calls[t := Entering];
        entering := entering + [t];
      }
    }

    method AddPromise()
      requires entering != []
      modifies this
      ensures Some(Value()) == Step(old(Value()), Register)
    {
      var t := entering[|entering| - 1];
      entering := entering[..|entering| - 1];
      nonExclusivePromises := nonExclusivePromises + {t};
      calls := calls[t := Running(Shared)];
    }

    method RunExclusive(t: nat)
      modifies this
      ensures Value() == Attempt(old(Value()), t, Exclusive)
    {
      if exclusivePromise.Some? {
        calls := calls[t := Waiting(Exclusive, exclusivePromise.value)];
      } else {
        calls := calls[t := Draining(nonExclusivePromises)];
        exclusivePromise := Some(t);
        missed := set u | u in entering;
      }
    }

    method Finally(t: nat)
      requires entering == [] && t in calls && calls[t].Settled?
      modifies this
      ensures Some(Value()) == Step(old(Value()), Finish(t))
    {
      if calls[t].kind.Shared? {
        nonExclusivePromises := nonExclusivePromises - {t};
      } else {
        exclusivePromise := None;
      }
      calls := calls[t := Done(calls[t].kind)];
    }
  }

  // ----- safety -----

  ghost predicate Holds(p: Phase) {
    p.Draining? || p == Running(Exclusive) || p == Settled(Exclusive)
  }

  ghost predicate Owned(s: State) {
    && (forall t | t in s.calls :: Holds(s.calls[t]) <==> s.exclusive == Some(t))
    && (s.exclusive.Some? ==> s.exclusive.value in s.calls)
  }

  ghost predicate Listed(s: State) {
    && (forall t :: t in s.shared <==> t in s.calls && (s.calls[t] == Running(Shared) || s.calls[t] == Settled(Shared)))
    && (forall t :: t in s.entering <==> t in s.calls && s.calls[t].Entering?)
    && (forall i, j | 0 <= i < j < |s.entering| :: s.entering[i] != s.entering[j])
  }

  ghost predicate IsExclusive(s: State, t: nat) {
    t in s.calls && (Holds(s.calls[t]) || s.calls[t] == Done(Exclusive))
  }

  ghost predicate IsShared(s: State, t: nat) {
    t in s.calls && (s.calls[t] == Running(Shared) || s.calls[t] == Settled(Shared) || s.calls[t] == Done(Shared))
  }

  ghost predicate Linked(s: State) {
    && (forall t | t in s.calls && s.calls[t].Waiting? :: IsExclusive(s, s.calls[t].on))
    && (forall t, u | t in s.calls && s.calls[t].Draining? && u in s.calls[t].snapshot :: IsShared(s, u))
  }

  /** Where each call stands says what the two fields hold, in every reachable state. */
  ghost predicate Tracked(s: State) {
    Owned(s) && Listed(s) && Linked(s)
  }

  /** The present exclusive call waits for, or has waited for, every active call but those it missed. */
  ghost predicate Guarded(s: State) {
    match s.exclusive
    case None => true
    case Some(e) =>
      && e in s.calls
      && (s.calls[e].Draining? ==> forall t | Active(s, t) && t !in s.missed :: t in s.calls[e].snapshot)
      && (s.calls[e] == Running(Exclusive) ==> forall t | Active(s, t) && t !in s.missed :: t == e)
      && (forall t | t in s.entering :: t in s.missed)
  }

  lemma StepOwned(s: State, a: Action)
    requires Owned(s) && Listed(s) && Step(s, a).Some?
    ensures Owned(Step(s, a).value)
  {
    if a.Register? {
      assert s.entering[|s.entering| - 1] in s.entering;
    }
  }

  lemma RegisterListed(s: State)
    requires Listed(s) && s.entering != []
    ensures Listed(Step(s, Register).value)
  {
    var rest := s.entering[..|s.entering| - 1];
    var t := s.entering[|s.entering| - 1];
    assert s.entering == rest + [t];
    assert t !in rest;
  }

  lemma AttemptListed(s: State, t: nat, kind: Kind)
    requires Listed(s) && (t in s.calls ==> s.calls[t].Waiting?)
    ensures Listed(Attempt(s, t, kind))
  {
    assert t !in s.entering && t !in s.shared;
  }

  lemma StepListed(s: State, a: Action)
    requires Listed(s) && Step(s, a).Some?
    ensures Listed(Step(s, a).value)
  {
    hide HasSettled, Attempt;
    match a
    case Call(t, kind) => AttemptListed(s, t, kind);
    case Wake(t) => AttemptListed(s, t, s.calls[t].kind);
    case Register => RegisterListed(s);
    case Drained(_) =>
    case Settle(_) =>
    case Finish(_) =>
  }

  /** A call never turns from one kind into the other. */
  lemma StepKeepsKinds(s: State, a: Action, t: nat)
    requires Listed(s) && Step(s, a).Some?
    ensures IsExclusive(s, t) ==> IsExclusive(Step(s, a).value, t)
    ensures IsShared(s, t) ==> IsShared(Step(s, a).value, t)
  {
    if a.Register? {
      assert s.entering[|s.entering| - 1] in s.entering;
    }
  }

  lemma StepLinked(s: State, a: Action)
    requires Tracked(s) && Step(s, a).Some?
    ensures Linked(Step(s, a).value)
  {
    var q := Step(s, a).value;
    hide HasSettled;
    forall t ensures (IsExclusive(s, t) ==> IsExclusive(q, t)) && (IsShared(s, t) ==> IsShared(q, t)) {
      StepKeepsKinds(s, a, t);
    }
    assert forall t | t in s.shared :: IsShared(s, t);
    assert s.exclusive.Some? ==> IsExclusive(s, s.exclusive.value);
    hide IsShared, IsExclusive, Owned, Listed;
  }

  lemma StepTracked(s: State, a: Action)
    requires Tracked(s) && Step(s, a).Some?
    ensures Tracked(Step(s, a).value)
  {
    hide Owned, Listed, Linked, Step;
    StepOwned(s, a);
    StepListed(s, a);
    StepLinked(s, a);
  }

  lemma AttemptGuarded(s: State, t: nat, kind: Kind)
    requires Owned(s) && Listed(s) && Guarded(s) && (t in s.calls ==> s.calls[t].Waiting?)
    ensures Guarded(Attempt(s, t, kind))
  {
    if s.exclusive.None? && kind.Exclusive? {
      var q := Attempt(s, t, kind);
      forall u | Active(q, u) && u !in q.missed ensures u in q.calls[t].snapshot {
        assert s.calls[u] == Running(Shared);
      }
    }
  }

  lemma RegisterGuarded(s: State)
    requires Listed(s) && Guarded(s) && s.entering != []
    ensures Guarded(Step(s, Register).value)
  {
    var t := s.entering[|s.entering| - 1];
    assert t in s.entering;
  }

  lemma AdvanceGuarded(s: State, a: Action)
    requires Owned(s) && Guarded(s) && (a.Drained? || a.Settle? || a.Finish?) && Step(s, a).Some?
    ensures Guarded(Step(s, a).value)
  {
  }

  lemma StepGuarded(s: State, a: Action)
    requires Tracked(s) && Guarded(s) && Step(s, a).Some?
    ensures Guarded(Step(s, a).value)
  {
    hide Owned, Listed, Linked, Guarded, Attempt;
    match a
    case Call(t, kind) => AttemptGuarded(s, t, kind);
    case Wake(t) => AttemptGuarded(s, t, s.calls[t].kind);
    case Register => RegisterGuarded(s);
    case Drained(_) => AdvanceGuarded(s, a);
    case Settle(_) => AdvanceGuarded(s, a);
    case Finish(_) => AdvanceGuarded(s, a);
  }

  lemma {:induction false} RunGuarded(s: State, actions: seq<Action>)
    requires Tracked(s) && Guarded(s) && Run(s, actions).Some?
    ensures Tracked(Run(s, actions).value) && Guarded(Run(s, actions).value)
    decreases |actions|
  {
    hide Tracked, Guarded, Step;
    if actions != [] {
      StepTracked(s, actions[0]);
      StepGuarded(s, actions[0]);
      RunGuarded(Step(s, actions[0]).value, actions[1..]);
    }
  }

  /** No call of `runExclusive` is made in the first piece of a non-exclusive callback. */
  predicate Flat(s: State, actions: seq<Action>)
    decreases |actions|
  {
    actions != [] ==>
      && (actions[0].Call? && actions[0].kind.Exclusive? ==> s.entering == [])
      && (Step(s, actions[0]).Some? ==> Flat(Step(s, actions[0]).value, actions[1..]))
  }

  lemma {:induction false} FlatMissesNothing(s: State, actions: seq<Action>)
    requires Flat(s, actions) && Run(s, actions).Some? && s.missed == {}
    ensures Run(s, actions).value.missed == {}
    decreases |actions|
  {
    if actions != [] {
      assert Step(s, actions[0]).value.missed == {};
      FlatMissesNothing(Step(s, actions[0]).value, actions[1..]);
    }
  }

  /** In every interleaving an exclusive callback never overlaps another exclusive one, nor a non-exclusive one unless
      the exclusive call was made in the first piece of that very callback. */
  lemma ExclusiveRunsAlone(actions: seq<Action>, t: nat, u: nat)
    requires Run(INITIAL, actions).Some?
    requires var s := Run(INITIAL, actions).value; ActiveExclusive(s, t) && Active(s, u) && t != u
    ensures var s := Run(INITIAL, actions).value; !ActiveExclusive(s, u) && u in s.missed
    ensures !Flat(INITIAL, actions)
  {
    RunGuarded(INITIAL, actions);
    if Flat(INITIAL, actions) {
      FlatMissesNothing(INITIAL, actions);
    }
  }

  /** The field is set only by a call that finds it empty, and cleared only by the call that set it: no holder's
      promise is ever lost. */
  lemma OnlyTheOwnerClears(actions: seq<Action>, a: Action)
    requires Run(INITIAL, actions).Some? && Step(Run(INITIAL, actions).value, a).Some?
    ensures var s := Run(INITIAL, actions).value;
            var q := Step(s, a).value;
            q.exclusive != s.exclusive ==>
              (s.exclusive.Some? && a == Finish(s.exclusive.value) && q.exclusive == None)
              || (s.exclusive.None? && q.exclusive.Some?
                  && (a == Call(q.exclusive.value, Exclusive) || a == Wake(q.exclusive.value)))
  {
    RunGuarded(INITIAL, actions);
  }

  ghost function Unsettled(s: State, us: set<nat>): set<nat> {
    set u | u in us && !HasSettled(s, u)
  }

  /** A call that an exclusive one does not wait for can still be active when the exclusive callback starts. */
  lemma {:induction false} MissedCallOverlaps(s: State, t: nat, u: nat) returns (actions: seq<Action>)
    requires Tracked(s) && t in s.calls && s.calls[t].Draining? && Active(s, u) && u !in s.calls[t].snapshot
    ensures Run(s, actions).Some?
    ensures var q := Run(s, actions).value; ActiveExclusive(q, t) && Active(q, u)
    decreases |s.entering|, |Unsettled(s, s.calls[t].snapshot)|
  {
    var a := Drained(t);
    if s.entering != [] {
      a := Register;
    } else if w :| w in Unsettled(s, s.calls[t].snapshot) {
      assert IsShared(s, w);
      a := Settle(w);
      var q := Step(s, a).value;
      assert Unsettled(q, s.calls[t].snapshot) == Unsettled(s, s.calls[t].snapshot) - {w};
    } else {
      forall w | w in s.calls[t].snapshot ensures HasSettled(s, w) {
        assert w !in Unsettled(s, s.calls[t].snapshot);
      }
      assert Run(Step(s, a).value, []).Some?;
      return [a];
    }
    StepTracked(s, a);
    var rest := MissedCallOverlaps(Step(s, a).value, t, u);
    assert ([a] + rest)[1..] == rest;
    return [a] + rest;
  }

  /** The exact condition: an exclusive call that takes the lock in the first piece of a non-exclusive callback can
      always go on to run beside that callback. */
  lemma NestedCallOverlaps(before: seq<Action>, t: nat, u: nat) returns (after: seq<Action>)
    requires Run(INITIAL, before).Some?
    requires var s := Run(INITIAL, before).value; u in s.entering && t !in s.calls && s.exclusive.None?
    ensures var q := Run(Run(INITIAL, before).value, [Call(t, Exclusive)] + after);
            q.Some? && ActiveExclusive(q.value, t) && Active(q.value, u)
  {
    RunGuarded(INITIAL, before);
    var s := Run(INITIAL, before).value;
    var q := Step(s, Call(t, Exclusive)).value;
    StepTracked(s, Call(t, Exclusive));
    after := MissedCallOverlaps(q, t, u);
    assert ([Call(t, Exclusive)] + after)[1..] == after;
  }

  // ----- progress -----

  /** While a call is unfinished, something can happen that does not take a new call. */
  lemma SomethingCanHappen(actions: seq<Action>, t: nat)
    requires Run(INITIAL, actions).Some?
    requires var s := Run(INITIAL, actions).value; t in s.calls && !s.calls[t].Done?
    ensures exists a: Action :: !a.Call? && Step(Run(INITIAL, actions).value, a).Some?
  {
    RunGuarded(INITIAL, actions);
    var s := Run(INITIAL, actions).value;
    if s.entering != [] {
      assert Step(s, Register).Some?;
    } else {
      var busy := if s.calls[t].Waiting? then s.calls[t].on else t;
      match s.calls[busy]
      case Draining(snapshot) => {
        if u :| u in snapshot && !HasSettled(s, u) {
          assert IsShared(s, u);
          assert Step(s, Settle(u)).Some?;
        } else {
          assert Step(s, Drained(busy)).Some?;
        }
      }
      case Running(_) => assert Step(s, Settle(busy)).Some?;
      case Settled(_) => assert Step(s, Finish(busy)).Some?;
      case Done(_) => assert Step(s, Wake(t)).Some?;
    }
  }
}
