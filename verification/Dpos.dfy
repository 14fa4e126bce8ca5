/** Vote balances counted from zero, the ranking of the validators, and the validators of a round. */
module Dpos {
  import opened Options
  import opened Ledgers
  import opened Sequences
  import opened Sorting
  import Rounds

  // ----- vote balances -----

  function BackingBy(l: Ledger, voters: seq<Address>, v: Address): int {
    if voters == [] then 0
    else BackingBy(l, voters[..|voters| - 1], v) + BalanceFor(v)(At(l, voters[|voters| - 1]))
  }

  /** Summing over any list of all voters, each once, is summing over the ledger. */
  lemma {:induction false} BackingByAll(l: Ledger, voters: seq<Address>, v: Address)
    requires Distinct(voters) && forall a | a in l && l[a].vote.Some? :: a in voters
    ensures BackingBy(l, voters, v) == Backing(l, v)
    decreases |voters|
  {
    if voters == [] {
      NoVoters(l, v);
    } else {
      var front, a := voters[..|voters| - 1], voters[|voters| - 1];
      assert voters == front + [a];
      var rest := Put(l, a, EMPTY_WALLET);
      BackingByOthers(l, rest, front, a, v);
      BackingByAll(rest, front, v);
      SumPut(l, BalanceFor(v), a, EMPTY_WALLET);
    }
  }

  lemma {:induction false} BackingByOthers(l: Ledger, rest: Ledger, voters: seq<Address>, a: Address, v: Address)
    requires a !in voters && forall b | b != a :: At(rest, b) == At(l, b)
    ensures BackingBy(l, voters, v) == BackingBy(rest, voters, v)
    decreases |voters|
  {
    if voters != [] {
      BackingByOthers(l, rest, voters[..|voters| - 1], a, v);
    }
  }

  lemma {:induction false} NoVoters(l: Ledger, v: Address)
    requires forall a | a in l :: l[a].vote.None?
    ensures Backing(l, v) == 0
    decreases |l|
  {
    if l != map[] {
      var a :| a in l;
      SumWithout(l, BalanceFor(v), a);
      NoVoters(l - {a}, v);
    }
  }

  function Credited(w: Wallet, amount: int): Wallet {
    if w.validator.Some? then
      w.(validator := Some(w.validator.value.(voteBalance := w.validator.value.voteBalance + amount)))
    else w
  }

  // ----- the ranking -----

  /** Higher vote balance first, then lower public key. */
  predicate Before(l: Ledger, a: Address, b: Address) {
    VoteBalance(At(l, a)) > VoteBalance(At(l, b))
    || (VoteBalance(At(l, a)) == VoteBalance(At(l, b)) && a.id <= b.id)
  }

  function Order(l: Ledger): (Address, Address) -> bool {
    (a, b) => Before(l, a, b)
  }

  predicate Standing(l: Ledger, a: Address) {
    At(l, a).validator.Some? && !At(l, a).validator.value.resigned
  }

  function Standings(l: Ledger, all: seq<Address>): seq<Address> {
    if all == [] then [] else
      Standings(l, all[..|all| - 1]) + if Standing(l, all[|all| - 1]) then [all[|all| - 1]] else []
  }

  function Ranking(l: Ledger, all: seq<Address>): seq<Address> {
    Sort(Standings(l, all), Order(l))
  }

  /** All registered validators, each once, in whatever order the repository keeps them. */
  ghost predicate ListsValidators(l: Ledger, all: seq<Address>) {
    Distinct(all) && forall a :: a in all <==> At(l, a).validator.Some?
  }

  lemma OrderIsOrdering(l: Ledger)
    ensures Ordering(Order(l))
  {
  }

  lemma {:induction false} StandingsMultiset(l: Ledger, all: seq<Address>)
    requires Distinct(all)
    ensures forall a :: multiset(Standings(l, all))[a] == if a in all && Standing(l, a) then 1 else 0
    decreases |all|
  {
    hide Standing;
    if all != [] {
      var front, last := all[..|all| - 1], all[|all| - 1];
      StandingsMultiset(l, front);
      assert all == front + [last] && last !in front;
    }
  }

  /** The ranking is the same however the repository lists the validators. */
  lemma RankingIsUnique(l: Ledger, all: seq<Address>, other: seq<Address>)
    requires ListsValidators(l, all) && ListsValidators(l, other)
    ensures Ranking(l, all) == Ranking(l, other)
  {
    hide Sort, Standings;
    RankingSorts(l, all);
    RankingSorts(l, other);
    assert multiset(Ranking(l, all)) == multiset(Ranking(l, other)) by {
      forall a ensures multiset(Ranking(l, all))[a] == multiset(Ranking(l, other))[a] { }
    }
    SortedUnique(Ranking(l, all), Ranking(l, other), Order(l));
  }

  /** The ranking holds every validator that has not resigned, once, in order. */
  lemma RankingSorts(l: Ledger, all: seq<Address>)
    requires ListsValidators(l, all)
    ensures SortedBy(Ranking(l, all), Order(l)) && Ordering(Order(l))
    ensures forall a :: multiset(Ranking(l, all))[a] == if Standing(l, a) then 1 else 0
    ensures Distinct(Ranking(l, all)) && forall a :: a in Ranking(l, all) <==> Standing(l, a)
  {
    hide Sort, Standings;
    OrderIsOrdering(l);
    StandingsMultiset(l, all);
    SortSorted(Standings(l, all), Order(l));
    OnceEach(Ranking(l, all));
    forall a ensures a in Ranking(l, all) <==> Standing(l, a) {
      assert a in Ranking(l, all) <==> a in multiset(Ranking(l, all));
    }
  }

  /** So it has the validators that have not resigned, from the highest stored vote balance to the lowest, and from the
      lowest key to the highest where it is equal. */
  lemma RankedByVoteBalance(l: Ledger, all: seq<Address>)
    requires ListsValidators(l, all)
    ensures var r := Ranking(l, all);
            && (forall a :: a in r <==> At(l, a).validator.Some? && !At(l, a).validator.value.resigned)
            && forall i, j | 0 <= i < j < |r| ::
                 At(l, r[i]).validator.Some? && At(l, r[j]).validator.Some?
                 && var (x, y) := (At(l, r[i]).validator.value.voteBalance, At(l, r[j]).validator.value.voteBalance);
                    x > y || (x == y && r[i].id < r[j].id)
  {
    hide Ranking, ListsValidators;
    RankingSorts(l, all);
    var r := Ranking(l, all);
    forall i, j | 0 <= i < j < |r|
      ensures Standing(l, r[i]) && Standing(l, r[j]) && Before(l, r[i], r[j]) && r[i] != r[j]
    {
      assert r[i] in r && r[j] in r && Order(l)(r[i], r[j]);
    }
  }

  /** Everybody in a round ranks before everybody that is not: the round takes the top of the ranking. */
  lemma RoundTakesTheTop(l: Ledger, all: seq<Address>, n: nat, a: Address, b: Address)
    requires ListsValidators(l, all) && n <= |Ranking(l, all)|
    requires a in Ranking(l, all)[..n] && Standing(l, b) && b !in Ranking(l, all)[..n]
    ensures Before(l, a, b) && a != b
  {
    hide Ranking, Standing;
    RankingSorts(l, all);
    TopBefore(Ranking(l, all), Order(l), n, a, b);
  }

  /** Where the index is right, a round goes to those whose voters hold most. */
  lemma RoundHasMostBacking(l: Ledger, all: seq<Address>, n: nat, a: Address, b: Address)
    requires Consistent(l) && ListsValidators(l, all) && n <= |Ranking(l, all)|
    requires a in Ranking(l, all)[..n] && b !in Ranking(l, all)[..n]
    requires At(l, b).validator.Some? && !At(l, b).validator.value.resigned
    ensures At(l, a).validator.Some? && !At(l, a).validator.value.resigned
    ensures Backing(l, a) > Backing(l, b) || (Backing(l, a) == Backing(l, b) && a.id < b.id)
  {
    hide Ranking, Sum, ListsValidators;
    RankingSorts(l, all);
    assert a in Ranking(l, all);
    RoundTakesTheTop(l, all, n, a, b);
    assert Gap(l, a) == 0 && Gap(l, b) == 0;
  }

  /** A round of `n` is `n` different validators. */
  lemma RoundSize(l: Ledger, all: seq<Address>, n: nat)
    requires ListsValidators(l, all) && n <= |Ranking(l, all)|
    ensures |Members(Ranking(l, all)[..n])| == n
  {
    hide Ranking, Members;
    RankingSorts(l, all);
    DistinctSize(Ranking(l, all)[..n]);
  }

  // ----- the object -----

  datatype RoundError = TooFewValidators(expected: nat, found: nat)

  /** The repository's wallets as a ledger, with the ranks and rounds that only this object sets beside it. */
  class DposState {
    var wallets: Ledger
    var ranks: map<Address, nat>
    var rounds: map<Address, int>
    var activeValidators: seq<Address>
    var roundValidators: seq<Address>
    var roundInfo: Option<Rounds.RoundInfo>

    /** Every stored vote balance grows by what its voters hold; nothing else changes. */
    method BuildVoteBalances(byPublicKey: seq<Address>)
      requires VotesRegistered(wallets)
      requires Distinct(byPublicKey) && forall a | a in wallets && wallets[a].vote.Some? :: a in byPublicKey
      modifies this`wallets
      ensures forall a :: At(wallets, a) == Credited(At(old(wallets), a), Backing(old(wallets), a))
    {
      hide Put, At, Credited, BackingBy, VotesRegistered;
      ghost var l := wallets;
      NothingYet(l);
      var i := 0;
      while i < |byPublicKey|
        invariant 0 <= i <= |byPublicKey|
        invariant forall a :: At(wallets, a) == Credited(At(l, a), BackingBy(l, byPublicKey[..i], a))
      {
        var voter := byPublicKey[i];
        CreditStep(l, wallets, byPublicKey, i);
        var vote := At(wallets, voter).vote;
        if vote.Some? {
          var validator := At(wallets, vote.value);
          wallets := Put(wallets, vote.value, Credited(validator, At(wallets, voter).balance));
        }
        i := i + 1;
      }
      assert byPublicKey[..i] == byPublicKey;
      forall a { BackingByAll(l, byPublicKey, a); }
    }

    static lemma NothingYet(l: Ledger)
      ensures forall a :: Credited(At(l, a), BackingBy(l, [], a)) == At(l, a)
    {
    }

    static lemma CreditStep(l: Ledger, now: Ledger, voters: seq<Address>, i: nat)
      requires VotesRegistered(l) && i < |voters|
      requires forall a :: At(now, a) == Credited(At(l, a), BackingBy(l, voters[..i], a))
      ensures var w := At(now, voters[i]);
              forall a :: Credited(At(l, a), BackingBy(l, voters[..i + 1], a)) ==
                          if w.vote == Some(a) then Credited(At(now, a), w.balance) else At(now, a)
    {
      assert voters[..i + 1][..i] == voters[..i];
      assert NamesValidator(l, voters[i]);
    }

    /** What an empty index is built up to is the index that the block state keeps up to date. */
    static lemma BuiltFromZero(l: Ledger, built: Ledger)
      requires VotesRegistered(l) && forall a :: VoteBalance(At(l, a)) == 0
      requires forall a :: At(built, a) == Credited(At(l, a), Backing(l, a))
      ensures Consistent(built) && Supply(built) == Supply(l)
    {
      hide At, Sum;
      forall v ensures Gap(built, v) == 0 {
        SameWeights(l, built, BalanceFor(v));
        if At(l, v).validator.None? { NoBacking(l, v); }
      }
      SameWeights(l, built, BalanceOf());
      forall a ensures NamesValidator(built, a) { assert NamesValidator(l, a); }
    }

    static lemma {:induction false} NoBacking(l: Ledger, v: Address)
      requires VotesRegistered(l) && At(l, v).validator.None?
      ensures Backing(l, v) == 0
    {
      forall a | a in l ensures l[a].vote != Some(v) { assert NamesValidator(l, a); }
      NobodyFor(l, v);
    }

    static lemma {:induction false} NobodyFor(l: Ledger, v: Address)
      requires forall a | a in l :: l[a].vote != Some(v)
      ensures Backing(l, v) == 0
      decreases |l|
    {
      if l != map[] {
        var a :| a in l;
        SumWithout(l, BalanceFor(v), a);
        NobodyFor(l - {a}, v);
      }
    }

    static lemma SameWeights(l: Ledger, m: Ledger, weight: Wallet -> int)
      requires weight(EMPTY_WALLET) == 0 && forall a :: weight(At(l, a)) == weight(At(m, a))
      ensures Sum(l, weight) == Sum(m, weight)
    {
      SameWeightsOn(l, m, weight, l.Keys + m.Keys);
    }

    static lemma {:induction false} SameWeightsOn(l: Ledger, m: Ledger, weight: Wallet -> int, keys: set<Address>)
      requires weight(EMPTY_WALLET) == 0 && forall a :: weight(At(l, a)) == weight(At(m, a))
      requires l.Keys <= keys && m.Keys <= keys
      ensures Sum(l, weight) == Sum(m, weight)
      decreases |keys|
    {
      hide At, Put, Sum;
      if keys == {} {
        assert l == map[] && m == map[];
      } else {
        var a :| a in keys;
        SumPut(l, weight, a, EMPTY_WALLET);
        SumPut(m, weight, a, EMPTY_WALLET);
        FewerKeys(l, a, keys);
        FewerKeys(m, a, keys);
        SameWeightsOn(Put(l, a, EMPTY_WALLET), Put(m, a, EMPTY_WALLET), weight, keys - {a});
      }
    }

    static lemma FewerKeys(l: Ledger, a: Address, keys: set<Address>)
      requires l.Keys <= keys
      ensures Put(l, a, EMPTY_WALLET).Keys <= keys - {a}
    {
    }

    /** Ranks the validators that stand: the first in the ranking has rank 1, and nobody else has a rank. */
    method BuildValidatorRanking(byUsername: seq<Address>)
      requires ListsValidators(wallets, byUsername)
      requires forall a | a in ranks :: a in byUsername
      modifies this`activeValidators, this`ranks
      ensures activeValidators == Ranking(wallets, byUsername)
      ensures forall i | 0 <= i < |activeValidators| ::
                activeValidators[i] in ranks && ranks[activeValidators[i]] == i + 1
      ensures forall a | a in ranks :: a in activeValidators
    {
      hide Sort, Standings, Ranking, ListsValidators, Standing;
      RankingSorts(wallets, byUsername);
      activeValidators := [];
      var i := 0;
      NoStandings(wallets);
      while i < |byUsername|
        invariant 0 <= i <= |byUsername| && activeValidators == Standings(wallets, byUsername[..i])
        invariant forall a | a in ranks :: a in byUsername && (a in byUsername[..i] ==> Standing(wallets, a))
      {
        StandingsNext(wallets, byUsername, i);
        var validator := byUsername[i];
        if Standing(wallets, validator) {
          activeValidators := activeValidators + [validator];
        } else {
          ranks := ranks - {validator};
        }
        i := i + 1;
      }
      assert byUsername[..i] == byUsername;
      activeValidators := Sort(activeValidators, Order(wallets));
      RankingIs(wallets, byUsername);
      SetRanks();
    }

    method SetRanks()
      requires Distinct(activeValidators) && forall a | a in ranks :: a in activeValidators
      modifies this`ranks
      ensures forall i | 0 <= i < |activeValidators| ::
                activeValidators[i] in ranks && ranks[activeValidators[i]] == i + 1
      ensures forall a | a in ranks :: a in activeValidators
    {
      var index := 0;
      while index < |activeValidators|
        invariant 0 <= index <= |activeValidators|
        invariant forall k | 0 <= k < index :: activeValidators[k] in ranks && ranks[activeValidators[k]] == k + 1
        invariant forall a | a in ranks :: a in activeValidators
      {
        ranks := ranks[activeValidators[index] := index + 1];
        index := index + 1;
      }
    }

    static lemma RankingIs(l: Ledger, all: seq<Address>)
      ensures Ranking(l, all) == Sort(Standings(l, all), Order(l))
    {
    }

    static lemma NoStandings(l: Ledger)
      ensures Standings(l, []) == []
    {
    }

    static lemma StandingsNext(l: Ledger, all: seq<Address>, i: nat)
      requires i < |all|
      ensures Standings(l, all[..i + 1]) == Standings(l, all[..i]) + if Standing(l, all[i]) then [all[i]] else []
      ensures forall a :: a in all[..i + 1] <==> a in all[..i] || a == all[i]
    {
      assert all[..i + 1][..i] == all[..i];
    }

    method SetValidatorsRound(info: Rounds.RoundInfo) returns (error: Option<RoundError>)
      modifies this`roundInfo, this`roundValidators, this`rounds
      ensures if |activeValidators| < info.maxValidators
              then error == Some(TooFewValidators(info.maxValidators, |activeValidators|))
                   && roundValidators == old(roundValidators) && rounds == old(rounds) && roundInfo == old(roundInfo)
              else error == None && roundInfo == Some(info)
                   && roundValidators == activeValidators[..info.maxValidators]
                   && (forall a | a in roundValidators :: a in rounds && rounds[a] == info.round)
                   && (forall a | a !in roundValidators ::
                         (a in rounds <==> a in old(rounds)) && (a in rounds ==> rounds[a] == old(rounds[a])))
    {
      if |activeValidators| < info.maxValidators {
        return Some(TooFewValidators(info.maxValidators, |activeValidators|));
      }
      roundInfo := Some(info);
      roundValidators := [];
      var index := 0;
      while index < info.maxValidators
        invariant 0 <= index <= info.maxValidators && roundValidators == activeValidators[..index]
        invariant roundInfo == Some(info)
        invariant forall a | a in roundValidators :: a in rounds && rounds[a] == info.round
        invariant forall a | a !in roundValidators ::
                    (a in rounds <==> a in old(rounds)) && (a in rounds ==> rounds[a] == old(rounds[a]))
      {
        rounds := rounds[activeValidators[index] := info.round];
        roundValidators := roundValidators + [activeValidators[index]];
        index := index + 1;
      }
      return None;
    }
  }
}
