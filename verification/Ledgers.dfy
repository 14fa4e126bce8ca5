/** Wallets, the ledger that holds them, and sums over the ledger. */
module Ledgers {
  import opened Options

  /** A wallet is found by its address or by the public key the address is derived from. */
  datatype Address = Address(id: nat)

  datatype Validator = Validator(username: Option<string>, voteBalance: int, resigned: bool)

  datatype MultiSignatureAsset = MultiSignatureAsset(publicKeys: nat, min: int, legacy: bool)

  datatype Wallet = Wallet(balance: int, nonce: int, vote: Option<Address>,
                           validator: Option<Validator>, multiSignature: Option<MultiSignatureAsset>)

  const EMPTY_WALLET := Wallet(0, 0, None, None, None)

  /** Looking an address up creates its wallet, so a wallet that holds nothing
      and no wallet at all are the same thing; a ledger stores only the others. */
  type Ledger = m: map<Address, Wallet> | forall a | a in m :: m[a] != EMPTY_WALLET witness map[]

  function At(l: Ledger, a: Address): Wallet {
    if a in l then l[a] else EMPTY_WALLET
  }

  function Put(l: Ledger, a: Address, w: Wallet): (r: Ledger)
    ensures At(r, a) == w
    ensures forall b | b != a :: At(r, b) == At(l, b)
  {
    if w == EMPTY_WALLET then l - {a} else l[a := w]
  }

  lemma Extensionality(l: Ledger, m: Ledger)
    requires forall a :: At(l, a) == At(m, a)
    ensures l == m
  {
    forall a
      ensures a in l <==> a in m
      ensures a in l ==> l[a] == m[a]
    {
      assert At(l, a) == At(m, a);
    }
  }

  lemma PutBack(l: Ledger, a: Address, w: Wallet)
    requires w == At(l, a)
    ensures Put(l, a, w) == l
  {
    Extensionality(Put(l, a, w), l);
  }

  // ----- sums over all wallets -----

  ghost function Sum(l: Ledger, weight: Wallet -> int): int
    decreases |l|
  {
    if l == map[] then 0 else
      var a :| a in l;
      weight(l[a]) + Sum(l - {a}, weight)
  }

  lemma {:induction false} SumWithout(l: Ledger, weight: Wallet -> int, a: Address)
    requires a in l
    ensures Sum(l, weight) == weight(l[a]) + Sum(l - {a}, weight)
    decreases |l|
  {
    var b :| b in l && Sum(l, weight) == weight(l[b]) + Sum(l - {b}, weight);
    if a != b {
      SumWithout(l - {b}, weight, a);
      SumWithout(l - {a}, weight, b);
      assert l - {a} - {b} == l - {b} - {a};
    }
  }

  /** Changing one wallet changes a sum by that wallet's change of weight. */
  lemma SumPut(l: Ledger, weight: Wallet -> int, a: Address, w: Wallet)
    requires weight(EMPTY_WALLET) == 0
    ensures Sum(Put(l, a, w), weight) == Sum(l, weight) - weight(At(l, a)) + weight(w)
  {
    var rest: Ledger := l - {a};
    var r := Put(l, a, w);
    assert Sum(l, weight) == weight(At(l, a)) + Sum(rest, weight) by {
      if a in l { SumWithout(l, weight, a); } else { assert rest == l; }
    }
    assert Sum(r, weight) == weight(w) + Sum(rest, weight) by {
      if a in r { SumWithout(r, weight, a); assert r - {a} == rest; } else { assert r == rest; }
    }
  }

  function BalanceOf(): Wallet -> int {
    (w: Wallet) => w.balance
  }

  function BalanceFor(v: Address): Wallet -> int {
    (w: Wallet) => if w.vote == Some(v) then w.balance else 0
  }

  /** The supply: what all wallets hold together. */
  ghost function Supply(l: Ledger): int {
    Sum(l, BalanceOf())
  }

  /** What the voters of `v` hold together: the vote balance counted from zero. */
  ghost function Backing(l: Ledger, v: Address): int {
    Sum(l, BalanceFor(v))
  }

  function VoteBalance(w: Wallet): int {
    if w.validator.Some? then w.validator.value.voteBalance else 0
  }

  /** By how much the stored vote balance of `v` exceeds the counted one. */
  ghost function Gap(l: Ledger, v: Address): int {
    VoteBalance(At(l, v)) - Backing(l, v)
  }

  lemma SupplyPut(l: Ledger, a: Address, w: Wallet)
    ensures Supply(Put(l, a, w)) == Supply(l) - At(l, a).balance + w.balance
  {
    SumPut(l, BalanceOf(), a, w);
  }

  lemma GapPut(l: Ledger, a: Address, w: Wallet, v: Address)
    ensures Gap(Put(l, a, w), v) == Gap(l, v)
                                    + (if a == v then VoteBalance(w) - VoteBalance(At(l, a)) else 0)
                                    - BalanceFor(v)(w) + BalanceFor(v)(At(l, a))
  {
    SumPut(l, BalanceFor(v), a, w);
  }

  // ----- the ledger invariant -----

  /** Every stored vote balance is the counted one. */
  ghost predicate Indexed(l: Ledger) {
    forall v :: Gap(l, v) == 0
  }

  predicate NamesValidator(l: Ledger, a: Address) {
    At(l, a).vote.Some? ==> At(l, At(l, a).vote.value).validator.Some?
  }

  /** Votes name registered validators only. */
  ghost predicate VotesRegistered(l: Ledger) {
    forall a :: NamesValidator(l, a)
  }

  ghost predicate Consistent(l: Ledger) {
    Indexed(l) && VotesRegistered(l)
  }
}
