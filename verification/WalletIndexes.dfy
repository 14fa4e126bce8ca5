/** The two-way index between keys and wallets. */
module WalletIndexes {
  import opened Options

  type Key = string
  type Wallet = nat // the identity of a wallet object

  /** The two maps of an index. */
  datatype Maps = Maps(walletByKey: map<Key, Wallet>, keysByWallet: map<Wallet, set<Key>>)

  /** Every key's wallet has the key, and every key of a wallet leads to it. */
  ghost predicate Inverse(m: Maps) {
    && (forall k | k in m.walletByKey :: m.walletByKey[k] in m.keysByWallet && k in m.keysByWallet[m.walletByKey[k]])
    && (forall w, k | w in m.keysByWallet && k in m.keysByWallet[w] :: k in m.walletByKey && m.walletByKey[k] == w)
  }

  // ----- the operations -----

  function WithoutKey(m: Maps, key: Key): map<Wallet, set<Key>>
    requires Inverse(m)
  {
    if key in m.walletByKey
    then m.keysByWallet[m.walletByKey[key] := m.keysByWallet[m.walletByKey[key]] - {key}]
    else m.keysByWallet
  }

  function AfterSet(m: Maps, key: Key, wallet: Wallet): Maps
    requires Inverse(m)
  {
    var keys := WithoutKey(m, key);
    Maps(m.walletByKey[key := wallet], keys[wallet := if wallet in keys then keys[wallet] + {key} else {key}])
  }

  function AfterForget(m: Maps, key: Key): Maps
    requires Inverse(m)
  {
    Maps(m.walletByKey - {key}, WithoutKey(m, key))
  }

  function AfterForgetWallet(m: Maps, wallet: Wallet): Maps {
    if wallet in m.keysByWallet then Maps(m.walletByKey - m.keysByWallet[wallet], m.keysByWallet - {wallet}) else m
  }

  lemma SetInverse(m: Maps, key: Key, wallet: Wallet)
    requires Inverse(m)
    ensures Inverse(AfterSet(m, key, wallet))
  {
  }

  lemma ForgetInverse(m: Maps, key: Key)
    requires Inverse(m)
    ensures Inverse(AfterForget(m, key))
  {
  }

  lemma ForgetWalletInverse(m: Maps, wallet: Wallet)
    requires Inverse(m)
    ensures Inverse(AfterForgetWallet(m, wallet))
  {
  }

  // ----- runs -----

  datatype Operation = DoSet(key: Key, wallet: Wallet) | DoForget(key: Key) | DoForgetWallet(wallet: Wallet) | DoClear

  ghost function Perform(m: Maps, o: Operation): (r: Maps)
    requires Inverse(m)
    ensures Inverse(r)
  {
    match o
    case DoSet(key, wallet) => SetInverse(m, key, wallet); AfterSet(m, key, wallet)
    case DoForget(key) => ForgetInverse(m, key); AfterForget(m, key)
    case DoForgetWallet(wallet) => ForgetWalletInverse(m, wallet); AfterForgetWallet(m, wallet)
    case DoClear => Maps(map[], map[])
  }

  ghost function PerformAll(m: Maps, os: seq<Operation>): (r: Maps)
    requires Inverse(m)
    ensures Inverse(r)
  {
    if os == [] then m else Perform(PerformAll(m, os[..|os| - 1]), os[|os| - 1])
  }

  /** The last operation in a run that says something about a key. */
  function Latest(os: seq<Operation>, key: Key): Option<Wallet> {
    if os == [] then None else
      var before := Latest(os[..|os| - 1], key);
      match os[|os| - 1]
      case DoSet(k, wallet) => if k == key then Some(wallet) else before
      case DoForget(k) => if k == key then None else before
      case DoForgetWallet(wallet) => if before == Some(wallet) then None else before
      case DoClear => None
  }

  ghost predicate Agrees(m: Maps, key: Key, w: Option<Wallet>) {
    && (key in m.walletByKey <==> w.Some?)
    && (w.Some? ==> m.walletByKey[key] == w.value)
    && forall v | v in m.keysByWallet :: key in m.keysByWallet[v] <==> w == Some(v)
  }

  /** After any run, a key leads to the wallet it was last set to and not taken from, and it is among that wallet's keys
      and among no other's. */
  lemma {:induction false} RunsAgree(os: seq<Operation>, key: Key)
    ensures Agrees(PerformAll(Maps(map[], map[]), os), key, Latest(os, key))
    decreases |os|
  {
    if os != [] {
      RunsAgree(os[..|os| - 1], key);
      PerformAgrees(PerformAll(Maps(map[], map[]), os[..|os| - 1]), os, key);
    }
  }

  lemma PerformAgrees(m: Maps, os: seq<Operation>, key: Key)
    requires os != [] && Inverse(m) && Agrees(m, key, Latest(os[..|os| - 1], key))
    ensures Agrees(Perform(m, os[|os| - 1]), key, Latest(os, key))
  {
  }

  // ----- the object -----

  class WalletIndex {
    var walletByKey: map<Key, Wallet>
    var keysByWallet: map<Wallet, set<Key>>

    function Value(): Maps
      reads this
    {
      Maps(walletByKey, keysByWallet)
    }

    ghost predicate Valid()
      reads this
    {
      Inverse(Value())
    }

    constructor ()
      ensures Valid() && Value() == Maps(map[], map[])
    {
      walletByKey, keysByWallet := map[], map[];
    }

    /** Exactly the keys that lead to the wallet. */
    method WalletKeys(wallet: Wallet) returns (keys: set<Key>)
      requires Valid()
      ensures forall k :: k in keys <==> k in walletByKey && walletByKey[k] == wallet
    {
      keys := if wallet in keysByWallet then keysByWallet[wallet] else {};
    }

    method Set(key: Key, wallet: Wallet)
      requires Valid()
      modifies this
      ensures Valid() && Value() == AfterSet(old(Value()), key, wallet)
    {
      SetInverse(Value(), key, wallet);
      if key in walletByKey {
        var existingWallet := walletByKey[key];
        keysByWallet := keysByWallet[existingWallet := keysByWallet[existingWallet] - {key}];
      }
      walletByKey := walletByKey[key := wallet];
      if wallet in keysByWallet {
        keysByWallet := keysByWallet[wallet := keysByWallet[wallet] + {key}];
      } else {
        keysByWallet := keysByWallet[wallet := {key}];
      }
    }

    method Forget(key: Key)
      requires Valid()
      modifies this
      ensures Valid() && Value() == AfterForget(old(Value()), key)
    {
      ForgetInverse(Value(), key);
      if key in walletByKey {
        var wallet := walletByKey[key];
        keysByWallet := keysByWallet[wallet := keysByWallet[wallet] - {key}];
        walletByKey := walletByKey - {key};
      } else {
        assert walletByKey - {key} == walletByKey;
      }
    }

    method ForgetWallet(wallet: Wallet)
      requires Valid()
      modifies this
      ensures Valid() && Value() == AfterForgetWallet(old(Value()), wallet)
    {
      ForgetWalletInverse(Value(), wallet);
      if wallet in keysByWallet {
        var keys := keysByWallet[wallet];
        var left := keys;
        while left != {}
          invariant left <= keys && keysByWallet == old(keysByWallet)
          invariant walletByKey == old(walletByKey) - (keys - left)
        {
          var key :| key in left;
          walletByKey := walletByKey - {key};
          left := left - {key};
        }
        assert keys - {} == keys;
        keysByWallet := keysByWallet - {wallet};
      }
    }

    method Clear()
      modifies this
      ensures Valid() && Value() == Maps(map[], map[])
    {
      walletByKey, keysByWallet := map[], map[];
    }
  }
}
