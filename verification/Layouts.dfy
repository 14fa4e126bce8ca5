/** The byte formats written out: every byte of a transaction and of a block, at its place. */
module Layouts {
  import opened Options
  import Arithmetic
  import opened ByteBuffers
  import T = TransactionCodec
  import C = BlockCodec
  import B = BlockBytes

  // ----- numbers -----

  function Low(n: int): byte {
    (n % 0x100) as byte
  }

  /** The bytes of a number, the lowest first. */
  function U8(n: int): Bytes {
    [Low(n)]
  }

  function U16(n: int): Bytes {
    [Low(n), Low(n / 0x100)]
  }

  function U32(n: int): Bytes {
    [Low(n), Low(n / 0x100), Low(n / 0x1_0000), Low(n / 0x100_0000)]
  }

  function U64(n: int): Bytes {
    [Low(n), Low(n / 0x100), Low(n / 0x1_0000), Low(n / 0x100_0000), Low(n / 0x1_0000_0000),
     Low(n / 0x100_0000_0000), Low(n / 0x1_0000_0000_0000), Low(n / 0x100_0000_0000_0000)]
  }

  lemma Powers()
    ensures Power256(1) == 0x100 && Power256(2) == 0x1_0000 && Power256(4) == 0x1_0000_0000
    ensures Power256(8) == 0x1_0000_0000_0000_0000
  {
    assert Power256(3) == 0x100_0000;
    assert Power256(5) == 0x100_0000_0000 && Power256(6) == 0x1_0000_0000_0000 && Power256(7) == 0x100_0000_0000_0000;
  }

  lemma FirstByte(v: nat, n: nat)
    requires n > 0
    ensures LittleEndian(v, n) == [Low(v)] + LittleEndian(v / 0x100, n - 1)
  {
  }

  /** Two bytes more in front. */
  lemma FirstBytes(v: nat, n: nat)
    requires n > 1
    ensures LittleEndian(v, n) == [Low(v), Low(v / 0x100)] + LittleEndian(v / 0x1_0000, n - 2)
  {
    hide LittleEndian, Low;
    FirstByte(v, n);
    FirstByte(v / 0x100, n - 1);
    assert v / 0x100 / 0x100 == v / 0x1_0000;
  }

  lemma Bytes8(v: nat)
    ensures LittleEndian(v, 1) == U8(v)
  {
    FirstByte(v, 1);
  }

  lemma Bytes16(v: nat)
    ensures LittleEndian(v, 2) == U16(v)
  {
    FirstBytes(v, 2);
  }

  lemma Bytes32(v: nat)
    ensures LittleEndian(v, 4) == U32(v)
  {
    hide LittleEndian, Low;
    FirstBytes(v, 4);
    Bytes16(v / 0x1_0000);
    assert v / 0x1_0000 / 0x100 == v / 0x100_0000;
  }

  lemma Bytes64(v: nat)
    ensures LittleEndian(v, 8) == U64(v)
  {
    hide LittleEndian, Low;
    FirstBytes(v, 8);
    FirstBytes(v / 0x1_0000, 6);
    assert v / 0x1_0000 / 0x100 == v / 0x100_0000 && v / 0x1_0000 / 0x1_0000 == v / 0x1_0000_0000;
    Bytes32(v / 0x1_0000_0000);
    HighQuotients(v);
  }

  lemma HighQuotients(v: nat)
    ensures v / 0x1_0000_0000 / 0x100 == v / 0x100_0000_0000
    ensures v / 0x1_0000_0000 / 0x1_0000 == v / 0x1_0000_0000_0000
    ensures v / 0x1_0000_0000 / 0x100_0000 == v / 0x100_0000_0000_0000
  {
  }

  /** What the bytes say, read back. */
  lemma ReadNumber(bs: Bytes)
    ensures |bs| == 2 ==> FromLittleEndian(bs) == bs[0] as int + 0x100 * bs[1] as int
    ensures |bs| == 4 ==>
              FromLittleEndian(bs)
              == bs[0] as int + 0x100 * bs[1] as int + 0x1_0000 * bs[2] as int + 0x100_0000 * bs[3] as int
  {
    if |bs| == 2 {
      ReadTwo(bs);
    } else if |bs| == 4 {
      ReadTwo(bs);
      ReadTwo(bs[2..]);
      assert bs[2..][2..] == [] && bs[2..][0] == bs[2] && bs[2..][1] == bs[3];
    }
  }

  lemma ReadTwo(bs: Bytes)
    requires |bs| >= 2
    ensures FromLittleEndian(bs) == bs[0] as int + 0x100 * bs[1] as int + 0x1_0000 * FromLittleEndian(bs[2..])
  {
    assert bs[1..][1..] == bs[2..];
  }

  // ----- transactions -----

  function Flat(bss: seq<Bytes>): Bytes {
    if bss == [] then [] else bss[0] + Flat(bss[1..])
  }

  function PaymentBytes(p: T.Payment): Bytes {
    U64(p.amount) + p.recipient
  }

  function BodyBytes(body: T.Body): Bytes {
    match body
    case Transfer(amount, expiration, recipient) => U64(amount) + U32(expiration) + recipient
    case ValidatorRegistration(username) => U8(|username|) + username
    case Vote(votes, unvotes) => U8(|votes|) + Flat(votes) + U8(|unvotes|) + Flat(unvotes)
    case MultiSignatureRegistration(min, keys) => U8(min) + U8(|keys|) + Flat(keys)
    case MultiPayment(payments) =>
      U16(|payments|) + Flat(seq(|payments|, i requires 0 <= i < |payments| => PaymentBytes(payments[i])))
    case ValidatorResignation => []
  }

  /** The type of a transaction. */
  function Kind(body: T.Body): byte {
    match body
    case Transfer(_, _, _) => 0
    case ValidatorRegistration(_) => 2
    case Vote(_, _) => 3
    case MultiSignatureRegistration(_, _) => 4
    case MultiPayment(_) => 6
    case ValidatorResignation => 7
  }

  /** The format of a transaction, for the network's own byte: the marker, version and network, type group 1, the type,
      the nonce if there is one, key and fee; the vendor field behind its length; the body; and the signatures. */
  function Layout(tx: T.Data, network: nat): Bytes {
    [0xff] + U8(if tx.version == 0 then 1 else tx.version) + U8(if tx.network == 0 then network else tx.network)
    + [1, 0, 0, 0] + [Kind(tx.body), 0]
    + (if tx.nonce.Some? then U64(tx.nonce.value) else [])
    + tx.sender + U64(tx.fee)
    + (if tx.body.Transfer? then U8(|tx.vendorField|) + tx.vendorField else [0])
    + BodyBytes(tx.body) + tx.signature + Flat(tx.signatures)
  }

  /** Every number has the range of its place. */
  predicate Ranged(tx: T.Data, network: nat) {
    && HeadRange(tx, network)
    && (tx.nonce.Some? ==> 0 <= tx.nonce.value < 0x1_0000_0000_0000_0000) && 0 <= tx.fee < 0x1_0000_0000_0000_0000
    && (tx.body.Transfer? ==> |tx.vendorField| < 0x100)
    && BodyRange(tx.body)
  }

  predicate HeadRange(tx: T.Data, network: nat) {
    0 <= tx.version < 0x100 && 0 <= (if tx.network == 0 then network else tx.network) < 0x100
  }

  predicate BodyRange(body: T.Body) {
    match body
    case Transfer(amount, expiration, _) => 0 <= amount < 0x1_0000_0000_0000_0000 && 0 <= expiration < 0x1_0000_0000
    case ValidatorRegistration(username) => |username| < 0x100
    case Vote(votes, unvotes) => |votes| < 0x100 && |unvotes| < 0x100
    case MultiSignatureRegistration(min, keys) => 0 <= min < 0x100 && |keys| < 0x100
    case MultiPayment(payments) =>
      |payments| < 0x1_0000 && forall p | p in payments :: 0 <= p.amount < 0x1_0000_0000_0000_0000
    case ValidatorResignation => true
  }

  lemma {:induction false} JoinedIsFlat(bss: seq<Bytes>)
    ensures T.Joined(bss) == Flat(bss)
  {
    if bss != [] { JoinedIsFlat(bss[1..]); }
  }

  lemma {:induction false} KeysAreFlat(keys: seq<Bytes>)
    ensures BytesOf(T.KeyFields(keys)) == Flat(keys)
  {
    if keys != [] {
      KeysAreFlat(keys[1..]);
      BytesOfAppend([Raw(keys[0])], T.KeyFields(keys[1..]));
      BytesOfOne(Raw(keys[0]));
    }
  }

  lemma {:induction false} PaymentsAreFlat(ps: seq<T.Payment>)
    requires forall p | p in ps :: 0 <= p.amount
    ensures BytesOf(T.PaymentFields(ps)) == Flat(seq(|ps|, i requires 0 <= i < |ps| => PaymentBytes(ps[i])))
  {
    var all := seq(|ps|, i requires 0 <= i < |ps| => PaymentBytes(ps[i]));
    if ps != [] {
      PaymentsAreFlat(ps[1..]);
      var first := [Number(ps[0].amount, 8), Raw(ps[0].recipient)];
      BytesOfAppend(first, T.PaymentFields(ps[1..]));
      Bytes64(ps[0].amount);
      TwoFields(first[0], first[1]);
      assert all[1..] == seq(|ps[1..]|, i requires 0 <= i < |ps[1..]| => PaymentBytes(ps[1..][i]));
    }
  }

  lemma TwoFields(f: Field, g: Field)
    ensures BytesOf([f, g]) == FieldBytes(f) + FieldBytes(g)
  {
    BytesOfAppend([f], [g]);
    BytesOfOne(f);
    BytesOfOne(g);
    assert [f, g] == [f] + [g];
  }

  lemma ThreeFields(f: Field, g: Field, h: Field)
    ensures BytesOf([f, g, h]) == FieldBytes(f) + FieldBytes(g) + FieldBytes(h)
  {
    BytesOfAppend([f, g], [h]);
    TwoFields(f, g);
    BytesOfOne(h);
    assert [f, g, h] == [f, g] + [h];
  }

  /** All numbers of the fields are in range exactly if the transaction's are. */
  lemma RangedIffInRange(tx: T.Data, z: T.Sizes)
    ensures AllInRange(T.AllFields(tx, z)) && AllInRange(T.BodyFields(tx.body)) <==> Ranged(tx, z.network)
  {
    hide InRange, T.HeadFields, T.VendorFields, T.BodyFields, BytesOf, T.Joined;
    HeadRanged(tx, z);
    CommonRanged(tx, z);
    VendorRanged(tx);
    BodyRanged(tx.body);
    InRangeOfRaw(BytesOf(T.BodyFields(tx.body)));
    SignaturesRanged(tx);
    var common, vendor, raw, last :=
      T.CommonFields(tx, z), T.VendorFields(tx), [Raw(BytesOf(T.BodyFields(tx.body)))], T.SignatureFields(tx);
    assert T.AllFields(tx, z) == common + vendor + raw + last;
    AllOfFour(common, vendor, raw, last);
    hide T.CommonFields, T.SignatureFields;
  }

  lemma AllOfFour(a: seq<Field>, b: seq<Field>, c: seq<Field>, d: seq<Field>)
    ensures AllInRange(a + b + c + d) <==> AllInRange(a) && AllInRange(b) && AllInRange(c) && AllInRange(d)
  {
    hide InRange;
    assert forall f :: f in a + b + c + d <==> f in a || f in b || f in c || f in d;
  }

  lemma InRangeOfRaw(bytes: Bytes)
    ensures AllInRange([Raw(bytes)])
  {
  }

  lemma SignaturesRanged(tx: T.Data)
    ensures AllInRange(T.SignatureFields(tx))
  {
  }

  lemma HeadRanged(tx: T.Data, z: T.Sizes)
    ensures AllInRange(T.HeadFields(tx, z)) <==> HeadRange(tx, z.network)
  {
    Powers();
    var fs := T.HeadFields(tx, z);
    assert AllInRange(fs) <==> InRange(fs[0]) && InRange(fs[1]) && InRange(fs[2]) && InRange(fs[3]) && InRange(fs[4]);
  }

  lemma CommonRanged(tx: T.Data, z: T.Sizes)
    ensures AllInRange(T.CommonFields(tx, z)) <==>
              && AllInRange(T.HeadFields(tx, z))
              && (tx.nonce.Some? ==> 0 <= tx.nonce.value < 0x1_0000_0000_0000_0000)
              && 0 <= tx.fee < 0x1_0000_0000_0000_0000
  {
    hide T.HeadFields;
    Powers();
    var nonce := if tx.nonce.Some? then [Number(tx.nonce.value, 8)] else [];
    var rest := [Raw(tx.sender), Number(tx.fee, 8)];
    AllOfFour(T.HeadFields(tx, z), nonce, rest, []);
    assert T.CommonFields(tx, z) == T.HeadFields(tx, z) + nonce + rest + [];
    assert AllInRange(rest) <==> InRange(rest[1]);
    assert tx.nonce.Some? ==> (AllInRange(nonce) <==> InRange(nonce[0]));
  }

  lemma VendorRanged(tx: T.Data)
    ensures AllInRange(T.VendorFields(tx)) <==> (tx.body.Transfer? ==> |tx.vendorField| < 0x100)
  {
    Powers();
    assert T.VendorFields(tx)[0] in T.VendorFields(tx);
  }

  lemma BodyRanged(body: T.Body)
    ensures AllInRange(T.BodyFields(body)) <==> BodyRange(body)
  {
    Powers();
    var fs := T.BodyFields(body);
    match body
    case Transfer(amount, expiration, recipient) =>
      assert AllInRange(fs) <==> InRange(fs[0]) && InRange(fs[1]) && InRange(fs[2]);
    case ValidatorRegistration(username) => assert fs[0] in fs;
    case Vote(votes, unvotes) => assert fs[0] in fs && fs[2] in fs;
    case MultiSignatureRegistration(min, keys) => KeysRanged(keys); assert fs[0] in fs && fs[1] in fs;
    case MultiPayment(payments) =>
      PaymentsRanged(payments);
      assert AllInRange([fs[0]]) <==> InRange(fs[0]) by { assert fs[0] in [fs[0]]; }
      AllOfFour([fs[0]], T.PaymentFields(payments), [], []);
      assert fs == [fs[0]] + T.PaymentFields(payments) + [] + [];
    case ValidatorResignation =>
  }

  lemma {:induction false} KeysRanged(keys: seq<Bytes>)
    ensures AllInRange(T.KeyFields(keys))
  {
    if keys != [] { KeysRanged(keys[1..]); }
  }

  lemma {:induction false} PaymentsRanged(ps: seq<T.Payment>)
    ensures AllInRange(T.PaymentFields(ps)) <==> forall p | p in ps :: 0 <= p.amount < 0x1_0000_0000_0000_0000
  {
    Powers();
    if ps != [] {
      PaymentsRanged(ps[1..]);
      var first := [Number(ps[0].amount, 8), Raw(ps[0].recipient)];
      assert ps == [ps[0]] + ps[1..];
      assert AllInRange(first) <==> InRange(first[0]) && InRange(first[1]);
      AllOfFour(first, T.PaymentFields(ps[1..]), [], []);
      assert first + T.PaymentFields(ps[1..]) + [] + [] == T.PaymentFields(ps);
    }
  }

  // ----- the bytes of the parts -----

  lemma HeadIs(tx: T.Data, z: T.Sizes)
    requires AllInRange(T.HeadFields(tx, z))
    ensures BytesOf(T.HeadFields(tx, z)) ==
              [0xff] + U8(if tx.version == 0 then 1 else tx.version)
              + U8(if tx.network == 0 then z.network else tx.network)
              + [1, 0, 0, 0] + [Kind(tx.body), 0]
  {
    hide BytesOf, U8, U16, U32, FieldBytes, LittleEndian, T.TypeOf;
    var fs := T.HeadFields(tx, z);
    HeadRanged(tx, z);
    Bytes8(0xff);
    Bytes8(fs[1].value);
    Bytes8(fs[2].value);
    Bytes32(T.CORE);
    Bytes16(T.TypeOf(tx.body));
    FiveNumbers(fs);
    HeadNumbers(tx.body);
  }

  /** The bytes of a head whose numbers are not negative, number by number. */
  lemma FiveNumbers(fs: seq<Field>)
    requires |fs| == 5 && forall i | 0 <= i < 5 :: fs[i].Number? && fs[i].value >= 0
    ensures BytesOf(fs) ==
              LittleEndian(fs[0].value, fs[0].width) + LittleEndian(fs[1].value, fs[1].width)
              + LittleEndian(fs[2].value, fs[2].width) + LittleEndian(fs[3].value, fs[3].width)
              + LittleEndian(fs[4].value, fs[4].width)
  {
    hide BytesOf, LittleEndian;
    ThreeFields(fs[0], fs[1], fs[2]);
    TwoFields(fs[3], fs[4]);
    BytesOfAppend([fs[0], fs[1], fs[2]], [fs[3], fs[4]]);
    assert fs == [fs[0], fs[1], fs[2]] + [fs[3], fs[4]];
  }

  lemma HeadNumbers(body: T.Body)
    ensures U8(0xff) == [0xff] && U32(T.CORE) == [1, 0, 0, 0] && U16(T.TypeOf(body)) == [Kind(body), 0]
  {
  }

  lemma CommonIs(tx: T.Data, z: T.Sizes)
    requires AllInRange(T.CommonFields(tx, z))
    ensures BytesOf(T.CommonFields(tx, z)) ==
              BytesOf(T.HeadFields(tx, z)) + (if tx.nonce.Some? then U64(tx.nonce.value) else [])
              + tx.sender + U64(tx.fee)
  {
    hide BytesOf, T.HeadFields, InRange, U64, AllInRange;
    var nonce := if tx.nonce.Some? then [Number(tx.nonce.value, 8)] else [];
    var rest := [Raw(tx.sender), Number(tx.fee, 8)];
    CommonRanged(tx, z);
    BytesOfAppend(T.HeadFields(tx, z) + nonce, rest);
    BytesOfAppend(T.HeadFields(tx, z), nonce);
    TwoFields(rest[0], rest[1]);
    Bytes64(tx.fee);
    if tx.nonce.Some? {
      BytesOfOne(nonce[0]);
      Bytes64(tx.nonce.value);
    } else {
      NoFields();
    }
  }

  lemma NoFields()
    ensures BytesOf([]) == []
  {
  }

  lemma VendorIs(tx: T.Data)
    requires AllInRange(T.VendorFields(tx))
    ensures BytesOf(T.VendorFields(tx)) == if tx.body.Transfer? then U8(|tx.vendorField|) + tx.vendorField else [0]
  {
    Bytes8(|tx.vendorField|);
    Bytes8(0);
    hide BytesOf;
    if tx.body.Transfer? && tx.vendorField != [] {
      TwoFields(T.VendorFields(tx)[0], T.VendorFields(tx)[1]);
    } else {
      BytesOfOne(Number(0, 1));
    }
  }

  lemma BodyIs(body: T.Body)
    requires AllInRange(T.BodyFields(body))
    ensures BytesOf(T.BodyFields(body)) == BodyBytes(body)
  {
    hide BytesOf, Low, LittleEndian, InRange, AllInRange, Flat;
    BodyRanged(body);
    var fs := T.BodyFields(body);
    match body
    case Transfer(amount, expiration, recipient) =>
      ThreeFields(fs[0], fs[1], fs[2]);
      Bytes64(amount);
      Bytes32(expiration);
    case ValidatorRegistration(username) =>
      TwoFields(fs[0], fs[1]);
      Bytes8(|username|);
    case Vote(votes, unvotes) =>
      TwoFields(fs[0], fs[1]);
      TwoFields(fs[2], fs[3]);
      BytesOfAppend([fs[0], fs[1]], [fs[2], fs[3]]);
      assert fs == [fs[0], fs[1]] + [fs[2], fs[3]];
      Bytes8(|votes|);
      Bytes8(|unvotes|);
      JoinedIsFlat(votes);
      JoinedIsFlat(unvotes);
    case MultiSignatureRegistration(min, keys) =>
      BytesOfAppend([fs[0], fs[1]], T.KeyFields(keys));
      TwoFields(fs[0], fs[1]);
      Bytes8(min);
      Bytes8(|keys|);
      KeysAreFlat(keys);
    case MultiPayment(payments) =>
      BytesOfAppend([fs[0]], T.PaymentFields(payments));
      BytesOfOne(fs[0]);
      Bytes16(|payments|);
      PaymentsAreFlat(payments);
    case ValidatorResignation => NoFields();
  }

  lemma SignaturesAre(tx: T.Data)
    ensures BytesOf(T.SignatureFields(tx)) == tx.signature + Flat(tx.signatures)
  {
    hide BytesOf, Flat, T.Joined;
    var first := if tx.signature != [] then [Raw(tx.signature)] else [];
    var second := if tx.signatures != [] then [Raw(T.Joined(tx.signatures))] else [];
    JoinedIsFlat(tx.signatures);
    BytesOfAppend(first, second);
    NoFields();
    assert Flat([]) == [] by { NothingFlat(); }
    if tx.signature != [] { BytesOfOne(first[0]); }
    if tx.signatures != [] { BytesOfOne(second[0]); }
  }

  lemma NothingFlat()
    ensures Flat([]) == []
  {
  }

  /** The buffer that the body is written into is large enough. */
  predicate Room(body: T.Body, z: T.Sizes) {
    match body
    case Transfer(_, _, recipient) => 12 + |recipient| <= 64
    case Vote(votes, unvotes) => |Flat(votes)| + |Flat(unvotes)| <= z.publicKey * |votes| + z.publicKey * |unvotes|
    case MultiSignatureRegistration(_, keys) => |Flat(keys)| <= |keys| * z.publicKey
    case MultiPayment(payments) =>
      |BodyBytes(body)| <= 2 + |payments| * z.address + |payments| * 8
    case _ => true
  }

  /** Keys and addresses of their lengths fit, and so does a transfer whose recipient has at most 52 bytes. */
  lemma SizedHasRoom(tx: T.Data, z: T.Sizes)
    requires T.Sized(tx, z)
    ensures Room(tx.body, z) <==> (tx.body.Transfer? ==> z.address <= 52)
  {
    hide Flat, BodyBytes;
    match tx.body
    case Vote(votes, unvotes) =>
      FlatLength(votes, z.publicKey);
      FlatLength(unvotes, z.publicKey);
    case MultiSignatureRegistration(_, keys) =>
      FlatLength(keys, z.publicKey);
      Commutes(z.publicKey, |keys|);
    case MultiPayment(payments) => PaymentsLength(payments, z.address);
    case _ =>
  }

  lemma Commutes(a: int, b: int)
    ensures a * b == b * a
  {
  }

  lemma PaymentsLength(payments: seq<T.Payment>, address: nat)
    requires forall p | p in payments :: |p.recipient| == address
    ensures |BodyBytes(T.MultiPayment(payments))| == 2 + |payments| * address + |payments| * 8
  {
    hide Flat;
    var all := seq(|payments|, i requires 0 <= i < |payments| => PaymentBytes(payments[i]));
    forall bs | bs in all ensures |bs| == 8 + address {
      var i :| 0 <= i < |all| && all[i] == bs;
      assert payments[i] in payments;
    }
    FlatLength(all, 8 + address);
    Commutes(8 + address, |payments|);
    Arithmetic.MulDistributes(|payments|, address, 8);
  }

  lemma BodyFits(body: T.Body, z: T.Sizes)
    ensures |BodyBytes(body)| <= T.BodyCapacity(body, z) <==> Room(body, z)
  {
    hide Low, Flat;
  }

  lemma {:induction false} FlatLength(bss: seq<Bytes>, length: nat)
    requires forall bs | bs in bss :: |bs| == length
    ensures |Flat(bss)| == length * |bss|
  {
    if bss != [] {
      assert bss[0] in bss;
      FlatLength(bss[1..], length);
      Arithmetic.MulDistributes(length, |bss| - 1, 1);
    }
  }

  /** A transaction is written exactly if its numbers have the ranges of their places and the buffers are large
      enough, and then as its layout says. */
  lemma WrittenAsLaidOut(tx: T.Data, z: T.Sizes)
    ensures T.Serialized(tx, z).Some? <==>
              Ranged(tx, z.network) && Room(tx.body, z) && |Layout(tx, z.network)| <= z.maxPayload
    ensures T.Serialized(tx, z).Some? ==> T.Serialized(tx, z).value == Layout(tx, z.network)
  {
    hide BytesOf, AllInRange, T.CommonFields, T.VendorFields, T.BodyFields, T.SignatureFields, T.BodyCapacity, Room,
      BodyBytes, Layout, Flat, Ranged;
    RangedIffInRange(tx, z);
    if Ranged(tx, z.network) {
      AllFieldsAre(tx, z);
      BodyFits(tx.body, z);
    }
  }

  lemma AllFieldsAre(tx: T.Data, z: T.Sizes)
    requires AllInRange(T.AllFields(tx, z)) && AllInRange(T.BodyFields(tx.body))
    ensures BytesOf(T.AllFields(tx, z)) == Layout(tx, z.network)
    ensures BytesOf(T.BodyFields(tx.body)) == BodyBytes(tx.body)
  {
    hide BytesOf, InRange, T.CommonFields, T.VendorFields, T.BodyFields, T.SignatureFields, T.HeadFields, U8, U64, Flat,
      BodyBytes;
    var common, vendor, raw, last :=
      T.CommonFields(tx, z), T.VendorFields(tx), [Raw(BytesOf(T.BodyFields(tx.body)))], T.SignatureFields(tx);
    AllOfFour(common, vendor, raw, last);
    hide AllInRange;
    CommonRanged(tx, z);
    HeadIs(tx, z);
    CommonIs(tx, z);
    VendorIs(tx);
    BodyIs(tx.body);
    SignaturesAre(tx);
    BytesOfOne(raw[0]);
    BytesOfAppend(common + vendor + raw, last);
    BytesOfAppend(common + vendor, raw);
    BytesOfAppend(common, vendor);
  }

  // ----- reading -----

  /** What is read comes from these places: a marker that nobody looks at, version and network, type group 1, a known
      type, nonce, key and fee. Bytes with another type group or another type are not read. */
  lemma ReadFromLayout(bytes: Bytes, z: T.Sizes)
    requires T.Deserialized(bytes, z).Some?
    ensures |bytes| >= 25 + z.publicKey && bytes[3..7] == [1, 0, 0, 0] && bytes[8] == 0
    ensures var tx := T.Deserialized(bytes, z).value.0;
            && bytes[7] == Kind(tx.body)
            && tx.version == (if bytes[1] == 0 then 1 else bytes[1] as int) && tx.network == bytes[2] as int
            && tx.nonce == Some(FromLittleEndian(bytes[9..17])) && tx.sender == bytes[17..17 + z.publicKey]
            && tx.fee == FromLittleEndian(bytes[17 + z.publicKey..25 + z.publicKey])
  {
    hide T.ParsedVendorField, T.ParsedBody, T.ParsedSignature, FromLittleEndian;
    ReadHead(bytes, z);
    var (c, r) := T.ParsedCommon(z, Some(bytes));
    var (_, r1) := T.ParsedVendorField(c.kind, r);
    KindOfRead(z, c.kind, r1);
    ReadNumber(bytes[3..7]);
    ReadNumber(bytes[7..9]);
    assert |bytes[3..7]| == 4 && |bytes[7..9]| == 2;
    assert bytes[7..9][0] == bytes[7] && bytes[7..9][1] == bytes[8];
    var d := bytes[3..7];
    assert d == [d[0], d[1], d[2], d[3]];
  }

  lemma ReadHead(bytes: Bytes, z: T.Sizes)
    ensures var (c, r) := T.ParsedCommon(z, Some(bytes));
            r.Some? ==>
              && |bytes| >= 25 + z.publicKey
              && c == T.Common(bytes[1] as int, bytes[2] as int, FromLittleEndian(bytes[3..7]),
                               FromLittleEndian(bytes[7..9]), FromLittleEndian(bytes[9..17]),
                               bytes[17..17 + z.publicKey],
                               FromLittleEndian(bytes[17 + z.publicKey..25 + z.publicKey]))
  {
    hide FromLittleEndian;
    if |bytes| >= 25 + z.publicKey {
      OneByte(bytes[1..2]);
      OneByte(bytes[2..3]);
      var k := z.publicKey;
      assert bytes[1..][..1] == bytes[1..2] && bytes[1..][1..] == bytes[2..] && bytes[2..][..1] == bytes[2..3];
      assert bytes[2..][1..] == bytes[3..] && bytes[3..][..4] == bytes[3..7] && bytes[3..][4..] == bytes[7..];
      assert bytes[7..][..2] == bytes[7..9] && bytes[7..][2..] == bytes[9..];
      assert bytes[9..][..8] == bytes[9..17] && bytes[9..][8..] == bytes[17..];
      assert bytes[17..][..k] == bytes[17..17 + k] && bytes[17..][k..] == bytes[17 + k..];
      assert bytes[17 + k..][..8] == bytes[17 + k..25 + k];
    }
  }

  lemma OneByte(bs: Bytes)
    requires |bs| == 1
    ensures FromLittleEndian(bs) == bs[0] as int
  {
    assert bs[1..] == [];
  }

  lemma KindOfRead(z: T.Sizes, kind: int, r: Rest)
    requires kind == 0 || kind == 2 || kind == 3 || kind == 4 || kind == 6 || kind == 7
    ensures Kind(T.ParsedBody(z, kind, r).0) as int == kind
  {
    hide TakeBytes, TakeNumber;
  }

  /** And bytes that are laid out like this are read, whole: every field, with the defaults, provided there is a nonce
      and no list of signatures, and a signature has one of the lengths that are recognized. */
  lemma LaidOutIsRead(tx: T.Data, z: T.Sizes)
    requires T.Sized(tx, z) && Ranged(tx, z.network) && (tx.body.Transfer? ==> z.address <= 52)
    requires tx.nonce.Some? && tx.signatures == []
    requires tx.signature == [] || (z.signature != 0 && (z.signature % 64 == 0 || z.signature % 65 != 0))
    ensures var bytes := Layout(tx, z.network);
            T.Deserialized(bytes, z) == Some((T.Normal(tx, z), bytes))
  {
    hide T.Sized, Ranged, Layout, T.Serialized, T.Deserialized, T.Normal, Room;
    var large := z.(maxPayload := |Layout(tx, z.network)|);
    AnyPayload(Layout(tx, z.network), tx, z, |Layout(tx, z.network)|);
    SizedHasRoom(tx, large);
    WrittenAsLaidOut(tx, large);
    T.RoundTrip(tx, large);
  }

  /** How large a payload may be does not matter to a reader. */
  lemma AnyPayload(bytes: Bytes, tx: T.Data, z: T.Sizes, maxPayload: nat)
    ensures T.Deserialized(bytes, z) == T.Deserialized(bytes, z.(maxPayload := maxPayload))
    ensures T.Sized(tx, z) == T.Sized(tx, z.(maxPayload := maxPayload))
    ensures T.Normal(tx, z) == T.Normal(tx, z.(maxPayload := maxPayload))
  {
    hide TakeBytes, TakeNumber;
  }

  // ----- blocks -----

  predicate IsNumber(data: C.Properties, property: string, bits: nat) {
    property in data && data[property].Amount? && 0 <= data[property].amount
    && data[property].amount < if bits == 32 then 0x1_0000_0000 else 0x1_0000_0000_0000_0000
  }

  predicate IsHex(data: C.Properties, property: string) {
    property in data && data[property].Hex?
  }

  /** What a header has to have to be written. */
  predicate HasHeader(data: C.Properties) {
    && IsNumber(data, "version", 32) && IsNumber(data, "timestamp", 32) && IsNumber(data, "height", 32)
    && IsHex(data, "previousBlock") && IsNumber(data, "numberOfTransactions", 32)
    && IsNumber(data, "totalAmount", 64) && IsNumber(data, "totalFee", 64) && IsNumber(data, "reward", 64)
    && IsNumber(data, "payloadLength", 32) && IsHex(data, "payloadHash")
    && IsHex(data, "generatorPublicKey") && IsHex(data, "blockSignature")
  }

  /** The format of a header. */
  function HeaderLayout(data: C.Properties): Bytes
    requires HasHeader(data)
  {
    U32(data["version"].amount) + U32(data["timestamp"].amount) + U32(data["height"].amount)
    + data["previousBlock"].bytes + U32(data["numberOfTransactions"].amount)
    + U64(data["totalAmount"].amount) + U64(data["totalFee"].amount) + U64(data["reward"].amount)
    + U32(data["payloadLength"].amount) + data["payloadHash"].bytes
    + data["generatorPublicKey"].bytes + data["blockSignature"].bytes
  }

  /** The format of the transactions behind it: each behind its length. */
  function ItemsLayout(items: seq<Bytes>): Bytes {
    if items == [] then [] else U32(|items[0]|) + items[0] + ItemsLayout(items[1..])
  }

  /** A part of a schema writes `bytes` if the data are `right`, and otherwise throws. */
  ghost predicate Writes(schema: seq<C.Entry>, data: C.Properties, right: bool, bytes: Bytes) {
    var fs := C.SchemaFields(schema, data);
    && (fs.Some? && AllInRange(fs.value) <==> right)
    && (right ==> BytesOf(fs.value) == bytes)
  }

  function NumberAt(data: C.Properties, property: string): int {
    if property in data && data[property].Amount? then data[property].amount else 0
  }

  function HexAt(data: C.Properties, property: string): Bytes {
    if property in data && data[property].Hex? then data[property].bytes else []
  }

  lemma WritesNumber(p: string, data: C.Properties)
    ensures Writes([C.Entry(p, C.Uint32, true)], data, IsNumber(data, p, 32), U32(NumberAt(data, p)))
    ensures Writes([C.Entry(p, C.BigInt, true)], data, IsNumber(data, p, 64), U64(NumberAt(data, p)))
  {
    hide Low, LittleEndian;
    Powers();
    OneEntry(C.Entry(p, C.Uint32, true), data);
    OneEntry(C.Entry(p, C.BigInt, true), data);
    if p in data && data[p].Amount? && data[p].amount >= 0 {
      var a := data[p].amount;
      Bytes32(a);
      Bytes64(a);
      BytesOfOne(Number(a, 4));
      BytesOfOne(Number(a, 8));
    }
    if p in data && data[p].Amount? {
      assert Number(data[p].amount, 4) in [Number(data[p].amount, 4)];
      assert Number(data[p].amount, 8) in [Number(data[p].amount, 8)];
    }
  }

  lemma OneEntry(e: C.Entry, data: C.Properties)
    ensures C.SchemaFields([e], data) == C.EntryFields(e, data)
  {
    hide C.EntryFields;
    assert [e][1..] == [] && C.SchemaFields([], data) == Some([]);
    if C.EntryFields(e, data).Some? { assert C.EntryFields(e, data).value + [] == C.EntryFields(e, data).value; }
  }

  lemma WritesHex(e: C.Entry, data: C.Properties)
    requires e.required && (e.kind.Hash? || e.kind.PublicKey? || e.kind.Signature?)
    ensures Writes([e], data, IsHex(data, e.property), HexAt(data, e.property))
  {
    OneEntry(e, data);
    if IsHex(data, e.property) { BytesOfOne(Raw(HexAt(data, e.property))); }
  }

  lemma WritesBoth(a: seq<C.Entry>, b: seq<C.Entry>, data: C.Properties, r: bool, x: Bytes, s: bool, y: Bytes)
    requires Writes(a, data, r, x) && Writes(b, data, s, y)
    ensures Writes(a + b, data, r && s, x + y)
  {
    hide C.SchemaFields, BytesOf, InRange;
    B.SchemaFieldsAppend(a, b, data);
    var fs, gs := C.SchemaFields(a, data), C.SchemaFields(b, data);
    if fs.Some? && gs.Some? {
      BytesOfAppend(fs.value, gs.value);
      AllOfFour(fs.value, gs.value, [], []);
      assert fs.value + gs.value + [] + [] == fs.value + gs.value;
    }
  }

  lemma TimesWritten(data: C.Properties)
    ensures Writes(B.TIMES, data,
                   IsNumber(data, "version", 32) && IsNumber(data, "timestamp", 32) && IsNumber(data, "height", 32),
                   U32(NumberAt(data, "version")) + U32(NumberAt(data, "timestamp")) + U32(NumberAt(data, "height")))
  {
    hide Writes, U32, NumberAt, IsNumber;
    var a, b, c := [C.Entry("version", C.Uint32, true)], [C.Entry("timestamp", C.Uint32, true)],
      [C.Entry("height", C.Uint32, true)];
    WritesNumber("version", data);
    WritesNumber("timestamp", data);
    WritesNumber("height", data);
    WritesBoth(a, b, data, IsNumber(data, "version", 32), U32(NumberAt(data, "version")),
               IsNumber(data, "timestamp", 32), U32(NumberAt(data, "timestamp")));
    WritesBoth(a + b, c, data, IsNumber(data, "version", 32) && IsNumber(data, "timestamp", 32),
               U32(NumberAt(data, "version")) + U32(NumberAt(data, "timestamp")),
               IsNumber(data, "height", 32), U32(NumberAt(data, "height")));
    assert a + b + c == B.TIMES;
  }

  lemma LinksWritten(data: C.Properties)
    ensures Writes(B.LINKS, data, IsHex(data, "previousBlock") && IsNumber(data, "numberOfTransactions", 32),
                   HexAt(data, "previousBlock") + U32(NumberAt(data, "numberOfTransactions")))
  {
    hide Writes, U32, NumberAt, IsNumber, IsHex, HexAt;
    var a, b := [C.Entry("previousBlock", C.Hash, true)], [C.Entry("numberOfTransactions", C.Uint32, true)];
    WritesHex(a[0], data);
    WritesNumber("numberOfTransactions", data);
    WritesBoth(a, b, data, IsHex(data, "previousBlock"), HexAt(data, "previousBlock"),
               IsNumber(data, "numberOfTransactions", 32), U32(NumberAt(data, "numberOfTransactions")));
    assert a + b == B.LINKS;
  }

  lemma TotalsWritten(data: C.Properties)
    ensures Writes(B.TOTALS, data,
                   IsNumber(data, "totalAmount", 64) && IsNumber(data, "totalFee", 64) && IsNumber(data, "reward", 64),
                   U64(NumberAt(data, "totalAmount")) + U64(NumberAt(data, "totalFee")) + U64(NumberAt(data, "reward")))
  {
    hide Writes, U64, NumberAt, IsNumber;
    var a, b, c := [C.Entry("totalAmount", C.BigInt, true)], [C.Entry("totalFee", C.BigInt, true)],
      [C.Entry("reward", C.BigInt, true)];
    WritesNumber("totalAmount", data);
    WritesNumber("totalFee", data);
    WritesNumber("reward", data);
    WritesBoth(a, b, data, IsNumber(data, "totalAmount", 64), U64(NumberAt(data, "totalAmount")),
               IsNumber(data, "totalFee", 64), U64(NumberAt(data, "totalFee")));
    WritesBoth(a + b, c, data, IsNumber(data, "totalAmount", 64) && IsNumber(data, "totalFee", 64),
               U64(NumberAt(data, "totalAmount")) + U64(NumberAt(data, "totalFee")),
               IsNumber(data, "reward", 64), U64(NumberAt(data, "reward")));
    assert a + b + c == B.TOTALS;
  }

  lemma PayloadWritten(data: C.Properties)
    ensures Writes(B.PAYLOAD, data, IsNumber(data, "payloadLength", 32) && IsHex(data, "payloadHash"),
                   U32(NumberAt(data, "payloadLength")) + HexAt(data, "payloadHash"))
  {
    hide Writes, U32, NumberAt, IsNumber, IsHex, HexAt;
    var a, b := [C.Entry("payloadLength", C.Uint32, true)], [C.Entry("payloadHash", C.Hash, true)];
    WritesNumber("payloadLength", data);
    WritesHex(b[0], data);
    WritesBoth(a, b, data, IsNumber(data, "payloadLength", 32), U32(NumberAt(data, "payloadLength")),
               IsHex(data, "payloadHash"), HexAt(data, "payloadHash"));
    assert a + b == B.PAYLOAD;
  }

  lemma SealWritten(data: C.Properties)
    ensures Writes(B.SealSchema(true), data, IsHex(data, "generatorPublicKey") && IsHex(data, "blockSignature"),
                   HexAt(data, "generatorPublicKey") + HexAt(data, "blockSignature"))
  {
    hide Writes, IsHex, HexAt;
    var a, b := [C.Entry("generatorPublicKey", C.PublicKey, true)], [C.Entry("blockSignature", C.Signature, true)];
    WritesHex(a[0], data);
    WritesHex(b[0], data);
    WritesBoth(a, b, data, IsHex(data, "generatorPublicKey"), HexAt(data, "generatorPublicKey"),
               IsHex(data, "blockSignature"), HexAt(data, "blockSignature"));
    assert a + b == B.SealSchema(true);
  }

  lemma WritesFive(a: seq<C.Entry>, b: seq<C.Entry>, c: seq<C.Entry>, d: seq<C.Entry>, e: seq<C.Entry>,
                   data: C.Properties, r: seq<bool>, x: seq<Bytes>)
    requires |r| == 5 && |x| == 5 && Writes(a, data, r[0], x[0]) && Writes(b, data, r[1], x[1])
    requires Writes(c, data, r[2], x[2]) && Writes(d, data, r[3], x[3]) && Writes(e, data, r[4], x[4])
    ensures Writes(a + b + c + d + e, data, r[0] && r[1] && r[2] && r[3] && r[4], x[0] + x[1] + x[2] + x[3] + x[4])
  {
    hide Writes;
    WritesBoth(a, b, data, r[0], x[0], r[1], x[1]);
    WritesBoth(a + b, c, data, r[0] && r[1], x[0] + x[1], r[2], x[2]);
    WritesBoth(a + b + c, d, data, r[0] && r[1] && r[2], x[0] + x[1] + x[2], r[3], x[3]);
    WritesBoth(a + b + c + d, e, data, r[0] && r[1] && r[2] && r[3], x[0] + x[1] + x[2] + x[3], r[4], x[4]);
  }

  /** The five groups of properties: which are there, and what they are written as. */
  function Rights(data: C.Properties): seq<bool> {
    [IsNumber(data, "version", 32) && IsNumber(data, "timestamp", 32) && IsNumber(data, "height", 32),
     IsHex(data, "previousBlock") && IsNumber(data, "numberOfTransactions", 32),
     IsNumber(data, "totalAmount", 64) && IsNumber(data, "totalFee", 64) && IsNumber(data, "reward", 64),
     IsNumber(data, "payloadLength", 32) && IsHex(data, "payloadHash"),
     IsHex(data, "generatorPublicKey") && IsHex(data, "blockSignature")]
  }

  function Groups(data: C.Properties): seq<Bytes> {
    [U32(NumberAt(data, "version")) + U32(NumberAt(data, "timestamp")) + U32(NumberAt(data, "height")),
     HexAt(data, "previousBlock") + U32(NumberAt(data, "numberOfTransactions")),
     U64(NumberAt(data, "totalAmount")) + U64(NumberAt(data, "totalFee")) + U64(NumberAt(data, "reward")),
     U32(NumberAt(data, "payloadLength")) + HexAt(data, "payloadHash"),
     HexAt(data, "generatorPublicKey") + HexAt(data, "blockSignature")]
  }

  lemma HeaderWritten(data: C.Properties)
    ensures Writes(B.HeaderSchema(true), data, HasHeader(data), if HasHeader(data) then HeaderLayout(data) else [])
  {
    hide Writes, U32, U64, IsNumber, IsHex, NumberAt, HexAt, B.SealSchema, HeaderLayout;
    var r, x := Rights(data), Groups(data);
    TimesWritten(data);
    LinksWritten(data);
    TotalsWritten(data);
    PayloadWritten(data);
    SealWritten(data);
    WritesFive(B.TIMES, B.LINKS, B.TOTALS, B.PAYLOAD, B.SealSchema(true), data, r, x);
    assert HasHeader(data) <==> r[0] && r[1] && r[2] && r[3] && r[4];
    if HasHeader(data) { GroupsAreLayout(data); }
    WritesSame(B.HeaderSchema(true), data, HasHeader(data), x[0] + x[1] + x[2] + x[3] + x[4],
               if HasHeader(data) then HeaderLayout(data) else []);
  }

  lemma GroupsAreLayout(data: C.Properties)
    requires HasHeader(data)
    ensures var x := Groups(data); HeaderLayout(data) == x[0] + x[1] + x[2] + x[3] + x[4]
  {
    hide U32, U64;
  }

  lemma WritesSame(schema: seq<C.Entry>, data: C.Properties, right: bool, x: Bytes, y: Bytes)
    requires Writes(schema, data, right, x) && (right ==> x == y)
    ensures Writes(schema, data, right, y)
  {
  }

  /** A header is written exactly if its properties are there, of their kinds and in their ranges, and they fit; and
      then as laid out, with zeros behind. */
  lemma HeaderAsLaidOut(data: C.Properties)
    ensures C.Serialized(B.HeaderSchema(true), data, 2_000_000).Some? <==>
              HasHeader(data) && |HeaderLayout(data)| <= 2_000_000
    ensures C.Serialized(B.HeaderSchema(true), data, 2_000_000).Some? ==>
              C.Serialized(B.HeaderSchema(true), data, 2_000_000).value
              == HeaderLayout(data) + Zeros(2_000_000 - |HeaderLayout(data)|)
  {
    hide HeaderLayout, HasHeader, C.SchemaFields, AllInRange, BytesOf, B.HeaderSchema;
    HeaderWritten(data);
  }

  lemma {:induction false} ItemsAre(items: seq<Bytes>)
    ensures AllInRange(C.ItemFields(items)) <==> forall bs | bs in items :: |bs| < 0x1_0000_0000
    ensures AllInRange(C.ItemFields(items)) ==> BytesOf(C.ItemFields(items)) == ItemsLayout(items)
    decreases |items|
  {
    hide Low, BytesOf;
    Powers();
    if items == [] {
      NoFields();
    } else {
      var first := [Number(|items[0]|, 4), Raw(items[0])];
      ItemsAre(items[1..]);
      assert items == [items[0]] + items[1..];
      assert AllInRange(first) <==> InRange(first[0]) && InRange(first[1]);
      AllOfFour(first, C.ItemFields(items[1..]), [], []);
      assert first + C.ItemFields(items[1..]) + [] + [] == C.ItemFields(items);
      BytesOfAppend(first, C.ItemFields(items[1..]));
      TwoFields(first[0], first[1]);
      Bytes32(|items[0]|);
    }
  }

  /** A block with its transactions: the header, and then each transaction behind its length. */
  lemma BlockAsLaidOut(data: C.Properties, items: seq<Bytes>)
    requires "transactions" in data && data["transactions"] == C.List(items)
    ensures var bytes := C.Serialized(B.HeaderSchema(true) + [B.TRANSACTIONS], data, 2_000_000);
            && (bytes.Some? <==>
                  && HasHeader(data) && (forall bs | bs in items :: |bs| < 0x1_0000_0000)
                  && |HeaderLayout(data)| + |ItemsLayout(items)| <= 2_000_000)
            && (bytes.Some? ==>
                  bytes.value == HeaderLayout(data) + ItemsLayout(items)
                                 + Zeros(2_000_000 - |HeaderLayout(data)| - |ItemsLayout(items)|))
  {
    hide HeaderLayout, HasHeader, C.SchemaFields, InRange, BytesOf, B.HeaderSchema, C.ItemFields, ItemsLayout;
    HeaderWritten(data);
    B.TransactionFields(data, items);
    ItemsAre(items);
    var right := forall bs | bs in items :: |bs| < 0x1_0000_0000;
    assert Writes([B.TRANSACTIONS], data, right, ItemsLayout(items));
    WritesBoth(B.HeaderSchema(true), [B.TRANSACTIONS], data, HasHeader(data),
               if HasHeader(data) then HeaderLayout(data) else [], right, ItemsLayout(items));
    hide AllInRange;
  }

  // ----- any schema -----

  /** What a property of each kind is written as. */
  lemma ValueAsLaidOut(kind: C.Kind, v: C.Value)
    requires C.ValueFields(kind, v).Some? && AllInRange(C.ValueFields(kind, v).value)
    ensures BytesOf(C.ValueFields(kind, v).value) ==
              match v
              case Amount(a) => if kind.Uint32? then U32(a) else U64(a)
              case Hex(bytes) => bytes
              case List(items) => ItemsLayout(items)
    ensures v.Amount? ==> (kind.Uint32? || kind.Uint64? || kind.BigInt?)
                          && 0 <= v.amount < if kind.Uint32? then 0x1_0000_0000 else 0x1_0000_0000_0000_0000
    ensures v.List? <==> kind.Transactions?
  {
    hide Low, LittleEndian, ItemsLayout, BytesOf;
    Powers();
    var fs := C.ValueFields(kind, v).value;
    match v
    case Amount(a) =>
      assert fs[0] in fs;
      BytesOfOne(fs[0]);
      Bytes32(a);
      Bytes64(a);
    case Hex(bytes) => BytesOfOne(fs[0]);
    case List(items) => ItemsAre(items);
  }
}
