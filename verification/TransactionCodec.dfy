/** The byte form of a transaction: one serializer and one deserializer, and what survives from one to the other. */
module TransactionCodec {
  import opened Options
  import opened ByteBuffers

  datatype Payment = Payment(amount: int, recipient: Bytes)

  /** The part of a transaction that belongs to its type. Keys and addresses are in their byte form. */
  datatype Body =
    | Transfer(amount: int, expiration: int, recipient: Bytes)
    | ValidatorRegistration(username: Bytes)
    | Vote(votes: seq<Bytes>, unvotes: seq<Bytes>)
    | MultiSignatureRegistration(min: int, publicKeys: seq<Bytes>)
    | MultiPayment(payments: seq<Payment>)
    | ValidatorResignation

  /** An absent vendor field, signature or list of signatures is empty; an absent version or network is 0. */
  datatype Data = Data(version: int, network: int, nonce: Option<int>, sender: Bytes, fee: int,
                       vendorField: Bytes, body: Body, signature: Bytes, signatures: seq<Bytes>)

  /** What the network's configuration and the bound signature scheme fix. */
  datatype Sizes = Sizes(publicKey: nat, address: nat, signature: nat, maxPayload: nat, network: nat)

  const CORE := 1

  function TypeOf(body: Body): nat {
    match body
    case Transfer(_, _, _) => 0
    case ValidatorRegistration(_) => 2
    case Vote(_, _) => 3
    case MultiSignatureRegistration(_, _) => 4
    case MultiPayment(_) => 6
    case ValidatorResignation => 7
  }

  // ----- serializing -----

  function Joined(bss: seq<Bytes>): Bytes {
    if bss == [] then [] else bss[0] + Joined(bss[1..])
  }

  function PaymentFields(payments: seq<Payment>): seq<Field> {
    if payments == [] then [] else
      [Number(payments[0].amount, 8), Raw(payments[0].recipient)] + PaymentFields(payments[1..])
  }

  function KeyFields(keys: seq<Bytes>): seq<Field> {
    if keys == [] then [] else [Raw(keys[0])] + KeyFields(keys[1..])
  }

  function BodyFields(body: Body): seq<Field> {
    match body
    case Transfer(amount, expiration, recipient) => [Number(amount, 8), Number(expiration, 4), Raw(recipient)]
    case ValidatorRegistration(username) => [Number(|username|, 1), Raw(username)]
    case Vote(votes, unvotes) =>
      [Number(|votes|, 1), Raw(Joined(votes)), Number(|unvotes|, 1), Raw(Joined(unvotes))]
    case MultiSignatureRegistration(min, keys) => [Number(min, 1), Number(|keys|, 1)] + KeyFields(keys)
    case MultiPayment(payments) => [Number(|payments|, 2)] + PaymentFields(payments)
    case ValidatorResignation => []
  }

  function BodyCapacity(body: Body, z: Sizes): nat {
    match body
    case Transfer(_, _, _) => 64
    case ValidatorRegistration(username) => |username| + 1
    case Vote(votes, unvotes) => 1 + 1 + z.publicKey * |votes| + z.publicKey * |unvotes|
    case MultiSignatureRegistration(_, keys) => 2 + |keys| * z.publicKey
    case MultiPayment(payments) => 2 + |payments| * z.address + |payments| * 8
    case ValidatorResignation => 0
  }

  function HeadFields(tx: Data, z: Sizes): seq<Field> {
    [ Number(0xff, 1),
      Number(if tx.version == 0 then 1 else tx.version, 1),
      Number(if tx.network == 0 then z.network else tx.network, 1),
      Number(CORE, 4),
      Number(TypeOf(tx.body), 2) ]
  }

  function CommonFields(tx: Data, z: Sizes): seq<Field> {
    HeadFields(tx, z) +
    (if tx.nonce.Some? then [Number(tx.nonce.value, 8)] else []) +
    [ Raw(tx.sender), Number(tx.fee, 8) ]
  }

  function VendorFields(tx: Data): seq<Field> {
    if tx.body.Transfer? && tx.vendorField != [] then [Number(|tx.vendorField|, 1), Raw(tx.vendorField)]
    else [Number(0, 1)]
  }

  function SignatureFields(tx: Data): seq<Field> {
    (if tx.signature != [] then [Raw(tx.signature)] else []) +
    (if tx.signatures != [] then [Raw(Joined(tx.signatures))] else [])
  }

  function SerializedBody(body: Body, z: Sizes): Option<Bytes> {
    if Fits(BodyFields(body), BodyCapacity(body, z)) then Some(BytesOf(BodyFields(body))) else None
  }

  function AllFields(tx: Data, z: Sizes): seq<Field> {
    CommonFields(tx, z) + VendorFields(tx) + [Raw(BytesOf(BodyFields(tx.body)))] + SignatureFields(tx)
  }

  /** None where the serializer throws. */
  function Serialized(tx: Data, z: Sizes): Option<Bytes> {
    if SerializedBody(tx.body, z).Some? && Fits(AllFields(tx, z), z.maxPayload)
    then Some(BytesOf(AllFields(tx, z))) else None
  }

  method SerializeKeys(keys: seq<Bytes>, buff: ByteBuffer)
    requires buff.Written()
    modifies buff`offset, buff`threw, buff`log, buff.buffer
    ensures buff.Written() && buff.log == old(buff.log) + KeyFields(keys)
  {
    hide Fits, BytesOf;
    var i := 0;
    assert keys[0..] == keys;
    while i < |keys|
      invariant 0 <= i <= |keys| && buff.Written()
      invariant buff.log + KeyFields(keys[i..]) == old(buff.log) + KeyFields(keys)
    {
      assert keys[i..][1..] == keys[i + 1..];
      buff.WriteBytes(keys[i]);
      i := i + 1;
    }
    assert keys[i..] == [];
  }

  method SerializePayments(payments: seq<Payment>, buff: ByteBuffer)
    requires buff.Written()
    modifies buff`offset, buff`threw, buff`log, buff.buffer
    ensures buff.Written() && buff.log == old(buff.log) + PaymentFields(payments)
  {
    hide Fits, BytesOf;
    var i := 0;
    assert payments[0..] == payments;
    while i < |payments|
      invariant 0 <= i <= |payments| && buff.Written()
      invariant buff.log + PaymentFields(payments[i..]) == old(buff.log) + PaymentFields(payments)
    {
      assert payments[i..][1..] == payments[i + 1..];
      buff.WriteUint64(payments[i].amount);
      buff.WriteBytes(payments[i].recipient);
      i := i + 1;
    }
    assert payments[i..] == [];
  }

  method SerializeBody(body: Body, z: Sizes) returns (result: Option<Bytes>)
    ensures result == SerializedBody(body, z)
  {
    hide Fits, BytesOf, PaymentFields, KeyFields;
    var buff := new ByteBuffer.FromSize(BodyCapacity(body, z));
    match body {
      case Transfer(amount, expiration, recipient) =>
        buff.WriteUint64(amount);
        buff.WriteUint32(expiration);
        buff.WriteBytes(recipient);
      case ValidatorRegistration(username) =>
        buff.WriteUint8(|username|);
        buff.WriteBytes(username);
      case Vote(votes, unvotes) =>
        buff.WriteUint8(|votes|);
        buff.WriteBytes(Joined(votes));
        buff.WriteUint8(|unvotes|);
        buff.WriteBytes(Joined(unvotes));
      case MultiSignatureRegistration(min, keys) =>
        buff.WriteUint8(min);
        buff.WriteUint8(|keys|);
        SerializeKeys(keys, buff);
      case MultiPayment(payments) =>
        buff.WriteUint16(|payments|);
        SerializePayments(payments, buff);
      case ValidatorResignation =>
    }
    assert buff.log == BodyFields(body);
    result := buff.GetResult();
  }

  method SerializeHead(tx: Data, z: Sizes, buff: ByteBuffer)
    requires buff.Written()
    modifies buff`offset, buff`threw, buff`log, buff.buffer
    ensures buff.Written() && buff.log == old(buff.log) + HeadFields(tx, z)
  {
    hide ByteBuffer.Written, TypeOf;
    buff.WriteUint8(0xff);
    buff.WriteUint8(if tx.version == 0 then 1 else tx.version);
    buff.WriteUint8(if tx.network == 0 then z.network else tx.network);
    buff.WriteUint32(CORE);
    buff.WriteUint16(TypeOf(tx.body));
  }

  method SerializeCommon(tx: Data, z: Sizes, buff: ByteBuffer)
    requires buff.Written()
    modifies buff`offset, buff`threw, buff`log, buff.buffer
    ensures buff.Written() && buff.log == old(buff.log) + CommonFields(tx, z)
  {
    hide ByteBuffer.Written, HeadFields;
    SerializeHead(tx, z, buff);
    if tx.nonce.Some? {
      buff.WriteUint64(tx.nonce.value);
    }
    if tx.sender != [] {
      buff.WriteBytes(tx.sender);
    } else {
      buff.WriteBytes([]);
    }
    buff.WriteUint64(tx.fee);
  }

  method SerializeVendorField(tx: Data, buff: ByteBuffer)
    requires buff.Written()
    modifies buff`offset, buff`threw, buff`log, buff.buffer
    ensures buff.Written() && buff.log == old(buff.log) + VendorFields(tx)
  {
    hide ByteBuffer.Written;
    if tx.body.Transfer? && tx.vendorField != [] {
      buff.WriteUint8(|tx.vendorField|);
      buff.WriteBytes(tx.vendorField);
    } else {
      buff.WriteUint8(0x00);
    }
  }

  method Serialize(tx: Data, z: Sizes) returns (result: Option<Bytes>)
    ensures result == Serialized(tx, z)
  {
    hide ByteBuffer.Written, Fits, BytesOf, CommonFields, VendorFields;
    var buff := new ByteBuffer.FromSize(z.maxPayload);
    SerializeCommon(tx, z, buff);
    SerializeVendorField(tx, buff);
    var body := SerializeBody(tx.body, z);
    if body.None? { return None; }
    buff.WriteBytes(body.value);
    if tx.signature != [] {
      buff.WriteBytes(tx.signature);
    }
    if tx.signatures != [] {
      buff.WriteBytes(Joined(tx.signatures));
    }
    assert buff.log == AllFields(tx, z);
    result := buff.GetResult();
  }

  // ----- deserializing -----

  datatype Common = Common(version: int, network: int, typeGroup: int, kind: int, nonce: int, sender: Bytes, fee: int)

  function ParsedCommon(z: Sizes, r: Rest): (Common, Rest) {
    var (_, r) := TakeBytes(r, 1);
    var (version, r) := TakeNumber(r, 1);
    var (network, r) := TakeNumber(r, 1);
    var (typeGroup, r) := TakeNumber(r, 4);
    var (kind, r) := TakeNumber(r, 2);
    var (nonce, r) := TakeNumber(r, 8);
    var (sender, r) := TakeBytes(r, z.publicKey);
    var (fee, r) := TakeNumber(r, 8);
    (Common(version, network, typeGroup, kind, nonce, sender, fee), r)
  }

  function ParsedVendorField(kind: int, r: Rest): (Bytes, Rest) {
    var (length, r) := TakeNumber(r, 1);
    var (bytes, r) := TakeBytes(r, length);
    (if kind == 0 then bytes else [], r)
  }

  function TakeMany(r: Rest, count: nat, size: nat): (seq<Bytes>, Rest)
    decreases count
  {
    if count == 0 then ([], r) else
      var (bytes, r) := TakeBytes(r, size);
      var (more, r) := TakeMany(r, count - 1, size);
      ([bytes] + more, r)
  }

  function TakePayments(r: Rest, count: nat, size: nat): (seq<Payment>, Rest)
    decreases count
  {
    if count == 0 then ([], r) else
      var (amount, r) := TakeNumber(r, 8);
      var (recipient, r) := TakeBytes(r, size);
      var (more, r) := TakePayments(r, count - 1, size);
      ([Payment(amount, recipient)] + more, r)
  }

  function ParsedBody(z: Sizes, kind: int, r: Rest): (Body, Rest) {
    if kind == 0 then
      var (amount, r) := TakeNumber(r, 8);
      var (expiration, r) := TakeNumber(r, 4);
      var (recipient, r) := TakeBytes(r, z.address);
      (Transfer(amount, expiration, recipient), r)
    else if kind == 2 then
      var (length, r) := TakeNumber(r, 1);
      var (username, r) := TakeBytes(r, length);
      (ValidatorRegistration(username), r)
    else if kind == 3 then
      var (count, r) := TakeNumber(r, 1);
      var (votes, r) := TakeMany(r, count, z.publicKey);
      var (count, r) := TakeNumber(r, 1);
      var (unvotes, r) := TakeMany(r, count, z.publicKey);
      (Vote(votes, unvotes), r)
    else if kind == 4 then
      var (min, r) := TakeNumber(r, 1);
      var (count, r) := TakeNumber(r, 1);
      var (keys, r) := TakeMany(r, count, z.publicKey);
      (MultiSignatureRegistration(min, keys), r)
    else if kind == 6 then
      var (count, r) := TakeNumber(r, 2);
      var (payments, r) := TakePayments(r, count, z.address);
      (MultiPayment(payments), r)
    else (ValidatorResignation, r)
  }

  predicate CanReadSignature(length: nat) {
    length != 0 && (length % 64 == 0 || length % 65 != 0)
  }

  function ParsedSignature(z: Sizes, r: Rest): (Bytes, Rest) {
    if r.Some? && CanReadSignature(|r.value|) then TakeBytes(r, z.signature) else ([], r)
  }

  predicate KnownType(typeGroup: int, kind: int) {
    typeGroup == CORE && (kind == 0 || kind == 2 || kind == 3 || kind == 4 || kind == 6 || kind == 7)
  }

  function Assembled(c: Common, vendorField: Bytes, body: Body, signature: Bytes): Data {
    Data(if c.version == 0 then 1 else c.version, c.network, Some(c.nonce), c.sender, c.fee,
         vendorField, body, signature, [])
  }

  /** The transaction and the bytes it was read from; none where the deserializer throws. */
  function Deserialized(bytes: Bytes, z: Sizes): Option<(Data, Bytes)> {
    var (c, r) := ParsedCommon(z, Some(bytes));
    if r.None? || !KnownType(c.typeGroup, c.kind) then None else
      var (vendorField, r) := ParsedVendorField(c.kind, r);
      var (body, r) := ParsedBody(z, c.kind, r);
      var (signature, r) := ParsedSignature(z, r);
      if r.None? || |r.value| > |bytes| then None else
        Some((Assembled(c, vendorField, body, signature), bytes[..|bytes| - |r.value|]))
  }

  method DeserializeCommon(z: Sizes, buff: ByteBuffer) returns (c: Common)
    requires buff.Valid()
    modifies buff`offset, buff`threw
    ensures buff.Valid() && (c, buff.Unread()) == ParsedCommon(z, old(buff.Unread()))
  {
    hide TakeNumber, TakeBytes;
    buff.Skip(1);
    var version := buff.ReadUint8();
    var network := buff.ReadUint8();
    var typeGroup := buff.ReadUint32();
    var kind := buff.ReadUint16();
    var nonce := buff.ReadUint64();
    var sender := buff.ReadBytes(z.publicKey);
    var fee := buff.ReadUint64();
    c := Common(version, network, typeGroup, kind, nonce, sender, fee);
  }

  method DeserializeVendorField(kind: int, buff: ByteBuffer) returns (vendorField: Bytes)
    requires buff.Valid()
    modifies buff`offset, buff`threw
    ensures buff.Valid() && (vendorField, buff.Unread()) == ParsedVendorField(kind, old(buff.Unread()))
  {
    var length := buff.ReadUint8();
    vendorField := [];
    if length > 0 {
      if kind == 0 {
        vendorField := buff.ReadBytes(length);
      } else {
        buff.Skip(length);
      }
    }
  }

  method ReadMany(buff: ByteBuffer, count: nat, size: nat) returns (all: seq<Bytes>)
    requires buff.Valid()
    modifies buff`offset, buff`threw
    ensures buff.Valid() && (all, buff.Unread()) == TakeMany(old(buff.Unread()), count, size)
  {
    hide TakeBytes;
    all := [];
    var index := 0;
    while index < count
      invariant 0 <= index <= count && buff.Valid()
      invariant TakeMany(old(buff.Unread()), count, size).0 == all + TakeMany(buff.Unread(), count - index, size).0
      invariant TakeMany(old(buff.Unread()), count, size).1 == TakeMany(buff.Unread(), count - index, size).1
    {
      var bytes := buff.ReadBytes(size);
      all := all + [bytes];
      index := index + 1;
    }
    assert all + [] == all;
  }

  method ReadPayments(buff: ByteBuffer, count: nat, size: nat) returns (all: seq<Payment>)
    requires buff.Valid()
    modifies buff`offset, buff`threw
    ensures buff.Valid() && (all, buff.Unread()) == TakePayments(old(buff.Unread()), count, size)
  {
    hide TakeBytes, TakeNumber;
    all := [];
    var index := 0;
    while index < count
      invariant 0 <= index <= count && buff.Valid()
      invariant TakePayments(old(buff.Unread()), count, size).0
             == all + TakePayments(buff.Unread(), count - index, size).0
      invariant TakePayments(old(buff.Unread()), count, size).1 == TakePayments(buff.Unread(), count - index, size).1
    {
      var amount := buff.ReadUint64();
      var recipient := buff.ReadBytes(size);
      all := all + [Payment(amount, recipient)];
      index := index + 1;
    }
    assert all + [] == all;
  }

  method DeserializeBody(z: Sizes, kind: int, buff: ByteBuffer) returns (body: Body)
    requires buff.Valid()
    modifies buff`offset, buff`threw
    ensures buff.Valid() && (body, buff.Unread()) == ParsedBody(z, kind, old(buff.Unread()))
  {
    hide TakeBytes, TakeNumber, TakeMany, TakePayments;
    if kind == 0 {
      var amount := buff.ReadUint64();
      var expiration := buff.ReadUint32();
      var recipient := buff.ReadBytes(z.address);
      body := Transfer(amount, expiration, recipient);
    } else if kind == 2 {
      var length := buff.ReadUint8();
      var username := buff.ReadBytes(length);
      body := ValidatorRegistration(username);
    } else if kind == 3 {
      var voteLength := buff.ReadUint8();
      var votes := ReadMany(buff, voteLength, z.publicKey);
      var unvoteLength := buff.ReadUint8();
      var unvotes := ReadMany(buff, unvoteLength, z.publicKey);
      body := Vote(votes, unvotes);
    } else if kind == 4 {
      var min := buff.ReadUint8();
      var count := buff.ReadUint8();
      var keys := ReadMany(buff, count, z.publicKey);
      body := MultiSignatureRegistration(min, keys);
    } else if kind == 6 {
      var total := buff.ReadUint16();
      var payments := ReadPayments(buff, total, z.address);
      body := MultiPayment(payments);
    } else {
      body := ValidatorResignation;
    }
  }

  method DeserializeSignature(z: Sizes, buff: ByteBuffer) returns (signature: Bytes)
    requires buff.Valid()
    modifies buff`offset, buff`threw
    ensures buff.Valid() && (signature, buff.Unread()) == ParsedSignature(z, old(buff.Unread()))
  {
    hide TakeBytes;
    var length := buff.GetRemainderLength();
    signature := [];
    if !buff.threw && CanReadSignature(length) {
      signature := buff.ReadBytes(z.signature);
    }
  }

  method Deserialize(bytes: Bytes, z: Sizes) returns (result: Option<(Data, Bytes)>)
    ensures result == Deserialized(bytes, z)
  {
    hide ParsedCommon, ParsedVendorField, ParsedBody, ParsedSignature, KnownType, Assembled, Deserialized;
    var buff := new ByteBuffer.FromBuffer(bytes);
    var c := DeserializeCommon(z, buff);
    ghost var r := buff.Unread();
    if buff.threw || !KnownType(c.typeGroup, c.kind) {
      Unknown(bytes, z);
      return None;
    }
    var vendorField := DeserializeVendorField(c.kind, buff);
    ghost var r1 := buff.Unread();
    var body := DeserializeBody(z, c.kind, buff);
    ghost var r2 := buff.Unread();
    var signature := DeserializeSignature(z, buff);
    Known(bytes, z, c, r, vendorField, r1, body, r2, signature, buff.Unread());
    if buff.threw { return None; }
    assert |buff.Unread().value| == |bytes| - buff.offset;
    return Some((Assembled(c, vendorField, body, signature), bytes[..buff.offset]));
  }

  lemma Unknown(bytes: Bytes, z: Sizes)
    requires var (c, r) := ParsedCommon(z, Some(bytes)); r.None? || !KnownType(c.typeGroup, c.kind)
    ensures Deserialized(bytes, z) == None
  {
  }

  lemma Known(bytes: Bytes, z: Sizes, c: Common, r: Rest, vendorField: Bytes, r1: Rest, body: Body, r2: Rest,
              signature: Bytes, r3: Rest)
    requires ParsedCommon(z, Some(bytes)) == (c, r) && r.Some? && KnownType(c.typeGroup, c.kind)
    requires ParsedVendorField(c.kind, r) == (vendorField, r1) && ParsedBody(z, c.kind, r1) == (body, r2)
    requires ParsedSignature(z, r2) == (signature, r3)
    ensures Deserialized(bytes, z) ==
            if r3.None? || |r3.value| > |bytes| then None
            else Some((Assembled(c, vendorField, body, signature), bytes[..|bytes| - |r3.value|]))
  {
    hide ParsedCommon, ParsedVendorField, ParsedBody, ParsedSignature, KnownType, Assembled;
  }

  // ----- the round trip -----

  /** Keys, addresses and signatures have the one length that the deserializer reads. */
  predicate Sized(tx: Data, z: Sizes) {
    && |tx.sender| == z.publicKey
    && (tx.signature == [] || |tx.signature| == z.signature)
    && match tx.body
       case Transfer(_, _, recipient) => |recipient| == z.address
       case Vote(votes, unvotes) =>
         (forall k | k in votes :: |k| == z.publicKey) && (forall k | k in unvotes :: |k| == z.publicKey)
       case MultiSignatureRegistration(_, keys) => forall k | k in keys :: |k| == z.publicKey
       case MultiPayment(payments) => forall p | p in payments :: |p.recipient| == z.address
       case _ => true
  }

  /** What the deserializer gives back: defaults are filled in, and only transfers keep a vendor field. */
  function Normal(tx: Data, z: Sizes): Data {
    tx.(version := if tx.version == 0 then 1 else tx.version,
        network := if tx.network == 0 then z.network else tx.network,
        vendorField := if tx.body.Transfer? then tx.vendorField else [])
  }

  lemma HeaderRead(fs: seq<Field>, z: Sizes, tail: Bytes)
    requires AllInRange(fs) && |fs| == 8
    requires forall k | 0 <= k < 8 :: fs[k].Raw? <==> k == 6
    requires fs[0].width == fs[1].width == fs[2].width == 1 && fs[3].width == 4 && fs[4].width == 2
    requires fs[5].width == fs[7].width == 8 && |fs[6].bytes| == z.publicKey
    ensures ParsedCommon(z, Some(BytesOf(fs) + tail)) ==
            (Common(fs[1].value, fs[2].value, fs[3].value, fs[4].value, fs[5].value, fs[6].bytes, fs[7].value),
             Some(tail))
  {
    hide BytesOf, TakeNumber, TakeBytes, InRange;
    MarkerRead(fs, tail);
    TakesNumber(fs, 1, tail);
    TakesNumber(fs, 2, tail);
    TakesNumber(fs, 3, tail);
    TakesNumber(fs, 4, tail);
    TakesNumber(fs, 5, tail);
    TakesBytes(fs, 6, tail);
    TakesNumber(fs, 7, tail);
    NothingLeft(fs, tail);
  }

  function NormalCommon(tx: Data, z: Sizes): Common
    requires tx.nonce.Some?
  {
    var n := Normal(tx, z);
    Common(n.version, n.network, CORE, TypeOf(n.body), n.nonce.value, n.sender, n.fee)
  }

  lemma CommonRead(tx: Data, z: Sizes, tail: Bytes)
    requires AllInRange(CommonFields(tx, z)) && |tx.sender| == z.publicKey && tx.nonce.Some?
    ensures ParsedCommon(z, Some(BytesOf(CommonFields(tx, z)) + tail)) == (NormalCommon(tx, z), Some(tail))
  {
    hide ParsedCommon, BytesOf, AllInRange;
    HeaderRead(CommonFields(tx, z), z, tail);
  }

  lemma MarkerRead(fs: seq<Field>, tail: Bytes)
    requires fs != [] && fs[0].Number? && fs[0].width == 1 && InRange(fs[0])
    ensures TakeBytes(Some(BytesOf(fs) + tail), 1).1 == Some(BytesOf(fs[1..]) + tail)
  {
    assert fs[0..] == fs;
    TakesNumber(fs, 0, tail);
  }

  lemma NothingLeft(fs: seq<Field>, tail: Bytes)
    ensures BytesOf(fs[|fs|..]) + tail == tail
  {
  }

  lemma VendorFieldRead(tx: Data, tail: Bytes)
    requires AllInRange(VendorFields(tx))
    ensures ParsedVendorField(TypeOf(tx.body), Some(BytesOf(VendorFields(tx)) + tail))
         == (if tx.body.Transfer? then tx.vendorField else [], Some(tail))
  {
    hide BytesOf, TakeNumber;
    var fs := VendorFields(tx);
    assert fs[0..] == fs;
    TakesNumber(fs, 0, tail);
    if |fs| == 2 {
      TakesBytes(fs, 1, tail);
    }
    NothingLeft(fs, tail);
  }

  lemma FirstRead(first: Bytes, rest: Bytes)
    ensures TakeBytes(Some(first + rest), |first|) == (first, Some(rest))
  {
  }

  lemma {:induction false} ManyRead(vs: seq<Bytes>, size: nat, tail: Bytes)
    requires forall v | v in vs :: |v| == size
    ensures TakeMany(Some(Joined(vs) + tail), |vs|, size) == (vs, Some(tail))
    decreases |vs|
  {
    hide TakeBytes;
    if vs == [] {
      assert [] + tail == tail;
    } else {
      ManyRead(vs[1..], size, tail);
      FirstRead(vs[0], Joined(vs[1..]) + tail);
      assert Joined(vs) + tail == vs[0] + (Joined(vs[1..]) + tail);
      assert vs == [vs[0]] + vs[1..];
    }
  }

  lemma {:induction false} PaymentsRead(ps: seq<Payment>, size: nat, tail: Bytes)
    requires AllInRange(PaymentFields(ps))
    requires forall p | p in ps :: |p.recipient| == size
    ensures TakePayments(Some(BytesOf(PaymentFields(ps)) + tail), |ps|, size) == (ps, Some(tail))
    decreases |ps|
  {
    hide BytesOf, TakeNumber, TakeBytes;
    var fs := PaymentFields(ps);
    assert fs[0..] == fs;
    if ps != [] {
      TakesNumber(fs, 0, tail);
      TakesBytes(fs, 1, tail);
      assert fs[2..] == PaymentFields(ps[1..]);
      assert forall f | f in PaymentFields(ps[1..]) :: f in fs;
      PaymentsRead(ps[1..], size, tail);
      assert ps == [ps[0]] + ps[1..];
    } else {
      NothingLeft(fs, tail);
    }
  }

  /** Whatever follows, the fields of a body in range are read back. */
  ghost predicate ReadBack(body: Body, z: Sizes, tail: Bytes) {
    ParsedBody(z, TypeOf(body), Some(BytesOf(BodyFields(body)) + tail)) == (body, Some(tail))
  }

  lemma TransferRead(body: Body, z: Sizes, tail: Bytes)
    requires body.Transfer? && AllInRange(BodyFields(body)) && |body.recipient| == z.address
    ensures ReadBack(body, z, tail)
  {
    hide BytesOf, TakeNumber, TakeBytes, TakeMany, TakePayments;
    var fs := BodyFields(body);
    assert fs[0..] == fs;
    TakesNumber(fs, 0, tail);
    TakesNumber(fs, 1, tail);
    TakesBytes(fs, 2, tail);
    NothingLeft(fs, tail);
  }

  lemma RegistrationRead(body: Body, z: Sizes, tail: Bytes)
    requires body.ValidatorRegistration? && AllInRange(BodyFields(body))
    ensures ReadBack(body, z, tail)
  {
    hide BytesOf, TakeNumber, TakeBytes, TakeMany, TakePayments;
    var fs := BodyFields(body);
    assert fs[0..] == fs;
    TakesNumber(fs, 0, tail);
    TakesBytes(fs, 1, tail);
    NothingLeft(fs, tail);
  }

  lemma KeysRead(body: Body, z: Sizes, tail: Bytes)
    requires body.MultiSignatureRegistration? && AllInRange(BodyFields(body))
    requires forall k | k in body.publicKeys :: |k| == z.publicKey
    ensures ReadBack(body, z, tail)
  {
    hide BytesOf, TakeNumber, TakeBytes, TakeMany, TakePayments;
    var fs, keys := BodyFields(body), body.publicKeys;
    assert fs[0..] == fs;
    TakesNumber(fs, 0, tail);
    TakesNumber(fs, 1, tail);
    assert fs[2..] == KeyFields(keys);
    KeysJoined(keys);
    ManyRead(keys, z.publicKey, tail);
  }

  lemma {:induction false} KeysJoined(keys: seq<Bytes>)
    ensures BytesOf(KeyFields(keys)) == Joined(keys)
    decreases |keys|
  {
    if keys != [] {
      KeysJoined(keys[1..]);
      assert KeyFields(keys)[1..] == KeyFields(keys[1..]);
    }
  }

  lemma MultiPaymentRead(body: Body, z: Sizes, tail: Bytes)
    requires body.MultiPayment? && AllInRange(BodyFields(body))
    requires forall p | p in body.payments :: |p.recipient| == z.address
    ensures ReadBack(body, z, tail)
  {
    hide BytesOf, TakeNumber, TakeBytes, TakeMany, TakePayments;
    var fs, payments := BodyFields(body), body.payments;
    assert fs[0..] == fs;
    TakesNumber(fs, 0, tail);
    assert fs[1..] == PaymentFields(payments);
    assert forall f | f in PaymentFields(payments) :: f in fs;
    PaymentsRead(payments, z.address, tail);
  }

  lemma NothingRead(z: Sizes, tail: Bytes)
    ensures ReadBack(ValidatorResignation, z, tail)
  {
    assert [] + tail == tail;
  }

  lemma BodyRead(tx: Data, z: Sizes, tail: Bytes)
    requires AllInRange(BodyFields(tx.body)) && Sized(tx, z)
    ensures ParsedBody(z, TypeOf(tx.body), Some(BytesOf(BodyFields(tx.body)) + tail)) == (tx.body, Some(tail))
  {
    hide BodyFields, ParsedBody, BytesOf, AllInRange, TypeOf;
    match tx.body {
      case Transfer(_, _, _) => TransferRead(tx.body, z, tail);
      case ValidatorRegistration(_) => RegistrationRead(tx.body, z, tail);
      case Vote(votes, unvotes) => VoteRead(votes, unvotes, z, tail);
      case MultiSignatureRegistration(_, _) => KeysRead(tx.body, z, tail);
      case MultiPayment(_) => MultiPaymentRead(tx.body, z, tail);
      case ValidatorResignation => NothingRead(z, tail);
    }
    assert ReadBack(tx.body, z, tail);
  }

  lemma VoteRead(votes: seq<Bytes>, unvotes: seq<Bytes>, z: Sizes, tail: Bytes)
    requires AllInRange(BodyFields(Vote(votes, unvotes)))
    requires forall k | k in votes :: |k| == z.publicKey
    requires forall k | k in unvotes :: |k| == z.publicKey
    ensures ReadBack(Vote(votes, unvotes), z, tail)
  {
    hide BytesOf, TakeNumber, TakeMany;
    var fs := BodyFields(Vote(votes, unvotes));
    assert fs[0..] == fs;
    TakesNumber(fs, 0, tail);
    JoinedFirst(fs, 1, votes, tail);
    ManyRead(votes, z.publicKey, BytesOf(fs[2..]) + tail);
    TakesNumber(fs, 2, tail);
    JoinedFirst(fs, 3, unvotes, tail);
    ManyRead(unvotes, z.publicKey, BytesOf(fs[4..]) + tail);
    NothingLeft(fs, tail);
  }

  lemma JoinedFirst(fs: seq<Field>, k: nat, vs: seq<Bytes>, tail: Bytes)
    requires k < |fs| && fs[k] == Raw(Joined(vs))
    ensures BytesOf(fs[k..]) + tail == Joined(vs) + (BytesOf(fs[k + 1..]) + tail)
  {
    assert fs[k..][1..] == fs[k + 1..];
  }

  lemma SignatureRead(signature: Bytes, z: Sizes)
    requires signature == [] || |signature| == z.signature
    ensures ParsedSignature(z, Some(signature)) ==
            if signature == [] || CanReadSignature(z.signature) then (signature, Some([])) else ([], Some(signature))
  {
    assert signature[..|signature|] == signature && signature[|signature|..] == [];
  }

  lemma AllBytes(tx: Data, z: Sizes)
    requires tx.signatures == []
    ensures BytesOf(AllFields(tx, z)) ==
            BytesOf(CommonFields(tx, z)) + (BytesOf(VendorFields(tx)) + (BytesOf(BodyFields(tx.body)) + tx.signature))
  {
    hide BytesOf, CommonFields, VendorFields;
    var b := Raw(BytesOf(BodyFields(tx.body)));
    BytesOfAppend(CommonFields(tx, z) + VendorFields(tx) + [b], SignatureFields(tx));
    BytesOfAppend(CommonFields(tx, z) + VendorFields(tx), [b]);
    BytesOfAppend(CommonFields(tx, z), VendorFields(tx));
    BytesOfOne(b);
    SignatureBytes(tx);
  }

  lemma SignatureBytes(tx: Data)
    requires tx.signatures == []
    ensures BytesOf(SignatureFields(tx)) == tx.signature
  {
    assert SignatureFields(tx) == if tx.signature != [] then [Raw(tx.signature)] else [];
    if tx.signature != [] { BytesOfOne(Raw(tx.signature)); }
  }

  /** The deserializer can read what is behind the body of `tx`. */
  predicate Recognized(tx: Data, z: Sizes) {
    tx.nonce.Some? && tx.signatures == [] && (tx.signature == [] || CanReadSignature(z.signature))
  }

  /** Every transaction that can be serialized comes back with all its fields, and all bytes are read, exactly when it
      has a nonce and no list of signatures, and is unsigned or the signatures' length is one that the deserializer
      recognizes. */
  lemma RoundTrip(tx: Data, z: Sizes)
    requires Serialized(tx, z).Some? && Sized(tx, z)
    ensures var bytes := Serialized(tx, z).value;
            && (Deserialized(bytes, z) == Some((Normal(tx, z), bytes)) <==> Recognized(tx, z))
            && (Deserialized(bytes, z).Some? && Deserialized(bytes, z).value.0 == Normal(tx, z) <==> Recognized(tx, z))
  {
    hide Serialized, Deserialized, Normal, Sized, Assembled;
    var bytes := Serialized(tx, z).value;
    if tx.nonce.Some? && tx.signatures == [] {
      ReadWithNonce(tx, z);
      NormalAssembled(tx, z);
      AsLong(tx.signature);
    } else {
      ReadHasNonce(bytes, z);
      NormalKeeps(tx, z);
    }
  }

  lemma AsLong(bytes: Bytes)
    ensures |bytes| == 0 <==> bytes == []
  {
  }

  /** Whatever is read has a nonce and no list of signatures. */
  lemma ReadHasNonce(bytes: Bytes, z: Sizes)
    ensures Deserialized(bytes, z).Some? ==>
              Deserialized(bytes, z).value.0.nonce.Some? && Deserialized(bytes, z).value.0.signatures == []
  {
    hide ParsedCommon, ParsedVendorField, ParsedBody, ParsedSignature;
  }

  lemma NormalKeeps(tx: Data, z: Sizes)
    ensures Normal(tx, z).nonce == tx.nonce && Normal(tx, z).signatures == tx.signatures
  {
  }

  /** What is read where the nonce is there and nothing but a signature follows the body. */
  lemma ReadWithNonce(tx: Data, z: Sizes)
    requires Serialized(tx, z).Some? && Sized(tx, z) && tx.nonce.Some? && tx.signatures == []
    ensures var bytes, n := Serialized(tx, z).value, Normal(tx, z);
            var read := tx.signature == [] || CanReadSignature(z.signature);
            |bytes| >= |tx.signature| && Deserialized(bytes, z)
            == Some((Assembled(NormalCommon(tx, z), n.vendorField, n.body, if read then tx.signature else []),
                     if read then bytes else bytes[..|bytes| - |tx.signature|]))
  {
    hide CommonFields, VendorFields, BodyFields, BytesOf, ParsedCommon, ParsedVendorField, ParsedBody, ParsedSignature;
    hide Sized, CanReadSignature, TypeOf, Assembled;
    var fs := AllFields(tx, z);
    SizedParts(tx, z);
    assert forall f | f in CommonFields(tx, z) || f in VendorFields(tx) :: f in fs;
    AllBytes(tx, z);
    CommonRead(tx, z, BytesOf(VendorFields(tx)) + (BytesOf(BodyFields(tx.body)) + tx.signature));
    VendorFieldRead(tx, BytesOf(BodyFields(tx.body)) + tx.signature);
    BodyRead(tx, z, tx.signature);
    SignatureRead(tx.signature, z);
    NormalAssembled(tx, z);
    var bytes := Serialized(tx, z).value;
    assert bytes[..|bytes|] == bytes;
    var (c, r1) := ParsedCommon(z, Some(bytes));
    assert c == NormalCommon(tx, z);
    var (vf, r2) := ParsedVendorField(c.kind, r1);
    assert r2 == Some(BytesOf(BodyFields(tx.body)) + tx.signature);
    var (body, r3) := ParsedBody(z, c.kind, r2);
    assert r3 == Some(tx.signature);
    assert Deserialized(bytes, z).Some?;
  }

  lemma NormalAssembled(tx: Data, z: Sizes)
    requires tx.nonce.Some?
    ensures var n := Normal(tx, z);
            && (tx.signatures == [] ==> Assembled(NormalCommon(tx, z), n.vendorField, n.body, n.signature) == n)
            && Assembled(NormalCommon(tx, z), n.vendorField, n.body, []).signature == []
            && n.signature == tx.signature
            && n.vendorField == (if tx.body.Transfer? then tx.vendorField else [])
            && NormalCommon(tx, z).kind == TypeOf(tx.body) && NormalCommon(tx, z).typeGroup == CORE && n.body == tx.body
  {
  }

  lemma SizedParts(tx: Data, z: Sizes)
    requires Sized(tx, z)
    ensures |tx.sender| == z.publicKey && (tx.signature == [] || |tx.signature| == z.signature)
    ensures KnownType(CORE, TypeOf(tx.body))
  {
  }

  /** Transactions that differ after normalization have different bytes. */
  lemma SerializationIsInjective(tx: Data, other: Data, z: Sizes)
    requires Serialized(tx, z).Some? && Serialized(tx, z) == Serialized(other, z)
    requires Sized(tx, z) && Sized(other, z) && Recognized(tx, z) && Recognized(other, z)
    ensures Normal(tx, z) == Normal(other, z)
  {
    hide Serialized, Deserialized, Normal, Sized, Recognized;
    RoundTrip(tx, z);
    RoundTrip(other, z);
  }

  // ----- transactions that do not come back -----

  /** A resignation with a nonce or without one, and a signature. */
  function Sample(nonce: Option<int>, signature: Bytes): Data {
    Data(1, 30, nonce, Zeros(33), 100, [], ValidatorResignation, signature, [])
  }

  lemma SampleIsSerialized(nonce: Option<int>, signature: Bytes)
    requires |signature| <= 65 && (nonce.Some? ==> nonce.value == 1)
    ensures Serialized(Sample(nonce, signature), Sizes(33, 21, |signature|, 1000, 30)).Some?
    ensures Sized(Sample(nonce, signature), Sizes(33, 21, |signature|, 1000, 30))
  {
    var tx, z := Sample(nonce, signature), Sizes(33, 21, |signature|, 1000, 30);
    SampleFields(nonce, signature);
    assert BytesOf(BodyFields(tx.body)) == [];
    hide FieldBytes, BytesOf;
    FewBytes(AllFields(tx, z), 65);
  }

  lemma SampleFields(nonce: Option<int>, signature: Bytes)
    requires |signature| <= 65 && (nonce.Some? ==> nonce.value == 1)
    ensures var fs := AllFields(Sample(nonce, signature), Sizes(33, 21, |signature|, 1000, 30));
            |fs| <= 11 && forall f | f in fs :: InRange(f) && |FieldBytes(f)| <= 65
  {
    hide Power256, LittleEndian, BytesOf;
    OneByteFits(1);
    OneByteFits(2);
    OneByteFits(4);
    OneByteFits(8);
    assert BodyFields(ValidatorResignation) == [] && BytesOf([]) == [] by { NoBytes(); }
  }

  lemma NoBytes()
    ensures BytesOf([]) == []
  {
  }

  /** A signature of 65 bytes is taken for signatures of participants, and none is read. */
  lemma LongSignatureIsLost()
    ensures var tx, z := Sample(Some(1), Zeros(65)), Sizes(33, 21, 65, 1000, 30);
            && Serialized(tx, z).Some? && Sized(tx, z)
            && Deserialized(Serialized(tx, z).value, z).Some?
            && Deserialized(Serialized(tx, z).value, z).value.0.signature == []
  {
    hide Serialized, Deserialized, Sized;
    var tx, z := Sample(Some(1), Zeros(65)), Sizes(33, 21, 65, 1000, 30);
    SampleIsSerialized(Some(1), Zeros(65));
    ReadWithNonce(tx, z);
    assert tx.signature != [] && !CanReadSignature(65);
  }

  /** Without a nonce, the key and the fee are read 8 bytes too late. */
  lemma AbsentNonceIsMissed()
    ensures var tx, z := Sample(None, Zeros(64)), Sizes(33, 21, 64, 1000, 30);
            && Serialized(tx, z).Some? && Sized(tx, z)
            && (Deserialized(Serialized(tx, z).value, z).Some? ==>
                  Deserialized(Serialized(tx, z).value, z).value.0 != Normal(tx, z))
  {
    hide Serialized, Deserialized, Sized;
    var tx, z := Sample(None, Zeros(64)), Sizes(33, 21, 64, 1000, 30);
    SampleIsSerialized(None, Zeros(64));
    RoundTrip(tx, z);
  }
}
