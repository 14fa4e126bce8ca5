/** The byte form of a block: its header, and its transactions each behind its length. */
module BlockBytes {
  import opened Options
  import opened ByteBuffers
  import opened BlockCodec
  import T = TransactionCodec

  const LENGTH: nat := 2_000_000

  const TIMES := [Entry("version", Uint32, true), Entry("timestamp", Uint32, true), Entry("height", Uint32, true)]
  const LINKS := [Entry("previousBlock", Hash, true), Entry(COUNT, Uint32, true)]
  const TOTALS := [Entry("totalAmount", BigInt, true), Entry("totalFee", BigInt, true), Entry("reward", BigInt, true)]
  const PAYLOAD := [Entry("payloadLength", Uint32, true), Entry("payloadHash", Hash, true)]

  function SealSchema(includeSignature: bool): seq<Entry> {
    [Entry("generatorPublicKey", PublicKey, true), Entry("blockSignature", Signature, includeSignature)]
  }

  function HeaderSchema(includeSignature: bool): seq<Entry> {
    TIMES + LINKS + TOTALS + PAYLOAD + SealSchema(includeSignature)
  }

  const TRANSACTIONS := Entry("transactions", Transactions, false)

  method Serialize(data: Properties, includeSignature: bool) returns (bytes: Option<Bytes>)
    ensures bytes == Serialized(HeaderSchema(includeSignature), data, LENGTH)
  {
    bytes := BlockCodec.Serialize(HeaderSchema(includeSignature), data, LENGTH);
  }

  method SerializeWithTransactions(data: Properties) returns (bytes: Option<Bytes>)
    ensures bytes == Serialized(HeaderSchema(true) + [TRANSACTIONS], data, LENGTH)
  {
    bytes := BlockCodec.Serialize(HeaderSchema(true) + [TRANSACTIONS], data, LENGTH);
  }

  // ----- deserializing -----

  /** What the transaction factory reads with: the sizes of keys and signatures, and the schemas' answer. */
  datatype Factory = Factory(sizes: T.Sizes, accepts: T.Data -> bool)

  /** A transaction from its bytes, unless they cannot be read or the schemas refuse it. */
  function FromBytes(bytes: Bytes, f: Factory): Option<T.Data> {
    match T.Deserialized(bytes, f.sizes)
    case None => None
    case Some((tx, _)) => if f.accepts(tx) then Some(tx) else None
  }

  function AllDeserialized(items: seq<Bytes>, f: Factory): Option<seq<T.Data>> {
    if items == [] then Some([]) else
      match FromBytes(items[0], f)
      case None => None
      case Some(tx) =>
        match AllDeserialized(items[1..], f)
        case None => None
        case Some(txs) => Some([tx] + txs)
  }

  function ItemsOf(block: Properties): seq<Bytes> {
    if "transactions" in block && block["transactions"].List? then block["transactions"].items else []
  }

  /** The header's properties and the transactions; none where the deserializer throws. */
  function DeserializedBlock(bytes: Bytes, headerOnly: bool, z: Lengths, f: Factory)
    : Option<(Properties, seq<T.Data>)>
  {
    var (block, r) := Deserialized(HeaderSchema(true), Some(bytes), map[], z);
    if r.None? then None
    else if headerOnly || |r.value| == 0 then Some((block, []))
    else
      var (full, r) := Deserialized([TRANSACTIONS], r, block, z);
      if r.None? then None else
        match AllDeserialized(ItemsOf(full), f)
        case None => None
        case Some(txs) => Some((block, txs))
  }

  method DeserializeAll(items: seq<Bytes>, f: Factory) returns (txs: Option<seq<T.Data>>)
    ensures txs == AllDeserialized(items, f)
  {
    hide T.Deserialized;
    var done: seq<T.Data> := [];
    var index := 0;
    assert items[0..] == items;
    assert AllDeserialized(items, f).Some? ==>
        done + AllDeserialized(items, f).value == AllDeserialized(items, f).value;
    while index < |items|
      invariant 0 <= index <= |items|
      invariant AllDeserialized(items, f) ==
                match AllDeserialized(items[index..], f) case None => None case Some(rest) => Some(done + rest)
    {
      assert items[index..][1..] == items[index + 1..];
      var read := T.Deserialize(items[index], f.sizes);
      if read.None? { return None; }
      var tx := read.value.0;
      if !f.accepts(tx) { return None; }
      ghost var rest := AllDeserialized(items[index + 1..], f);
      assert rest.Some? ==> done + ([tx] + rest.value) == (done + [tx]) + rest.value;
      done := done + [tx];
      index := index + 1;
    }
    assert done + [] == done;
    return Some(done);
  }

  method Deserialize(bytes: Bytes, headerOnly: bool, z: Lengths, f: Factory)
    returns (result: Option<(Properties, seq<T.Data>)>)
    ensures result == DeserializedBlock(bytes, headerOnly, z, f)
  {
    hide Deserialized, AllDeserialized, HeaderSchema;
    var buffer := new ByteBuffer.FromBuffer(bytes);
    var block := BlockCodec.Deserialize(HeaderSchema(true), buffer, map[], z);
    if buffer.threw { return None; }
    var length := buffer.GetRemainderLength();
    if headerOnly || length == 0 { return Some((block, [])); }
    var full := BlockCodec.Deserialize([TRANSACTIONS], buffer, block, z);
    if buffer.threw { return None; }
    var txs := DeserializeAll(ItemsOf(full), f);
    if txs.None? { return None; }
    return Some((block, txs.value));
  }

  // ----- the round trips -----

  lemma {:induction false} SchemaFieldsAppend(a: seq<Entry>, b: seq<Entry>, data: Properties)
    ensures SchemaFields(a + b, data) ==
            if SchemaFields(a, data).None? || SchemaFields(b, data).None? then None
            else Some(SchemaFields(a, data).value + SchemaFields(b, data).value)
    decreases |a|
  {
    hide EntryFields;
    if a == [] {
      assert a + b == b;
      assert SchemaFields(b, data).Some? ==> [] + SchemaFields(b, data).value == SchemaFields(b, data).value;
    } else {
      SchemaFieldsAppend(a[1..], b, data);
      assert (a + b)[1..] == a[1..] + b;
      var first, rest, after := EntryFields(a[0], data), SchemaFields(a[1..], data), SchemaFields(b, data);
      assert first.Some? && rest.Some? && after.Some? ==>
          first.value + (rest.value + after.value) == (first.value + rest.value) + after.value;
    }
  }

  /** The header's properties are there, and its byte strings have the lengths that the deserializer reads. */
  predicate SizedHeader(data: Properties, z: Lengths) {
    forall e | e in HeaderSchema(true) :: e.property in data && SizedValue(e, data[e.property], z)
  }

  lemma {:induction false} NumbersAreReadable(schema: seq<Entry>, data: Properties, target: Properties, z: Lengths)
    requires forall e | e in schema :: !e.kind.Transactions? && e.property in data && SizedValue(e, data[e.property], z)
    ensures Readable(schema, data, target, z)
    decreases |schema|
  {
    hide SizedValue;
    if schema != [] {
      NumbersAreReadable(schema[1..], data, target[schema[0].property := data[schema[0].property]], z);
    }
  }

  lemma HeaderEntries(e: Entry)
    ensures e in HeaderSchema(true) ==> !e.kind.Transactions?
    ensures Entry(COUNT, Uint32, true) in HeaderSchema(true)
  {
    assert HeaderSchema(true)[4] == Entry(COUNT, Uint32, true);
  }

  /** The header comes back with every property, and what follows it is left. */
  lemma HeaderRead(data: Properties, z: Lengths, tail: Bytes)
    requires SizedHeader(data, z)
    requires SchemaFields(HeaderSchema(true), data).Some? && AllInRange(SchemaFields(HeaderSchema(true), data).value)
    ensures var (block, r) := Deserialized(HeaderSchema(true),
                                           Some(BytesOf(SchemaFields(HeaderSchema(true), data).value) + tail),
                                           map[], z);
            && r == Some(tail)
            && (forall e | e in HeaderSchema(true) :: e.property in block && block[e.property] == data[e.property])
            && CountOf(block) == CountOf(data)
  {
    hide HeaderSchema, BytesOf, Deserialized, SchemaFields, SizedValue, AllInRange;
    forall e | e in HeaderSchema(true) ensures !e.kind.Transactions? { HeaderEntries(e); }
    NumbersAreReadable(HeaderSchema(true), data, map[], z);
    SchemaRead(HeaderSchema(true), data, map[], z, tail);
    forall e | e in HeaderSchema(true)
      ensures e.property in Filled(HeaderSchema(true), data, map[])
      ensures Filled(HeaderSchema(true), data, map[])[e.property] == data[e.property]
    {
      FilledAt(HeaderSchema(true), data, map[], e.property);
    }
    HeaderEntries(Entry(COUNT, Uint32, true));
  }

  /** The transactions of a block and their bytes. */
  ghost predicate SerializedTo(txs: seq<T.Data>, items: seq<Bytes>, f: Factory) {
    && |items| == |txs|
    && forall i | 0 <= i < |txs| :: T.Serialized(txs[i], f.sizes) == Some(items[i]) && T.Sized(txs[i], f.sizes)
  }

  function AllNormal(txs: seq<T.Data>, f: Factory): seq<T.Data> {
    if txs == [] then [] else [T.Normal(txs[0], f.sizes)] + AllNormal(txs[1..], f)
  }

  /** The deserializer recognizes each of them, and the schemas accept what it reads. */
  ghost predicate AllRecognized(txs: seq<T.Data>, f: Factory) {
    forall i | 0 <= i < |txs| :: ReadBack(txs[i], f)
  }

  predicate ReadBack(tx: T.Data, f: Factory) {
    T.Recognized(tx, f.sizes) && f.accepts(T.Normal(tx, f.sizes))
  }

  lemma {:induction false} TransactionsRead(txs: seq<T.Data>, items: seq<Bytes>, f: Factory)
    requires SerializedTo(txs, items, f)
    ensures AllDeserialized(items, f) == Some(AllNormal(txs, f)) <==> AllRecognized(txs, f)
    decreases |txs|
  {
    hide T.Serialized, T.Deserialized, T.Sized, T.Normal, T.Recognized;
    if txs != [] {
      T.RoundTrip(txs[0], f.sizes);
      TransactionsRead(txs[1..], items[1..], f);
      assert AllRecognized(txs, f) <==> ReadBack(txs[0], f) && AllRecognized(txs[1..], f) by {
        assert forall i | 0 < i < |txs| :: txs[i] == txs[1..][i - 1];
      }
      var first, rest := FromBytes(items[0], f), AllDeserialized(items[1..], f);
      if first.Some? && rest.Some? {
        SameList(first.value, rest.value, T.Normal(txs[0], f.sizes), AllNormal(txs[1..], f));
      }
    }
  }

  lemma SameList<X>(a: X, xs: seq<X>, b: X, ys: seq<X>)
    ensures [a] + xs == [b] + ys <==> a == b && xs == ys
  {
    assert ([a] + xs)[1..] == xs && ([b] + ys)[1..] == ys;
    if [a] + xs == [b] + ys {
      assert ([a] + xs)[0] == ([b] + ys)[0];
    }
  }

  /** The bytes after the header of a block with transactions are the transactions, read to the last one. */
  lemma BodyRead(data: Properties, block: Properties, items: seq<Bytes>, z: Lengths, tail: Bytes)
    requires CountOf(block) == |items| && AllInRange(ItemFields(items))
    ensures var (full, r) := Deserialized([TRANSACTIONS], Some(BytesOf(ItemFields(items)) + tail), block, z);
            r == Some(tail) && ItemsOf(full) == items
  {
    hide BytesOf, TakeNumber, TakeBytes, TakeItems, CountOf;
    ItemsRead(items, tail);
    assert [TRANSACTIONS][1..] == [];
  }

  lemma TransactionFields(data: Properties, items: seq<Bytes>)
    requires "transactions" in data && data["transactions"] == List(items)
    ensures SchemaFields([TRANSACTIONS], data) == Some(ItemFields(items))
  {
    assert [TRANSACTIONS][1..] == [];
    assert ItemFields(items) + [] == ItemFields(items);
  }

  lemma {:induction false} ItemsTakeSpace(items: seq<Bytes>)
    ensures |BytesOf(ItemFields(items))| >= 4 * |items|
    decreases |items|
  {
    if items != [] {
      var first := [Number(|items[0]|, 4), Raw(items[0])];
      ItemsTakeSpace(items[1..]);
      BytesOfAppend(first, ItemFields(items[1..]));
    }
  }

  /** The header of a block with its transactions comes back whole, whatever zeros follow it, and so do all its
      transactions exactly if the deserializer recognizes each of them and the schemas accept it. */
  lemma BlockRoundTrip(data: Properties, txs: seq<T.Data>, items: seq<Bytes>, z: Lengths, f: Factory)
    requires SerializedTo(txs, items, f)
    requires "transactions" in data && data["transactions"] == List(items) && CountOf(data) == |items|
    requires SizedHeader(data, z)
    requires Serialized(HeaderSchema(true) + [TRANSACTIONS], data, LENGTH).Some?
    ensures var result := DeserializedBlock(Serialized(HeaderSchema(true) + [TRANSACTIONS], data, LENGTH).value, false,
                                            z, f);
            && (result.Some? && result.value.1 == AllNormal(txs, f) <==> AllRecognized(txs, f))
            && (result.Some? ==> forall e | e in HeaderSchema(true) ::
                  e.property in result.value.0 && result.value.0[e.property] == data[e.property])
  {
    hide HeaderSchema, BytesOf, Deserialized, SchemaFields, SizedHeader, AllDeserialized, SerializedTo, ItemFields,
      CountOf, AllRecognized;
    SchemaFieldsAppend(HeaderSchema(true), [TRANSACTIONS], data);
    TransactionFields(data, items);
    var hs, gs := SchemaFields(HeaderSchema(true), data).value, ItemFields(items);
    BytesOfAppend(hs, gs);
    assert forall f | f in hs || f in gs :: f in hs + gs;
    var zeros := Zeros(LENGTH - |BytesOf(hs + gs)|);
    assert BytesOf(hs + gs) + zeros == BytesOf(hs) + (BytesOf(gs) + zeros);
    HeaderRead(data, z, BytesOf(gs) + zeros);
    var (block, r) := Deserialized(HeaderSchema(true), Some(BytesOf(hs + gs) + zeros), map[], z);
    BodyRead(data, block, items, z, zeros);
    TransactionsRead(txs, items, f);
    ItemsTakeSpace(items);
    SameLength(txs, items, f);
    if items == [] { NoTransactions(txs, f); }
  }

  lemma SameLength(txs: seq<T.Data>, items: seq<Bytes>, f: Factory)
    requires SerializedTo(txs, items, f)
    ensures |items| == |txs|
  {
  }

  lemma NoTransactions(txs: seq<T.Data>, f: Factory)
    requires txs == []
    ensures AllNormal(txs, f) == []
    ensures AllRecognized(txs, f)
  {
  }

  // ----- headers on their own -----

  lemma EmptyTransaction(t: T.Sizes)
    ensures T.Deserialized([], t) == None
  {
    assert TakeBytes(Some([]), 1).1 == None;
    hide TakeBytes;
    NothingAfterThrow(t);
  }

  lemma NothingAfterThrow(t: T.Sizes)
    ensures T.ParsedCommon(t, Some([])).1 == None
  {
  }

  lemma {:induction false} ZerosAreZero(n: nat)
    ensures FromLittleEndian(Zeros(n)) == 0
  {
    if n > 0 {
      assert Zeros(n)[1..] == Zeros(n - 1);
      ZerosAreZero(n - 1);
    }
  }

  lemma ZerosFirst(k: nat)
    requires k > 0
    ensures var (length, r) := TakeNumber(Some(Zeros(k)), 4);
            r.Some? ==> length == 0 && TakeBytes(r, length).0 == []
  {
    if k >= 4 {
      assert Zeros(k)[..4] == Zeros(4);
      ZerosAreZero(4);
    }
  }

  lemma {:induction false} ThrownItems(count: int)
    ensures TakeItems(None, count).1 == None
    decreases count
  {
    if count > 0 { ThrownItems(count - 1); }
  }

  /** Zeros read as transactions are empty ones, which the transaction deserializer refuses. */
  lemma ZerosAreNoTransactions(k: nat, count: int, f: Factory)
    requires k > 0 && count > 0
    ensures var (items, r) := TakeItems(Some(Zeros(k)), count);
            r.None? || AllDeserialized(items, f).None?
  {
    hide TakeNumber, TakeBytes, T.Deserialized;
    ZerosFirst(k);
    EmptyTransaction(f.sizes);
    var (length, r) := TakeNumber(Some(Zeros(k)), 4);
    if r.None? {
      ThrownTake(length);
      ThrownItems(count - 1);
    }
  }

  lemma ThrownTake(n: nat)
    ensures TakeBytes(None, n).1 == None
  {
  }

  /** The bytes of a header alone give the header back; asked for the whole block, the deserializer throws on them
      exactly when the header counts transactions, because it reads them from the zeros behind the header. */
  lemma HeaderBytes(data: Properties, z: Lengths, f: Factory)
    requires SizedHeader(data, z) && Serialized(HeaderSchema(true), data, LENGTH).Some?
    requires |BytesOf(SchemaFields(HeaderSchema(true), data).value)| < LENGTH
    ensures var bytes := Serialized(HeaderSchema(true), data, LENGTH).value;
            && DeserializedBlock(bytes, true, z, f).Some?
            && (forall e | e in HeaderSchema(true) ::
                  && e.property in DeserializedBlock(bytes, true, z, f).value.0
                  && DeserializedBlock(bytes, true, z, f).value.0[e.property] == data[e.property])
            && (DeserializedBlock(bytes, false, z, f).Some? <==> CountOf(data) <= 0)
  {
    hide HeaderSchema, BytesOf, SchemaFields, SizedHeader, CountOf, AllDeserialized;
    var hs := SchemaFields(HeaderSchema(true), data).value;
    var k := LENGTH - |BytesOf(hs)|;
    HeaderRead(data, z, Zeros(k));
    var (block, r) := Deserialized(HeaderSchema(true), Some(BytesOf(hs) + Zeros(k)), map[], z);
    TransactionsOfZeros(block, k, z, f);
  }

  lemma TransactionsOfZeros(block: Properties, k: nat, z: Lengths, f: Factory)
    requires k > 0
    ensures var (full, r) := Deserialized([TRANSACTIONS], Some(Zeros(k)), block, z);
            r.Some? && AllDeserialized(ItemsOf(full), f).Some? <==> CountOf(block) <= 0
  {
    hide CountOf;
    assert [TRANSACTIONS][1..] == [];
    if CountOf(block) > 0 {
      hide TakeItems;
      ZerosAreNoTransactions(k, CountOf(block), f);
    }
  }

  function SampleHeader(): Properties {
    map["version" := Amount(1), "timestamp" := Amount(8), "height" := Amount(2), "previousBlock" := Hex(Zeros(32)),
        COUNT := Amount(1), "totalAmount" := Amount(1), "totalFee" := Amount(1), "reward" := Amount(0),
        "payloadLength" := Amount(32), "payloadHash" := Hex(Zeros(32)), "generatorPublicKey" := Hex(Zeros(33)),
        "blockSignature" := Hex(Zeros(64))]
  }

  /** Such a header: it counts one transaction, and its bytes cannot be read as a block. */
  lemma HeaderIsNoBlock(f: Factory)
    ensures var data, z := SampleHeader(), Lengths(32, 21, 33, 64);
            && SizedHeader(data, z) && Serialized(HeaderSchema(true), data, LENGTH).Some?
            && DeserializedBlock(Serialized(HeaderSchema(true), data, LENGTH).value, true, z, f).Some?
            && DeserializedBlock(Serialized(HeaderSchema(true), data, LENGTH).value, false, z, f) == None
  {
    hide SampleHeader, HeaderSchema, SchemaFields, BytesOf, DeserializedBlock, SizedHeader, Serialized, CountOf;
    SampleIsSerialized();
    HeaderBytes(SampleHeader(), Lengths(32, 21, 33, 64), f);
  }

  lemma SampleIsSerialized()
    ensures SizedHeader(SampleHeader(), Lengths(32, 21, 33, 64)) && CountOf(SampleHeader()) == 1
    ensures Serialized(HeaderSchema(true), SampleHeader(), LENGTH).Some?
    ensures |BytesOf(SchemaFields(HeaderSchema(true), SampleHeader()).value)| < LENGTH
  {
    hide SchemaFields, BytesOf, FieldBytes, SampleHeader, ValueFields, SizedValue, InRange;
    var data, z := SampleHeader(), Lengths(32, 21, 33, 64);
    SampleCount();
    assert |HeaderSchema(true)| == 12;
    hide HeaderSchema;
    forall e | e in HeaderSchema(true) ensures !e.kind.Transactions? && SampleEntry(e, data, z) { SampleEntries(e); }
    SimpleFields(HeaderSchema(true), data, z);
    FewBytes(SchemaFields(HeaderSchema(true), data).value, 64);
  }

  lemma SampleCount()
    ensures CountOf(SampleHeader()) == 1
  {
  }

  /** The property is there, is written as one field of at most 64 bytes, and has the size that is read. */
  ghost predicate SampleEntry(e: Entry, data: Properties, z: Lengths) {
    && e.property in data && SizedValue(e, data[e.property], z)
    && var fs := ValueFields(e.kind, data[e.property]);
       fs.Some? && |fs.value| == 1 && InRange(fs.value[0]) && |FieldBytes(fs.value[0])| <= 64
  }

  lemma SampleEntries(e: Entry)
    requires e in HeaderSchema(true)
    ensures !e.kind.Transactions? && SampleEntry(e, SampleHeader(), Lengths(32, 21, 33, 64))
  {
    hide SampleEntry, SampleHeader;
    if e in TIMES {
      SampleTimes(e);
    } else if e in LINKS {
      SampleLinks(e);
    } else if e in TOTALS {
      SampleTotals(e);
    } else if e in PAYLOAD {
      SamplePayload(e);
    } else {
      SampleSeal(e);
    }
  }

  lemma SampleTimes(e: Entry)
    requires e in TIMES
    ensures SampleEntry(e, SampleHeader(), Lengths(32, 21, 33, 64))
  {
    hide SampleEntry;
    SmallNumber(e, SampleHeader(), Lengths(32, 21, 33, 64));
  }

  lemma SampleLinks(e: Entry)
    requires e in LINKS
    ensures SampleEntry(e, SampleHeader(), Lengths(32, 21, 33, 64))
  {
    hide SampleEntry, Zeros;
    if e.kind.Uint32? {
      SmallNumber(e, SampleHeader(), Lengths(32, 21, 33, 64));
    } else {
      ShortBytes(e, SampleHeader(), Lengths(32, 21, 33, 64));
    }
  }

  lemma SampleTotals(e: Entry)
    requires e in TOTALS
    ensures SampleEntry(e, SampleHeader(), Lengths(32, 21, 33, 64))
  {
    hide SampleEntry;
    SmallNumber(e, SampleHeader(), Lengths(32, 21, 33, 64));
  }

  lemma SamplePayload(e: Entry)
    requires e in PAYLOAD
    ensures SampleEntry(e, SampleHeader(), Lengths(32, 21, 33, 64))
  {
    hide SampleEntry, Zeros;
    if e.kind.Uint32? {
      SmallNumber(e, SampleHeader(), Lengths(32, 21, 33, 64));
    } else {
      ShortBytes(e, SampleHeader(), Lengths(32, 21, 33, 64));
    }
  }

  lemma SampleSeal(e: Entry)
    requires e in SealSchema(true)
    ensures SampleEntry(e, SampleHeader(), Lengths(32, 21, 33, 64))
  {
    hide SampleEntry, Zeros;
    ShortBytes(e, SampleHeader(), Lengths(32, 21, 33, 64));
  }

  lemma SmallNumber(e: Entry, data: Properties, z: Lengths)
    requires e.property in data && data[e.property].Amount? && 0 <= data[e.property].amount < 256
    requires e.kind.Uint32? || e.kind.BigInt?
    ensures SampleEntry(e, data, z)
  {
    OneByteFits(if e.kind.Uint32? then 4 else 8);
  }

  lemma ShortBytes(e: Entry, data: Properties, z: Lengths)
    requires e.property in data && data[e.property].Hex? && |data[e.property].bytes| <= 64
    requires e.kind.Hash? || e.kind.PublicKey? || e.kind.Signature?
    requires SizedValue(e, data[e.property], z)
    ensures SampleEntry(e, data, z)
  {
  }

  lemma {:induction false} SimpleFields(schema: seq<Entry>, data: Properties, z: Lengths)
    requires forall e | e in schema :: SampleEntry(e, data, z)
    ensures SchemaFields(schema, data).Some?
    ensures var fs := SchemaFields(schema, data).value;
            |fs| == |schema| && forall f | f in fs :: InRange(f) && |FieldBytes(f)| <= 64
    decreases |schema|
  {
    hide ValueFields, InRange, FieldBytes, SizedValue;
    if schema != [] {
      assert SampleEntry(schema[0], data, z);
      SimpleFields(schema[1..], data, z);
    }
  }

  // ----- the size -----

  /** Bytes that a schema writes for properties of the right lengths, one entry after the other. */
  function Width(e: Entry, data: Properties): nat {
    if e.property !in data || ValueFields(e.kind, data[e.property]).None? then 0
    else |BytesOf(ValueFields(e.kind, data[e.property]).value)|
  }

  function Widths(schema: seq<Entry>, data: Properties): nat {
    if schema == [] then 0 else Width(schema[0], data) + Widths(schema[1..], data)
  }

  lemma {:induction false} WidthsWritten(schema: seq<Entry>, data: Properties)
    requires SchemaFields(schema, data).Some?
    ensures |BytesOf(SchemaFields(schema, data).value)| == Widths(schema, data)
    decreases |schema|
  {
    hide ValueFields;
    if schema != [] {
      WidthsWritten(schema[1..], data);
      BytesOfAppend(EntryFields(schema[0], data).value, SchemaFields(schema[1..], data).value);
    }
  }

  lemma {:induction false} WidthsAppend(a: seq<Entry>, b: seq<Entry>, data: Properties)
    ensures Widths(a + b, data) == Widths(a, data) + Widths(b, data)
    decreases |a|
  {
    hide Width;
    if a == [] {
      assert a + b == b;
    } else {
      WidthsAppend(a[1..], b, data);
      assert (a + b)[1..] == a[1..] + b;
    }
  }

  function HexLength(data: Properties, property: string): nat {
    if property in data && data[property].Hex? then |data[property].bytes| else 0
  }

  /** `Serializer.size`: the header, and each transaction behind its length. */
  method Size(data: Properties, serialized: seq<Bytes>) returns (size: nat)
    ensures size == SizeOf(data, serialized)
  {
    hide BytesOf;
    size := 4 + 4 + 4 + 32 + 4 + 8 + 8 + 8 + 4 + HexLength(data, "payloadHash") + HexLength(data, "generatorPublicKey")
            + HexLength(data, "blockSignature");
    var i := 0;
    assert serialized[0..] == serialized;
    while i < |serialized|
      invariant 0 <= i <= |serialized|
      invariant size + ItemsSize(serialized[i..]) == SizeOf(data, serialized)
    {
      assert serialized[i..][1..] == serialized[i + 1..];
      size := size + 4 + |serialized[i]|;
      i := i + 1;
    }
  }

  function ItemsSize(items: seq<Bytes>): nat {
    if items == [] then 0 else 4 + |items[0]| + ItemsSize(items[1..])
  }

  function SizeOf(data: Properties, items: seq<Bytes>): nat {
    76 + HexLength(data, "payloadHash") + HexLength(data, "generatorPublicKey") + HexLength(data, "blockSignature")
    + ItemsSize(items)
  }

  lemma {:induction false} ItemsSizeWritten(items: seq<Bytes>)
    ensures |BytesOf(ItemFields(items))| == ItemsSize(items)
    decreases |items|
  {
    if items != [] {
      ItemsSizeWritten(items[1..]);
      BytesOfAppend([Number(|items[0]|, 4), Raw(items[0])], ItemFields(items[1..]));
      BytesOfAppend([Number(|items[0]|, 4)], [Raw(items[0])]);
      BytesOfOne(Number(|items[0]|, 4));
      BytesOfOne(Raw(items[0]));
      assert [Number(|items[0]|, 4), Raw(items[0])] == [Number(|items[0]|, 4)] + [Raw(items[0])];
    }
  }

  lemma EntryWidth(e: Entry, data: Properties)
    requires e.property in data && ValueFields(e.kind, data[e.property]).Some? && !e.kind.Transactions?
    ensures Width(e, data) == if e.kind.Uint32? then 4 else if e.kind.Uint64? || e.kind.BigInt? then 8
                              else HexLength(data, e.property)
  {
    var v := data[e.property];
    if e.kind.Uint32? || e.kind.Uint64? || e.kind.BigInt? {
      BytesOfOne(Number(v.amount, if e.kind.Uint32? then 4 else 8));
    } else {
      BytesOfOne(Raw(v.bytes));
    }
  }

  lemma WidthsOfTwo(a: Entry, b: Entry, data: Properties)
    ensures Widths([a, b], data) == Width(a, data) + Width(b, data)
    ensures Widths([a], data) == Width(a, data)
  {
    hide Width;
    assert [a, b][1..] == [b] && [b][1..] == [] && [a][1..] == [];
    assert Widths([b], data) == Width(b, data) + Widths([], data);
  }

  lemma {:induction false} EntriesWritten(schema: seq<Entry>, data: Properties, e: Entry)
    requires SchemaFields(schema, data).Some? && e in schema && e.required
    ensures e.property in data && ValueFields(e.kind, data[e.property]).Some?
    decreases |schema|
  {
    hide ValueFields;
    if e != schema[0] {
      EntriesWritten(schema[1..], data, e);
    }
  }

  lemma HeaderParts(data: Properties)
    ensures Widths(HeaderSchema(true), data) ==
            Width(TIMES[0], data) + Width(TIMES[1], data) + Width(TIMES[2], data)
            + Width(LINKS[0], data) + Width(LINKS[1], data)
            + Width(TOTALS[0], data) + Width(TOTALS[1], data) + Width(TOTALS[2], data)
            + Width(PAYLOAD[0], data) + Width(PAYLOAD[1], data)
            + Width(SealSchema(true)[0], data) + Width(SealSchema(true)[1], data)
  {
    hide Widths, Width;
    var seal := SealSchema(true);
    WidthsAppend(TIMES + LINKS + TOTALS + PAYLOAD, seal, data);
    WidthsAppend(TIMES + LINKS + TOTALS, PAYLOAD, data);
    WidthsAppend(TIMES + LINKS, TOTALS, data);
    WidthsAppend(TIMES, LINKS, data);
    assert TIMES == [TIMES[0], TIMES[1]] + [TIMES[2]] && TOTALS == [TOTALS[0], TOTALS[1]] + [TOTALS[2]];
    WidthsAppend([TIMES[0], TIMES[1]], [TIMES[2]], data);
    WidthsAppend([TOTALS[0], TOTALS[1]], [TOTALS[2]], data);
    WidthsOfTwo(TIMES[0], TIMES[1], data);
    WidthsOfTwo(TIMES[2], TIMES[2], data);
    WidthsOfTwo(TOTALS[0], TOTALS[1], data);
    WidthsOfTwo(TOTALS[2], TOTALS[2], data);
    WidthsOfTwo(LINKS[0], LINKS[1], data);
    WidthsOfTwo(PAYLOAD[0], PAYLOAD[1], data);
    WidthsOfTwo(seal[0], seal[1], data);
  }

  lemma HeaderEntryWidth(i: nat, data: Properties)
    requires i < 12 && SchemaFields(HeaderSchema(true), data).Some?
    ensures |HeaderSchema(true)| == 12
    ensures var e := HeaderSchema(true)[i];
            Width(e, data) == if e.kind.Uint32? then 4 else if e.kind.BigInt? then 8 else HexLength(data, e.property)
  {
    hide Width, SchemaFields, HexLength;
    var e := HeaderSchema(true)[i];
    HeaderEntries(e);
    EntriesWritten(HeaderSchema(true), data, e);
    EntryWidth(e, data);
  }

  lemma HeaderWidths(data: Properties)
    requires SchemaFields(HeaderSchema(true), data).Some?
    ensures Widths(HeaderSchema(true), data) == 44 + HexLength(data, "previousBlock")
            + HexLength(data, "payloadHash") + HexLength(data, "generatorPublicKey") + HexLength(data, "blockSignature")
  {
    hide Widths, Width, SchemaFields, HexLength;
    HeaderParts(data);
    HeaderEntryWidth(0, data);
    HeaderEntryWidth(1, data);
    HeaderEntryWidth(2, data);
    HeaderEntryWidth(3, data);
    HeaderEntryWidth(4, data);
    HeaderEntryWidth(5, data);
    HeaderEntryWidth(6, data);
    HeaderEntryWidth(7, data);
    HeaderEntryWidth(8, data);
    HeaderEntryWidth(9, data);
    HeaderEntryWidth(10, data);
    HeaderEntryWidth(11, data);
  }

  /** The size is the number of bytes that are written before the zeros, exactly when the previous block's id has the
      32 bytes that the size assumes. */
  lemma SizeIsWritten(data: Properties, items: seq<Bytes>)
    requires "transactions" in data && data["transactions"] == List(items)
    requires SchemaFields(HeaderSchema(true) + [TRANSACTIONS], data).Some?
    ensures SizeOf(data, items) == |BytesOf(SchemaFields(HeaderSchema(true) + [TRANSACTIONS], data).value)|
       <==> HexLength(data, "previousBlock") == 32
  {
    hide BytesOf, SchemaFields, HeaderSchema, ItemFields, HexLength;
    SchemaFieldsAppend(HeaderSchema(true), [TRANSACTIONS], data);
    TransactionFields(data, items);
    BytesOfAppend(SchemaFields(HeaderSchema(true), data).value, ItemFields(items));
    ItemsSizeWritten(items);
    WidthsWritten(HeaderSchema(true), data);
    HeaderWidths(data);
  }
}
