/** The schema-driven serializer, and the byte form of blocks that it gives. */
module BlockCodec {
  import opened Options
  import opened Arithmetic
  import opened ByteBuffers
  import TransactionCodec

  datatype Kind = Uint32 | Uint64 | BigInt | Hash | Address | PublicKey | Signature | Transactions

  /** A hash may have a size of its own. */
  datatype Entry = Entry(property: string, kind: Kind, required: bool, size: Option<nat> := None)

  datatype Value = Amount(amount: int) | Hex(bytes: Bytes) | List(items: seq<Bytes>)

  type Properties = map<string, Value>

  /** The lengths of the byte strings of each kind. */
  datatype Lengths = Lengths(hash: nat, address: nat, publicKey: nat, signature: nat)

  // ----- serializing -----

  function ItemFields(items: seq<Bytes>): seq<Field> {
    if items == [] then [] else [Number(|items[0]|, 4), Raw(items[0])] + ItemFields(items[1..])
  }

  /** None where the value is not of the kind, so that writing it throws. */
  function ValueFields(kind: Kind, v: Value): Option<seq<Field>> {
    match (kind, v)
    case (Uint32, Amount(a)) => Some([Number(a, 4)])
    case (Uint64, Amount(a)) => Some([Number(a, 8)])
    case (BigInt, Amount(a)) => Some([Number(a, 8)])
    case (Hash, Hex(bytes)) => Some([Raw(bytes)])
    case (Address, Hex(bytes)) => Some([Raw(bytes)])
    case (PublicKey, Hex(bytes)) => Some([Raw(bytes)])
    case (Signature, Hex(bytes)) => Some([Raw(bytes)])
    case (Transactions, List(items)) => Some(ItemFields(items))
    case _ => None
  }

  function EntryFields(e: Entry, data: Properties): Option<seq<Field>> {
    if e.property in data then ValueFields(e.kind, data[e.property])
    else if e.required then None
    else Some([])
  }

  function SchemaFields(schema: seq<Entry>, data: Properties): Option<seq<Field>> {
    if schema == [] then Some([]) else
      match EntryFields(schema[0], data)
      case None => None
      case Some(fs) =>
        match SchemaFields(schema[1..], data)
        case None => None
        case Some(gs) => Some(fs + gs)
  }

  /** Bytes that are skipped at the start stay zeros. */
  function Skipping(skip: int, fs: seq<Field>): seq<Field> {
    if skip > 0 then [Raw(Zeros(skip))] + fs else fs
  }

  /** The whole buffer, zeros included; none where the serializer throws. */
  function Serialized(schema: seq<Entry>, data: Properties, length: nat, skip: int := 0): Option<Bytes> {
    match SchemaFields(schema, data)
    case None => None
    case Some(fs) =>
      var all := Skipping(skip, fs);
      if Fits(all, length) then Some(BytesOf(all) + Zeros(length - |BytesOf(all)|)) else None
  }

  method WriteItems(items: seq<Bytes>, buff: ByteBuffer)
    requires buff.Written()
    modifies buff`offset, buff`threw, buff`log, buff.buffer
    ensures buff.Written() && buff.log == old(buff.log) + ItemFields(items)
  {
    hide ByteBuffer.Written;
    var i := 0;
    assert items[0..] == items;
    while i < |items|
      invariant 0 <= i <= |items| && buff.Written()
      invariant buff.log + ItemFields(items[i..]) == old(buff.log) + ItemFields(items)
    {
      assert items[i..][1..] == items[i + 1..];
      buff.WriteUint32(|items[i]|);
      buff.WriteBytes(items[i]);
      i := i + 1;
    }
    assert items[i..] == [];
  }

  method WriteValue(kind: Kind, v: Value, buff: ByteBuffer) returns (ok: bool)
    requires buff.Written()
    modifies buff`offset, buff`threw, buff`log, buff.buffer
    ensures buff.Written() && ok == ValueFields(kind, v).Some?
    ensures ok ==> buff.log == old(buff.log) + ValueFields(kind, v).value
  {
    hide ByteBuffer.Written;
    ok := true;
    match (kind, v) {
      case (Uint32, Amount(a)) => buff.WriteUint32(a);
      case (Uint64, Amount(a)) => buff.WriteUint64(a);
      case (BigInt, Amount(a)) => buff.WriteUint64(a);
      case (Hash, Hex(bytes)) => buff.WriteBytes(bytes);
      case (Address, Hex(bytes)) => buff.WriteBytes(bytes);
      case (PublicKey, Hex(bytes)) => buff.WriteBytes(bytes);
      case (Signature, Hex(bytes)) => buff.WriteBytes(bytes);
      case (Transactions, List(items)) => WriteItems(items, buff);
      case _ => ok := false;
    }
  }

  lemma {:induction false} SchemaFieldsNext(schema: seq<Entry>, data: Properties, i: nat, fs: seq<Field>)
    requires i < |schema| && SchemaFields(schema[..i], data) == Some(fs)
    ensures match EntryFields(schema[i], data)
            case None => SchemaFields(schema, data).None?
            case Some(gs) => SchemaFields(schema[..i + 1], data) == Some(fs + gs)
    decreases |schema|
  {
    hide EntryFields;
    if i == 0 {
      assert schema[..1][1..] == [];
      assert EntryFields(schema[0], data).Some? ==>
               EntryFields(schema[0], data).value + [] == fs + EntryFields(schema[0], data).value;
    } else {
      var first := EntryFields(schema[0], data).value;
      assert schema[..i][1..] == schema[1..][..i - 1];
      assert schema[..i + 1][1..] == schema[1..][..i];
      var rest := SchemaFields(schema[1..][..i - 1], data).value;
      SchemaFieldsNext(schema[1..], data, i - 1, rest);
      assert EntryFields(schema[i], data).Some? ==>
          first + (rest + EntryFields(schema[i], data).value) == fs + EntryFields(schema[i], data).value;
    }
  }

  method Serialize(schema: seq<Entry>, data: Properties, length: nat, skip: int := 0) returns (result: Option<Bytes>)
    ensures result == Serialized(schema, data, length, skip)
  {
    hide ByteBuffer.Written, Fits, BytesOf, ValueFields, SchemaFields;
    var buff := Skipped(length, skip);
    var i := 0;
    ghost var written: seq<Field> := [];
    EmptySchema(schema, data);
    while i < |schema|
      invariant 0 <= i <= |schema| && buff.Written()
      invariant SchemaFields(schema[..i], data) == Some(written) && buff.log == Skipping(skip, written)
    {
      SchemaFieldsNext(schema, data, i, written);
      SkippingNext(skip, written,
                   if EntryFields(schema[i], data).Some? then EntryFields(schema[i], data).value else []);
      var e := schema[i];
      if e.property !in data {
        if e.required { return None; }
      } else {
        var ok := WriteValue(e.kind, data[e.property], buff);
        if !ok { return None; }
      }
      written := written + EntryFields(e, data).value;
      i := i + 1;
    }
    assert schema[..i] == schema;
    result := buff.ToBuffer();
  }

  lemma SkippingNext(skip: int, fs: seq<Field>, gs: seq<Field>)
    ensures Skipping(skip, fs + gs) == Skipping(skip, fs) + gs
    ensures Skipping(skip, fs) + [] == Skipping(skip, fs)
  {
  }

  /** A new buffer with the cursor behind the bytes to skip. */
  method Skipped(length: nat, skip: int) returns (buff: ByteBuffer)
    ensures fresh(buff) && fresh(buff.buffer) && buff.Written() && buff.buffer.Length == length
    ensures buff.log == Skipping(skip, [])
  {
    buff := new ByteBuffer.FromSize(length);
    if skip > 0 {
      hide Fits, BytesOf, TakeBytes;
      SkipFits(length, skip);
      ZerosSplit(length, skip);
      buff.Skip(skip);
      buff.log := [Raw(Zeros(skip))];
    }
  }

  lemma SkipFits(length: nat, skip: nat)
    requires skip > 0
    ensures Skipping(skip, []) == [Raw(Zeros(skip))] && BytesOf([Raw(Zeros(skip))]) == Zeros(skip)
    ensures Fits([Raw(Zeros(skip))], length) <==> skip <= length
  {
    BytesOfOne(Raw(Zeros(skip)));
  }

  lemma ZerosSplit(length: nat, n: nat)
    ensures n <= length ==> Zeros(length)[..n] == Zeros(n) && Zeros(length)[n..] == Zeros(length - n)
  {
  }

  lemma EmptySchema(schema: seq<Entry>, data: Properties)
    ensures SchemaFields(schema[..0], data) == Some([])
  {
  }

  // ----- deserializing -----

  const DOUBLE_PRECISION: nat := 0x20_0000_0000_0000

  /** The distance between doubles of the size of `v`. */
  function Spacing(v: nat): (u: nat)
    ensures u > 0
  {
    if v < DOUBLE_PRECISION then 1 else 2 * Spacing(v / 2)
  }

  /** The multiple of `u` nearest to `v`; of two, the even one. */
  function Nearest(v: nat, u: nat): nat
    requires u > 0
  {
    u * if 2 * (v % u) < u || (2 * (v % u) == u && v / u % 2 == 0) then v / u else v / u + 1
  }

  /** The double nearest to `v`. */
  function NearestDouble(v: nat): nat {
    Nearest(v, Spacing(v))
  }

  lemma NearestIsExact(v: nat, u: nat)
    requires u > 0
    ensures Nearest(v, u) == v <==> v % u == 0
  {
    RemainderIs(v, u);
    MulDistributes(u, v / u, 1);
  }

  /** A number survives as a double exactly if it is a multiple of the spacing; all below 2 to the power 53 are. */
  lemma {:induction false} DoubleIsExact(v: nat)
    ensures NearestDouble(v) == v <==> v % Spacing(v) == 0
    ensures v < DOUBLE_PRECISION ==> NearestDouble(v) == v
  {
    hide Nearest;
    NearestIsExact(v, Spacing(v));
    if v < DOUBLE_PRECISION { assert v % 1 == 0; }
  }

  /** Doubles of the size of `v` are the multiples of a power of two with at most 53 bits, and reading takes the nearest
      of them; of two, the even one. */
  lemma {:induction false} DoubleIsNearest(v: nat)
    ensures var u, d := Spacing(v), NearestDouble(v);
            && (if v < 0x20_0000_0000_0000 then u == 1 else 0x10_0000_0000_0000 <= v / u < 0x20_0000_0000_0000)
            && d % u == 0 && 2 * (d - v) <= u && 2 * (v - d) <= u
            && (2 * (d - v) == u || 2 * (v - d) == u ==> d / u % 2 == 0)
  {
    hide Nearest, Spacing;
    SpacingOf(v);
    NearestOf(v, Spacing(v));
  }

  lemma {:induction false} SpacingOf(v: nat)
    ensures var u := Spacing(v);
            if v < 0x20_0000_0000_0000 then u == 1 else 0x10_0000_0000_0000 <= v / u < 0x20_0000_0000_0000
  {
    if v >= 0x20_0000_0000_0000 {
      var u := Spacing(v / 2);
      SpacingOf(v / 2);
      HalfQuotient(v, u);
    }
  }

  lemma HalfQuotient(v: nat, u: nat)
    requires u > 0
    ensures v / 2 / u == v / (2 * u)
  {
    var q := v / 2 / u;
    Division(v / 2, u);
    QuotientIs(v, 2 * u, q);
  }

  lemma NearestOf(v: nat, u: nat)
    requires u > 0
    ensures var d := Nearest(v, u);
            && d % u == 0 && 2 * (d - v) <= u && 2 * (v - d) <= u
            && (2 * (d - v) == u || 2 * (v - d) == u ==> d / u % 2 == 0)
  {
    var q, r := v / u, v % u;
    RemainderIs(v, u);
    MulDistributes(u, q, 1);
    MultipleOf(u, q);
    MultipleOf(u, q + 1);
  }

  lemma MultipleOf(u: nat, q: nat)
    requires u > 0
    ensures u * q % u == 0 && u * q / u == q
  {
    QuotientIs(u * q, u, q);
    RemainderIs(u * q, u);
  }

  const COUNT := "numberOfTransactions"

  /** How many transactions the target says there are. */
  function CountOf(target: Properties): int {
    if COUNT in target && target[COUNT].Amount? then target[COUNT].amount else 0
  }

  function TakeItems(r: Rest, count: int): (seq<Bytes>, Rest)
    decreases count
  {
    if count <= 0 then ([], r) else
      var (length, r) := TakeNumber(r, 4);
      var (bytes, r) := TakeBytes(r, length);
      var (more, r) := TakeItems(r, count - 1);
      ([bytes] + more, r)
  }

  /** Where nothing says how many transactions there are, none is read. */
  lemma UncountedIsEmpty(e: Entry, r: Rest, target: Properties, z: Lengths)
    requires e.kind.Transactions? && (COUNT in target ==> !target[COUNT].Amount? || target[COUNT].amount <= 0)
    ensures TakeValue(e, r, target, z) == (List([]), r)
  {
  }

  function HashSize(e: Entry, z: Lengths): nat {
    if e.size.Some? then e.size.value else z.hash
  }

  function TakeValue(e: Entry, r: Rest, target: Properties, z: Lengths): (Value, Rest) {
    match e.kind
    case Uint32 => var (v, r) := TakeNumber(r, 4); (Amount(v), r)
    case Uint64 => var (v, r) := TakeNumber(r, 8); (Amount(NearestDouble(v)), r)
    case BigInt => var (v, r) := TakeNumber(r, 8); (Amount(v), r)
    case Hash => var (v, r) := TakeBytes(r, HashSize(e, z)); (Hex(v), r)
    case Address => var (v, r) := TakeBytes(r, z.address); (Hex(v), r)
    case PublicKey => var (v, r) := TakeBytes(r, z.publicKey); (Hex(v), r)
    case Signature => var (v, r) := TakeBytes(r, z.signature); (Hex(v), r)
    case Transactions => var (v, r) := TakeItems(r, CountOf(target)); (List(v), r)
  }

  function Deserialized(schema: seq<Entry>, r: Rest, target: Properties, z: Lengths): (Properties, Rest)
    decreases |schema|
  {
    if schema == [] then (target, r) else
      var (v, r) := TakeValue(schema[0], r, target, z);
      Deserialized(schema[1..], r, target[schema[0].property := v], z)
  }

  method ReadItems(buff: ByteBuffer, count: int) returns (items: seq<Bytes>)
    requires buff.Valid()
    modifies buff`offset, buff`threw
    ensures buff.Valid() && (items, buff.Unread()) == TakeItems(old(buff.Unread()), count)
  {
    hide TakeBytes, TakeNumber, TakeItems;
    items := [];
    var index := 0;
    while index < count
      invariant 0 <= index && (index <= count || index == 0) && buff.Valid()
      invariant TakeItems(old(buff.Unread()), count).0 == items + TakeItems(buff.Unread(), count - index).0
      invariant TakeItems(old(buff.Unread()), count).1 == TakeItems(buff.Unread(), count - index).1
    {
      NextItem(buff.Unread(), count - index);
      var length := buff.ReadUint32();
      var bytes := buff.ReadBytes(length);
      items := items + [bytes];
      index := index + 1;
    }
    NoItems(buff.Unread(), count - index);
    assert items + [] == items;
  }

  lemma NextItem(r: Rest, count: int)
    requires count > 0
    ensures var (length, r1) := TakeNumber(r, 4);
            var (bytes, r2) := TakeBytes(r1, length);
            TakeItems(r, count) == ([bytes] + TakeItems(r2, count - 1).0, TakeItems(r2, count - 1).1)
  {
    hide TakeBytes, TakeNumber;
  }

  lemma NoItems(r: Rest, count: int)
    requires count <= 0
    ensures TakeItems(r, count) == ([], r)
  {
  }

  method Deserialize(schema: seq<Entry>, buff: ByteBuffer, data: Properties, z: Lengths) returns (target: Properties)
    requires buff.Valid()
    modifies buff`offset, buff`threw
    ensures buff.Valid() && (target, buff.Unread()) == Deserialized(schema, old(buff.Unread()), data, z)
  {
    hide TakeBytes, TakeNumber, TakeItems;
    target := data;
    var i := 0;
    assert schema[0..] == schema;
    while i < |schema|
      invariant 0 <= i <= |schema| && buff.Valid()
      invariant Deserialized(schema, old(buff.Unread()), data, z) == Deserialized(schema[i..], buff.Unread(), target, z)
    {
      assert schema[i..][1..] == schema[i + 1..];
      var v := ReadValue(schema[i], buff, target, z);
      target := target[schema[i].property := v];
      i := i + 1;
    }
  }

  method ReadValue(e: Entry, buff: ByteBuffer, target: Properties, z: Lengths) returns (v: Value)
    requires buff.Valid()
    modifies buff`offset, buff`threw
    ensures buff.Valid() && (v, buff.Unread()) == TakeValue(e, old(buff.Unread()), target, z)
  {
    hide TakeBytes, TakeNumber, TakeItems, NearestDouble;
    match e.kind {
      case Uint32 => var a := buff.ReadUint32(); v := Amount(a);
      case Uint64 => var a := buff.ReadUint64(); v := Amount(NearestDouble(a));
      case BigInt => var a := buff.ReadUint64(); v := Amount(a);
      case Hash => var b := buff.ReadBytes(HashSize(e, z)); v := Hex(b);
      case Address => var b := buff.ReadBytes(z.address); v := Hex(b);
      case PublicKey => var b := buff.ReadBytes(z.publicKey); v := Hex(b);
      case Signature => var b := buff.ReadBytes(z.signature); v := Hex(b);
      case Transactions => var l := ReadItems(buff, CountOf(target)); v := List(l);
    }
  }

  // ----- the round trip over any schema -----

  /** The value has the length that will be read, or, for a number that is read as a double, survives that. */
  predicate SizedValue(e: Entry, v: Value, z: Lengths) {
    match e.kind
    case Uint64 => v.Amount? && v.amount >= 0 && NearestDouble(v.amount) == v.amount
    case Hash => v.Hex? && |v.bytes| == HashSize(e, z)
    case Address => v.Hex? && |v.bytes| == z.address
    case PublicKey => v.Hex? && |v.bytes| == z.publicKey
    case Signature => v.Hex? && |v.bytes| == z.signature
    case _ => true
  }

  /** How many transactions the loop reads. */
  function ItemsExpected(target: Properties): nat {
    if CountOf(target) > 0 then CountOf(target) else 0
  }

  /** Every property is there, byte strings have their kind's length, and the number of transactions is known, and
      right, where the transactions are to be read. */
  predicate Readable(schema: seq<Entry>, data: Properties, target: Properties, z: Lengths)
    decreases |schema|
  {
    schema == [] ||
    var e := schema[0];
    && e.property in data
    && SizedValue(e, data[e.property], z)
    && (e.kind.Transactions? && data[e.property].List? ==> ItemsExpected(target) == |data[e.property].items|)
    && Readable(schema[1..], data, target[e.property := data[e.property]], z)
  }

  /** `target` with every property of the schema set as in `data`. */
  function Filled(schema: seq<Entry>, data: Properties, target: Properties): Properties
    decreases |schema|
  {
    if schema == [] then target
    else if schema[0].property !in data then Filled(schema[1..], data, target)
    else Filled(schema[1..], data, target[schema[0].property := data[schema[0].property]])
  }

  lemma {:induction false} FilledAt(schema: seq<Entry>, data: Properties, target: Properties, p: string)
    requires (exists e | e in schema :: e.property == p && p in data)
             || (p in target && p in data && target[p] == data[p])
    ensures p in Filled(schema, data, target) && Filled(schema, data, target)[p] == data[p]
    decreases |schema|
  {
    if schema != [] {
      var e := schema[0];
      if e.property !in data {
        FilledAt(schema[1..], data, target, p);
      } else {
        FilledAt(schema[1..], data, target[e.property := data[e.property]], p);
      }
    }
  }

  lemma {:induction false} ItemsRead(items: seq<Bytes>, tail: Bytes)
    requires AllInRange(ItemFields(items))
    ensures TakeItems(Some(BytesOf(ItemFields(items)) + tail), |items|) == (items, Some(tail))
    decreases |items|
  {
    hide BytesOf, TakeNumber, TakeBytes;
    var fs := ItemFields(items);
    assert fs[0..] == fs;
    if items == [] {
      TransactionCodec.NothingLeft(fs, tail);
    } else {
      TakesNumber(fs, 0, tail);
      TakesBytes(fs, 1, tail);
      assert fs[2..] == ItemFields(items[1..]);
      assert forall f | f in ItemFields(items[1..]) :: f in fs;
      ItemsRead(items[1..], tail);
      assert items == [items[0]] + items[1..];
    }
  }

  lemma ValueRead(e: Entry, v: Value, target: Properties, z: Lengths, tail: Bytes)
    requires ValueFields(e.kind, v).Some? && AllInRange(ValueFields(e.kind, v).value) && SizedValue(e, v, z)
    requires e.kind.Transactions? ==> ItemsExpected(target) == |v.items|
    ensures TakeValue(e, Some(BytesOf(ValueFields(e.kind, v).value) + tail), target, z) == (v, Some(tail))
  {
    hide BytesOf, TakeNumber, TakeBytes, TakeItems, CountOf, NearestDouble;
    var fs := ValueFields(e.kind, v).value;
    assert fs[0..] == fs;
    if e.kind.Transactions? {
      ItemsRead(v.items, tail);
      NoItems(Some(BytesOf(fs) + tail), 0);
      if CountOf(target) <= 0 { NoItems(Some(BytesOf(fs) + tail), CountOf(target)); }
    } else {
      if e.kind.Uint32? || e.kind.Uint64? || e.kind.BigInt? {
        TakesNumber(fs, 0, tail);
      } else {
        TakesBytes(fs, 0, tail);
      }
      TransactionCodec.NothingLeft(fs, tail);
    }
  }

  /** What any schema writes, it reads back, whatever follows. */
  lemma {:induction false} SchemaRead(schema: seq<Entry>, data: Properties, target: Properties, z: Lengths, tail: Bytes)
    requires SchemaFields(schema, data).Some? && AllInRange(SchemaFields(schema, data).value)
    requires Readable(schema, data, target, z)
    ensures Deserialized(schema, Some(BytesOf(SchemaFields(schema, data).value) + tail), target, z)
         == (Filled(schema, data, target), Some(tail))
    decreases |schema|
  {
    hide BytesOf, TakeValue, ItemsExpected, SizedValue, ValueFields;
    if schema == [] {
      TransactionCodec.NothingLeft([], tail);
    } else {
      var e := schema[0];
      var v := data[e.property];
      var fs, gs := ValueFields(e.kind, v).value, SchemaFields(schema[1..], data).value;
      BytesOfAppend(fs, gs);
      assert BytesOf(fs + gs) + tail == BytesOf(fs) + (BytesOf(gs) + tail);
      assert forall f | f in fs || f in gs :: f in fs + gs;
      ListValue(e.kind, v);
      ValueRead(e, v, target, z, BytesOf(gs) + tail);
      SchemaRead(schema[1..], data, target[e.property := v], z, tail);
    }
  }

  // ----- the exact condition -----

  ghost predicate DistinctProperties(schema: seq<Entry>) {
    forall i, j | 0 <= i < j < |schema| :: schema[i].property != schema[j].property
  }

  ghost predicate Fresh(schema: seq<Entry>, target: Properties) {
    forall e | e in schema :: e.property !in target
  }

  lemma {:induction false} OthersStay(schema: seq<Entry>, r: Rest, data: Properties, target: Properties, z: Lengths,
                                      p: string)
    requires forall e | e in schema :: e.property != p
    ensures p in target ==>
              p in Deserialized(schema, r, target, z).0 && Deserialized(schema, r, target, z).0[p] == target[p]
    ensures p in Filled(schema, data, target) <==> p in target
    ensures p in target ==> Filled(schema, data, target)[p] == target[p]
    decreases |schema|
  {
    hide TakeValue;
    if schema != [] {
      var e := schema[0];
      var (v, rest) := TakeValue(e, r, target, z);
      OthersStay(schema[1..], rest, data, target[e.property := v], z, p);
      if e.property in data {
        OthersStay(schema[1..], rest, data, target[e.property := data[e.property]], z, p);
      } else {
        OthersStay(schema[1..], rest, data, target, z, p);
      }
    }
  }

  lemma {:induction false} ThrownStays(schema: seq<Entry>, target: Properties, z: Lengths)
    ensures Deserialized(schema, None, target, z).1 == None
    decreases |schema|
  {
    if schema != [] {
      ThrownValue(schema[0], target, z);
      hide TakeValue;
      ThrownStays(schema[1..], target[schema[0].property := TakeValue(schema[0], None, target, z).0], z);
    }
  }

  lemma ThrownValue(e: Entry, target: Properties, z: Lengths)
    ensures TakeValue(e, None, target, z).1 == None
  {
    if e.kind.Transactions? { ItemsTaken(None, CountOf(target)); }
  }

  /** As many items as are expected are taken, and none comes out of a read that has thrown. */
  lemma {:induction false} ItemsTaken(r: Rest, count: int)
    ensures |TakeItems(r, count).0| == if count > 0 then count else 0
    ensures r.None? ==> TakeItems(r, count).1 == None
    decreases count
  {
    hide TakeNumber, TakeBytes;
    if count > 0 {
      var (length, r1) := TakeNumber(r, 4);
      var (bytes, r2) := TakeBytes(r1, length);
      assert r.None? ==> r1.None? && r2.None? by { ThrownTakes(length); }
      ItemsTaken(r2, count - 1);
    }
  }

  lemma ThrownTakes(n: nat)
    ensures TakeNumber(None, 4).1 == None && TakeBytes(None, n).1 == None
  {
  }

  /** A value that is read as it was written was readable. */
  lemma HeadExactly(e: Entry, v: Value, target: Properties, z: Lengths, tail: Bytes)
    requires ValueFields(e.kind, v).Some? && AllInRange(ValueFields(e.kind, v).value)
    requires var (w, r) := TakeValue(e, Some(BytesOf(ValueFields(e.kind, v).value) + tail), target, z);
             w == v && r.Some?
    ensures SizedValue(e, v, z) && (e.kind.Transactions? && v.List? ==> ItemsExpected(target) == |v.items|)
  {
    hide BytesOf, TakeNumber, CountOf, NearestDouble, TakeItems;
    var fs := ValueFields(e.kind, v).value;
    if e.kind.Uint64? {
      assert fs[0..] == fs;
      TakesNumber(fs, 0, tail);
    } else if e.kind.Transactions? {
      ItemsTaken(Some(BytesOf(fs) + tail), CountOf(target));
    }
  }

  /** Into a target that has none of the properties yet, what was written is read back exactly if every property was
      there, each value has the size that is read or survives being a double, and the transactions are as many as the
      target says by then. An optional property that is absent is not written, but read all the same. */
  lemma SchemaReadExactly(schema: seq<Entry>, data: Properties, target: Properties, z: Lengths, tail: Bytes)
    requires SchemaFields(schema, data).Some? && AllInRange(SchemaFields(schema, data).value)
    requires DistinctProperties(schema) && Fresh(schema, target)
    ensures Deserialized(schema, Some(BytesOf(SchemaFields(schema, data).value) + tail), target, z)
         == (Filled(schema, data, target), Some(tail))
        <==> Readable(schema, data, target, z)
    decreases |schema|
  {
    hide BytesOf, TakeValue, ItemsExpected, SizedValue, ValueFields, SchemaFields, Readable, Deserialized, Filled;
    if Readable(schema, data, target, z) {
      SchemaRead(schema, data, target, z, tail);
    } else if Deserialized(schema, Some(BytesOf(SchemaFields(schema, data).value) + tail), target, z)
              == (Filled(schema, data, target), Some(tail)) {
      ReadableIfRead(schema, data, target, z, tail);
    }
  }

  lemma {:induction false} ReadableIfRead(schema: seq<Entry>, data: Properties, target: Properties, z: Lengths,
                                          tail: Bytes)
    requires SchemaFields(schema, data).Some? && AllInRange(SchemaFields(schema, data).value)
    requires DistinctProperties(schema) && Fresh(schema, target)
    requires Deserialized(schema, Some(BytesOf(SchemaFields(schema, data).value) + tail), target, z)
          == (Filled(schema, data, target), Some(tail))
    ensures Readable(schema, data, target, z)
    decreases |schema|
  {
    hide BytesOf, TakeValue, ItemsExpected, SizedValue, ValueFields;
    if schema != [] {
      var e, rest := schema[0], schema[1..];
      var fs, gs := EntryFields(e, data).value, SchemaFields(rest, data).value;
      BytesOfAppend(fs, gs);
      assert BytesOf(fs + gs) + tail == BytesOf(fs) + (BytesOf(gs) + tail);
      assert forall f | f in fs || f in gs :: f in fs + gs;
      var (v, r) := TakeValue(e, Some(BytesOf(fs) + (BytesOf(gs) + tail)), target, z);
      assert forall x | x in rest :: x.property != e.property by {
        assert forall i | 0 <= i < |rest| :: rest[i] == schema[i + 1];
      }
      OthersStay(rest, r, data, target[e.property := v], z, e.property);
      if r.None? { ThrownStays(rest, target[e.property := v], z); }
      if e.property !in data { OthersStay(rest, r, data, target, z, e.property); }
      OthersStay(rest, r, data, target[e.property := data[e.property]], z, e.property);
      HeadExactly(e, v, target, z, BytesOf(gs) + tail);
      ListValue(e.kind, v);
      ValueRead(e, v, target, z, BytesOf(gs) + tail);
      ReadableIfRead(rest, data, target[e.property := v], z, tail);
    }
  }

  /** Such a schema and such data: the absent optional property is read from the bytes of the one behind it. */
  lemma AbsentOptionalIsMisread(z: Lengths)
    ensures var schema := [Entry("a", Uint32, false), Entry("b", Uint32, true)];
            var data: Properties := map["b" := Amount(1)];
            && SchemaFields(schema, data) == Some([Number(1, 4)])
            && Deserialized(schema, Some(BytesOf([Number(1, 4)])), map[], z).1 == None
  {
    var schema := [Entry("a", Uint32, false), Entry("b", Uint32, true)];
    var data: Properties := map["b" := Amount(1)];
    assert schema[1..] == [schema[1]] && schema[1..][1..] == [];
    assert EntryFields(schema[0], data) == Some([]) && EntryFields(schema[1], data) == Some([Number(1, 4)]);
    assert SchemaFields([schema[1]], data) == Some([Number(1, 4)]) by {
      assert SchemaFields([schema[1]][1..], data) == Some([]);
      assert [Number(1, 4)] + [] == [Number(1, 4)];
    }
    assert [] + [Number(1, 4)] == [Number(1, 4)];
    BytesOfOne(Number(1, 4));
    var bytes := BytesOf([Number(1, 4)]);
    assert TakeBytes(Some(bytes), 4).1 == Some([]) && TakeBytes(Some([]), 4).1 == None;
    hide TakeBytes, BytesOf;
    var t: Properties := map["a" := TakeValue(schema[0], Some(bytes), map[], z).0];
    assert Deserialized(schema, Some(bytes), map[], z) == Deserialized([schema[1]], Some([]), t, z);
    assert TakeValue(schema[1], Some([]), t, z).1 == None;
    ThrownStays([], t["b" := TakeValue(schema[1], Some([]), t, z).0], z);
  }

  /** What was skipped when writing is skipped when reading. */
  lemma SkippedRead(schema: seq<Entry>, data: Properties, length: nat, skip: nat)
    requires Serialized(schema, data, length, skip).Some?
    ensures var fs := SchemaFields(schema, data).value;
            && skip + |BytesOf(fs)| <= length
            && TakeBytes(Some(Serialized(schema, data, length, skip).value), skip).1
               == Some(BytesOf(fs) + Zeros(length - skip - |BytesOf(fs)|))
  {
    hide SchemaFields;
    var fs := SchemaFields(schema, data).value;
    BytesOfAppend([Raw(Zeros(skip))], fs);
    BytesOfOne(Raw(Zeros(skip)));
    var all, zeros := Skipping(skip, fs), Zeros(length - skip - |BytesOf(fs)|);
    assert BytesOf(all) == Zeros(skip) + BytesOf(fs);
    assert Serialized(schema, data, length, skip).value == Zeros(skip) + (BytesOf(fs) + zeros);
    TransactionCodec.FirstRead(Zeros(skip), BytesOf(fs) + zeros);
  }

  lemma ListValue(kind: Kind, v: Value)
    requires ValueFields(kind, v).Some?
    ensures kind.Transactions? ==> v.List?
  {
  }
}
