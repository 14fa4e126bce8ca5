/** Little-endian integers, and the cursor buffer that the serializers write to and read from. */
module ByteBuffers {
  import opened Options
  import opened Arithmetic

  newtype byte = x: int | 0 <= x < 256

  type Bytes = seq<byte>

  function Power256(n: nat): (p: nat)
    ensures p > 0
  {
    if n == 0 then 1 else 256 * Power256(n - 1)
  }

  function LittleEndian(v: nat, n: nat): (bs: Bytes)
    ensures |bs| == n
  {
    if n == 0 then [] else [(v % 256) as byte] + LittleEndian(v / 256, n - 1)
  }

  function FromLittleEndian(bs: Bytes): nat {
    if bs == [] then 0 else bs[0] as nat + 256 * FromLittleEndian(bs[1..])
  }

  lemma {:induction false} IntegerRoundTrip(v: nat, n: nat)
    requires v < Power256(n)
    ensures FromLittleEndian(LittleEndian(v, n)) == v
  {
    if n > 0 {
      IntegerRoundTrip(v / 256, n - 1);
    }
  }

  lemma {:induction false} BytesRoundTrip(bs: Bytes)
    ensures FromLittleEndian(bs) < Power256(|bs|)
    ensures LittleEndian(FromLittleEndian(bs), |bs|) == bs
    decreases |bs|
  {
    if bs != [] {
      var rest := FromLittleEndian(bs[1..]);
      BytesRoundTrip(bs[1..]);
      assert (bs[0] as nat + 256 * rest) / 256 == rest && (bs[0] as nat + 256 * rest) % 256 == bs[0] as nat;
      assert LittleEndian(bs[0] as nat + 256 * rest, |bs|) == [bs[0]] + LittleEndian(rest, |bs| - 1);
      assert bs == [bs[0]] + bs[1..];
    }
  }

  // ----- what has been written -----

  datatype Field = Number(value: int, width: nat) | Raw(bytes: Bytes)

  predicate InRange(f: Field) {
    f.Number? ==> 0 <= f.value < Power256(f.width)
  }

  predicate AllInRange(fs: seq<Field>) {
    forall f | f in fs :: InRange(f)
  }

  function FieldBytes(f: Field): Bytes {
    match f
    case Number(value, width) => LittleEndian(if value < 0 then 0 else value, width)
    case Raw(bytes) => bytes
  }

  function BytesOf(fs: seq<Field>): Bytes {
    if fs == [] then [] else FieldBytes(fs[0]) + BytesOf(fs[1..])
  }

  lemma {:induction false} BytesOfAppend(fs: seq<Field>, gs: seq<Field>)
    ensures BytesOf(fs + gs) == BytesOf(fs) + BytesOf(gs)
    decreases |fs|
  {
    hide FieldBytes;
    if fs == [] {
      assert fs + gs == gs;
    } else {
      BytesOfAppend(fs[1..], gs);
      assert (fs + gs)[1..] == fs[1..] + gs;
    }
  }

  lemma BytesOfOne(f: Field)
    ensures BytesOf([f]) == FieldBytes(f)
  {
    assert BytesOf([f][1..]) == [];
  }

  lemma {:induction false} FewBytes(fs: seq<Field>, width: nat)
    requires forall f | f in fs :: |FieldBytes(f)| <= width
    ensures |BytesOf(fs)| <= width * |fs|
    decreases |fs|
  {
    hide FieldBytes, BytesOf;
    BytesOfFirst(fs);
    if fs != [] {
      assert fs[0] in fs;
      FewBytes(fs[1..], width);
      MulDistributes(width, |fs| - 1, 1);
    }
  }

  lemma BytesOfFirst(fs: seq<Field>)
    ensures |BytesOf(fs)| == if fs == [] then 0 else |FieldBytes(fs[0])| + |BytesOf(fs[1..])|
  {
    hide FieldBytes;
  }

  lemma {:induction false} OneByteFits(width: nat)
    requires width > 0
    ensures Power256(width) >= 256
  {
    if width > 1 { OneByteFits(width - 1); }
  }

  /** Writing succeeds when every number is in its range and everything fits. */
  predicate Fits(fs: seq<Field>, capacity: nat) {
    AllInRange(fs) && |BytesOf(fs)| <= capacity
  }

  function Zeros(n: nat): (bs: Bytes)
    ensures |bs| == n
  {
    seq(n, _ => 0)
  }

  lemma FitsNext(fs: seq<Field>, f: Field, capacity: nat)
    ensures Fits(fs + [f], capacity) <==>
              Fits(fs, capacity) && InRange(f) && |BytesOf(fs)| + |FieldBytes(f)| <= capacity
    ensures BytesOf(fs + [f]) == BytesOf(fs) + FieldBytes(f)
  {
    BytesOfAppend(fs, [f]);
    BytesOfOne(f);
  }

  // ----- reading -----

  /** The bytes that are left to read; none once a read has thrown. */
  type Rest = Option<Bytes>

  function TakeBytes(r: Rest, n: nat): (Bytes, Rest) {
    if r.None? || n > |r.value| then ([], None) else (r.value[..n], Some(r.value[n..]))
  }

  function TakeNumber(r: Rest, n: nat): (nat, Rest) {
    var (bs, rest) := TakeBytes(r, n);
    (FromLittleEndian(bs), rest)
  }

  lemma TakesNumber(fs: seq<Field>, k: nat, tail: Bytes)
    requires k < |fs| && fs[k].Number? && InRange(fs[k])
    ensures TakeNumber(Some(BytesOf(fs[k..]) + tail), fs[k].width) == (fs[k].value, Some(BytesOf(fs[k + 1..]) + tail))
  {
    var bs := FieldBytes(fs[k]);
    assert fs[k..][1..] == fs[k + 1..];
    assert BytesOf(fs[k..]) + tail == bs + (BytesOf(fs[k + 1..]) + tail);
    IntegerRoundTrip(fs[k].value, fs[k].width);
  }

  lemma TakesBytes(fs: seq<Field>, k: nat, tail: Bytes)
    requires k < |fs| && fs[k].Raw?
    ensures TakeBytes(Some(BytesOf(fs[k..]) + tail), |fs[k].bytes|) == (fs[k].bytes, Some(BytesOf(fs[k + 1..]) + tail))
  {
    assert fs[k..][1..] == fs[k + 1..];
    assert BytesOf(fs[k..]) + tail == fs[k].bytes + (BytesOf(fs[k + 1..]) + tail);
  }

  // ----- the buffer -----

  /** An exception leaves the buffer in `threw`: no later call has an effect. */
  class ByteBuffer {
    const buffer: array<byte>
    var offset: nat
    var marker: nat
    var threw: bool
    /** Everything that the caller has asked to write. */
    ghost var log: seq<Field>

    ghost predicate Valid()
      reads this
    {
      offset <= buffer.Length && marker <= buffer.Length
    }

    /** The buffer holds what was logged, and zeros. */
    ghost predicate Written()
      reads this, buffer
    {
      && Valid()
      && threw == !Fits(log, buffer.Length)
      && (!threw ==> buffer[..offset] == BytesOf(log) && buffer[offset..] == Zeros(buffer.Length - offset))
    }

    function Unread(): Rest
      reads this, buffer
      requires Valid()
    {
      if threw then None else Some(buffer[offset..])
    }

    constructor FromSize(size: nat)
      ensures Written() && log == [] && fresh(buffer) && buffer.Length == size
    {
      buffer := new byte[size](_ => 0);
      offset, marker, threw, log := 0, 0, false, [];
    }

    constructor FromBuffer(bytes: Bytes)
      ensures Valid() && fresh(buffer) && Unread() == Some(bytes) && buffer.Length == |bytes|
    {
      buffer := new byte[|bytes|](i requires 0 <= i < |bytes| => bytes[i]);
      offset, marker, threw, log := 0, 0, false, [];
      new;
      assert buffer[..] == bytes;
    }

    method WriteNumber(value: int, width: nat)
      requires Written()
      modifies this`offset, this`threw, this`log, buffer
      ensures Written() && log == old(log) + [Number(value, width)]
    {
      log := log + [Number(value, width)];
      FitsNext(old(log), Number(value, width), buffer.Length);
      if threw || value < 0 || value >= Power256(width) || offset + width > buffer.Length {
        threw := true;
        return;
      }
      Put(LittleEndian(value, width));
    }

    /** Overwrites the bytes at the cursor. */
    method Put(bytes: Bytes)
      requires Valid() && offset + |bytes| <= buffer.Length
      modifies this`offset, buffer
      ensures offset == old(offset) + |bytes|
      ensures buffer[..offset] == old(buffer[..offset]) + bytes
      ensures buffer[offset..] == old(buffer[offset + |bytes|..])
    {
      forall i | 0 <= i < |bytes| {
        buffer[offset + i] := bytes[i];
      }
      offset := offset + |bytes|;
    }

    method WriteUint8(value: int)
      requires Written()
      modifies this`offset, this`threw, this`log, buffer
      ensures Written() && log == old(log) + [Number(value, 1)]
    {
      WriteNumber(value, 1);
    }

    method WriteUint16(value: int)
      requires Written()
      modifies this`offset, this`threw, this`log, buffer
      ensures Written() && log == old(log) + [Number(value, 2)]
    {
      WriteNumber(value, 2);
    }

    method WriteUint32(value: int)
      requires Written()
      modifies this`offset, this`threw, this`log, buffer
      ensures Written() && log == old(log) + [Number(value, 4)]
    {
      WriteNumber(value, 4);
    }

    method WriteUint64(value: int)
      requires Written()
      modifies this`offset, this`threw, this`log, buffer
      ensures Written() && log == old(log) + [Number(value, 8)]
    {
      WriteNumber(value, 8);
    }

    method WriteBytes(value: Bytes)
      requires Written()
      modifies this`offset, this`threw, this`log, buffer
      ensures Written() && log == old(log) + [Raw(value)]
    {
      log := log + [Raw(value)];
      FitsNext(old(log), Raw(value), buffer.Length);
      if threw || |value| > buffer.Length - offset {
        threw := true;
        return;
      }
      Put(value);
    }

    method GetResult() returns (result: Option<Bytes>)
      requires Written()
      ensures result == if Fits(log, buffer.Length) then Some(BytesOf(log)) else None
    {
      result := if threw then None else Some(buffer[..offset]);
    }

    /** The whole buffer, with the zeros after what was written. */
    method ToBuffer() returns (result: Option<Bytes>)
      requires Written()
      ensures result == if Fits(log, buffer.Length)
                        then Some(BytesOf(log) + Zeros(buffer.Length - |BytesOf(log)|)) else None
    {
      result := if threw then None else Some(buffer[..]);
      assert !threw ==> buffer[..] == buffer[..offset] + buffer[offset..];
    }

    method ReadBytes(length: nat) returns (value: Bytes)
      requires Valid()
      modifies this`offset, this`threw
      ensures Valid() && (value, Unread()) == TakeBytes(old(Unread()), length)
    {
      if threw || length > buffer.Length - offset {
        threw := true;
        return [];
      }
      value := buffer[offset..offset + length];
      assert buffer[offset..][..length] == value && buffer[offset..][length..] == buffer[offset + length..];
      offset := offset + length;
    }

    method ReadNumber(width: nat) returns (value: nat)
      requires Valid()
      modifies this`offset, this`threw
      ensures Valid() && (value, Unread()) == TakeNumber(old(Unread()), width)
    {
      var bytes := ReadBytes(width);
      value := FromLittleEndian(bytes);
    }

    method ReadUint8() returns (value: nat)
      requires Valid()
      modifies this`offset, this`threw
      ensures Valid() && (value, Unread()) == TakeNumber(old(Unread()), 1)
    {
      value := ReadNumber(1);
    }

    method ReadUint16() returns (value: nat)
      requires Valid()
      modifies this`offset, this`threw
      ensures Valid() && (value, Unread()) == TakeNumber(old(Unread()), 2)
    {
      value := ReadNumber(2);
    }

    method ReadUint32() returns (value: nat)
      requires Valid()
      modifies this`offset, this`threw
      ensures Valid() && (value, Unread()) == TakeNumber(old(Unread()), 4)
    {
      value := ReadNumber(4);
    }

    method ReadUint64() returns (value: nat)
      requires Valid()
      modifies this`offset, this`threw
      ensures Valid() && (value, Unread()) == TakeNumber(old(Unread()), 8)
    {
      value := ReadNumber(8);
    }

    method GetRemainderLength() returns (length: nat)
      requires Valid()
      ensures !threw ==> length == |Unread().value|
    {
      length := buffer.Length - offset;
    }

    method Skip(length: int)
      requires Valid()
      modifies this`offset, this`threw
      ensures Valid()
      ensures length >= 0 ==> Unread() == TakeBytes(old(Unread()), length).1
      ensures length < 0 ==>
                threw == (old(threw) || -length > old(offset)) && (!threw ==> offset == old(offset) + length)
    {
      if threw || offset + length < 0 || length > buffer.Length - offset {
        threw := true;
        return;
      }
      assert length >= 0 ==> buffer[offset..][length..] == buffer[offset + length..];
      offset := offset + length;
    }

    method Mark()
      requires Valid()
      modifies this`marker
      ensures Valid() && marker == offset
    {
      marker := offset;
    }

    method Reset()
      requires Valid()
      modifies this`offset
      ensures Valid() && offset == marker
    {
      offset := marker;
    }
  }
}
