/**
 * The record codec: attribute types that turn values into bytes and back, and records of
 * one to three attributes whose bytes are the concatenation of their fields' bytes.
 */
module Records {
  import opened Bytes
  import opened StorageApi

  /** `AttributeType`: `IntAttribute` has a fixed size of 4 bytes, `StringAttribute` none (-1). */
  datatype AttributeType = IntAttribute | StringAttribute

  function ByteSize(t: AttributeType): (r: int)
    ensures r > 0 <==> t.IntAttribute?
  {
    if t.IntAttribute? then 4 else -1
  }

  predicate IsFixedSize(t: AttributeType) {
    ByteSize(t) > 0
  }

  /** A Kotlin `Char`: one UTF-16 code unit. */
  type Unit16 = c: int | 0 <= c < 0x1_0000

  /** An attribute value: a 32-bit `Int` or a `String` as its UTF-16 units. */
  datatype Value = IntValue(n: int) | StringValue(units: seq<Unit16>)

  /**
   * `v` is a value of attribute type `t`. A string must be short enough that
   * `chars.size * 2 + 4` does not overflow.
   */
  predicate HasType(t: AttributeType, v: Value) {
    match t
    case IntAttribute => v.IntValue? && IsInt32(v.n)
    case StringAttribute => v.StringValue? && 4 + 2 * |v.units| <= INT_MAX
  }

  /** The units written one `putChar` after another, two bytes each. */
  function EncodeUnits(units: seq<Unit16>): (r: seq<byte>)
    ensures |r| == 2 * |units|
  {
    if units == [] then [] else EncodeUnits(units[..|units| - 1]) + EncodeUnit(units[|units| - 1])
  }

  /** `asCharBuffer().toString()`: the units of an even-length byte sequence, two bytes each. */
  function DecodeUnits(bs: seq<byte>): (r: seq<Unit16>)
    requires |bs| % 2 == 0
    ensures |r| == |bs| / 2
  {
    seq(|bs| / 2, i requires 0 <= i < |bs| / 2 => UnitAt(bs, 2 * i))
  }

  /** `asBytes(value)` of either attribute type. */
  function EncodeAttribute(t: AttributeType, v: Value): (r: seq<byte>)
    requires HasType(t, v)
    ensures IsFixedSize(t) ==> |r| == ByteSize(t)
    ensures t.StringAttribute? ==> |r| == 4 + 2 * |v.units| && Int32At(r, 0) == |v.units|
  {
    match t
    case IntAttribute => EncodeInt32(v.n)
    case StringAttribute =>
      DecodeEncodeInt32(|v.units|);
      EncodeInt32(|v.units|) + EncodeUnits(v.units)
  }

  /** `fromBytes` result: the value and the number of bytes it took (a Kotlin `Pair<T, Int>`). */
  datatype Decoded = Decoded(value: Value, size: int)

  /**
   * `fromBytes(bytes)` of either attribute type. Reading the 4-byte count from fewer than 4
   * bytes underflows; a string whose byte length `count * 2` (a 32-bit product) is negative
   * or runs past the end is out of bounds.
   */
  function DecodeAttribute(t: AttributeType, bytes: seq<byte>): (r: Result<Decoded>)
    ensures |bytes| < 4 ==> r == Err(BufferUnderflow)
    ensures r.Ok? ==> 4 <= r.value.size <= |bytes| && HasTypeShape(t, r.value.value)
    ensures t.IntAttribute? && |bytes| >= 4 ==> r == Ok(Decoded(IntValue(DecodeInt32(bytes)), 4))
  {
    if |bytes| < 4 then Err(BufferUnderflow)
    else match t
      case IntAttribute => Ok(Decoded(IntValue(DecodeInt32(bytes)), 4))
      case StringAttribute =>
        var length := ByteLength(DecodeInt32(bytes));
        if length < 0 || 4 + length > |bytes| then Err(IndexOutOfBounds)
        else Ok(Decoded(StringValue(DecodeUnits(bytes[4..4 + length])), 4 + length))
  }

  /** `count * Char.SIZE_BYTES` in 32-bit arithmetic: even, and wrapped for large counts. */
  function ByteLength(count: int): (r: int)
    requires IsInt32(count)
    ensures IsInt32(r) && r % 2 == 0
    ensures 0 <= count && 2 * count <= INT_MAX ==> r == 2 * count
    ensures count == INT_MIN ==> r == 0
  {
    Wrap32(count * 2)
  }

  /** The value has the constructor its type calls for. */
  predicate HasTypeShape(t: AttributeType, v: Value) {
    t.IntAttribute? <==> v.IntValue?
  }

  /** Bytes `2 * i` and `2 * i + 1` of the unit encoding are unit `i`'s two bytes. */
  lemma {:induction false} EncodeUnitsSlice(units: seq<Unit16>, i: int)
    requires 0 <= i < |units|
    ensures EncodeUnits(units)[2 * i..2 * i + 2] == EncodeUnit(units[i])
    decreases |units|
  {
    var n := |units| - 1;
    var front := EncodeUnits(units[..n]);
    assert EncodeUnits(units) == front + EncodeUnit(units[n]);
    if i < n {
      EncodeUnitsSlice(units[..n], i);
      assert EncodeUnits(units)[2 * i..2 * i + 2] == front[2 * i..2 * i + 2];
    } else {
      assert EncodeUnits(units)[2 * i..2 * i + 2] == EncodeUnit(units[n]);
    }
  }

  /** Byte `2 * i` onwards of the unit encoding holds unit `i`. */
  lemma EncodeUnitsAt(units: seq<Unit16>, i: int)
    requires 0 <= i < |units|
    ensures UnitAt(EncodeUnits(units), 2 * i) == units[i]
  {
    var e := EncodeUnits(units);
    EncodeUnitsSlice(units, i);
    assert e[2 * i] == EncodeUnit(units[i])[0] && e[2 * i + 1] == EncodeUnit(units[i])[1];
  }

  /** Decoding the unit encoding gives the units back. */
  lemma DecodeEncodeUnits(units: seq<Unit16>)
    ensures DecodeUnits(EncodeUnits(units)) == units
  {
    var e := EncodeUnits(units);
    forall i | 0 <= i < |units|
      ensures DecodeUnits(e)[i] == units[i]
    {
      EncodeUnitsAt(units, i);
    }
  }

  /** Encoding decoded units gives the bytes back. */
  lemma {:induction false} EncodeDecodeUnits(bs: seq<byte>)
    requires |bs| % 2 == 0
    ensures EncodeUnits(DecodeUnits(bs)) == bs
    decreases |bs|
  {
    if |bs| > 0 {
      var n := |bs| - 2;
      var us := DecodeUnits(bs);
      assert us[..|us| - 1] == DecodeUnits(bs[..n]);
      EncodeDecodeUnits(bs[..n]);
      assert EncodeUnit(us[|us| - 1]) == bs[n..];
      assert bs == bs[..n] + bs[n..];
    }
  }

  /**
   * `fromBytes(asBytes(v))` gives `v` and the encoded size, whatever follows the encoding
   * (`readAttribute` hands each attribute the rest of the buffer).
   */
  lemma DecodeEncodeAttribute(t: AttributeType, v: Value, rest: seq<byte>)
    requires HasType(t, v)
    ensures DecodeAttribute(t, EncodeAttribute(t, v) + rest) == Ok(Decoded(v, |EncodeAttribute(t, v)|))
  {
    var e := EncodeAttribute(t, v);
    var bytes := e + rest;
    assert bytes[..4] == e[..4];
    match t
    case IntAttribute =>
      DecodeEncodeInt32(v.n);
    case StringAttribute =>
      var n := |v.units|;
      assert e[..4] == EncodeInt32(n);
      DecodeEncodeInt32(n);
      DecodeInt32Prefix(bytes, EncodeInt32(n));
      assert ByteLength(DecodeInt32(bytes)) == 2 * n;
      assert bytes[4..4 + 2 * n] == EncodeUnits(v.units);
      DecodeEncodeUnits(v.units);
  }

  /**
   * A successful decode with a non-negative count that `asBytes` can write back re-encodes
   * to exactly the bytes it consumed: decoding is injective on well-formed input.
   */
  lemma EncodeDecodeAttribute(t: AttributeType, bytes: seq<byte>)
    requires DecodeAttribute(t, bytes).Ok?
    requires |bytes| >= 4 && 0 <= DecodeInt32(bytes) && 4 + 2 * DecodeInt32(bytes) <= INT_MAX
    ensures var d := DecodeAttribute(t, bytes).value;
      HasType(t, d.value) && EncodeAttribute(t, d.value) == bytes[..d.size]
  {
    var d := DecodeAttribute(t, bytes).value;
    EncodeDecodeInt32(bytes);
    if t.StringAttribute? {
      var n := DecodeInt32(bytes);
      assert d.size == 4 + 2 * n;
      EncodeDecodeUnits(bytes[4..4 + 2 * n]);
      assert bytes[..d.size] == bytes[..4] + bytes[4..4 + 2 * n];
    }
  }

  /**
   * A count of `INT_MIN` wraps to a byte length of 0 and decodes as the empty string, which
   * `asBytes` writes back with a count of 0: the decode does not round-trip.
   */
  lemma NegativeCountWraps(bytes: seq<byte>)
    requires |bytes| >= 4 && DecodeInt32(bytes) == INT_MIN
    ensures DecodeAttribute(StringAttribute, bytes) == Ok(Decoded(StringValue([]), 4))
    ensures var d := DecodeAttribute(StringAttribute, bytes).value;
      HasType(StringAttribute, d.value) && EncodeAttribute(StringAttribute, d.value) != bytes[..d.size]
  {
    var length := ByteLength(DecodeInt32(bytes));
    assert length == 0;
    StringDecoded(bytes, length);
    var d := DecodeAttribute(StringAttribute, bytes).value;
    assert d.value.units == [];
    CountDiffers(bytes, EncodeAttribute(StringAttribute, d.value), 0);
  }

  /** Four bytes holding count `n` differ from any buffer whose count is not `n`. */
  lemma CountDiffers(bytes: seq<byte>, e: seq<byte>, n: int)
    requires |bytes| >= 4 && |e| == 4 && Int32At(e, 0) == n && DecodeInt32(bytes) != n
    ensures e != bytes[..4]
  {
    assert e[0..4] == e;
    if e == bytes[..4] {
      DecodeInt32Prefix(bytes, e);
    }
  }

  /** A string count that fits: the units that follow it, and the bytes they take. */
  lemma StringDecoded(bytes: seq<byte>, length: int)
    requires |bytes| >= 4 && length == ByteLength(DecodeInt32(bytes))
    requires 0 <= length && 4 + length <= |bytes|
    ensures DecodeAttribute(StringAttribute, bytes) == Ok(Decoded(StringValue(DecodeUnits(bytes[4..4 + length])), 4 + length))
  {
  }

  /** `StringAttribute.asBytes`: the count, then one `putChar` per unit into a fresh buffer. */
  method StringAsBytes(units: seq<Unit16>) returns (buf: array<byte>)
    requires 4 + 2 * |units| <= INT_MAX
    ensures fresh(buf)
    ensures buf[..] == EncodeAttribute(StringAttribute, StringValue(units))
  {
    ghost var target := EncodeAttribute(StringAttribute, StringValue(units));
    buf := new byte[4 + 2 * |units|](_ => 0);
    var count := EncodeInt32(|units|);
    buf[0], buf[1], buf[2], buf[3] := count[0], count[1], count[2], count[3];
    var i := 0;
    while i < |units|
      invariant 0 <= i <= |units|
      invariant forall k :: 0 <= k < 4 + 2 * i ==> buf[k] == target[k]
    {
      var c := EncodeUnit(units[i]);
      EncodeUnitsSlice(units, i);
      assert target[4 + 2 * i] == c[0] && target[4 + 2 * i + 1] == c[1];
      buf[4 + 2 * i], buf[4 + 2 * i + 1] := c[0], c[1];
      i := i + 1;
    }
  }

  /** A record field: an attribute type and a value (`AttributeType<T> to value`). */
  datatype Field = Field(attr: AttributeType, value: Value)

  predicate FieldOk(f: Field) {
    HasType(f.attr, f.value)
  }

  function EncodeField(f: Field): (r: seq<byte>)
    requires FieldOk(f)
  {
    EncodeAttribute(f.attr, f.value)
  }

  /** `Record1`, `Record2` and `Record3`. */
  datatype Record =
    | Record1(f1: Field)
    | Record2(f1: Field, f2: Field)
    | Record3(f1: Field, f2: Field, f3: Field)

  function Fields(r: Record): (fs: seq<Field>)
    ensures 1 <= |fs| <= 3
  {
    match r
    case Record1(f1) => [f1]
    case Record2(f1, f2) => [f1, f2]
    case Record3(f1, f2, f3) => [f1, f2, f3]
  }

  predicate RecordOk(r: Record) {
    forall i :: 0 <= i < |Fields(r)| ==> FieldOk(Fields(r)[i])
  }

  /** The encodings of the fields, one after another. */
  function EncodeFields(fs: seq<Field>): (r: seq<byte>)
    requires forall i :: 0 <= i < |fs| ==> FieldOk(fs[i])
  {
    if fs == [] then [] else EncodeField(fs[0]) + EncodeFields(fs[1..])
  }

  /** `asBytes()` of a record. */
  function AsBytes(r: Record): (bs: seq<byte>)
    requires RecordOk(r)
    ensures bs == EncodeFields(Fields(r))
  {
    assert FieldOk(Fields(r)[0]);
    match r
    case Record1(f1) =>
      assert [f1][1..] == [];
      EncodeField(f1)
    case Record2(f1, f2) =>
      assert FieldOk(Fields(r)[1]);
      assert [f1, f2][1..] == [f2];
      assert [f2][1..] == [];
      assert EncodeFields([f2]) == EncodeField(f2) + [];
      EncodeField(f1) + EncodeField(f2)
    case Record3(f1, f2, f3) =>
      assert FieldOk(Fields(r)[1]) && FieldOk(Fields(r)[2]);
      assert [f1, f2, f3][1..] == [f2, f3];
      assert [f2, f3][1..] == [f3];
      assert [f3][1..] == [];
      assert EncodeFields([f3]) == EncodeField(f3) + [];
      assert EncodeFields([f2, f3]) == EncodeField(f2) + EncodeField(f3);
      EncodeField(f1) + EncodeField(f2) + EncodeField(f3)
  }

  /** `Record1.fromBytes`: the first attribute's (value, size) pair. */
  function Record1FromBytes(r: Record, bytes: seq<byte>): (d: Result<Decoded>)
    requires r.Record1?
    ensures d == DecodeAttribute(r.f1.attr, bytes)
  {
    DecodeAttribute(r.f1.attr, bytes)
  }

  /**
   * `Record2/3.fromBytes`: the attributes read one after another from a buffer, each from
   * where the previous one ended; a failing read fails the whole record.
   */
  function FromBytes(r: Record, bytes: seq<byte>): (res: Result<Record>)
    requires !r.Record1?
    ensures res.Ok? ==> Types(res.value) == Types(r)
  {
    match DecodeAttribute(r.f1.attr, bytes)
    case Err(e) => Err(e)
    case Ok(d1) =>
      var rest1 := bytes[d1.size..];
      match DecodeAttribute(r.f2.attr, rest1)
      case Err(e) => Err(e)
      case Ok(d2) =>
        if r.Record2? then Ok(Record2(Field(r.f1.attr, d1.value), Field(r.f2.attr, d2.value)))
        else
          match DecodeAttribute(r.f3.attr, rest1[d2.size..])
          case Err(e) => Err(e)
          case Ok(d3) =>
            Ok(Record3(Field(r.f1.attr, d1.value), Field(r.f2.attr, d2.value), Field(r.f3.attr, d3.value)))
  }

  function Types(r: Record): (ts: seq<AttributeType>)
    ensures |ts| == |Fields(r)|
  {
    seq(|Fields(r)|, i requires 0 <= i < |Fields(r)| => Fields(r)[i].attr)
  }

  /** One field read from its encoding followed by `rest`: its value, and `rest` is what is left. */
  lemma ReadField(f: Field, rest: seq<byte>)
    requires FieldOk(f)
    ensures DecodeAttribute(f.attr, EncodeField(f) + rest) == Ok(Decoded(f.value, |EncodeField(f)|))
    ensures (EncodeField(f) + rest)[|EncodeField(f)|..] == rest
  {
    DecodeEncodeAttribute(f.attr, f.value, rest);
  }

  /** `fromBytes(asBytes(r))` is `r`, also when other bytes follow the record. */
  lemma FromBytesAsBytes(r: Record, rest: seq<byte>)
    requires RecordOk(r) && !r.Record1?
    ensures FromBytes(r, AsBytes(r) + rest) == Ok(r)
  {
    assert FieldOk(Fields(r)[0]) && FieldOk(Fields(r)[1]);
    if r.Record2? {
      FromBytesAsBytes2(r.f1, r.f2, rest);
    } else {
      assert FieldOk(Fields(r)[2]);
      FromBytesAsBytes3(r.f1, r.f2, r.f3, rest);
    }
  }

  lemma FromBytesAsBytes2(f1: Field, f2: Field, rest: seq<byte>)
    requires FieldOk(f1) && FieldOk(f2)
    ensures FromBytes(Record2(f1, f2), EncodeField(f1) + EncodeField(f2) + rest) == Ok(Record2(f1, f2))
  {
    var e1 := EncodeField(f1);
    var e2 := EncodeField(f2);
    assert e1 + e2 + rest == e1 + (e2 + rest);
    ReadField(f1, e2 + rest);
    ReadField(f2, rest);
  }

  lemma FromBytesAsBytes3(f1: Field, f2: Field, f3: Field, rest: seq<byte>)
    requires FieldOk(f1) && FieldOk(f2) && FieldOk(f3)
    ensures FromBytes(Record3(f1, f2, f3), EncodeField(f1) + EncodeField(f2) + EncodeField(f3) + rest)
      == Ok(Record3(f1, f2, f3))
  {
    var e1 := EncodeField(f1);
    var e2 := EncodeField(f2);
    var e3 := EncodeField(f3);
    assert e1 + e2 + e3 + rest == e1 + (e2 + (e3 + rest));
    ReadField(f1, e2 + (e3 + rest));
    ReadField(f2, e3 + rest);
    ReadField(f3, rest);
  }

  /** `Record1.fromBytes(asBytes())` is the value paired with its encoded size. */
  lemma Record1FromAsBytes(r: Record, rest: seq<byte>)
    requires RecordOk(r) && r.Record1?
    ensures Record1FromBytes(r, AsBytes(r) + rest) == Ok(Decoded(r.f1.value, |AsBytes(r)|))
  {
    assert FieldOk(Fields(r)[0]);
    DecodeEncodeAttribute(r.f1.attr, r.f1.value, rest);
  }

  /** A `ByteBuffer` over a record's bytes, read with `readAttribute`. */
  class AttributeReader {
    const buffer: seq<byte>
    var position: int

    constructor (bytes: seq<byte>)
      ensures buffer == bytes && position == 0
    {
      buffer := bytes;
      position := 0;
    }

    /**
     * `readAttribute(attrType)`: decode from the rest of the buffer and move the position
     * past what was consumed. A failing read throws and leaves the position where it was.
     */
    method ReadAttribute(t: AttributeType) returns (r: Result<Value>)
      requires 0 <= position <= |buffer|
      modifies this
      ensures 0 <= position <= |buffer|
      ensures match DecodeAttribute(t, old(buffer[position..]))
        case Ok(d) => r == Ok(d.value) && position == old(position) + d.size
        case Err(e) => r == Err(e) && position == old(position)
    {
      var d := DecodeAttribute(t, buffer[position..]);
      if d.Err? {
        return Err(d.error);
      }
      position := position + d.value.size;
      r := Ok(d.value.value);
    }
  }

  /** `Record2/3.fromBytes` as the source runs it, one `readAttribute` per field. */
  method ReadRecord(r: Record, bytes: seq<byte>) returns (res: Result<Record>)
    requires !r.Record1?
    ensures res == FromBytes(r, bytes)
  {
    var reader := new AttributeReader(bytes);
    var v1 := reader.ReadAttribute(r.f1.attr);
    if v1.Err? {
      return Err(v1.error);
    }
    var v2 := reader.ReadAttribute(r.f2.attr);
    if v2.Err? {
      return Err(v2.error);
    }
    if r.Record2? {
      return Ok(Record2(Field(r.f1.attr, v1.value), Field(r.f2.attr, v2.value)));
    }
    var v3 := reader.ReadAttribute(r.f3.attr);
    if v3.Err? {
      return Err(v3.error);
    }
    res := Ok(Record3(Field(r.f1.attr, v1.value), Field(r.f2.attr, v2.value), Field(r.f3.attr, v3.value)));
  }
}
