/**
 * Byte-level primitives shared by the slotted page format and the record
 * codec: JVM `ByteBuffer` semantics for 32-bit big-endian two's-complement
 * integers and for 16-bit big-endian units, and bulk writes into a byte image.
 */
module Bytes {

  /** One byte of a Kotlin `ByteArray`, read back as an unsigned value. */
  type byte = b: int | 0 <= b < 256

  const INT_MIN: int := -0x8000_0000
  const INT_MAX: int := 0x7FFF_FFFF

  /** A value of Kotlin's `Int`. */
  predicate IsInt32(v: int) {
    INT_MIN <= v <= INT_MAX
  }

  /** Kotlin's `absoluteValue` (no wrap-around: page offsets never reach `Int.MIN_VALUE`). */
  function Abs(x: int): nat {
    if x < 0 then -x else x
  }

  /** Kotlin's `sign`: -1, 0 or 1. */
  function Sign(x: int): int {
    if x < 0 then -1 else if x == 0 then 0 else 1
  }

  /** Kotlin `Int` arithmetic: the mathematical result wrapped into 32 bits. */
  function Wrap32(x: int): (r: int)
    ensures IsInt32(r)
    ensures IsInt32(x) ==> r == x
  {
    (x - INT_MIN) % 0x1_0000_0000 + INT_MIN
  }

  /** The two's-complement bit pattern of a 32-bit value, as an unsigned number. */
  function Unsigned32(v: int): (u: int)
    requires IsInt32(v)
    ensures 0 <= u < 0x1_0000_0000
    ensures (v < 0 ==> u == v + 0x1_0000_0000) && (v >= 0 ==> u == v)
  {
    if v < 0 then v + 0x1_0000_0000 else v
  }

  /** `256^n`. */
  function Pow256(n: nat): (r: nat)
    ensures r >= 1
  {
    if n == 0 then 1 else 256 * Pow256(n - 1)
  }

  /** The unsigned value of `bs` read most significant byte first. */
  function BigEndian(bs: seq<byte>): nat
    decreases |bs|
  {
    if |bs| == 0 then 0 else BigEndian(bs[..|bs| - 1]) * 256 + bs[|bs| - 1]
  }

  /** The last `n` base-256 digits of `u`, most significant first. */
  function BigEndianBytes(u: nat, n: nat): (r: seq<byte>)
    ensures |r| == n
  {
    if n == 0 then [] else BigEndianBytes(u / 256, n - 1) + [u % 256]
  }

  /** Reinterpreting a 32-bit pattern as a two's-complement value. */
  function ToSigned(u: nat): int {
    if u >= 0x8000_0000 then u - 0x1_0000_0000 else u
  }

  /** `ByteBuffer.putInt`: four bytes, most significant first. */
  function EncodeInt32(v: int): (r: seq<byte>)
    requires IsInt32(v)
    ensures |r| == 4
  {
    BigEndianBytes(Unsigned32(v), 4)
  }

  /** `ByteBuffer.getInt` at the start of `s`. */
  function DecodeInt32(s: seq<byte>): (v: int)
    requires |s| >= 4
    ensures IsInt32(v)
  {
    BigEndianBound(s[..4]);
    ToSigned(BigEndian(s[..4]))
  }

  /** `ByteBuffer.getInt(p)` on a whole byte image. */
  function Int32At(s: seq<byte>, p: int): (v: int)
    requires 0 <= p && p + 4 <= |s|
    ensures IsInt32(v)
  {
    DecodeInt32(s[p..p + 4])
  }

  /** `ByteBuffer.putChar`: a 16-bit unit, most significant byte first. */
  function EncodeUnit(c: int): (r: seq<byte>)
    requires 0 <= c < 0x1_0000
  {
    [c / 0x100, c % 0x100]
  }

  /** `ByteBuffer.getChar` at position `p`. */
  function UnitAt(s: seq<byte>, p: int): (c: int)
    requires 0 <= p && p + 2 <= |s|
    ensures 0 <= c < 0x1_0000
  {
    (s[p] as int) * 0x100 + s[p + 1]
  }

  /** `s` with `data` written over positions `at .. at + |data|` (a bulk `ByteBuffer.put`). */
  function Splice(s: seq<byte>, at: int, data: seq<byte>): (r: seq<byte>)
    requires 0 <= at && at + |data| <= |s|
    ensures |r| == |s|
    ensures forall k :: 0 <= k < |s| ==> r[k] == if at <= k < at + |data| then data[k - at] else s[k]
  {
    seq(|s|, k requires 0 <= k < |s| => if at <= k < at + |data| then data[k - at] else s[k])
  }

  /** `s` with the 32-bit value `v` written at position `p`. */
  function WriteInt32(s: seq<byte>, p: int, v: int): (r: seq<byte>)
    requires 0 <= p && p + 4 <= |s| && IsInt32(v)
    ensures |r| == |s|
  {
    Splice(s, p, EncodeInt32(v))
  }

  /** `n` zero bytes, as a fresh `ByteArray(n)`. */
  function Zeros(n: nat): (r: seq<byte>)
    ensures |r| == n && forall k :: 0 <= k < n ==> r[k] == 0
  {
    seq(n, _ => 0)
  }

  /** A big-endian value is below `256^n`. */
  lemma {:induction false} BigEndianBound(bs: seq<byte>)
    ensures BigEndian(bs) < Pow256(|bs|)
    decreases |bs|
  {
    if |bs| > 0 {
      BigEndianBound(bs[..|bs| - 1]);
    }
  }

  /** Reading back the digits of a value below `256^n` gives the value. */
  lemma {:induction false} BigEndianOfBytes(u: nat, n: nat)
    requires u < Pow256(n)
    ensures BigEndian(BigEndianBytes(u, n)) == u
  {
    if n > 0 {
      var q := u / 256;
      var bs := BigEndianBytes(u, n);
      assert q < Pow256(n - 1);
      BigEndianOfBytes(q, n - 1);
      assert bs[..n - 1] == BigEndianBytes(q, n - 1);
      assert BigEndian(bs) == q * 256 + u % 256;
    }
  }

  /** Writing the digits of a big-endian value gives the bytes back. */
  lemma {:induction false} BytesOfBigEndian(bs: seq<byte>)
    ensures BigEndianBytes(BigEndian(bs), |bs|) == bs
    decreases |bs|
  {
    if |bs| > 0 {
      var p := bs[..|bs| - 1];
      var x := BigEndian(bs);
      BytesOfBigEndian(p);
      assert x == BigEndian(p) * 256 + bs[|bs| - 1];
      assert x / 256 == BigEndian(p) && x % 256 == bs[|bs| - 1];
      assert BigEndianBytes(x, |bs|) == BigEndianBytes(x / 256, |bs| - 1) + [x % 256];
      assert bs == p + [bs[|bs| - 1]];
    }
  }

  /** Decoding what `putInt` wrote gives the value back. */
  lemma DecodeEncodeInt32(v: int)
    requires IsInt32(v)
    ensures DecodeInt32(EncodeInt32(v)) == v
  {
    var e := EncodeInt32(v);
    assert e[..4] == e;
    BigEndianOfBytes(Unsigned32(v), 4);
  }

  /** Encoding what `getInt` read gives the four bytes back. */
  lemma EncodeDecodeInt32(s: seq<byte>)
    requires |s| >= 4
    ensures EncodeInt32(DecodeInt32(s)) == s[..4]
  {
    BigEndianBound(s[..4]);
    BytesOfBigEndian(s[..4]);
  }

  /** `getInt` reads only the first four bytes. */
  lemma DecodeInt32Prefix(s: seq<byte>, e: seq<byte>)
    requires |s| >= 4 && |e| >= 4 && s[..4] == e[..4]
    ensures DecodeInt32(s) == DecodeInt32(e)
  {
  }

  /** Two different 32-bit values never share an encoding. */
  lemma EncodeInt32Injective(v: int, w: int)
    requires IsInt32(v) && IsInt32(w) && EncodeInt32(v) == EncodeInt32(w)
    ensures v == w
  {
    DecodeEncodeInt32(v);
    DecodeEncodeInt32(w);
  }

  /** Reading an encoded value back from inside a larger image. */
  lemma Int32AtSplice(s: seq<byte>, p: int, v: int)
    requires 0 <= p && p + 4 <= |s| && IsInt32(v)
    ensures Int32At(WriteInt32(s, p, v), p) == v
  {
    DecodeEncodeInt32(v);
    var e := EncodeInt32(v);
    var r := WriteInt32(s, p, v);
    forall k | 0 <= k < 4
      ensures r[p..p + 4][k] == e[k]
    {
      assert r[p + k] == e[k];
    }
    assert r[p..p + 4][..4] == r[p..p + 4] == e;
  }

  /** All-zero bytes read as zero. */
  lemma {:induction false} BigEndianZeros(bs: seq<byte>)
    requires forall k :: 0 <= k < |bs| ==> bs[k] == 0
    ensures BigEndian(bs) == 0
    decreases |bs|
  {
    if |bs| > 0 {
      BigEndianZeros(bs[..|bs| - 1]);
    }
  }

  /** Decoding what `putChar` wrote gives the unit back. */
  lemma UnitRoundTrip(c: int)
    requires 0 <= c < 0x1_0000
    ensures |EncodeUnit(c)| == 2 && UnitAt(EncodeUnit(c), 0) == c
  {
  }
}
