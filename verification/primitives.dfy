/**
 The primitive type catalog (`PrimitiveType`, `sizeMap`) and the read/write
 pairs that `readWriteFuncMap` selects for a type name and an endianness.
 Integer kinds are given values; `Float` and `Double` only a width.
 */
module Primitives {
  import opened Bytes
  import opened Results

  datatype Primitive = UInt8 | Int8 | UInt16 | Int16 | UInt32 | Int32 | Float | Double

  /** Byte width of each kind, as in `sizeMap`. */
  function Width(k: Primitive): nat
  {
    match k
    case UInt8 => 1
    case Int8 => 1
    case UInt16 => 2
    case Int16 => 2
    case UInt32 => 4
    case Int32 => 4
    case Float => 4
    case Double => 8
  }

  predicate IsInteger(k: Primitive)
  {
    !k.Float? && !k.Double?
  }

  predicate IsSigned(k: Primitive)
  {
    k.Int8? || k.Int16? || k.Int32?
  }

  /** Number of values of a kind of width w, and half of it. */
  function Span(k: Primitive): nat
  {
    Pow256(Width(k))
  }

  function Half(k: Primitive): nat
  {
    Span(k) / 2
  }

  function MinValue(k: Primitive): int
    requires IsInteger(k)
  {
    if IsSigned(k) then 0 - Half(k) else 0
  }

  function MaxValue(k: Primitive): int
    requires IsInteger(k)
  {
    if IsSigned(k) then Half(k) - 1 else Span(k) - 1
  }

  /** The values Node's `write*` of that kind accepts without throwing. */
  predicate InRange(k: Primitive, v: int)
    requires IsInteger(k)
  {
    MinValue(k) <= v <= MaxValue(k)
  }

  /**
   Which function pair a `readWriteFuncMap` key selects: the kinds wider than
   a byte get the LE or BE variant, the one-byte kinds get `readUInt8`/`readInt8`
   (no byte order) under both keys.
   */
  datatype Order = Unordered | Ordered(endian: Endian)

  datatype Codec = Codec(kind: Primitive, order: Order)

  /** Look up `readWriteFuncMap[typeName + endianness]`. */
  function CodecFor(k: Primitive, e: Endian): (c: Codec)
    ensures c.kind == k
    ensures c.order == Unordered <==> Width(k) == 1
    ensures c.order.Ordered? ==> c.order.endian == e
  {
    if k == UInt8 || k == Int8 then Codec(k, Unordered) else Codec(k, Ordered(e))
  }

  /** The byte order the selected functions actually use; a single byte has none, LE stands in. */
  function ByteOrder(c: Codec): Endian
  {
    match c.order
    case Unordered => LE
    case Ordered(e) => e
  }

  /** Two's-complement interpretation of an unsigned pattern, for signed kinds. */
  function FromPattern(k: Primitive, u: nat): (v: int)
    requires IsInteger(k) && u < Span(k)
    ensures InRange(k, v)
  {
    if IsSigned(k) && u >= Half(k) then u - Span(k) else u
  }

  /** The unsigned bit pattern stored for an in-range value. */
  function ToPattern(k: Primitive, v: int): (u: nat)
    requires IsInteger(k) && InRange(k, v)
    ensures u < Span(k)
    ensures FromPattern(k, u) == v
  {
    if v < 0 then v + Span(k) else v
  }

  /** `readFunc.call(buffer, offset)`: the integer stored at `at`. */
  function Read(c: Codec, buf: Buffer, at: nat): (v: int)
    requires IsInteger(c.kind)
    requires at + Width(c.kind) <= |buf|
    ensures InRange(c.kind, v)
  {
    FromPattern(c.kind, Decode(buf[at..at + Width(c.kind)], ByteOrder(c)))
  }

  /** Node's `write*` rejects a value that the width cannot hold. */
  datatype WriteError = ValueOutOfRange(value: int)

  /**
   `writeFunc.call(buffer, value, offset)`: the buffer after storing `v` at `at`.
   It fails exactly when the value is out of range; on success the read at
   `at` gives back `v` and every byte outside `[at, at + width)` is unchanged.
   */
  function Write(c: Codec, buf: Buffer, at: nat, v: int): (r: Result<Buffer, WriteError>)
    requires IsInteger(c.kind)
    requires at + Width(c.kind) <= |buf|
    ensures r.Success? <==> InRange(c.kind, v)
    ensures r.Failure? ==> r.error == ValueOutOfRange(v)
    ensures r.Success? ==> |r.value| == |buf|
    ensures r.Success? ==> forall i :: 0 <= i < |buf| && !(at <= i < at + Width(c.kind)) ==> r.value[i] == buf[i]
    ensures r.Success? ==> Read(c, r.value, at) == v
  {
    if !InRange(c.kind, v) then Failure(ValueOutOfRange(v))
    else
      var w := Width(c.kind);
      var bytes := Encode(ToPattern(c.kind, v), w, ByteOrder(c));
      var b' := buf[..at] + bytes + buf[at + w..];
      assert b'[at..at + w] == bytes;
      Success(b')
  }

  /** Writing back the value just read leaves the buffer as it was. */
  lemma WriteWhatWasRead(c: Codec, buf: Buffer, at: nat)
    requires IsInteger(c.kind)
    requires at + Width(c.kind) <= |buf|
    ensures Write(c, buf, at, Read(c, buf, at)) == Success(buf)
  {
    var w := Width(c.kind);
    var bs := buf[at..at + w];
    var u := Decode(bs, ByteOrder(c));
    var v := Read(c, buf, at);
    assert ToPattern(c.kind, v) == u;
    EncodeDecode(bs, ByteOrder(c));
    assert buf[..at] + bs + buf[at + w..] == buf;
  }

  /** Two writes to the same place: the second one, or its failure, is all that remains. */
  lemma LastWriteWins(c: Codec, buf: Buffer, at: nat, v1: int, v2: int)
    requires IsInteger(c.kind)
    requires at + Width(c.kind) <= |buf|
    requires InRange(c.kind, v1)
    ensures Write(c, Write(c, buf, at, v1).value, at, v2) == Write(c, buf, at, v2)
  {
    if InRange(c.kind, v2) {
      var w := Width(c.kind);
      var b1 := Write(c, buf, at, v1).value;
      assert b1[..at] == buf[..at];
      assert b1[at + w..] == buf[at + w..];
    }
  }

  /** A read sees only the bytes `[at, at + width)`, wherever they sit in the buffer. */
  lemma ReadSameBytes(c: Codec, b1: Buffer, at1: nat, b2: Buffer, at2: nat)
    requires IsInteger(c.kind)
    requires at1 + Width(c.kind) <= |b1| && at2 + Width(c.kind) <= |b2|
    requires b1[at1..at1 + Width(c.kind)] == b2[at2..at2 + Width(c.kind)]
    ensures Read(c, b1, at1) == Read(c, b2, at2)
  {
  }

  lemma ReadDependsOnlyOnItsBytes(c: Codec, b1: Buffer, b2: Buffer, at: nat)
    requires IsInteger(c.kind)
    requires at + Width(c.kind) <= |b1| && at + Width(c.kind) <= |b2|
    requires forall i :: at <= i < at + Width(c.kind) ==> b1[i] == b2[i]
    ensures Read(c, b1, at) == Read(c, b2, at)
  {
    assert b1[at..at + Width(c.kind)] == b2[at..at + Width(c.kind)];
  }

  /** The one-byte kinds select the same function pair under LE and BE. */
  lemma OneByteKindsIgnoreEndianness(k: Primitive, buf: Buffer, at: nat)
    requires IsInteger(k) && Width(k) == 1
    requires at + 1 <= |buf|
    ensures CodecFor(k, LE) == CodecFor(k, BE)
    ensures Read(CodecFor(k, LE), buf, at) == FromPattern(k, buf[at])
  {
    SingleByteOrderFree(buf[at..at + 1]);
  }

  /** A `UInt16` reads its two bytes low-first under LE and high-first under BE. */
  lemma UInt16EachOrder(buf: Buffer, at: nat)
    requires at + 2 <= |buf|
    ensures Read(CodecFor(UInt16, LE), buf, at) == buf[at] as int + 256 * buf[at + 1] as int
    ensures Read(CodecFor(UInt16, BE), buf, at) == 256 * buf[at] as int + buf[at + 1] as int
  {
    var bs := buf[at..at + 2];
    TwoBytesEachOrder(bs);
  }
}
