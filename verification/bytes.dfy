/**
 Bytes, byte orders and the unsigned little-/big-endian integer codecs that
 Node's `Buffer.read*`/`write*` pairs implement for widths of 1, 2 and 4 bytes.
 */
module Bytes {

  /** One byte of a buffer. */
  type Byte = b: int | 0 <= b < 256

  /** The contents of a buffer, indexed from 0. */
  type Buffer = seq<Byte>

  /** Byte order of a multi-byte integer: least or most significant byte first. */
  datatype Endian = LE | BE

  /** 256^n, the number of distinct values of an n-byte unsigned integer. */
  function Pow256(n: nat): (p: nat)
    ensures p >= 1
    ensures n > 0 ==> p >= 256
  {
    if n == 0 then 1 else 256 * Pow256(n - 1)
  }

  function Reverse<T>(s: seq<T>): (r: seq<T>)
    ensures |r| == |s|
    ensures forall i :: 0 <= i < |s| ==> r[i] == s[|s| - 1 - i]
  {
    if |s| == 0 then [] else Reverse(s[1..]) + [s[0]]
  }

  lemma ReverseReverse<T>(s: seq<T>)
    ensures Reverse(Reverse(s)) == s
  {
  }

  /** The unsigned value of `bs` read least significant byte first. */
  function DecodeLE(bs: seq<Byte>): (v: nat)
    ensures v < Pow256(|bs|)
  {
    if |bs| == 0 then 0 else bs[0] + 256 * DecodeLE(bs[1..])
  }

  /** The n bytes of `v`, least significant first. */
  function EncodeLE(v: nat, n: nat): (bs: seq<Byte>)
    requires v < Pow256(n)
    ensures |bs| == n
    ensures DecodeLE(bs) == v
  {
    if n == 0 then []
    else
      var rest := EncodeLE(v / 256, n - 1);
      assert ([v % 256] + rest)[1..] == rest;
      [v % 256] + rest
  }

  /** Decoding then re-encoding at the same width gives back the bytes. */
  lemma {:induction false} EncodeDecodeLE(bs: seq<Byte>)
    ensures EncodeLE(DecodeLE(bs), |bs|) == bs
  {
    if |bs| > 0 {
      EncodeDecodeLE(bs[1..]);
      var v := DecodeLE(bs);
      assert v % 256 == bs[0] && v / 256 == DecodeLE(bs[1..]);
      assert bs == [bs[0]] + bs[1..];
    }
  }

  /** The unsigned value of `bs` in byte order `e`. */
  function Decode(bs: seq<Byte>, e: Endian): (v: nat)
    ensures v < Pow256(|bs|)
  {
    match e
    case LE => DecodeLE(bs)
    case BE => DecodeLE(Reverse(bs))
  }

  /** The n bytes of `v` in byte order `e`. */
  function Encode(v: nat, n: nat, e: Endian): (bs: seq<Byte>)
    requires v < Pow256(n)
    ensures |bs| == n
    ensures Decode(bs, e) == v
  {
    match e
    case LE => EncodeLE(v, n)
    case BE =>
      ReverseReverse(EncodeLE(v, n));
      Reverse(EncodeLE(v, n))
  }

  /** Encoding is the inverse of decoding in both byte orders. */
  lemma EncodeDecode(bs: seq<Byte>, e: Endian)
    ensures Encode(Decode(bs, e), |bs|, e) == bs
  {
    match e
    case LE => EncodeDecodeLE(bs);
    case BE =>
      EncodeDecodeLE(Reverse(bs));
      ReverseReverse(bs);
  }

  /** A single byte reads the same in either byte order. */
  lemma SingleByteOrderFree(bs: seq<Byte>)
    requires |bs| == 1
    ensures Decode(bs, LE) == Decode(bs, BE) == bs[0]
  {
    assert Reverse(bs) == bs;
  }

  /** Two bytes read as `b0 + 256 * b1` little-endian and `b1 + 256 * b0` big-endian. */
  lemma TwoBytesEachOrder(bs: seq<Byte>)
    requires |bs| == 2
    ensures Decode(bs, LE) == bs[0] as int + 256 * bs[1] as int
    ensures Decode(bs, BE) == bs[1] as int + 256 * bs[0] as int
  {
    var sb := Reverse(bs);
    assert sb == [bs[1], bs[0]];
    assert DecodeLE(bs[1..]) == bs[1] as int + 256 * DecodeLE(bs[1..][1..]);
    assert DecodeLE(sb[1..]) == sb[1] as int + 256 * DecodeLE(sb[1..][1..]);
  }
}
