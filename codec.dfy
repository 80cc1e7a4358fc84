/**
 * The fixed-width integer codec behind ByteSegment's ReadLong/WriteLong,
 * ReadInt/WriteInt and ReadUlong/WriteUlong: little-endian, two's complement
 * for the signed widths.
 */
module Codec {

  type Byte = b: int | 0 <= b < 256

  const TwoTo32: int := 0x1_0000_0000
  const TwoTo64: int := 0x1_0000_0000_0000_0000

  /** C#'s `long`, `int` and `ulong`. */
  type Int64 = x: int | -TwoTo64 / 2 <= x < TwoTo64 / 2
  type Int32 = x: int | -TwoTo32 / 2 <= x < TwoTo32 / 2
  type UInt64 = x: int | 0 <= x < TwoTo64

  function Pow256(n: nat): (r: int)
    ensures r >= 1
  {
    if n == 0 then 1 else 256 * Pow256(n - 1)
  }

  lemma Pow256Values()
    ensures Pow256(4) == TwoTo32 && Pow256(8) == TwoTo64
  {
    assert Pow256(0) == 1;
    assert Pow256(1) == 256;
    assert Pow256(2) == 65536;
    assert Pow256(4) == 4294967296;
  }

  /** The `n` least significant bytes of `v`, least significant first. */
  function EncodeLE(v: nat, n: nat): (r: seq<Byte>)
    requires v < Pow256(n)
    ensures |r| == n
  {
    if n == 0 then []
    else
      assert v / 256 < Pow256(n - 1);
      [v % 256] + EncodeLE(v / 256, n - 1)
  }

  /** The value of a little-endian byte sequence. */
  function DecodeLE(s: seq<Byte>): (v: nat)
    ensures v < Pow256(|s|)
  {
    if s == [] then 0 else s[0] + 256 * DecodeLE(s[1..])
  }

  lemma {:induction false} DecodeEncodeLE(v: nat, n: nat)
    requires v < Pow256(n)
    ensures DecodeLE(EncodeLE(v, n)) == v
  {
    if n > 0 {
      var r := EncodeLE(v, n);
      assert r[1..] == EncodeLE(v / 256, n - 1);
      DecodeEncodeLE(v / 256, n - 1);
    }
  }

  /** The low byte and the rest of `lo + 256 * hi`. */
  lemma SplitLowByte(lo: int, hi: int)
    requires 0 <= lo < 256
    ensures (lo + 256 * hi) % 256 == lo && (lo + 256 * hi) / 256 == hi
  {
  }

  lemma {:induction false} EncodeDecodeLE(s: seq<Byte>)
    ensures EncodeLE(DecodeLE(s), |s|) == s
  {
    if s != [] {
      SplitLowByte(s[0], DecodeLE(s[1..]));
      EncodeDecodeLE(s[1..]);
    }
  }

  /** Two's complement: the unsigned value with the same `bits`-wide pattern. */
  function ToUnsigned(x: int, modulus: int): (u: int)
    requires modulus > 0 && -modulus / 2 <= x < modulus / 2
    ensures 0 <= u < modulus
  {
    if x >= 0 then x else x + modulus
  }

  function ToSigned(u: int, modulus: int): (x: int)
    requires modulus > 0 && modulus % 2 == 0 && 0 <= u < modulus
    ensures -modulus / 2 <= x < modulus / 2
  {
    if u < modulus / 2 then u else u - modulus
  }

  /** The two reinterpretations undo each other. */
  lemma SignedUnsignedInverse(x: int, u: int, modulus: int)
    requires modulus > 0 && modulus % 2 == 0
    requires -modulus / 2 <= x < modulus / 2 && 0 <= u < modulus
    ensures ToSigned(ToUnsigned(x, modulus), modulus) == x
    ensures ToUnsigned(ToSigned(u, modulus), modulus) == u
  {
  }

  function EncodeLong(x: Int64): (r: seq<Byte>)
    ensures |r| == 8
  {
    Pow256Values();
    EncodeLE(ToUnsigned(x, TwoTo64), 8)
  }

  function DecodeLong(s: seq<Byte>): Int64
    requires |s| == 8
  {
    Pow256Values();
    ToSigned(DecodeLE(s), TwoTo64)
  }

  function EncodeInt(x: Int32): (r: seq<Byte>)
    ensures |r| == 4
  {
    Pow256Values();
    EncodeLE(ToUnsigned(x, TwoTo32), 4)
  }

  function DecodeInt(s: seq<Byte>): Int32
    requires |s| == 4
  {
    Pow256Values();
    ToSigned(DecodeLE(s), TwoTo32)
  }

  function EncodeUlong(x: UInt64): (r: seq<Byte>)
    ensures |r| == 8
  {
    Pow256Values();
    EncodeLE(x, 8)
  }

  function DecodeUlong(s: seq<Byte>): UInt64
    requires |s| == 8
  {
    Pow256Values();
    DecodeLE(s)
  }

  lemma LongRoundTrip(x: Int64)
    ensures DecodeLong(EncodeLong(x)) == x
  {
    Pow256Values();
    SignedUnsignedInverse(x, 0, TwoTo64);
    DecodeEncodeLE(ToUnsigned(x, TwoTo64), 8);
  }

  lemma IntRoundTrip(x: Int32)
    ensures DecodeInt(EncodeInt(x)) == x
  {
    Pow256Values();
    SignedUnsignedInverse(x, 0, TwoTo32);
    DecodeEncodeLE(ToUnsigned(x, TwoTo32), 4);
  }

  lemma UlongRoundTrip(x: UInt64)
    ensures DecodeUlong(EncodeUlong(x)) == x
  {
    Pow256Values();
    DecodeEncodeLE(x, 8);
  }

  /** Every 8-byte pattern is the encoding of exactly one `long`. */
  lemma LongBytesRoundTrip(s: seq<Byte>)
    requires |s| == 8
    ensures EncodeLong(DecodeLong(s)) == s
  {
    Pow256Values();
    EncodeDecodeLE(s);
  }

  lemma IntBytesRoundTrip(s: seq<Byte>)
    requires |s| == 4
    ensures EncodeInt(DecodeInt(s)) == s
  {
    Pow256Values();
    EncodeDecodeLE(s);
  }

  lemma UlongBytesRoundTrip(s: seq<Byte>)
    requires |s| == 8
    ensures EncodeUlong(DecodeUlong(s)) == s
  {
    Pow256Values();
    EncodeDecodeLE(s);
  }
}
