/**
 * ByteSegment: a pre-sized byte buffer with readers and writers at fixed
 * offsets. Writing never resizes the buffer; every field is written in the
 * encoding of module Codec and module Utf8.
 */
module ByteSegments {
  import opened Codec
  import Utf8

  /** `s` with the bytes `w` written over it from position `at` on. */
  function Overwrite(s: seq<Byte>, at: nat, w: seq<Byte>): (r: seq<Byte>)
    requires at + |w| <= |s|
    ensures |r| == |s|
    ensures r[at..at + |w|] == w
    ensures forall i :: 0 <= i < |s| && !(at <= i < at + |w|) ==> r[i] == s[i]
  {
    s[..at] + w + s[at + |w|..]
  }

  class ByteSegment {
    const bytes: array<Byte>

    constructor (buffer: array<Byte>)
      ensures bytes == buffer
    {
      bytes := buffer;
    }

    method WriteBytes(at: nat, w: seq<Byte>)
      requires at + |w| <= bytes.Length
      modifies bytes
      ensures bytes[..] == Overwrite(old(bytes[..]), at, w)
    {
      forall k | 0 <= k < |w| {
        bytes[at + k] := w[k];
      }
    }

    method WriteLong(at: nat, x: Int64)
      requires at + 8 <= bytes.Length
      modifies bytes
      ensures bytes[..] == Overwrite(old(bytes[..]), at, EncodeLong(x))
    {
      WriteBytes(at, EncodeLong(x));
    }

    method WriteInt(at: nat, x: Int32)
      requires at + 4 <= bytes.Length
      modifies bytes
      ensures bytes[..] == Overwrite(old(bytes[..]), at, EncodeInt(x))
    {
      WriteBytes(at, EncodeInt(x));
    }

    method WriteUlong(at: nat, x: UInt64)
      requires at + 8 <= bytes.Length
      modifies bytes
      ensures bytes[..] == Overwrite(old(bytes[..]), at, EncodeUlong(x))
    {
      WriteBytes(at, EncodeUlong(x));
    }

    /** Writes the UTF-8 bytes of `s` from `at` on; the caller has sized the buffer. */
    method WriteString(at: nat, s: seq<Utf8.ScalarValue>)
      requires at + Utf8.ByteCount(s) <= bytes.Length
      modifies bytes
      ensures bytes[..] == Overwrite(old(bytes[..]), at, Utf8.Encode(s))
    {
      WriteBytes(at, Utf8.Encode(s));
    }

    function ReadLong(at: nat): Int64
      reads bytes
      requires at + 8 <= bytes.Length
    {
      DecodeLong(bytes[at..at + 8])
    }

    function ReadInt(at: nat): Int32
      reads bytes
      requires at + 4 <= bytes.Length
    {
      DecodeInt(bytes[at..at + 4])
    }

    function ReadUlong(at: nat): UInt64
      reads bytes
      requires at + 8 <= bytes.Length
    {
      DecodeUlong(bytes[at..at + 8])
    }

    /** Reads a string from `at` to the end of the buffer; no length is stored. */
    function ReadString(at: nat): seq<Utf8.ScalarValue>
      reads bytes
      requires at <= bytes.Length
    {
      Utf8.Decode(bytes[at..])
    }
  }
}
