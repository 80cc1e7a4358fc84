/**
 * UTF-8 for the `name` tail of a node record: the encoder that
 * `Encoding.UTF8.GetBytes` applies, the byte count `Encoding.UTF8.GetByteCount`
 * sizes the buffer with, and the decoder that `ReadString` applies to the
 * bytes from its offset to the end of the buffer.
 */
module Utf8 {
  import opened Codec
  import opened Wrappers

  /** A Unicode scalar value: a code point that is not a surrogate. */
  type ScalarValue = c: int | 0 <= c < 0x11_0000 && !(0xD800 <= c < 0xE000)

  const Replacement: ScalarValue := 0xFFFD

  /** Number of bytes UTF-8 spends on one scalar value. */
  function Width(c: ScalarValue): (w: nat)
    ensures 1 <= w <= 4
  {
    if c < 0x80 then 1 else if c < 0x800 then 2 else if c < 0x1_0000 then 3 else 4
  }

  function EncodeChar(c: ScalarValue): (r: seq<Byte>)
    ensures |r| == Width(c)
  {
    if c < 0x80 then [c]
    else if c < 0x800 then [0xC0 + c / 64, 0x80 + c % 64]
    else if c < 0x1_0000 then [0xE0 + c / 64 / 64, 0x80 + c / 64 % 64, 0x80 + c % 64]
    else [0xF0 + c / 64 / 64 / 64, 0x80 + c / 64 / 64 % 64, 0x80 + c / 64 % 64, 0x80 + c % 64]
  }

  /** What `Encoding.UTF8.GetByteCount` returns, counted without encoding. */
  function ByteCount(s: seq<ScalarValue>): nat
  {
    if s == [] then 0 else Width(s[0]) + ByteCount(s[1..])
  }

  /** What `Encoding.UTF8.GetBytes` produces for a sequence of scalar values. */
  function Encode(s: seq<ScalarValue>): (r: seq<Byte>)
    ensures |r| == ByteCount(s)
  {
    if s == [] then [] else EncodeChar(s[0]) + Encode(s[1..])
  }

  predicate IsContinuation(b: Byte)
  {
    0x80 <= b < 0xC0
  }

  /** Length of the sequence announced by a lead byte, 0 for a byte that cannot lead. */
  function LeadLength(b: Byte): (n: nat)
    ensures n <= 4
  {
    if b < 0x80 then 1
    else if 0xC0 <= b < 0xE0 then 2
    else if 0xE0 <= b < 0xF0 then 3
    else if 0xF0 <= b < 0xF8 then 4
    else 0
  }

  /** The smallest scalar value that needs `n` bytes (a smaller one would be overlong). */
  function MinValue(n: nat): int
  {
    if n <= 1 then 0 else if n == 2 then 0x80 else if n == 3 then 0x800 else 0x1_0000
  }

  /** The code point that a lead byte and its continuation bytes spell out. */
  function Assemble(s: seq<Byte>, n: nat): int
    requires 1 <= n <= 4 && n <= |s|
  {
    var b0: int, b1: int := s[0], if n > 1 then s[1] else 0;
    var b2: int, b3: int := if n > 2 then s[2] else 0, if n > 3 then s[3] else 0;
    if n == 1 then b0
    else if n == 2 then (b0 - 0xC0) * 64 + (b1 - 0x80)
    else if n == 3 then (b0 - 0xE0) * 4096 + (b1 - 0x80) * 64 + (b2 - 0x80)
    else (b0 - 0xF0) * 262144 + (b1 - 0x80) * 4096 + (b2 - 0x80) * 64 + (b3 - 0x80)
  }

  /**
   * The well-formed sequence at the start of `s`, if there is one: the lead byte,
   * continuation bytes, no overlong form, no surrogate, nothing above U+10FFFF.
   */
  function DecodeChar(s: seq<Byte>): (r: Option<(ScalarValue, nat)>)
    requires |s| > 0
    ensures r.Some? ==> 1 <= r.value.1 <= |s| && r.value.1 == Width(r.value.0)
  {
    var n := LeadLength(s[0]);
    if n == 0 || |s| < n then None
    else if exists k :: 1 <= k < n && !IsContinuation(s[k]) then None
    else
      var v := Assemble(s, n);
      if MinValue(n) <= v < 0x11_0000 && !(0xD800 <= v < 0xE000) then
        assert Width(v) == n;
        Some((v, n))
      else None
  }

  /**
   * `ReadString`: decodes all of `s`; a byte that does not start a well-formed
   * sequence becomes U+FFFD and decoding resumes at the next byte.
   */
  function Decode(s: seq<Byte>): seq<ScalarValue>
  {
    if s == [] then []
    else match DecodeChar(s)
      case Some((c, n)) => [c] + Decode(s[n..])
      case None => [Replacement] + Decode(s[1..])
  }

  /** Every character takes at least one byte; all take exactly one iff all are ASCII. */
  lemma {:induction false} ByteCountBounds(s: seq<ScalarValue>)
    ensures |s| <= ByteCount(s) <= 4 * |s|
    ensures ByteCount(s) == |s| <==> forall i :: 0 <= i < |s| ==> s[i] < 0x80
  {
    if s != [] {
      ByteCountBounds(s[1..]);
      assert forall i :: 1 <= i < |s| ==> s[i] == s[1..][i - 1];
    }
  }

  lemma DecodeEncodeChar2(c: ScalarValue, rest: seq<Byte>)
    requires 0x80 <= c < 0x800
    ensures DecodeChar(EncodeChar(c) + rest) == Some((c, 2))
  {
    var s := EncodeChar(c) + rest;
    assert s[0] == 0xC0 + c / 64 && s[1] == 0x80 + c % 64;
    assert IsContinuation(s[1]);
    assert Assemble(s, 2) == c;
  }

  lemma DecodeEncodeChar3(c: ScalarValue, rest: seq<Byte>)
    requires 0x800 <= c < 0x1_0000
    ensures DecodeChar(EncodeChar(c) + rest) == Some((c, 3))
  {
    var s := EncodeChar(c) + rest;
    var q1 := c / 64;
    assert s[0] == 0xE0 + q1 / 64 && s[1] == 0x80 + q1 % 64 && s[2] == 0x80 + c % 64;
    assert IsContinuation(s[1]) && IsContinuation(s[2]);
    assert Assemble(s, 3) == c;
  }

  lemma DecodeEncodeChar4(c: ScalarValue, rest: seq<Byte>)
    requires 0x1_0000 <= c
    ensures DecodeChar(EncodeChar(c) + rest) == Some((c, 4))
  {
    var s := EncodeChar(c) + rest;
    var q1 := c / 64;
    var q2 := q1 / 64;
    assert s[0] == 0xF0 + q2 / 64 && s[1] == 0x80 + q2 % 64;
    assert s[2] == 0x80 + q1 % 64 && s[3] == 0x80 + c % 64;
    assert IsContinuation(s[1]) && IsContinuation(s[2]) && IsContinuation(s[3]);
    assert Assemble(s, 4) == c;
  }

  /** The decoder reads back exactly the bytes of one encoded character, whatever follows them. */
  lemma DecodeEncodeChar(c: ScalarValue, rest: seq<Byte>)
    ensures DecodeChar(EncodeChar(c) + rest) == Some((c, Width(c)))
  {
    if c < 0x80 {
    } else if c < 0x800 {
      DecodeEncodeChar2(c, rest);
    } else if c < 0x1_0000 {
      DecodeEncodeChar3(c, rest);
    } else {
      DecodeEncodeChar4(c, rest);
    }
  }

  /** Decoding what was encoded gives back the same characters. */
  lemma {:induction false} DecodeEncode(s: seq<ScalarValue>)
    ensures Decode(Encode(s)) == s
  {
    if s != [] {
      var e := EncodeChar(s[0]);
      DecodeEncodeChar(s[0], Encode(s[1..]));
      assert (e + Encode(s[1..]))[|e|..] == Encode(s[1..]);
      DecodeEncode(s[1..]);
    }
  }
}
