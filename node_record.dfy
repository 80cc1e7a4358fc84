/**
 * NodeRecord: one node of the dialogue tree as it is persisted in the
 * checkpoint store, a fixed 44-byte header followed by the UTF-8 name.
 *
 *   bytes  0..8   parent                  (long)
 *   bytes  8..16  child                   (long)
 *   bytes 16..24  sibling                 (long)
 *   bytes 24..28  beginDialogue           (int)
 *   bytes 28..32  endDialogue             (int)
 *   bytes 32..36  lastCheckpointDialogue  (int)
 *   bytes 36..44  variableHash            (ulong)
 *   bytes 44..    name                    (UTF-8, to the end of the buffer)
 *
 * The record's own `offset` is where the store keeps it; it is not part of the bytes.
 */
module Restoration {
  import opened Codec
  import Utf8
  import opened ByteSegments

  /** Four 8-byte fields and three 4-byte fields. */
  const HeaderSize: nat := 4 * 8 + 3 * 4

  /** Everything a record serializes: all fields but `offset`. */
  datatype NodePayload = NodePayload(
    parent: Int64,
    child: Int64,
    sibling: Int64,
    beginDialogue: Int32,
    endDialogue: Int32,
    lastCheckpointDialogue: Int32,
    variableHash: UInt64,
    name: seq<Utf8.ScalarValue>)

  /** The fixed-width header fields, in the order they are written. */
  datatype Field = Parent | Child | Sibling | BeginDialogue | EndDialogue | LastCheckpointDialogue | VariableHash

  const Layout: seq<Field> := [Parent, Child, Sibling, BeginDialogue, EndDialogue, LastCheckpointDialogue, VariableHash]

  function FieldStart(f: Field): nat
  {
    match f
    case Parent => 0
    case Child => 8
    case Sibling => 16
    case BeginDialogue => 24
    case EndDialogue => 28
    case LastCheckpointDialogue => 32
    case VariableHash => 36
  }

  function FieldWidth(f: Field): nat
  {
    if f.BeginDialogue? || f.EndDialogue? || f.LastCheckpointDialogue? then 4 else 8
  }

  function FieldEnd(f: Field): nat
  {
    FieldStart(f) + FieldWidth(f)
  }

  /** The fields a NodeRecord lets its owner change in place. */
  predicate Mutable(f: Field)
  {
    !f.BeginDialogue? && !f.VariableHash?
  }

  /** The bytes field `f` of `p` is written as. */
  function FieldBytes(p: NodePayload, f: Field): (r: seq<Byte>)
    ensures |r| == FieldWidth(f)
  {
    match f
    case Parent => EncodeLong(p.parent)
    case Child => EncodeLong(p.child)
    case Sibling => EncodeLong(p.sibling)
    case BeginDialogue => EncodeInt(p.beginDialogue)
    case EndDialogue => EncodeInt(p.endDialogue)
    case LastCheckpointDialogue => EncodeInt(p.lastCheckpointDialogue)
    case VariableHash => EncodeUlong(p.variableHash)
  }

  /** Whether `v` is a value of field `f`'s C# type. */
  predicate Fits(f: Field, v: int)
  {
    if f.VariableHash? then 0 <= v < TwoTo64
    else if FieldWidth(f) == 4 then -TwoTo32 / 2 <= v < TwoTo32 / 2
    else -TwoTo64 / 2 <= v < TwoTo64 / 2
  }

  /** `p` with field `f` set to `v`. */
  function WithField(p: NodePayload, f: Field, v: int): NodePayload
    requires Fits(f, v)
  {
    match f
    case Parent => p.(parent := v)
    case Child => p.(child := v)
    case Sibling => p.(sibling := v)
    case BeginDialogue => p.(beginDialogue := v)
    case EndDialogue => p.(endDialogue := v)
    case LastCheckpointDialogue => p.(lastCheckpointDialogue := v)
    case VariableHash => p.(variableHash := v)
  }

  /** The bytes ToByteSegment leaves in its buffer. */
  function Serialize(p: NodePayload): (r: seq<Byte>)
    ensures |r| == HeaderSize + Utf8.ByteCount(p.name)
  {
    EncodeLong(p.parent) + EncodeLong(p.child) + EncodeLong(p.sibling)
    + EncodeInt(p.beginDialogue) + EncodeInt(p.endDialogue) + EncodeInt(p.lastCheckpointDialogue)
    + EncodeUlong(p.variableHash)
    + Utf8.Encode(p.name)
  }

  /** The fields the decoding constructor reads from `bytes`. */
  function Deserialize(bytes: seq<Byte>): NodePayload
    requires |bytes| >= HeaderSize
  {
    NodePayload(
      DecodeLong(bytes[0..8]),
      DecodeLong(bytes[8..16]),
      DecodeLong(bytes[16..24]),
      DecodeInt(bytes[24..28]),
      DecodeInt(bytes[28..32]),
      DecodeInt(bytes[32..36]),
      DecodeUlong(bytes[36..44]),
      Utf8.Decode(bytes[HeaderSize..]))
  }

  /** The fixed fields tile the header: they follow each other without gap or overlap. */
  lemma HeaderTiling()
    ensures |Layout| == 7 && FieldStart(Layout[0]) == 0
    ensures forall i :: 0 <= i < |Layout| - 1 ==> FieldEnd(Layout[i]) == FieldStart(Layout[i + 1])
    ensures FieldEnd(Layout[|Layout| - 1]) == HeaderSize
    ensures forall f: Field, g: Field :: f != g ==> FieldEnd(f) <= FieldStart(g) || FieldEnd(g) <= FieldStart(f)
  {
  }

  /** The header field covering byte `i`. */
  function FieldAt(i: nat): (f: Field)
    requires i < HeaderSize
    ensures FieldStart(f) <= i < FieldEnd(f)
  {
    if i < 8 then Parent
    else if i < 16 then Child
    else if i < 24 then Sibling
    else if i < 28 then BeginDialogue
    else if i < 32 then EndDialogue
    else if i < 36 then LastCheckpointDialogue
    else VariableHash
  }

  /** If `s` starts with `front + piece`, then it starts with `front`, followed by `piece`. */
  lemma SplitPrefix(s: seq<Byte>, front: seq<Byte>, piece: seq<Byte>)
    requires |front| + |piece| <= |s| && s[..|front| + |piece|] == front + piece
    ensures s[..|front|] == front && s[|front|..|front| + |piece|] == piece
  {
    assert forall k :: 0 <= k < |front| + |piece| ==> s[k] == (front + piece)[k];
  }

  /** Where each field of `p` lies in its serialization, and that the name starts at byte 44. */
  lemma SerializeLayout(p: NodePayload)
    ensures forall f: Field :: Serialize(p)[FieldStart(f)..FieldEnd(f)] == FieldBytes(p, f)
    ensures Serialize(p)[HeaderSize..] == Utf8.Encode(p.name)
  {
    var s := Serialize(p);
    var a1 := EncodeLong(p.parent);
    var a2 := a1 + EncodeLong(p.child);
    var a3 := a2 + EncodeLong(p.sibling);
    var a4 := a3 + EncodeInt(p.beginDialogue);
    var a5 := a4 + EncodeInt(p.endDialogue);
    var a6 := a5 + EncodeInt(p.lastCheckpointDialogue);
    var a7 := a6 + EncodeUlong(p.variableHash);
    assert s == a7 + Utf8.Encode(p.name);
    assert s[..HeaderSize] == a7 && s[HeaderSize..] == Utf8.Encode(p.name);
    SplitPrefix(s, a6, EncodeUlong(p.variableHash));
    SplitPrefix(s, a5, EncodeInt(p.lastCheckpointDialogue));
    SplitPrefix(s, a4, EncodeInt(p.endDialogue));
    SplitPrefix(s, a3, EncodeInt(p.beginDialogue));
    SplitPrefix(s, a2, EncodeLong(p.sibling));
    SplitPrefix(s, a1, EncodeLong(p.child));
    assert s[0..8] == a1;
    forall f: Field
      ensures s[FieldStart(f)..FieldEnd(f)] == FieldBytes(p, f)
    {
      match f
      case Parent =>
      case Child =>
      case Sibling =>
      case BeginDialogue =>
      case EndDialogue =>
      case LastCheckpointDialogue =>
      case VariableHash =>
    }
  }

  /** Byte `i` of a serialization, named by the field or name byte it belongs to. */
  lemma SerializeAt(p: NodePayload, i: nat)
    requires i < |Serialize(p)|
    ensures i < HeaderSize ==> Serialize(p)[i] == FieldBytes(p, FieldAt(i))[i - FieldStart(FieldAt(i))]
    ensures i >= HeaderSize ==> Serialize(p)[i] == Utf8.Encode(p.name)[i - HeaderSize]
  {
    SerializeLayout(p);
    var s := Serialize(p);
    if i < HeaderSize {
      var f := FieldAt(i);
      assert s[FieldStart(f)..FieldEnd(f)][i - FieldStart(f)] == s[i];
    } else {
      assert s[HeaderSize..][i - HeaderSize] == s[i];
    }
  }

  /** Decoding a serialization gives back every field. */
  lemma RoundTrip(p: NodePayload)
    ensures Deserialize(Serialize(p)) == p
  {
    SerializeLayout(p);
    var s := Serialize(p);
    assert s[0..8] == EncodeLong(p.parent) && s[8..16] == EncodeLong(p.child);
    assert s[16..24] == EncodeLong(p.sibling) && s[24..28] == EncodeInt(p.beginDialogue);
    assert s[28..32] == EncodeInt(p.endDialogue) && s[32..36] == EncodeInt(p.lastCheckpointDialogue);
    assert s[36..44] == EncodeUlong(p.variableHash);
    LongRoundTrip(p.parent);
    LongRoundTrip(p.child);
    LongRoundTrip(p.sibling);
    IntRoundTrip(p.beginDialogue);
    IntRoundTrip(p.endDialogue);
    IntRoundTrip(p.lastCheckpointDialogue);
    UlongRoundTrip(p.variableHash);
    Utf8.DecodeEncode(p.name);
  }

  /** Each header field of what the decoding constructor reads re-encodes to the bytes it was read from. */
  lemma DeserializeFieldBytes(bytes: seq<Byte>, f: Field)
    requires |bytes| >= HeaderSize
    ensures FieldBytes(Deserialize(bytes), f) == bytes[FieldStart(f)..FieldEnd(f)]
  {
    match f
    case Parent => LongBytesRoundTrip(bytes[0..8]);
    case Child => LongBytesRoundTrip(bytes[8..16]);
    case Sibling => LongBytesRoundTrip(bytes[16..24]);
    case BeginDialogue => IntBytesRoundTrip(bytes[24..28]);
    case EndDialogue => IntBytesRoundTrip(bytes[28..32]);
    case LastCheckpointDialogue => IntBytesRoundTrip(bytes[32..36]);
    case VariableHash => UlongBytesRoundTrip(bytes[36..44]);
  }

  /** Re-encoding what was read from a buffer reproduces every header byte of it. */
  lemma ReserializeHeaderByte(bytes: seq<Byte>, i: nat)
    requires |bytes| >= HeaderSize && i < HeaderSize
    ensures i < |Serialize(Deserialize(bytes))| && Serialize(Deserialize(bytes))[i] == bytes[i]
  {
    var p := Deserialize(bytes);
    SerializeAt(p, i);
    var f := FieldAt(i);
    DeserializeFieldBytes(bytes, f);
    assert bytes[FieldStart(f)..FieldEnd(f)][i - FieldStart(f)] == bytes[i];
  }

  /**
   * The other direction: a buffer whose tail is well-formed UTF-8 is exactly
   * the serialization of what it decodes to.
   */
  lemma ReserializeWellFormed(bytes: seq<Byte>, name: seq<Utf8.ScalarValue>)
    requires |bytes| >= HeaderSize && bytes[HeaderSize..] == Utf8.Encode(name)
    ensures Serialize(Deserialize(bytes)) == bytes
  {
    var p := Deserialize(bytes);
    var s := Serialize(p);
    Utf8.DecodeEncode(name);
    SerializeLayout(p);
    forall i | 0 <= i < HeaderSize
      ensures s[i] == bytes[i]
    {
      ReserializeHeaderByte(bytes, i);
    }
    assert s[..HeaderSize] == bytes[..HeaderSize];
    assert s == s[..HeaderSize] + s[HeaderSize..];
    assert bytes == bytes[..HeaderSize] + bytes[HeaderSize..];
  }

  /**
   * Setting one header field changes neither the length nor any byte outside
   * that field's range, and the range holds the new value's encoding.
   */
  lemma UpdateIsLocal(p: NodePayload, f: Field, v: int)
    requires Fits(f, v)
    ensures |Serialize(WithField(p, f, v))| == |Serialize(p)|
    ensures forall i :: 0 <= i < |Serialize(p)| && !(FieldStart(f) <= i < FieldEnd(f)) ==>
      Serialize(WithField(p, f, v))[i] == Serialize(p)[i]
    ensures Serialize(WithField(p, f, v))[FieldStart(f)..FieldEnd(f)] == FieldBytes(WithField(p, f, v), f)
  {
    var q := WithField(p, f, v);
    assert q.name == p.name;
    forall i | 0 <= i < |Serialize(p)| && !(FieldStart(f) <= i < FieldEnd(f))
      ensures Serialize(q)[i] == Serialize(p)[i]
    {
      SerializeAt(p, i);
      SerializeAt(q, i);
      if i < HeaderSize {
        assert FieldAt(i) != f;
        assert FieldBytes(q, FieldAt(i)) == FieldBytes(p, FieldAt(i));
      }
    }
    SerializeLayout(q);
  }

  /** The mutable fields all lie below the hash, so updating one leaves bytes 36 on alone. */
  lemma MutableUpdateKeepsTail(p: NodePayload, f: Field, v: int)
    requires Mutable(f) && Fits(f, v)
    ensures Serialize(WithField(p, f, v))[FieldStart(VariableHash)..] == Serialize(p)[FieldStart(VariableHash)..]
  {
    UpdateIsLocal(p, f, v);
    var a, b := Serialize(WithField(p, f, v)), Serialize(p);
    assert forall i :: 0 <= i < |b| - 36 ==> a[36..][i] == a[36 + i] == b[36 + i] == b[36..][i];
  }

  /**
   * One more write in ToByteSegment: if `before` already starts with `done`, then after
   * writing `w` right behind it the buffer starts with `done + w`.
   */
  lemma ExtendWritten(before: seq<Byte>, at: nat, done: seq<Byte>, w: seq<Byte>)
    requires at == |done| && at + |w| <= |before| && before[..at] == done
    ensures Overwrite(before, at, w)[..at + |w|] == done + w
  {
  }

  /** An unnamed record is exactly its header. */
  lemma EmptyNameIsHeaderOnly(p: NodePayload)
    requires p.name == []
    ensures |Serialize(p)| == HeaderSize == 44
  {
  }

  class NodeRecord {
    const offset: Int64
    var parent: Int64
    var child: Int64
    var sibling: Int64
    const beginDialogue: Int32
    var endDialogue: Int32
    var lastCheckpointDialogue: Int32
    const variableHash: UInt64
    const name: seq<Utf8.ScalarValue>

    function Payload(): NodePayload
      reads this
    {
      NodePayload(parent, child, sibling, beginDialogue, endDialogue, lastCheckpointDialogue, variableHash, name)
    }

    /** A new node: its dialogue range is empty, no checkpoint and no links yet. */
    constructor (offset: Int64, name: seq<Utf8.ScalarValue>, beginDialogue: Int32, variableHash: UInt64)
      ensures this.offset == offset
      ensures Payload() == NodePayload(0, 0, 0, beginDialogue, beginDialogue, -1, variableHash, name)
    {
      this.offset := offset;
      this.name := name;
      this.beginDialogue := beginDialogue;
      endDialogue := beginDialogue;
      lastCheckpointDialogue := -1;
      this.variableHash := variableHash;
      parent, child, sibling := 0, 0, 0;
    }

    /** Reads a record back from the bytes stored at `offset`. */
    constructor FromSegment(offset: Int64, segment: ByteSegment)
      requires segment.bytes.Length >= HeaderSize
      ensures this.offset == offset
      ensures Payload() == Deserialize(segment.bytes[..])
    {
      this.offset := offset;
      parent := segment.ReadLong(0);
      child := segment.ReadLong(8);
      sibling := segment.ReadLong(16);
      beginDialogue := segment.ReadInt(24);
      endDialogue := segment.ReadInt(28);
      lastCheckpointDialogue := segment.ReadInt(32);
      variableHash := segment.ReadUlong(36);
      name := segment.ReadString(HeaderSize);
    }

    /** Allocates a buffer of exactly the record's size and writes every field into it. */
    method ToByteSegment() returns (segment: ByteSegment)
      ensures fresh(segment) && fresh(segment.bytes)
      ensures segment.bytes.Length == HeaderSize + Utf8.ByteCount(name)
      ensures segment.bytes[..] == Serialize(Payload())
    {
      var buf := new Byte[HeaderSize + Utf8.ByteCount(name)];
      segment := new ByteSegment(buf);
      ghost var p := Payload();
      ghost var written: seq<Byte> := [];
      assert buf[..0] == written;
      ghost var before := buf[..];
      segment.WriteLong(0, parent);
      ExtendWritten(before, 0, written, EncodeLong(p.parent));
      written := written + EncodeLong(p.parent);
      before := buf[..];
      segment.WriteLong(8, child);
      ExtendWritten(before, 8, written, EncodeLong(p.child));
      written := written + EncodeLong(p.child);
      before := buf[..];
      segment.WriteLong(16, sibling);
      ExtendWritten(before, 16, written, EncodeLong(p.sibling));
      written := written + EncodeLong(p.sibling);
      before := buf[..];
      segment.WriteInt(24, beginDialogue);
      ExtendWritten(before, 24, written, EncodeInt(p.beginDialogue));
      written := written + EncodeInt(p.beginDialogue);
      before := buf[..];
      segment.WriteInt(28, endDialogue);
      ExtendWritten(before, 28, written, EncodeInt(p.endDialogue));
      written := written + EncodeInt(p.endDialogue);
      before := buf[..];
      segment.WriteInt(32, lastCheckpointDialogue);
      ExtendWritten(before, 32, written, EncodeInt(p.lastCheckpointDialogue));
      written := written + EncodeInt(p.lastCheckpointDialogue);
      before := buf[..];
      segment.WriteUlong(36, variableHash);
      ExtendWritten(before, 36, written, EncodeUlong(p.variableHash));
      written := written + EncodeUlong(p.variableHash);
      before := buf[..];
      segment.WriteString(HeaderSize, name);
      ExtendWritten(before, HeaderSize, written, Utf8.Encode(p.name));
      written := written + Utf8.Encode(p.name);
      assert written == Serialize(p);
      assert buf[..] == buf[..buf.Length];
    }
  }

  /** Storing a record and reading it back at offset `o` reproduces every field. */
  method Reload(record: NodeRecord, o: Int64) returns (copy: NodeRecord)
    ensures fresh(copy)
    ensures copy.offset == o
    ensures copy.Payload() == record.Payload()
  {
    var segment := record.ToByteSegment();
    copy := new NodeRecord.FromSegment(o, segment);
    RoundTrip(record.Payload());
  }
}
