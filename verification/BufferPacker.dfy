/** `protobuf_c_message_pack_to_buffer`: the encoder that appends to a growing buffer, each length computed
    before the bytes it announces. */
module BufferPacker {
  import opened Varint
  import opened Wire
  import opened Schema
  import opened Scalars
  import opened Encoder
  import opened SizePass
  import opened Packer

  /** `ProtobufCBufferSimple`: it starts on memory of the caller's and doubles when it is full. */
  class SimpleBuffer {
    var alloced: nat
    var len: nat
    var data: array<byte>
    var mustFreeData: bool

    ghost predicate Valid()
      reads this, data
    {
      0 < alloced == data.Length && len <= alloced
    }

    ghost function Contents(): seq<byte>
      requires Valid()
      reads this, data
    {
      data[..len]
    }

    constructor (pad: array<byte>)
      requires pad.Length > 0
      ensures Valid() && Contents() == [] && data == pad
    {
      alloced, len, data, mustFreeData := pad.Length, 0, pad, false;
    }

    /** `protobuf_c_buffer_simple_append`. */
    method Append(s: seq<byte>)
      requires Valid()
      modifies this, data
      ensures Valid() && (data == old(data) || fresh(data))
      ensures Contents() == old(Contents()) + s
    {
      var newLen := len + |s|;
      ghost var was := Contents();
      if newLen > alloced {
        var newAlloced := alloced * 2;
        while newAlloced < newLen
          invariant newAlloced > 0
        {
          newAlloced := newAlloced + newAlloced;
        }
        var newData := new byte[newAlloced](_ => 0);
        Copy(data[..len], newData, 0);
        assert newData[..len] == was;
        mustFreeData := true;
        data := newData;
        alloced := newAlloced;
      }
      assert data[..len] == was;
      Copy(s, data, len);
      len := newLen;
    }
  }

  const SCRATCH := 2 * MAX_VARINT

  lemma ScratchHolds(id: uint32, wireType: nat)
    requires wireType < 8
    ensures |TagBytes(id, wireType)| <= MAX_VARINT
  {
    hide Encode;
    SizesAreLengths(8 * id + wireType);
  }

  /** Two things put into scratch memory one after the other are its first bytes. */
  lemma ScratchReads(buf: seq<byte>, a: seq<byte>, b: seq<byte>)
    requires |a| + |b| <= |buf|
    ensures Splice(Splice(buf, 0, a), |a|, b)[..|a| + |b|] == a + b
    ensures Splice(buf, 0, a)[..|a|] == a
  {
  }

  /** The tag, the wire type and a length, put together in scratch memory and appended. */
  method AppendHeader(id: uint32, length: uint32, buffer: SimpleBuffer) returns (rv: nat)
    requires buffer.Valid()
    modifies buffer, buffer.data
    ensures buffer.Valid() && (buffer.data == old(buffer.data) || fresh(buffer.data))
    ensures buffer.Contents() == old(buffer.Contents()) + (TagBytes(id, WIRE_LENGTH_PREFIXED) + Encode(length))
    ensures rv == |TagBytes(id, WIRE_LENGTH_PREFIXED) + Encode(length)|
  {
    hide Encode, TagBytes, Splice;
    ScratchHolds(id, WIRE_LENGTH_PREFIXED);
    SizesAreLengths(length);
    var scratch := new byte[SCRATCH](_ => 0);
    ScratchReads(scratch[..], TagBytes(id, WIRE_LENGTH_PREFIXED), Encode(length));
    rv := HeaderPack(id, WIRE_LENGTH_PREFIXED, scratch, 0);
    var n := UInt32Pack(length, scratch, rv);
    rv := rv + n;
    assert scratch[..rv] == scratch[..][..rv];
    buffer.Append(scratch[..rv]);
  }

  lemma Assoc(a: seq<byte>, b: seq<byte>, c: seq<byte>)
    ensures a + b + c == a + (b + c)
  {
  }

  /** `required_field_pack_to_buffer` of a member that is there. */
  method RequiredFieldAppend(S: Schema, f: Field, v: Value, buffer: SimpleBuffer) returns (rv: nat)
    requires ValidSchema(S) && ValidField(S, f) && ShapedValue(S, f, v) && buffer.Valid()
    requires |RecordBytes(ValueRecord(S, f, v))| < TWO_32
    modifies buffer, buffer.data
    ensures buffer.Valid() && (buffer.data == old(buffer.data) || fresh(buffer.data))
    ensures buffer.Contents() == old(buffer.Contents()) + RecordBytes(ValueRecord(S, f, v))
    ensures rv == |RecordBytes(ValueRecord(S, f, v))|
    decreases v, 1
  {
    hide Encode, EncodeScalar, EncodeMessage, TagBytes, CString, ScalarSize;
    ghost var was := buffer.Contents();
    ghost var tag := TagBytes(f.id, WireType(f.typ));
    match v
    case Text(s) =>
      var sublen := StringLength(s);
      CStringIsPrefix(s);
      rv := AppendHeader(f.id, sublen % TWO_32, buffer);
      buffer.Append(s[..sublen]);
      rv := rv + sublen;
      Assoc(was, tag + Encode(sublen % TWO_32), CString(s));
      Assoc(tag, Encode(sublen % TWO_32), CString(s));
    case Blob(s) =>
      rv := AppendHeader(f.id, |s| % TWO_32, buffer);
      buffer.Append(s);
      rv := rv + |s|;
      Assoc(was, tag + Encode(|s| % TWO_32), s);
      Assoc(tag, Encode(|s| % TWO_32), s);
    case Sub(m) =>
      ghost var e := EncodeMessage(S, f.sub, m);
      var sublen := MessageSize(S, f.sub, m);
      rv := AppendHeader(f.id, sublen % TWO_32, buffer);
      var n := MessageAppend(S, f.sub, m, buffer);
      rv := rv + sublen;
      Assoc(was, tag + Encode(sublen % TWO_32), e);
      Assoc(tag, Encode(sublen % TWO_32), e);
    case _ =>
      rv := ScalarAppend(f, v, buffer);
  }

  method ScalarAppend(f: Field, v: Value, buffer: SimpleBuffer) returns (rv: nat)
    requires Packable(f.typ) && IsOf(f.typ, v) && buffer.Valid()
    modifies buffer, buffer.data
    ensures buffer.Valid() && (buffer.data == old(buffer.data) || fresh(buffer.data))
    ensures buffer.Contents() == old(buffer.Contents()) + (TagBytes(f.id, WireType(f.typ)) + EncodeScalar(f.typ, v))
    ensures rv == |TagBytes(f.id, WireType(f.typ)) + EncodeScalar(f.typ, v)|
  {
    hide Encode, EncodeScalar, TagBytes, ScalarSize, Splice;
    ScratchHolds(f.id, WireType(f.typ));
    ScalarRoundTrip(f.typ, v);
    var scratch := new byte[SCRATCH](_ => 0);
    ScratchReads(scratch[..], TagBytes(f.id, WireType(f.typ)), EncodeScalar(f.typ, v));
    rv := HeaderPack(f.id, WireType(f.typ), scratch, 0);
    var n := ScalarPack(f.typ, v, scratch, rv);
    rv := rv + n;
    assert scratch[..rv] == scratch[..][..rv];
    buffer.Append(scratch[..rv]);
  }

  /** `get_packed_payload_length`: the sum is taken in 32 bits. */
  method PackedPayloadLength(typ: Type, vs: seq<Value>) returns (rv: nat)
    requires Packable(typ) && AllOf(typ, vs)
    ensures rv == |EncodeAll(typ, vs)| % TWO_32
  {
    hide EncodeScalar, IsOf, EncodeAll, ScalarSize;
    if Width(typ) > 0 {
      FixedPayload(typ, vs);
      return |vs| * Width(typ) % TWO_32;
    }
    rv := 0;
    ghost var total: nat := 0;
    NoElements(typ, vs);
    for i := 0 to |vs|
      invariant rv == total % TWO_32 && total + |EncodeAll(typ, vs[i..])| == |EncodeAll(typ, vs)|
    {
      NextSize(typ, vs, i);
      WrappedSum(total, ScalarSize(typ, vs[i]));
      rv := (rv + ScalarSize(typ, vs[i])) % TWO_32;
      total := total + ScalarSize(typ, vs[i]);
    }
    NothingLeft(typ, vs);
  }

  lemma NextSize(typ: Type, vs: seq<Value>, i: nat)
    requires Packable(typ) && AllOf(typ, vs) && i < |vs|
    ensures IsOf(typ, vs[i]) && |EncodeAll(typ, vs[i..])| == ScalarSize(typ, vs[i]) + |EncodeAll(typ, vs[i + 1..])|
  {
    hide EncodeScalar, IsOf, EncodeAll, ScalarSize, AllOf;
    NextElement(typ, vs, i);
    ScalarRoundTrip(typ, vs[i]);
  }

  lemma WrappedSum(a: nat, b: nat)
    ensures (a % TWO_32 + b) % TWO_32 == (a + b) % TWO_32
  {
  }

  lemma {:induction false} FixedPayload(typ: Type, vs: seq<Value>)
    requires Packable(typ) && AllOf(typ, vs) && Width(typ) > 0
    ensures |EncodeAll(typ, vs)| == |vs| * Width(typ)
  {
    hide EncodeScalar;
    if vs == [] {
    } else {
      FixedPayload(typ, vs[1..]);
      var w := Width(typ);
      assert |vs| * w == (|vs| - 1) * w + w;
      assert |EncodeScalar(typ, vs[0])| == w;
    }
  }

  lemma NothingLeft(typ: Type, vs: seq<Value>)
    requires Packable(typ) && AllOf(typ, vs)
    ensures EncodeAll(typ, vs[|vs|..]) == []
  {
  }

  /** `pack_buffer_packed_payload`. */
  method PackedPayloadAppend(typ: Type, vs: seq<Value>, buffer: SimpleBuffer) returns (rv: nat)
    requires Packable(typ) && AllOf(typ, vs) && buffer.Valid()
    modifies buffer, buffer.data
    ensures buffer.Valid() && (buffer.data == old(buffer.data) || fresh(buffer.data))
    ensures buffer.Contents() == old(buffer.Contents()) + EncodeAll(typ, vs)
    ensures rv == |EncodeAll(typ, vs)|
  {
    hide EncodeScalar, IsOf, EncodeAll, ScalarSize;
    if Width(typ) > 0 {
      // No packing needed: the array is already laid out in the byte order of the wire.
      FixedPayload(typ, vs);
      rv := |vs| * Width(typ);
      buffer.Append(EncodeAll(typ, vs));
      return;
    }
    rv := 0;
    NoElements(typ, vs);
    var scratch := new byte[16](_ => 0);
    ghost var was := buffer.Contents();
    assert was + [] == was;
    for i := 0 to |vs|
      invariant buffer.Valid() && (buffer.data == old(buffer.data) || fresh(buffer.data)) && buffer.data != scratch
      invariant rv == |EncodeAll(typ, vs[..i])|
      invariant buffer.Contents() == was + EncodeAll(typ, vs[..i])
    {
      NextElement(typ, vs, i);
      ScalarRoundTrip(typ, vs[i]);
      ghost var now := buffer.Contents();
      var len := ScalarPack(typ, vs[i], scratch, 0);
      assert scratch[..len] == EncodeScalar(typ, vs[i]);
      assert buffer.Contents() == now;
      buffer.Append(scratch[..len]);
      Assoc(was, EncodeAll(typ, vs[..i]), EncodeScalar(typ, vs[i]));
      rv := rv + len;
    }
    assert vs[..|vs|] == vs;
  }

  /** `repeated_field_pack_to_buffer`. The assertion is the code's own. */
  method RepeatedFieldAppend(S: Schema, f: Field, vs: seq<Value>, buffer: SimpleBuffer) returns (rv: nat)
    requires ValidSchema(S) && ValidField(S, f) && ShapedSlot(S, f, Many(vs)) && buffer.Valid()
    requires |EncodeSlot(S, f, Many(vs))| < TWO_32
    modifies buffer, buffer.data
    ensures buffer.Valid() && (buffer.data == old(buffer.data) || fresh(buffer.data))
    ensures buffer.Contents() == old(buffer.Contents()) + EncodeSlot(S, f, Many(vs))
    ensures rv == |EncodeSlot(S, f, Many(vs))|
    decreases vs, 3
  {
    hide Encode, EncodeAll, TagBytes, UInt32Size, MinSize, RecordBytes, Serialize, ValueRecord;
    ghost var was := buffer.Contents();
    assert was + [] == was;
    if |vs| == 0 {
      NoElementsLeft(S, f, vs);
      assert vs[0..] == vs;
      return 0;
    }
    if f.packed {
      PackedParts(S, f, vs);
      var payloadLen := PackedPayloadLength(f.typ, vs);
      rv := AppendHeader(f.id, payloadLen, buffer);
      var tmp := PackedPayloadAppend(f.typ, vs, buffer);
      assert tmp == payloadLen;
      ghost var tag := TagBytes(f.id, WIRE_LENGTH_PREFIXED);
      Assoc(was, tag + Encode(payloadLen), EncodeAll(f.typ, vs));
      Assoc(tag, Encode(payloadLen), EncodeAll(f.typ, vs));
      rv := rv + payloadLen;
    } else {
      rv := ElementsAppend(S, f, vs, buffer);
    }
  }

  /** The unpacked branch: each element with its tag. */
  method ElementsAppend(S: Schema, f: Field, vs: seq<Value>, buffer: SimpleBuffer) returns (rv: nat)
    requires ValidSchema(S) && ValidField(S, f) && (forall v <- vs :: ShapedValue(S, f, v)) && buffer.Valid()
    requires |Serialize(ElementRecords(S, f, vs))| < TWO_32
    modifies buffer, buffer.data
    ensures buffer.Valid() && (buffer.data == old(buffer.data) || fresh(buffer.data))
    ensures buffer.Contents() == old(buffer.Contents()) + Serialize(ElementRecords(S, f, vs))
    ensures rv == |Serialize(ElementRecords(S, f, vs))|
    decreases vs, 2
  {
    hide RecordBytes, Serialize, ValueRecord, ElementRecords, ShapedValue;
    ghost var was := buffer.Contents();
    ghost var whole, done := Serialize(ElementRecords(S, f, vs)), [];
    assert was + [] == was && vs[0..] == vs && [] + whole == whole;
    rv := 0;
    for i := 0 to |vs|
      invariant buffer.Valid() && (buffer.data == old(buffer.data) || fresh(buffer.data))
      invariant whole == done + Serialize(ElementRecords(S, f, vs[i..]))
      invariant rv == |done| && buffer.Contents() == was + done
    {
      ElementStep(S, f, vs, i);
      ghost var e := RecordBytes(ValueRecord(S, f, vs[i]));
      var n := RequiredFieldAppend(S, f, vs[i], buffer);
      Assoc(was, done, e);
      Assoc(done, e, Serialize(ElementRecords(S, f, vs[i + 1..])));
      done := done + e;
      rv := rv + n;
    }
    NoElementsLeft(S, f, vs);
    assert done + [] == done;
  }

  /** One field, as its label says. */
  method FieldAppend(S: Schema, f: Field, slot: Slot, buffer: SimpleBuffer) returns (rv: nat)
    requires ValidSchema(S) && ValidField(S, f) && ShapedSlot(S, f, slot) && buffer.Valid()
    requires |EncodeSlot(S, f, slot)| < TWO_32
    modifies buffer, buffer.data
    ensures buffer.Valid() && (buffer.data == old(buffer.data) || fresh(buffer.data))
    ensures buffer.Contents() == old(buffer.Contents()) + EncodeSlot(S, f, slot)
    ensures rv == |EncodeSlot(S, f, slot)|
    decreases slot, 4
  {
    hide TagBytes, ValueRecord, Zeroish, RecordBytes;
    rv := 0;
    assert buffer.Contents() + [] == buffer.Contents();
    match slot
    case Many(vs) => rv := RepeatedFieldAppend(S, f, vs, buffer);
    case Absent =>
      if f.kind == Required {
        EmptyPayload(f.id);
        rv := AppendHeader(f.id, 0, buffer);
      }
    case Present(v) =>
      assert ShapedValue(S, f, v);
      if f.kind != Unlabeled || InOneof(f) || !Zeroish(f.typ, v) {
        assert SlotRecords(S, f, slot) == [ValueRecord(S, f, v)];
        SerializeOne(ValueRecord(S, f, v));
        rv := RequiredFieldAppend(S, f, v, buffer);
      }
  }

  lemma EmptyPayload(id: uint32)
    ensures Serialize([Record(id, WIRE_LENGTH_PREFIXED, [0])]) == TagBytes(id, WIRE_LENGTH_PREFIXED) + Encode(0)
  {
    SerializeOne(Record(id, WIRE_LENGTH_PREFIXED, [0]));
  }

  /** `unknown_field_pack_to_buffer`. */
  method UnknownFieldAppend(r: Record, buffer: SimpleBuffer) returns (rv: nat)
    requires r.wireType < 8 && buffer.Valid()
    modifies buffer, buffer.data
    ensures buffer.Valid() && (buffer.data == old(buffer.data) || fresh(buffer.data))
    ensures buffer.Contents() == old(buffer.Contents()) + RecordBytes(r)
    ensures rv == |RecordBytes(r)|
  {
    hide TagBytes;
    ghost var was := buffer.Contents();
    ScratchHolds(r.tag, r.wireType);
    var header := new byte[MAX_VARINT](_ => 0);
    rv := HeaderPack(r.tag, r.wireType, header, 0);
    assert header[..rv] == TagBytes(r.tag, r.wireType);
    buffer.Append(header[..rv]);
    buffer.Append(r.data);
    Assoc(was, TagBytes(r.tag, r.wireType), r.data);
    rv := rv + |r.data|;
  }

  /** `protobuf_c_message_pack_to_buffer` appends exactly the encoding and returns its length. */
  method MessageAppend(S: Schema, t: nat, m: Message, buffer: SimpleBuffer) returns (rv: nat)
    requires ValidSchema(S) && Shaped(S, t, m) && buffer.Valid()
    requires |EncodeMessage(S, t, m)| < TWO_32
    modifies buffer, buffer.data
    ensures buffer.Valid() && (buffer.data == old(buffer.data) || fresh(buffer.data))
    ensures buffer.Contents() == old(buffer.Contents()) + EncodeMessage(S, t, m)
    ensures rv == |EncodeMessage(S, t, m)|
    decreases m, 5
  {
    hide Serialize, EncodeSlot, EncodeMessage, RecordBytes, FieldRecords, ShapedSlot;
    ghost var was := buffer.Contents();
    ghost var done: seq<byte> := [];
    ghost var tail := Serialize(m.unknown);
    EncodeMessageParts(S, t, m);
    assert was + [] == was;
    assert [] + Serialize(FieldRecords(S, t, m, 0)) == Serialize(FieldRecords(S, t, m, 0));
    rv := 0;
    for i := 0 to |S[t].fields|
      invariant buffer.Valid() && (buffer.data == old(buffer.data) || fresh(buffer.data))
      invariant EncodeMessage(S, t, m) == done + Serialize(FieldRecords(S, t, m, i)) + tail
      invariant rv == |done| && buffer.Contents() == was + done
    {
      EncodeFieldsStep(S, t, m, i);
      ghost var e, more := EncodeSlot(S, S[t].fields[i], m.slots[i]), Serialize(FieldRecords(S, t, m, i + 1));
      Assoc(done, e, more);
      var n := FieldAppend(S, S[t].fields[i], m.slots[i], buffer);
      Assoc(was, done, e);
      done := done + e;
      rv := rv + n;
    }
    NoFieldsLeft(S, t, m);
    assert m.unknown[0..] == m.unknown && done + [] == done;
    for i := 0 to |m.unknown|
      invariant buffer.Valid() && (buffer.data == old(buffer.data) || fresh(buffer.data))
      invariant EncodeMessage(S, t, m) == done + Serialize(m.unknown[i..])
      invariant rv == |done| && buffer.Contents() == was + done
    {
      UnknownStep(m.unknown, i);
      ghost var e, more := RecordBytes(m.unknown[i]), Serialize(m.unknown[i + 1..]);
      Assoc(done, e, more);
      var n := UnknownFieldAppend(m.unknown[i], buffer);
      Assoc(was, done, e);
      done := done + e;
      rv := rv + n;
    }
    assert m.unknown[|m.unknown|..] == [];
    SerializeNothing();
    assert done + [] == done;
  }
}
