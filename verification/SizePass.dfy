/** `protobuf_c_message_get_packed_size`: the size of a message, without writing it. */
module SizePass {
  import opened Varint
  import opened Wire
  import opened Schema
  import opened Scalars
  import opened Encoder

  lemma DelimitedSize(s: seq<byte>)
    ensures |Delimited(s)| == UInt32Size(|s| % TWO_32) + |s|
  {
    hide Encode, UInt32Size;
    SizesAreLengths(|s| % TWO_32);
  }

  lemma {:induction false} CStringLength(s: seq<byte>)
    ensures |CString(s)| <= |s|
    ensures |CString(s)| < |s| ==> s[|CString(s)|] == 0
    ensures forall i :: 0 <= i < |CString(s)| ==> s[i] != 0
  {
    if s == [] || s[0] == 0 {
    } else {
      CStringLength(s[1..]);
      var n := |CString(s[1..])|;
      assert n < |s[1..]| ==> s[1..][n] == s[n + 1];
      forall i | 0 < i < |CString(s)|
        ensures s[i] != 0
      {
        assert s[i] == s[1..][i - 1];
      }
    }
  }

  /** `strlen`. */
  method StringLength(s: seq<byte>) returns (n: nat)
    ensures n == |CString(s)|
  {
    CStringLength(s);
    n := 0;
    while n < |s| && s[n] != 0
      invariant n <= |s| && n <= |CString(s)|
      invariant forall i :: 0 <= i < n ==> s[i] != 0
    {
      n := n + 1;
    }
  }

  /** `required_field_get_packed_size` of a member that is there. */
  method RequiredFieldSize(S: Schema, f: Field, v: Value) returns (rv: nat)
    requires ValidSchema(S) && ValidField(S, f) && ShapedValue(S, f, v)
    ensures rv == |RecordBytes(ValueRecord(S, f, v))|
    decreases v, 1
  {
    hide Encode, TagBytes, Delimited, EncodeScalar, ScalarSize, EncodeMessage;
    TagRoundTrip(f.id, WireType(f.typ), []);
    rv := TagSize(f.id);
    match v
    case Text(s) =>
      var len := StringLength(s);
      rv := rv + UInt32Size(len % TWO_32) + len;
      DelimitedSize(CString(s));
    case Blob(s) =>
      rv := rv + UInt32Size(|s| % TWO_32) + |s|;
      DelimitedSize(s);
    case Sub(m) =>
      var subrv := MessageSize(S, f.sub, m);
      rv := rv + UInt32Size(subrv % TWO_32) + subrv;
      DelimitedSize(EncodeMessage(S, f.sub, m));
    case _ =>
      rv := rv + ScalarSize(f.typ, v);
      ScalarRoundTrip(f.typ, v);
  }

  /** The elements of a repeated field, summed type by type. */
  method ElementsSize(S: Schema, f: Field, vs: seq<Value>) returns (rv: nat)
    requires ValidSchema(S) && ValidField(S, f) && forall v <- vs :: ShapedValue(S, f, v)
    ensures rv == PayloadSum(S, f, vs)
    decreases vs, 1
  {
    hide UInt32Size, EncodeMessage, Payload, Delimited, ScalarSize, EncodeScalar;
    rv := 0;
    for i := 0 to |vs|
      invariant rv + PayloadSum(S, f, vs[i..]) == PayloadSum(S, f, vs)
    {
      assert ShapedValue(S, f, vs[i]);
      assert vs[i..][1..] == vs[i + 1..];
      var n := ElementSize(S, f, vs[i]);
      rv := rv + n;
    }
  }

  method ElementSize(S: Schema, f: Field, v: Value) returns (n: nat)
    requires ValidSchema(S) && ValidField(S, f) && ShapedValue(S, f, v)
    ensures n == |Payload(S, f, v)|
    decreases v, 1
  {
    hide UInt32Size, EncodeMessage, Delimited, ScalarSize, EncodeScalar;
    match v
    case Text(s) =>
      var len := StringLength(s);
      n := UInt32Size(len % TWO_32) + len;
      DelimitedSize(CString(s));
    case Blob(s) =>
      n := UInt32Size(|s| % TWO_32) + |s|;
      DelimitedSize(s);
    case Sub(m) =>
      var len := MessageSize(S, f.sub, m);
      n := UInt32Size(len % TWO_32) + len;
      DelimitedSize(EncodeMessage(S, f.sub, m));
    case _ =>
      n := ScalarSize(f.typ, v);
      ScalarRoundTrip(f.typ, v);
  }

  ghost function PayloadSum(S: Schema, f: Field, vs: seq<Value>): nat
    requires ValidSchema(S) && forall v <- vs :: ShapedValue(S, f, v)
  {
    if vs == [] then 0 else |Payload(S, f, vs[0])| + PayloadSum(S, f, vs[1..])
  }

  lemma {:induction false} PackedSum(S: Schema, f: Field, vs: seq<Value>)
    requires ValidSchema(S) && Packable(f.typ) && forall v <- vs :: ShapedValue(S, f, v)
    ensures AllOf(f.typ, vs) && PayloadSum(S, f, vs) == |EncodeAll(f.typ, vs)|
  {
    ElementsAreOf(S, f, vs);
    if vs == [] {
    } else {
      hide EncodeScalar, EncodeMessage;
      PackedSum(S, f, vs[1..]);
      assert ShapedValue(S, f, vs[0]);
    }
  }

  lemma {:induction false} UnpackedSum(S: Schema, f: Field, vs: seq<Value>)
    requires ValidSchema(S) && ValidField(S, f) && forall v <- vs :: ShapedValue(S, f, v)
    ensures |Serialize(ElementRecords(S, f, vs))| == TagSize(f.id) * |vs| + PayloadSum(S, f, vs)
  {
    hide Payload, TagBytes, TagSize;
    if vs == [] {
    } else {
      UnpackedSum(S, f, vs[1..]);
      TagRoundTrip(f.id, WireType(f.typ), []);
      var rs := ElementRecords(S, f, vs);
      assert rs[1..] == ElementRecords(S, f, vs[1..]);
      assert TagSize(f.id) * |vs| == TagSize(f.id) + TagSize(f.id) * (|vs| - 1);
    }
  }

  /** `repeated_field_get_packed_size`. */
  method RepeatedFieldSize(S: Schema, f: Field, vs: seq<Value>) returns (rv: nat)
    requires ValidSchema(S) && ValidField(S, f) && ShapedSlot(S, f, Many(vs))
    ensures rv == |EncodeSlot(S, f, Many(vs))|
    decreases vs, 2
  {
    hide UInt32Size, TagSize, TagBytes, Delimited, EncodeAll, PayloadSum, ElementRecords, Payload;
    if |vs| == 0 {
      assert ElementRecords(S, f, vs) == [];
      return 0;
    }
    var headerSize := TagSize(f.id);
    if !f.packed {
      headerSize := headerSize * |vs|;
    }
    rv := ElementsSize(S, f, vs);
    if f.packed {
      headerSize := headerSize + UInt32Size(rv % TWO_32);
      PackedSum(S, f, vs);
      TagRoundTrip(f.id, WIRE_LENGTH_PREFIXED, []);
      DelimitedSize(EncodeAll(f.typ, vs));
      SerializeOne(SlotRecords(S, f, Many(vs))[0]);
    } else {
      UnpackedSum(S, f, vs);
    }
    rv := headerSize + rv;
  }

  /** One field: the label decides, as in the loop of the three encoders. */
  method FieldSize(S: Schema, f: Field, slot: Slot) returns (rv: nat)
    requires ValidSchema(S) && ValidField(S, f) && ShapedSlot(S, f, slot)
    ensures rv == |EncodeSlot(S, f, slot)|
    decreases slot, 3
  {
    hide TagBytes, ValueRecord, TagSize, UInt32Size;
    match slot
    case Many(vs) => rv := RepeatedFieldSize(S, f, vs);
    case Absent =>
      rv := 0;
      if f.kind == Required {
        rv := TagSize(f.id) + UInt32Size(0) + 0;
        TagRoundTrip(f.id, WIRE_LENGTH_PREFIXED, []);
        SerializeOne(Record(f.id, WIRE_LENGTH_PREFIXED, [0]));
        assert UInt32Size(0) == 1 by { SizesAreLengths(0); }
      }
    case Present(v) =>
      assert ShapedValue(S, f, v);
      rv := 0;
      if f.kind != Unlabeled || InOneof(f) || !Zeroish(f.typ, v) {
        rv := RequiredFieldSize(S, f, v);
        assert SlotRecords(S, f, slot) == [ValueRecord(S, f, v)];
        SerializeOne(ValueRecord(S, f, v));
      }
  }

  lemma EncodeFieldsStep(S: Schema, t: nat, m: Message, i: nat)
    requires ValidSchema(S) && Shaped(S, t, m) && i < |m.slots|
    ensures Serialize(FieldRecords(S, t, m, i)) ==
      EncodeSlot(S, S[t].fields[i], m.slots[i]) + Serialize(FieldRecords(S, t, m, i + 1))
  {
    hide SlotRecords, Serialize;
    SerializeAppend(SlotRecords(S, S[t].fields[i], m.slots[i]), FieldRecords(S, t, m, i + 1));
  }

  lemma EncodeMessageParts(S: Schema, t: nat, m: Message)
    requires ValidSchema(S) && Shaped(S, t, m)
    ensures EncodeMessage(S, t, m) == Serialize(FieldRecords(S, t, m, 0)) + Serialize(m.unknown)
  {
    hide Serialize, FieldRecords;
    SerializeAppend(FieldRecords(S, t, m, 0), m.unknown);
  }

  lemma UnknownStep(rs: seq<Record>, i: nat)
    requires Tagged(rs) && i < |rs|
    ensures Tagged(rs[i..]) && Tagged(rs[i + 1..])
    ensures Serialize(rs[i..]) == RecordBytes(rs[i]) + Serialize(rs[i + 1..])
  {
    hide RecordBytes;
    assert rs[i..][1..] == rs[i + 1..];
  }

  /** The whole message. An unknown field of tag 0 is sized like any other. */
  method MessageSize(S: Schema, t: nat, m: Message) returns (rv: nat)
    requires ValidSchema(S) && Shaped(S, t, m)
    ensures rv == |EncodeMessage(S, t, m)|
    decreases m, 4
  {
    hide Serialize, EncodeSlot, EncodeMessage, TagSize, RecordBytes, FieldRecords;
    EncodeMessageParts(S, t, m);
    rv := 0;
    for i := 0 to |S[t].fields|
      invariant rv + |Serialize(FieldRecords(S, t, m, i))| == |Serialize(FieldRecords(S, t, m, 0))|
    {
      EncodeFieldsStep(S, t, m, i);
      var n := FieldSize(S, S[t].fields[i], m.slots[i]);
      rv := rv + n;
    }
    NoFieldsLeft(S, t, m);
    assert m.unknown[0..] == m.unknown;
    for i := 0 to |m.unknown|
      invariant rv + |Serialize(m.unknown[i..])| == |EncodeMessage(S, t, m)|
    {
      UnknownStep(m.unknown, i);
      UnknownSize(m.unknown[i]);
      rv := rv + TagSize(m.unknown[i].tag) + |m.unknown[i].data|;
    }
    assert m.unknown[|m.unknown|..] == [];
    SerializeNothing();
  }

  lemma SerializeNothing()
    ensures Serialize([]) == []
  {
  }

  lemma NoFieldsLeft(S: Schema, t: nat, m: Message)
    requires ValidSchema(S) && Shaped(S, t, m)
    ensures FieldRecords(S, t, m, |m.slots|) == [] && Serialize([]) == []
  {
  }

  lemma UnknownSize(r: Record)
    requires r.wireType < 8
    ensures |RecordBytes(r)| == TagSize(r.tag) + |r.data|
  {
    hide Encode;
    EncodeLength(8 * r.tag + r.wireType);
  }
}
