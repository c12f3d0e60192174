/** What a message is on the wire, and the size pass over it.
    The encoding is defined record by record; the three encoders of protobuf-c are proved against it. */
module Encoder {
  import opened Varint
  import opened Wire
  import opened Schema
  import opened Scalars

  /** What `strlen` and `memcpy` see of a string: the bytes before the first NUL. */
  function CString(s: seq<byte>): seq<byte> {
    if s == [] || s[0] == 0 then [] else [s[0]] + CString(s[1..])
  }

  predicate NulFree(s: seq<byte>) {
    0 !in s
  }

  lemma {:induction false} CStringOfNulFree(s: seq<byte>)
    requires NulFree(s)
    ensures CString(s) == s
  {
    if s == [] {
    } else {
      CStringOfNulFree(s[1..]);
    }
  }

  /** `field_is_zeroish`. Both floating zeros compare equal to 0; a byte string is tested by its first
      word, which is its length. */
  predicate Zeroish(typ: Type, v: Value)
    requires IsOf(typ, v)
  {
    match v
    case Word32(w) => w == 0 || (typ == Float && w == TWO_31)
    case Word64(w) => w == 0 || (typ == Double && w == TWO_63)
    case Flag(b) => !b
    case Text(s) => CString(s) == []
    case Blob(s) => s == []
    case Sub(_) => false
  }

  /** A zero of a field without label: the encoders pass over it. */
  predicate IsUnwritten(f: Field, v: Value)
    requires IsOf(f.typ, v)
  {
    f.kind == Unlabeled && !InOneof(f) && Zeroish(f.typ, v)
  }

  // ----- the encoding -----

  function Payload(S: Schema, f: Field, v: Value): seq<byte>
    requires ValidSchema(S) && ShapedValue(S, f, v)
    decreases v, 0
  {
    match v
    case Text(s) => Delimited(CString(s))
    case Blob(s) => Delimited(s)
    case Sub(m) => Delimited(EncodeMessage(S, f.sub, m))
    case _ => EncodeScalar(f.typ, v)
  }

  function ValueRecord(S: Schema, f: Field, v: Value): Record
    requires ValidSchema(S) && ShapedValue(S, f, v)
    decreases v, 1
  {
    Record(f.id, WireType(f.typ), Payload(S, f, v))
  }

  function ElementRecords(S: Schema, f: Field, vs: seq<Value>): (rs: seq<Record>)
    requires ValidSchema(S) && forall v <- vs :: ShapedValue(S, f, v)
    ensures Tagged(rs)
    ensures |rs| == |vs| && forall i :: 0 <= i < |rs| ==> rs[i] == ValueRecord(S, f, vs[i])
    decreases vs
  {
    if vs == [] then [] else [ValueRecord(S, f, vs[0])] + ElementRecords(S, f, vs[1..])
  }

  lemma ElementsAreOf(S: Schema, f: Field, vs: seq<Value>)
    requires forall v <- vs :: ShapedValue(S, f, v)
    ensures AllOf(f.typ, vs)
  {
    forall v | v in vs
      ensures IsOf(f.typ, v)
    {
      assert ShapedValue(S, f, v);
    }
  }

  /** The records of one field. */
  function SlotRecords(S: Schema, f: Field, slot: Slot): (rs: seq<Record>)
    requires ValidSchema(S) && ShapedSlot(S, f, slot) && ValidField(S, f)
    ensures Tagged(rs)
    decreases slot, 0
  {
    match slot
    case Many(vs) =>
      ElementsAreOf(S, f, vs);
      if !f.packed then ElementRecords(S, f, vs)
      else if vs == [] then []
      else [Record(f.id, WIRE_LENGTH_PREFIXED, Delimited(EncodeAll(f.typ, vs)))]
    case Absent =>
      if f.kind == Required then [Record(f.id, WIRE_LENGTH_PREFIXED, [0])] else []
    case Present(v) =>
      assert ShapedValue(S, f, v);
      if IsUnwritten(f, v) then [] else [ValueRecord(S, f, v)]
  }

  /** The records of the fields from `i` on. */
  function FieldRecords(S: Schema, t: nat, m: Message, i: nat): (rs: seq<Record>)
    requires ValidSchema(S) && Shaped(S, t, m) && i <= |m.slots|
    ensures Tagged(rs)
    decreases m, 0, |m.slots| - i
  {
    if i == |m.slots| then [] else SlotRecords(S, S[t].fields[i], m.slots[i]) + FieldRecords(S, t, m, i + 1)
  }

  function MessageRecords(S: Schema, t: nat, m: Message): (rs: seq<Record>)
    requires ValidSchema(S) && Shaped(S, t, m)
    ensures Tagged(rs)
    decreases m, 1
  {
    FieldRecords(S, t, m, 0) + m.unknown
  }

  function EncodeMessage(S: Schema, t: nat, m: Message): seq<byte>
    requires ValidSchema(S) && Shaped(S, t, m)
    decreases m, 2
  {
    Serialize(MessageRecords(S, t, m))
  }

  function EncodeSlot(S: Schema, f: Field, slot: Slot): seq<byte>
    requires ValidSchema(S) && ShapedSlot(S, f, slot) && ValidField(S, f)
  {
    Serialize(SlotRecords(S, f, slot))
  }
}
