/** The wire format byte by byte: tags, payloads and whole messages in numbers, without the functions that decoders share. */
module WireBytes {
  import opened Options
  import opened Arithmetic
  import opened Varint
  import opened Wire
  import opened Schema
  import opened Scalars
  import opened Encoder
  import opened Decoder
  import opened RoundTrip

  // ----- varints -----

  /** Byte `i` of a varint has the digit of weight 128^i, and the top bit unless it is the last. */
  lemma {:induction false} VarintDigits(n: nat, i: nat)
    requires i < |Encode(n)|
    ensures Encode(n)[i] == n / Pow128(i) % 0x80 + if i == |Encode(n)| - 1 then 0 else 0x80
    decreases i
  {
    if i == 0 {
    } else {
      VarintDigits(n / 0x80, i - 1);
      QuotientOfQuotient(n, 0x80, Pow128(i - 1));
    }
  }

  lemma QuotientOfQuotient(n: nat, k: nat, p: nat)
    requires k > 0 && p > 0
    ensures k * p > 0 && n / k / p == n / (k * p)
  {
    var m, r := n / k, n % k;
    var q, t := m / p, m % p;
    assert n == k * m + r && m == p * q + t;
    Regrouped(k, p, q, t);
    ScaledBound(k, p, t);
    Quotient(n, k * p, q, k * t + r);
  }

  lemma Regrouped(k: nat, p: nat, q: nat, t: nat)
    ensures k * (p * q + t) == k * p * q + k * t
  {
  }

  lemma ScaledBound(k: nat, p: nat, t: nat)
    requires t < p
    ensures k * t + k <= k * p
  {
    Regrouped(k, 1, t, p - t);
    AtLeastOnce(k, p - t);
  }

  lemma AtLeastOnce(k: nat, d: nat)
    requires d >= 1
    ensures k <= k * d
  {
  }

  lemma ShortVarint(n: nat)
    ensures n < 0x80 ==> Encode(n) == [n]
    ensures 0x80 <= n < 0x4000 ==> Encode(n) == [0x80 + n % 0x80, n / 0x80]
  {
    if 0x80 <= n < 0x4000 {
      assert Encode(n / 0x80) == [n / 0x80];
    }
  }

  // ----- tags -----

  /** The wire types as the format numbers them. */
  function WireNumber(typ: Type): nat {
    match typ
    case Int32 | SInt32 | UInt32 | Int64 | SInt64 | UInt64 | Boolean | Enum => 0
    case Fixed64 | SFixed64 | Double => 1
    case String | Bytes | Nested => 2
    case Fixed32 | SFixed32 | Float => 5
  }

  lemma WireTypeIsNumbered(typ: Type)
    ensures WireType(typ) == WireNumber(typ)
  {
  }

  /** Ids up to 15 make tags of one byte, and ids up to 2047 tags of two. */
  lemma TagIsShort(id: uint32, typ: Type)
    ensures id <= 15 ==> TagBytes(id, WireType(typ)) == [8 * id + WireNumber(typ)]
    ensures 16 <= id <= 2047 ==> TagBytes(id, WireType(typ)) == [0x80 + (8 * id + WireNumber(typ)) % 0x80, id / 16]
  {
    WireTypeIsNumbered(typ);
    ShortVarint(8 * id + WireNumber(typ));
  }

  // ----- payloads -----

  /** Byte `i` of a fixed-width word has the digit of weight 256^i. */
  lemma {:induction false} FixedDigits(n: nat, width: nat, i: nat)
    requires i < width
    ensures Pow256(i) > 0 && Fixed(n, width)[i] == n / Pow256(i) % 0x100
    decreases i
  {
    if i == 0 {
    } else {
      FixedDigits(n / 0x100, width - 1, i - 1);
      QuotientOfQuotient(n, 0x100, Pow256(i - 1));
    }
  }

  lemma Weights()
    ensures Pow256(0) == 1 && Pow256(1) == 0x100 && Pow256(2) == 0x1_0000 && Pow256(3) == 0x100_0000
    ensures Pow256(4) == 0x1_0000_0000 && Pow256(5) == 0x100_0000_0000
    ensures Pow256(6) == 0x1_0000_0000_0000 && Pow256(7) == 0x100_0000_0000_0000
  {
    assert Pow256(3) == 0x100 * Pow256(2) == 0x100 * (0x100 * Pow256(1));
    assert Pow256(5) == 0x100 * Pow256(4) == 0x100 * (0x100 * Pow256(3));
    assert Pow256(7) == 0x100 * Pow256(6) == 0x100 * (0x100 * Pow256(5));
  }

  /** Little-endian. */
  function Bytes4(w: uint32): seq<byte> {
    [w % 0x100, w / 0x100 % 0x100, w / 0x1_0000 % 0x100, w / 0x100_0000]
  }

  function Bytes8(w: uint64): seq<byte> {
    [w % 0x100, w / 0x100 % 0x100, w / 0x1_0000 % 0x100, w / 0x100_0000 % 0x100,
     w / 0x1_0000_0000 % 0x100, w / 0x100_0000_0000 % 0x100, w / 0x1_0000_0000_0000 % 0x100, w / 0x100_0000_0000_0000]
  }

  lemma FixedBytes4(w: uint32)
    ensures Fixed(w, 4) == Bytes4(w)
  {
    hide Fixed, Pow256;
    Weights();
    forall i | 0 <= i < 4
      ensures Fixed(w, 4)[i] == Bytes4(w)[i]
    {
      FixedDigits(w, 4, i);
    }
  }

  lemma FixedBytes8(w: uint64)
    ensures Fixed(w, 8) == Bytes8(w)
  {
    hide Fixed, Pow256;
    Weights();
    forall i | 0 <= i < 8
      ensures Fixed(w, 8)[i] == Bytes8(w)[i]
    {
      FixedDigits(w, 8, i);
    }
  }

  /** Floats and words of fixed width. */
  lemma FixedPayload(typ: Type, v: Value)
    requires IsOf(typ, v) && WireNumber(typ) in {1, 5}
    ensures Packable(typ) && EncodeScalar(typ, v) == if v.Word32? then Bytes4(v.w32) else Bytes8(v.w64)
    ensures v.Word32? <==> WireNumber(typ) == 5
  {
    hide Fixed, Bytes4, Bytes8;
    if v.Word32? {
      FixedBytes4(v.w32);
    } else if v.Word64? {
      FixedBytes8(v.w64);
    }
  }

  /** The number that a varint field writes: negative ones as 64-bit two's complement, or in zigzag order. */
  function VarintNumber(typ: Type, v: Value): (n: nat)
    requires IsOf(typ, v) && WireNumber(typ) == 0
    ensures n < 0x1_0000_0000_0000_0000
  {
    match typ
    case Int32 | Enum => if v.w32 < 0x8000_0000 then v.w32 else v.w32 - 0x1_0000_0000 + 0x1_0000_0000_0000_0000
    case SInt32 => if v.w32 < 0x8000_0000 then 2 * v.w32 else 2 * (0x1_0000_0000 - v.w32) - 1
    case SInt64 => if v.w64 < 0x8000_0000_0000_0000 then 2 * v.w64 else 2 * (0x1_0000_0000_0000_0000 - v.w64) - 1
    case UInt32 => v.w32
    case Int64 | UInt64 => v.w64
    case Boolean => if v.b then 1 else 0
  }

  lemma VarintPayload(typ: Type, v: Value)
    requires IsOf(typ, v) && WireNumber(typ) == 0
    ensures Packable(typ) && EncodeScalar(typ, v) == Encode(VarintNumber(typ, v))
  {
    if typ != Boolean {
      hide Encode;
      VarintNumberOf(typ, v);
    }
  }

  lemma VarintNumberOf(typ: Type, v: Value)
    requires IsOf(typ, v) && WireNumber(typ) == 0 && typ != Boolean
    ensures Packable(typ) && Width(typ) == 0 && VarintOf(typ, v) == VarintNumber(typ, v)
  {
  }

  // ----- which values are written -----

  predicate IsZero(typ: Type, v: Value) {
    || v == Word32(0) || v == Word64(0) || v == Flag(false) || v == Blob([])
    || (typ == Float && v == Word32(0x8000_0000)) || (typ == Double && v == Word64(0x8000_0000_0000_0000))
    || (v.Text? && (v.s == [] || v.s[0] == 0))
  }

  /** A field without label is not written for 0, -0.0, false, a string that starts with NUL or ends at once, and an empty byte
      string; any other single field that is set is written. */
  lemma WrittenUnlessZero(S: Schema, f: Field, v: Value)
    requires ValidSchema(S) && ValidField(S, f) && f.kind != Repeated && ShapedValue(S, f, v) && ShapedSlot(S, f, Present(v))
    ensures SlotRecords(S, f, Present(v)) == [] <==> f.kind == Unlabeled && f.oneof.None? && IsZero(f.typ, v)
    ensures SlotRecords(S, f, Present(v)) == [] || SlotRecords(S, f, Present(v)) == [Record(f.id, WireNumber(f.typ), Payload(S, f, v))]
  {
    hide Payload, Shaped;
    WireTypeIsNumbered(f.typ);
  }

  // ----- fields -----

  /** The payload of a scalar in bytes. */
  function ScalarBytes(typ: Type, v: Value): seq<byte>
    requires IsOf(typ, v) && Packable(typ)
  {
    if WireNumber(typ) == 0 then Encode(VarintNumber(typ, v)) else if v.Word32? then Bytes4(v.w32) else Bytes8(v.w64)
  }

  lemma ScalarIsSpelled(typ: Type, v: Value)
    requires IsOf(typ, v) && Packable(typ)
    ensures EncodeScalar(typ, v) == ScalarBytes(typ, v)
  {
    hide EncodeScalar, Encode, Bytes4, Bytes8, VarintNumber;
    if WireNumber(typ) == 0 {
      VarintPayload(typ, v);
    } else {
      FixedPayload(typ, v);
    }
  }

  /** A single scalar is its tag and its bytes, unless it is the zero of a field without label. */
  lemma ScalarField(S: Schema, f: Field, v: Value)
    requires ValidSchema(S) && ValidField(S, f) && f.kind != Repeated && f.id <= 15 && Packable(f.typ) && IsOf(f.typ, v)
    requires f.kind != Unlabeled || f.oneof.Some? || !IsZero(f.typ, v)
    ensures ShapedSlot(S, f, Present(v))
    ensures EncodeSlot(S, f, Present(v)) == [8 * f.id + WireNumber(f.typ)] + ScalarBytes(f.typ, v)
  {
    hide EncodeScalar, ScalarBytes, TagBytes, Serialize;
    assert ShapedValue(S, f, v);
    WrittenUnlessZero(S, f, v);
    WireTypeIsNumbered(f.typ);
    SerializeOne(ValueRecord(S, f, v));
    TagIsShort(f.id, f.typ);
    ScalarIsSpelled(f.typ, v);
  }

  /** A sub-message, a string or a byte string of less than 128 bytes is its tag, its length, and itself. */
  lemma DelimitedField(S: Schema, f: Field, v: Value, body: seq<byte>)
    requires ValidSchema(S) && ValidField(S, f) && f.kind in {Required, Optional} && f.id <= 15 && ShapedValue(S, f, v)
    requires |body| < 0x80 && match v
      case Text(s) => body == s && 0 !in s
      case Blob(s) => body == s
      case Sub(m) => body == EncodeMessage(S, f.sub, m)
      case _ => false
    ensures ShapedSlot(S, f, Present(v))
    ensures EncodeSlot(S, f, Present(v)) == [8 * f.id + 2, |body|] + body
  {
    hide EncodeMessage, TagBytes, Encode, Serialize, CString;
    if v.Text? {
      CStringOfNulFree(v.s);
    }
    ShortVarint(|body|);
    TagIsShort(f.id, f.typ);
    SerializeOne(ValueRecord(S, f, v));
    assert Payload(S, f, v) == Delimited(body);
  }

  /** A missing string or sub-message of a required field is written as empty. */
  lemma MissingRequired(S: Schema, f: Field)
    requires ValidSchema(S) && ValidField(S, f) && f.kind == Required && f.id <= 15 && (f.typ == String || f.typ == Nested)
    ensures EncodeSlot(S, f, Absent) == [8 * f.id + 2, 0]
  {
    hide TagBytes, Serialize;
    TagIsShort(f.id, f.typ);
    SerializeOne(Record(f.id, WIRE_LENGTH_PREFIXED, [0]));
  }

  /** The elements with one tag and the length of them all before them. */
  function RunBytes(typ: Type, vs: seq<Value>): seq<byte>
    requires Packable(typ) && forall v <- vs :: IsOf(typ, v)
  {
    if vs == [] then [] else ScalarBytes(typ, vs[0]) + RunBytes(typ, vs[1..])
  }

  /** The elements with the tag before each. */
  function TaggedBytes(id: nat, typ: Type, vs: seq<Value>): seq<byte>
    requires id <= 15 && Packable(typ) && forall v <- vs :: IsOf(typ, v)
  {
    if vs == [] then [] else [8 * id + WireNumber(typ)] + ScalarBytes(typ, vs[0]) + TaggedBytes(id, typ, vs[1..])
  }

  lemma {:induction false} RunIsSpelled(typ: Type, vs: seq<Value>)
    requires Packable(typ) && forall v <- vs :: IsOf(typ, v)
    ensures EncodeAll(typ, vs) == RunBytes(typ, vs)
  {
    hide EncodeScalar, ScalarBytes, IsOf;
    if vs == [] {
    } else {
      ScalarIsSpelled(typ, vs[0]);
      RunIsSpelled(typ, vs[1..]);
    }
  }

  lemma {:induction false} ElementsAreSpelled(S: Schema, f: Field, vs: seq<Value>)
    requires ValidSchema(S) && ValidField(S, f) && f.id <= 15 && Packable(f.typ) && forall v <- vs :: ShapedValue(S, f, v)
    ensures AllOf(f.typ, vs) && Serialize(ElementRecords(S, f, vs)) == TaggedBytes(f.id, f.typ, vs)
    decreases |vs|
  {
    hide ScalarBytes, RecordBytes, ShapedValue, ValueRecord;
    ElementsAreOf(S, f, vs);
    if vs == [] {
    } else {
      ElementsAreSpelled(S, f, vs[1..]);
      ElementIsSpelled(S, f, vs[0]);
      var rs := ElementRecords(S, f, vs);
      assert rs[0] == ValueRecord(S, f, vs[0]) && rs[1..] == ElementRecords(S, f, vs[1..]);
    }
  }

  lemma ElementIsSpelled(S: Schema, f: Field, v: Value)
    requires ValidSchema(S) && ValidField(S, f) && f.id <= 15 && Packable(f.typ) && ShapedValue(S, f, v)
    ensures IsOf(f.typ, v) && ValueRecord(S, f, v).wireType < 8
    ensures RecordBytes(ValueRecord(S, f, v)) == [8 * f.id + WireNumber(f.typ)] + ScalarBytes(f.typ, v)
  {
    hide EncodeScalar, ScalarBytes, TagBytes;
    ScalarIsSpelled(f.typ, v);
    TagIsShort(f.id, f.typ);
  }

  lemma ScalarsAreShaped(S: Schema, f: Field, vs: seq<Value>)
    requires Packable(f.typ) && forall v <- vs :: IsOf(f.typ, v)
    ensures forall v <- vs :: ShapedValue(S, f, v)
  {
  }

  /** A repeated scalar field as it is written where it is not packed. */
  lemma UnpackedField(S: Schema, f: Field, vs: seq<Value>)
    requires ValidSchema(S) && ValidField(S, f) && f.kind == Repeated && !f.packed && f.id <= 15
    requires Packable(f.typ) && forall v <- vs :: IsOf(f.typ, v)
    ensures ShapedSlot(S, f, Many(vs)) && EncodeSlot(S, f, Many(vs)) == TaggedBytes(f.id, f.typ, vs)
  {
    hide ScalarBytes, TaggedBytes, Serialize, ShapedValue;
    ScalarsAreShaped(S, f, vs);
    ElementsAreSpelled(S, f, vs);
  }

  /** And where it is packed: nothing at all for no elements. */
  lemma PackedField(S: Schema, f: Field, vs: seq<Value>)
    requires ValidSchema(S) && ValidField(S, f) && f.kind == Repeated && f.packed && f.id <= 15
    requires Packable(f.typ) && (forall v <- vs :: IsOf(f.typ, v)) && |RunBytes(f.typ, vs)| < 0x80
    ensures ShapedSlot(S, f, Many(vs))
    ensures EncodeSlot(S, f, Many(vs)) == if vs == [] then [] else [8 * f.id + 2, |RunBytes(f.typ, vs)|] + RunBytes(f.typ, vs)
  {
    hide TagBytes, Encode, RunBytes, EncodeAll, Serialize, ShapedValue;
    ScalarsAreShaped(S, f, vs);
    if vs == [] {
      SerializeNone();
    } else {
      RunIsSpelled(f.typ, vs);
      ShortVarint(|RunBytes(f.typ, vs)|);
      TagIsShort(f.id, String);
      SerializeOne(Record(f.id, WIRE_LENGTH_PREFIXED, Delimited(EncodeAll(f.typ, vs))));
    }
  }

  // ----- messages -----

  /** The fields from `i` on, one after the other. */
  function FieldBytes(S: Schema, t: nat, m: Message, i: nat): seq<byte>
    requires ValidSchema(S) && Shaped(S, t, m) && i <= |m.slots|
    decreases |m.slots| - i
  {
    if i == |m.slots| then [] else EncodeSlot(S, S[t].fields[i], m.slots[i]) + FieldBytes(S, t, m, i + 1)
  }

  lemma {:induction false} FieldsInOrder(S: Schema, t: nat, m: Message, i: nat)
    requires ValidSchema(S) && Shaped(S, t, m) && i <= |m.slots|
    ensures Serialize(FieldRecords(S, t, m, i)) == FieldBytes(S, t, m, i)
    decreases |m.slots| - i
  {
    hide SlotRecords, Serialize, ShapedSlot;
    if i == |m.slots| {
      SerializeNone();
    } else {
      FieldsInOrder(S, t, m, i + 1);
      SerializeAppend(SlotRecords(S, S[t].fields[i], m.slots[i]), FieldRecords(S, t, m, i + 1));
    }
  }

  /** A message is its fields in the order of the descriptor, and behind them the unknown fields. */
  lemma MessageInOrder(S: Schema, t: nat, m: Message)
    requires ValidSchema(S) && Shaped(S, t, m)
    ensures Tagged(m.unknown) && EncodeMessage(S, t, m) == FieldBytes(S, t, m, 0) + Serialize(m.unknown)
  {
    hide FieldRecords, Serialize, ShapedSlot, FieldBytes;
    FieldsInOrder(S, t, m, 0);
    SerializeAppend(FieldRecords(S, t, m, 0), m.unknown);
  }

  lemma OneField(S: Schema, t: nat, m: Message)
    requires ValidSchema(S) && Shaped(S, t, m) && |m.slots| == 1 && m.unknown == []
    ensures EncodeMessage(S, t, m) == EncodeSlot(S, S[t].fields[0], m.slots[0])
  {
    hide EncodeMessage, EncodeSlot, ShapedSlot;
    MessageInOrder(S, t, m);
    SerializeNone();
    assert FieldBytes(S, t, m, 1) == [];
    assert EncodeSlot(S, S[t].fields[0], m.slots[0]) + [] == EncodeSlot(S, S[t].fields[0], m.slots[0]);
  }

  lemma TwoFields(S: Schema, t: nat, m: Message)
    requires ValidSchema(S) && Shaped(S, t, m) && |m.slots| == 2 && m.unknown == []
    ensures EncodeMessage(S, t, m) == EncodeSlot(S, S[t].fields[0], m.slots[0]) + EncodeSlot(S, S[t].fields[1], m.slots[1])
  {
    hide EncodeMessage, EncodeSlot, ShapedSlot;
    MessageInOrder(S, t, m);
    SerializeNone();
    assert FieldBytes(S, t, m, 2) == [];
    assert EncodeSlot(S, S[t].fields[1], m.slots[1]) + [] == EncodeSlot(S, S[t].fields[1], m.slots[1]);
    assert FieldBytes(S, t, m, 1) == EncodeSlot(S, S[t].fields[1], m.slots[1]);
  }

  lemma {:induction false} FewRecords(S: Schema, t: nat, m: Message, i: nat)
    requires ValidSchema(S) && Shaped(S, t, m) && i <= |m.slots| && forall j :: 0 <= j < |m.slots| ==> !m.slots[j].Many?
    ensures |FieldRecords(S, t, m, i)| <= |m.slots| - i
    decreases |m.slots| - i
  {
    hide ShapedValue, ValueRecord;
    if i == |m.slots| {
    } else {
      FewRecords(S, t, m, i + 1);
    }
  }

  lemma SmallIsWellFormed(S: Schema, t: nat, m: Message)
    requires ValidSchema(S) && Shaped(S, t, m) && m.unknown == [] && |m.slots| < 0x80
    requires forall i :: 0 <= i < |m.slots| ==> !m.slots[i].Many? && WellFormedSlot(S, S[t].fields[i], m.slots[i])
    ensures WellFormed(S, t, m)
  {
    hide FieldRecords, WellFormedSlot, ShapedSlot;
    FewRecords(S, t, m, 0);
  }

  // ----- for instance -----

  const GUID: Descriptor := Descriptor([Field(1, Fixed64, Required, false, None, 0), Field(2, Fixed64, Required, false, None, 0)])

  const IDS: Schema := [Descriptor([Field(1, Nested, Required, false, None, 1)]), GUID]

  function Guid(lo: uint64, hi: uint64): Message {
    Message([Present(Word64(lo)), Present(Word64(hi))], [])
  }

  function MessageId(lo: uint64, hi: uint64): Message {
    Message([Present(Sub(Guid(lo, hi)))], [])
  }

  lemma IdsAreValid()
    ensures ValidSchema(IDS)
  {
    assert ValidDescriptor(IDS, IDS[0]) && ValidDescriptor(IDS, IDS[1]);
  }

  /** A `bcl.Guid`, whatever its two words, and back. */
  lemma GuidBytes(lo: uint64, hi: uint64)
    ensures ValidSchema(IDS) && Shaped(IDS, 1, Guid(lo, hi)) && WellFormed(IDS, 1, Guid(lo, hi))
    ensures var s := [0x09] + Bytes8(lo) + [0x11] + Bytes8(hi);
      EncodeMessage(IDS, 1, Guid(lo, hi)) == s && Decode(IDS, 1, s) == Some(Guid(lo, hi))
  {
    hide EncodeMessage, EncodeSlot, Bytes8, ValidSchema, Decode;
    IdsAreValid();
    var m := Guid(lo, hi);
    ScalarField(IDS, GUID.fields[0], Word64(lo));
    ScalarField(IDS, GUID.fields[1], Word64(hi));
    TwoFields(IDS, 1, m);
    SmallIsWellFormed(IDS, 1, m);
    MessageRoundTrip(IDS, 1, m);
  }

  /** The id of a message: its one field is the Guid, 18 bytes long. */
  lemma MessageIdBytes(lo: uint64, hi: uint64)
    ensures ValidSchema(IDS) && Shaped(IDS, 0, MessageId(lo, hi)) && WellFormed(IDS, 0, MessageId(lo, hi))
    ensures var s := [0x0a, 0x12, 0x09] + Bytes8(lo) + [0x11] + Bytes8(hi);
      EncodeMessage(IDS, 0, MessageId(lo, hi)) == s && Decode(IDS, 0, s) == Some(MessageId(lo, hi))
  {
    hide EncodeMessage, EncodeSlot, Bytes8, ValidSchema, Decode, WellFormed, Shaped;
    GuidBytes(lo, hi);
    var m, f, body := MessageId(lo, hi), IDS[0].fields[0], [0x09] + Bytes8(lo) + [0x11] + Bytes8(hi);
    ValueOfIds(lo, hi);
    assert [0x0a, 0x12] + body == [0x0a, 0x12, 0x09] + Bytes8(lo) + [0x11] + Bytes8(hi);
    OneField(IDS, 0, m);
    SmallIsWellFormed(IDS, 0, m);
    MessageRoundTrip(IDS, 0, m);
  }

  lemma ValueOfIds(lo: uint64, hi: uint64)
    ensures ValidSchema(IDS) && Shaped(IDS, 0, MessageId(lo, hi))
    ensures WellFormedSlot(IDS, IDS[0].fields[0], MessageId(lo, hi).slots[0])
    ensures EncodeSlot(IDS, IDS[0].fields[0], MessageId(lo, hi).slots[0]) == [0x0a, 0x12] + ([0x09] + Bytes8(lo) + [0x11] + Bytes8(hi))
  {
    hide EncodeMessage, EncodeSlot, ValidSchema, Decode, WellFormed;
    GuidBytes(lo, hi);
    var v := Sub(Guid(lo, hi));
    assert ShapedValue(IDS, IDS[0].fields[0], v);
    DelimitedField(IDS, IDS[0].fields[0], v, [0x09] + Bytes8(lo) + [0x11] + Bytes8(hi));
  }

  const FIXED: Schema := [Descriptor([Field(1, Fixed64, Required, false, None, 0), Field(2, Fixed32, Required, false, None, 0)])]

  /** One word of each fixed width. */
  lemma FixedFields(a: uint64, b: uint32)
    ensures var m, s := Message([Present(Word64(a)), Present(Word32(b))], []), [0x09] + Bytes8(a) + [0x15] + Bytes4(b);
      ValidSchema(FIXED) && Shaped(FIXED, 0, m) && EncodeMessage(FIXED, 0, m) == s && Decode(FIXED, 0, s) == Some(m)
  {
    hide EncodeMessage, EncodeSlot, Bytes8, Bytes4, ValidSchema, Decode;
    var m := Message([Present(Word64(a)), Present(Word32(b))], []);
    assert ValidSchema(FIXED) by { FixedIsValid(); }
    ScalarField(FIXED, FIXED[0].fields[0], Word64(a));
    ScalarField(FIXED, FIXED[0].fields[1], Word32(b));
    TwoFields(FIXED, 0, m);
    SmallIsWellFormed(FIXED, 0, m);
    MessageRoundTrip(FIXED, 0, m);
  }

  lemma FixedIsValid()
    ensures ValidSchema(FIXED)
  {
    assert ValidDescriptor(FIXED, FIXED[0]);
  }
}
