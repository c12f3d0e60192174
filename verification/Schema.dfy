/** Descriptors and message contents. Sub-message types are indices into a schema, so that message types
    may refer to each other and to themselves. */
module Schema {
  import opened Options
  import opened Varint
  import opened Wire

  datatype Type =
    | Int32 | SInt32 | SFixed32 | Int64 | SInt64 | SFixed64
    | UInt32 | Fixed32 | UInt64 | Fixed64 | Float | Double
    | Boolean | Enum | String | Bytes | Nested

  datatype Label = Required | Optional | Unlabeled | Repeated

  /** `oneof` is the union the field belongs to; `sub` is the message type of a `Nested` field. */
  datatype Field = Field(id: uint32, typ: Type, kind: Label, packed: bool, oneof: Option<nat>, sub: nat)

  datatype Descriptor = Descriptor(fields: seq<Field>)

  type Schema = seq<Descriptor>

  /** Words and floats are their bit patterns. `Text` is the memory a string pointer leads to, which a C
      reader takes up to its first NUL. */
  datatype Value =
    | Word32(w32: uint32)
    | Word64(w64: uint64)
    | Flag(b: bool)
    | Text(s: seq<byte>)
    | Blob(s: seq<byte>)
    | Sub(m: Message)

  /** The contents of one field: a NULL pointer, cleared `has` flag or unselected union member is
      `Absent`; a repeated field is its elements. */
  datatype Slot = Absent | Present(v: Value) | Many(vs: seq<Value>)

  /** One slot per field of the descriptor, and the retained unknown fields. The case of a oneof is the
      one member that is `Present`. */
  datatype Message = Message(slots: seq<Slot>, unknown: seq<Record>)

  // ----- types -----

  /** `is_packable_type`. */
  predicate Packable(typ: Type) {
    typ != String && typ != Bytes && typ != Nested
  }

  /** The width of a fixed-width type, 0 for the others. */
  function Width(typ: Type): nat {
    match typ
    case SFixed32 | Fixed32 | Float => 4
    case SFixed64 | Fixed64 | Double => 8
    case _ => 0
  }

  function WireType(typ: Type): nat {
    if Width(typ) == 4 then WIRE_32BIT
    else if Width(typ) == 8 then WIRE_64BIT
    else if Packable(typ) then WIRE_VARINT
    else WIRE_LENGTH_PREFIXED
  }

  /** The memory a value of the type takes. */
  predicate IsOf(typ: Type, v: Value) {
    match typ
    case Int32 | SInt32 | SFixed32 | UInt32 | Fixed32 | Float | Enum => v.Word32?
    case Int64 | SInt64 | SFixed64 | UInt64 | Fixed64 | Double => v.Word64?
    case Boolean => v.Flag?
    case String => v.Text?
    case Bytes => v.Blob?
    case Nested => v.Sub?
  }

  function Zero(typ: Type): Value
    requires typ != String && typ != Nested
  {
    match typ
    case Int32 | SInt32 | SFixed32 | UInt32 | Fixed32 | Float | Enum => Word32(0)
    case Int64 | SInt64 | SFixed64 | UInt64 | Fixed64 | Double => Word64(0)
    case Boolean => Flag(false)
    case Bytes => Blob([])
  }

  // ----- descriptors -----

  /** Whether the encoder and the decoder take the field as a union member. */
  predicate InOneof(f: Field) {
    f.oneof.Some? && (f.kind == Optional || f.kind == Unlabeled)
  }

  predicate Sorted(fields: seq<Field>) {
    forall i, j :: 0 <= i < j < |fields| ==> fields[i].id < fields[j].id
  }

  /** What the generator makes of any message type: ids sorted, distinct, positive and below the sentinel
      arithmetic of the range table; packed only on packable repeated fields; sub-message types known. */
  predicate ValidDescriptor(S: Schema, d: Descriptor) {
    Sorted(d.fields) && forall i :: 0 <= i < |d.fields| ==> ValidField(S, d.fields[i])
  }

  predicate ValidField(S: Schema, f: Field) {
    && 1 <= f.id < INT_MAX
    && (f.typ == Nested ==> f.sub < |S|)
    && (f.packed ==> Packable(f.typ))
  }

  predicate ValidSchema(S: Schema) {
    forall t :: 0 <= t < |S| ==> ValidDescriptor(S, S[t])
  }

  /** The field with an id: what the range lookup stands for. */
  function Lookup(fields: seq<Field>, id: uint32): (r: Option<nat>)
    ensures r.Some? ==> r.value < |fields| && fields[r.value].id == id
    ensures r.None? ==> forall f <- fields :: f.id != id
  {
    LookupFrom(fields, id, 0)
  }

  function LookupFrom(fields: seq<Field>, id: uint32, i: nat): (r: Option<nat>)
    requires i <= |fields|
    requires forall j :: 0 <= j < i ==> fields[j].id != id
    ensures r.Some? ==> r.value < |fields| && fields[r.value].id == id
    ensures r.None? ==> forall f <- fields :: f.id != id
    decreases |fields| - i
  {
    if i == |fields| then None
    else if fields[i].id == id then Some(i)
    else LookupFrom(fields, id, i + 1)
  }

  lemma LookupFinds(fields: seq<Field>, i: nat)
    requires Sorted(fields) && i < |fields|
    ensures Lookup(fields, fields[i].id) == Some(i)
  {
    assert fields[i] in fields;
  }

  // ----- well-typed messages -----

  /** What a C compiler guarantees of a message struct: each member has the type its descriptor says.
      Only pointers may be missing from a required or unlabeled member. */
  predicate Shaped(S: Schema, t: nat, m: Message)
    decreases m, 1
  {
    && t < |S|
    && |m.slots| == |S[t].fields|
    && (forall i :: 0 <= i < |m.slots| ==> ShapedSlot(S, S[t].fields[i], m.slots[i]))
    && OneCase(S[t].fields, m.slots)
    && (forall r <- m.unknown :: r.wireType < 8)
  }

  /** A union holds at most one of its members. */
  predicate OneCase(fields: seq<Field>, slots: seq<Slot>)
    requires |slots| == |fields|
  {
    forall i, j :: 0 <= i < j < |slots| && Siblings(fields[i], fields[j]) ==> slots[i].Absent? || slots[j].Absent?
  }

  predicate Siblings(f: Field, g: Field) {
    InOneof(f) && InOneof(g) && f.oneof == g.oneof
  }

  predicate ShapedSlot(S: Schema, f: Field, slot: Slot)
    decreases slot, 1
  {
    match slot
    case Many(vs) => f.kind == Repeated && forall v <- vs :: ShapedValue(S, f, v)
    case Present(v) => f.kind != Repeated && ShapedValue(S, f, v)
    case Absent =>
      f.kind == Optional || (f.kind == Unlabeled && f.oneof.Some?)
      || (f.kind != Repeated && (f.typ == String || f.typ == Nested))
  }

  predicate ShapedValue(S: Schema, f: Field, v: Value)
    decreases v, 1
  {
    IsOf(f.typ, v) && (v.Sub? ==> Shaped(S, f.sub, v.m))
  }
}
