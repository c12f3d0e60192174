/** Packed runs and single elements: a decoder takes either form for a repeated field, whichever the field is declared to be
    written in. */
module PackedForms {
  import opened Options
  import opened Varint
  import opened Wire
  import opened Schema
  import opened Scalars
  import opened Encoder
  import opened Decoder
  import opened RoundTrip
  import opened WireBytes

  // ----- one record -----

  /** A run in one length-delimited record is read as its elements, also where the field is not declared packed. */
  lemma RunIsTaken(S: Schema, f: Field, vs: seq<Value>)
    requires ValidSchema(S) && ValidField(S, f) && f.kind == Repeated
    requires Packable(f.typ) && AllOf(f.typ, vs) && |EncodeAll(f.typ, vs)| <= INT_MAX
    ensures var r := Record(f.id, WIRE_LENGTH_PREFIXED, Delimited(EncodeAll(f.typ, vs)));
      Exact(r) && CountPacked(f.typ, Body(r)) == Some(|vs|) && ParseElements(S, f, r) == Some(vs)
  {
    hide EncodeAll, PackedElements, PackedParses, CountPacked, Delimited, ScanPayload;
    DelimitedBody(f.id, EncodeAll(f.typ, vs));
    PackedRoundTrip(f.typ, vs);
  }

  /** A record with one element is read as that element, also where the field is declared packed. */
  lemma ElementIsTaken(S: Schema, f: Field, v: Value)
    requires ValidSchema(S) && ValidField(S, f) && f.kind == Repeated && Packable(f.typ) && IsOf(f.typ, v)
    ensures var r := Record(f.id, WireType(f.typ), EncodeScalar(f.typ, v));
      Exact(r) && ParseElements(S, f, r) == Some([v])
  {
    hide EncodeScalar, DecodeScalar;
    ScalarParse(f.typ, v);
    ScalarRoundTrip(f.typ, v);
  }

  // ----- whole messages: the declaration makes no difference -----

  predicate SameButPacked(f: Field, g: Field) {
    g == f.(packed := g.packed) && (f.packed != g.packed ==> f.kind == Repeated && Packable(f.typ))
  }

  ghost predicate SameFields(fs: seq<Field>, gs: seq<Field>) {
    |fs| == |gs| && forall i :: 0 <= i < |fs| ==> SameButPacked(fs[i], gs[i])
  }

  /** The schemas differ in which repeated fields are declared packed, and in nothing else. */
  ghost predicate SameSchema(S: Schema, T: Schema) {
    |S| == |T| && forall t :: 0 <= t < |S| ==> SameFields(S[t].fields, T[t].fields)
  }

  lemma {:induction false} SameLookup(fs: seq<Field>, gs: seq<Field>, id: uint32, i: nat)
    requires SameFields(fs, gs) && i <= |fs| && forall j :: 0 <= j < i ==> fs[j].id != id
    ensures (forall j :: 0 <= j < i ==> gs[j].id != id) && LookupFrom(fs, id, i) == LookupFrom(gs, id, i)
    decreases |fs| - i
  {
    assert forall j :: 0 <= j < |fs| ==> SameButPacked(fs[j], gs[j]) && fs[j].id == gs[j].id;
    if i == |fs| || fs[i].id == id {
    } else {
      SameLookup(fs, gs, id, i + 1);
    }
  }

  lemma SameInit(d: Descriptor, e: Descriptor)
    requires SameFields(d.fields, e.fields)
    ensures Init(d) == Init(e)
  {
    forall i | 0 <= i < |d.fields|
      ensures InitSlot(d.fields[i]) == InitSlot(e.fields[i])
    {
      assert SameButPacked(d.fields[i], e.fields[i]);
    }
  }

  lemma SameAdmissible(S: Schema, d: Descriptor, e: Descriptor, rs: seq<Record>)
    requires ValidDescriptor(S, d) && ValidDescriptor(S, e) && SameFields(d.fields, e.fields) && AllExact(rs)
    ensures Admissible(d, rs) == Admissible(e, rs)
  {
    hide Lookup, CountPacked, Exact;
    assert forall i :: 0 <= i < |d.fields| ==> SameButPacked(d.fields[i], e.fields[i]);
    forall r | r in rs
      ensures Countable(d, r) == Countable(e, r)
    {
      assert Exact(r);
      SameLookup(d.fields, e.fields, r.tag, 0);
      LookupIsFromStart(d.fields, r.tag);
      LookupIsFromStart(e.fields, r.tag);
    }
  }

  lemma LookupIsFromStart(fs: seq<Field>, id: uint32)
    ensures Lookup(fs, id) == LookupFrom(fs, id, 0)
  {
  }

  // ----- merging -----

  lemma SameChosen(fs: seq<Field>, gs: seq<Field>, slots: seq<Slot>, f: Field, g: Field)
    requires SameFields(fs, gs) && SameButPacked(f, g)
    ensures Chosen(fs, slots, f) == Chosen(gs, slots, g)
  {
    assert forall i :: 0 <= i < |fs| ==> SameButPacked(fs[i], gs[i]);
    assert forall i :: 0 <= i < |fs| ==> Siblings(fs[i], f) == Siblings(gs[i], g);
  }

  lemma {:induction false} SameMerge(S: Schema, T: Schema, t: nat, a: Message, b: Message)
    requires SameSchema(S, T)
    ensures Merge(S, t, a, b) == Merge(T, t, a, b)
    decreases a, 2
  {
    hide MergeSlots;
    if t < |S| && |a.slots| == |S[t].fields| == |b.slots| {
      assert SameFields(S[t].fields, T[t].fields);
      SameMergeSlots(S, T, t, a, b, 0);
    }
  }

  lemma {:induction false} SameMergeSlots(S: Schema, T: Schema, t: nat, a: Message, b: Message, i: nat)
    requires SameSchema(S, T) && t < |S| && i <= |S[t].fields| == |a.slots| == |b.slots| == |T[t].fields|
    ensures MergeSlots(S, t, a, b, i) == MergeSlots(T, t, a, b, i)
    decreases a, 1, |S[t].fields| - i
  {
    hide MergeSlot;
    if i == |S[t].fields| {
    } else {
      SameMergeSlot(S, T, t, a, b, i);
      SameMergeSlots(S, T, t, a, b, i + 1);
    }
  }

  lemma {:induction false} SameMergeSlot(S: Schema, T: Schema, t: nat, a: Message, b: Message, i: nat)
    requires SameSchema(S, T) && t < |S| && i < |S[t].fields| == |a.slots| == |b.slots| == |T[t].fields|
    ensures MergeSlot(S, t, a, b, i) == MergeSlot(T, t, a, b, i)
    decreases a, 0
  {
    hide MergeField, Chosen;
    var f, g := S[t].fields[i], T[t].fields[i];
    assert SameFields(S[t].fields, T[t].fields);
    assert SameButPacked(f, g);
    SameChosen(S[t].fields, T[t].fields, a.slots, f, g);
    SameChosen(S[t].fields, T[t].fields, b.slots, f, g);
    SameMergeField(S, T, f, g, a.slots[i], b.slots[i]);
  }

  lemma {:induction false} SameMergeField(S: Schema, T: Schema, f: Field, g: Field, earlier: Slot, latter: Slot)
    requires SameSchema(S, T) && SameButPacked(f, g)
    ensures MergeField(S, f, earlier, latter) == MergeField(T, g, earlier, latter)
    decreases earlier, 0
  {
    hide Merge;
    if HoldsMessage(earlier) && HoldsMessage(latter) {
      SameMerge(S, T, f.sub, earlier.v.m, latter.v.m);
    }
  }

  // ----- decoding -----

  lemma SameCleared(fs: seq<Field>, gs: seq<Field>, slots: seq<Slot>, f: Field, g: Field)
    requires SameFields(fs, gs) && SameButPacked(f, g) && |slots| == |fs|
    ensures Cleared(fs, slots, f) == Cleared(gs, slots, g)
  {
    forall i | 0 <= i < |fs|
      ensures Siblings(fs[i], f) == Siblings(gs[i], g)
    {
      assert SameButPacked(fs[i], gs[i]);
    }
  }

  lemma {:induction false} SameValue(S: Schema, T: Schema, f: Field, g: Field, r: Record, there: Slot)
    requires ValidSchema(S) && ValidSchema(T) && SameSchema(S, T)
    requires ValidField(S, f) && ValidField(T, g) && SameButPacked(f, g) && Exact(r)
    ensures ParseValue(S, f, r, there) == ParseValue(T, g, r, there)
    decreases |r.data| + 1, 0
  {
    hide Decode, Merge, DecodeScalar, ScanPayload, ValidSchema, SameSchema;
    if f.typ == Nested && r.wireType == WireType(f.typ) {
      SameDecode(S, T, f.sub, Body(r));
      var m := Decode(S, f.sub, Body(r));
      if HoldsMessage(there) && m.Some? {
        SameMerge(S, T, f.sub, there.v.m, m.value);
      }
    }
  }

  lemma {:induction false} SameElements(S: Schema, T: Schema, f: Field, g: Field, r: Record)
    requires ValidSchema(S) && ValidSchema(T) && SameSchema(S, T)
    requires ValidField(S, f) && ValidField(T, g) && SameButPacked(f, g) && Exact(r)
    ensures ParseElements(S, f, r) == ParseElements(T, g, r)
    decreases |r.data| + 1, 1
  {
    hide ParseValue, ScanPayload, ValidSchema, SameSchema;
    SameValue(S, T, f, g, r, Absent);
  }

  lemma {:induction false} SameStore(S: Schema, T: Schema, t: nat, r: Record, m: Message)
    requires ValidSchema(S) && ValidSchema(T) && SameSchema(S, T)
    requires t < |S| && |m.slots| == |S[t].fields| == |T[t].fields| && Exact(r)
    ensures StoreRecord(S, t, r, m) == StoreRecord(T, t, r, m)
    decreases |r.data| + 1, 2
  {
    hide ParseValue, ParseElements, ScanPayload, Cleared, Lookup;
    var fs, gs := S[t].fields, T[t].fields;
    assert SameFields(fs, gs);
    SameLookup(fs, gs, r.tag, 0);
    LookupIsFromStart(fs, r.tag);
    LookupIsFromStart(gs, r.tag);
    var i := Lookup(fs, r.tag);
    if i.Some? {
      var f, g := fs[i.value], gs[i.value];
      assert SameButPacked(f, g);
      SameValue(S, T, f, g, r, if InOneof(f) then Absent else m.slots[i.value]);
      SameElements(S, T, f, g, r);
      SameCleared(fs, gs, m.slots, f, g);
    }
  }

  lemma {:induction false} SameStoreAll(S: Schema, T: Schema, t: nat, rs: seq<Record>, m: Message)
    requires ValidSchema(S) && ValidSchema(T) && SameSchema(S, T)
    requires t < |S| && |m.slots| == |S[t].fields| == |T[t].fields| && AllExact(rs)
    ensures StoreAll(S, t, rs, m) == StoreAll(T, t, rs, m)
    decreases Weight(rs), 3
  {
    hide StoreRecord, ScanPayload, ValidSchema, SameSchema;
    if rs == [] {
    } else {
      SameStore(S, T, t, rs[0], m);
      var next := StoreRecord(S, t, rs[0], m);
      if next.Some? {
        SameStoreAll(S, T, t, rs[1..], next.value);
      }
    }
  }

  /** Schemas that differ only in which repeated fields are packed decode every input alike. */
  lemma {:induction false} SameDecode(S: Schema, T: Schema, t: nat, s: seq<byte>)
    requires ValidSchema(S) && ValidSchema(T) && SameSchema(S, T) && t < |S|
    ensures Decode(S, t, s) == Decode(T, t, s)
    decreases |s|, 5
  {
    hide Scan, StoreAll, Exact, Admissible, InitSlot;
    if Scan(s).Some? {
      var rs := Scan(s).value;
      ScannedAreExact(s);
      assert SameFields(S[t].fields, T[t].fields);
      SameInit(S[t], T[t]);
      SameAdmissible(S, S[t], T[t], rs);
      SameStoreAll(S, T, t, rs, Init(S[t]));
    }
  }

  /** So a message comes back from its encoding to a reader with other packed declarations. */
  lemma ReadByOther(S: Schema, T: Schema, t: nat, m: Message)
    requires ValidSchema(S) && ValidSchema(T) && SameSchema(S, T) && Shaped(S, t, m) && WellFormed(S, t, m)
    ensures Decode(T, t, EncodeMessage(S, t, m)) == Some(m)
  {
    hide Decode, EncodeMessage, WellFormed, ValidSchema, SameSchema;
    SameDecode(S, T, t, EncodeMessage(S, t, m));
    MessageRoundTrip(S, t, m);
  }

  // ----- for instance -----

  function Numbers(packed: bool): Schema {
    [Descriptor([Field(4, Int32, Repeated, packed, None, 0)])]
  }

  const ONE_TWO: Message := Message([Many([Word32(1), Word32(2)])], [])

  lemma NumbersAreValid(packed: bool)
    ensures ValidSchema(Numbers(packed)) && ShapedSlot(Numbers(packed), Numbers(packed)[0].fields[0], ONE_TWO.slots[0])
    ensures Shaped(Numbers(packed), 0, ONE_TWO)
  {
    assert ValidDescriptor(Numbers(packed), Numbers(packed)[0]);
  }

  lemma SmallNumbers()
    ensures ScalarBytes(Int32, Word32(1)) == [1] && ScalarBytes(Int32, Word32(2)) == [2]
    ensures RunBytes(Int32, [Word32(1), Word32(2)]) == [1, 2]
    ensures TaggedBytes(4, Int32, [Word32(1), Word32(2)]) == [0x20, 1, 0x20, 2]
  {
    ShortVarint(1);
    ShortVarint(2);
    var vs := [Word32(1), Word32(2)];
    assert vs[1..] == [Word32(2)] && vs[1..][1..] == [];
  }

  /** The numbers 1 and 2 in field 4, as the field is declared. */
  lemma NumbersWritten(packed: bool)
    ensures ValidSchema(Numbers(packed)) && Shaped(Numbers(packed), 0, ONE_TWO)
    ensures EncodeMessage(Numbers(packed), 0, ONE_TWO) == if packed then [0x22, 2, 1, 2] else [0x20, 1, 0x20, 2]
  {
    hide EncodeMessage, EncodeSlot, ValidSchema, ScalarBytes, RunBytes, TaggedBytes;
    var S, f, vs := Numbers(packed), Numbers(packed)[0].fields[0], ONE_TWO.slots[0].vs;
    NumbersAreValid(packed);
    SmallNumbers();
    if packed {
      PackedField(S, f, vs);
    } else {
      UnpackedField(S, f, vs);
    }
    OneField(S, 0, ONE_TWO);
  }

  lemma NumbersAreWellFormed(packed: bool)
    ensures ValidSchema(Numbers(packed)) && Shaped(Numbers(packed), 0, ONE_TWO) && WellFormed(Numbers(packed), 0, ONE_TWO)
  {
    hide ValidSchema, Payload, EncodeScalar, RunBytes;
    var S, f, slot := Numbers(packed), Numbers(packed)[0].fields[0], ONE_TWO.slots[0];
    NumbersAreValid(packed);
    SmallNumbers();
    ElementsAreOf(S, f, slot.vs);
    RunIsSpelled(Int32, slot.vs);
    assert WellFormedSlot(S, f, slot);
    assert FieldRecords(S, 0, ONE_TWO, 1) == [];
    assert |SlotRecords(S, f, slot)| <= 2;
  }

  /** Both are read back, by readers of either declaration. */
  lemma NumbersRead(packed: bool)
    ensures ValidSchema(Numbers(packed))
    ensures Decode(Numbers(packed), 0, [0x22, 2, 1, 2]) == Some(ONE_TWO)
    ensures Decode(Numbers(packed), 0, [0x20, 1, 0x20, 2]) == Some(ONE_TWO)
  {
    hide EncodeMessage, ValidSchema, Decode, Shaped, WellFormed;
    NumbersWritten(true);
    NumbersWritten(false);
    NumbersAreWellFormed(true);
    NumbersAreWellFormed(false);
    NumbersAreValid(packed);
    assert SameFields(Numbers(true)[0].fields, Numbers(packed)[0].fields);
    assert SameFields(Numbers(false)[0].fields, Numbers(packed)[0].fields);
    ReadByOther(Numbers(true), Numbers(packed), 0, ONE_TWO);
    ReadByOther(Numbers(false), Numbers(packed), 0, ONE_TWO);
  }
}
