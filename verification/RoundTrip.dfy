/** Decoding what was encoded gives the same message back: nested messages, packed and unpacked repeated
    fields, unions and retained unknown fields. */
module RoundTrip {
  import opened Options
  import opened Varint
  import opened Wire
  import opened Schema
  import opened Scalars
  import opened Encoder
  import opened Decoder

  // ----- the messages the wire format can carry -----

  /** Required members set, zeros of unlabeled fields as a decoder initialises them, strings without NUL, every length at most
      INT_MAX, no more records than the slabs hold, and unknown fields that are whole records of tags the
      descriptor does not have. */
  ghost predicate WellFormed(S: Schema, t: nat, m: Message)
    requires ValidSchema(S) && Shaped(S, t, m)
    decreases m, 1
  {
    && |MessageRecords(S, t, m)| <= SLAB_CAPACITY
    && (forall r <- m.unknown :: Scannable(r) && Lookup(S[t].fields, r.tag).None?)
    && (forall i :: 0 <= i < |m.slots| ==> WellFormedSlot(S, S[t].fields[i], m.slots[i]))
  }

  ghost predicate WellFormedSlot(S: Schema, f: Field, slot: Slot)
    requires ValidSchema(S) && ShapedSlot(S, f, slot) && ValidField(S, f)
    decreases slot, 1
  {
    && (f.kind == Required ==> slot.Present?)
    && match slot
       case Absent => true
       case Present(v) => WellFormedValue(S, f, v) && (IsUnwritten(f, v) ==> slot == InitSlot(f))
       case Many(vs) =>
         ElementsAreOf(S, f, vs);
         && (f.packed ==> |EncodeAll(f.typ, vs)| <= INT_MAX)
         && forall v <- vs :: WellFormedValue(S, f, v)
  }

  ghost predicate WellFormedValue(S: Schema, f: Field, v: Value)
    requires ValidSchema(S) && ShapedValue(S, f, v)
    decreases v, 1
  {
    match v
    case Text(s) => NulFree(s) && |s| <= INT_MAX
    case Blob(s) => |s| <= INT_MAX
    case Sub(m) => |EncodeMessage(S, f.sub, m)| <= INT_MAX && WellFormed(S, f.sub, m)
    case _ => true
  }

  // ----- single values -----

  lemma DelimitedBody(tag: uint32, s: seq<byte>)
    requires |s| <= INT_MAX && tag >= 1
    ensures var r := Record(tag, WIRE_LENGTH_PREFIXED, Delimited(s)); Scannable(r) && Body(r) == s
  {
    hide Delimited, ScanPayload;
    DelimitedIsExact(s);
  }

  /** A value record is found again by the scan. */
  lemma ValueRecordScans(S: Schema, f: Field, v: Value)
    requires ValidSchema(S) && ValidField(S, f) && ShapedValue(S, f, v) && WellFormedValue(S, f, v)
    ensures Scannable(ValueRecord(S, f, v))
    ensures !TakenAsPacked(f, ValueRecord(S, f, v))
  {
    hide EncodeMessage, CString, Delimited, EncodeScalar, ScanPayload, Shaped, WellFormed;
    match v
    case Text(s) =>
      CStringOfNulFree(s);
      DelimitedBody(f.id, s);
    case Blob(s) => DelimitedBody(f.id, s);
    case Sub(m) => DelimitedBody(f.id, EncodeMessage(S, f.sub, m));
    case _ => ScalarRoundTrip(f.typ, v);
  }

  /** Any value of any type is parsed back from its record. */
  lemma {:induction false} ValueRoundTrip(S: Schema, f: Field, v: Value, there: Slot)
    requires ValidSchema(S) && ValidField(S, f) && ShapedValue(S, f, v) && WellFormedValue(S, f, v)
    requires !HoldsMessage(there)
    ensures Exact(ValueRecord(S, f, v)) && ParseValue(S, f, ValueRecord(S, f, v), there) == Some(v)
    decreases v, 0
  {
    hide EncodeMessage, CString, Delimited, EncodeScalar, DecodeScalar, ScanPayload, Decode;
    ValueRecordScans(S, f, v);
    match v
    case Text(s) =>
      CStringOfNulFree(s);
      DelimitedBody(f.id, s);
    case Blob(s) => DelimitedBody(f.id, s);
    case Sub(m) =>
      DelimitedBody(f.id, EncodeMessage(S, f.sub, m));
      MessageRoundTrip(S, f.sub, m);
    case _ => ScalarParse(f.typ, v);
  }

  lemma ScalarParse(typ: Type, v: Value)
    requires Packable(typ) && IsOf(typ, v)
    ensures Readable(typ, EncodeScalar(typ, v)) && DecodeScalar(typ, EncodeScalar(typ, v)) == v
    ensures typ == Boolean ==> Flag(ParseBool(EncodeScalar(typ, v))) == v
  {
    hide EncodeScalar;
    ScalarRoundTrip(typ, v);
  }

  // ----- the records of a field -----

  /** What the scan and the counting pass ask of a record of field `f`. */
  predicate GoodFor(f: Field, r: Record) {
    r.tag == f.id && Scannable(r) && (TakenAsPacked(f, r) ==> CountPacked(f.typ, Body(r)).Some?)
  }

  lemma PackedRecord(S: Schema, f: Field, vs: seq<Value>)
    requires ValidSchema(S) && ValidField(S, f) && ShapedSlot(S, f, Many(vs)) && WellFormedSlot(S, f, Many(vs))
    requires f.packed && vs != []
    ensures var r := SlotRecords(S, f, Many(vs))[0];
      GoodFor(f, r) && TakenAsPacked(f, r) && ParseElements(S, f, r) == Some(vs)
  {
    hide ShapedValue, WellFormedValue, EncodeAll, PackedElements, PackedParses, Delimited, ScanPayload;
    ElementsAreOf(S, f, vs);
    DelimitedBody(f.id, EncodeAll(f.typ, vs));
    PackedRoundTrip(f.typ, vs);
  }

  lemma SlotRecordsAreGood(S: Schema, f: Field, slot: Slot)
    requires ValidSchema(S) && ValidField(S, f) && ShapedSlot(S, f, slot) && WellFormedSlot(S, f, slot)
    ensures forall r <- SlotRecords(S, f, slot) :: GoodFor(f, r)
    ensures f.kind == Required ==> Seen(f, SlotRecords(S, f, slot))
  {
    hide ShapedValue, WellFormedValue, Payload, ScanPayload, EncodeAll, Zeroish;
    match slot
    case Absent =>
    case Present(v) =>
      ValueRecordScans(S, f, v);
      assert f.kind == Required ==> SlotRecords(S, f, slot)[0].tag == f.id;
    case Many(vs) =>
      if f.packed {
        if vs != [] {
          PackedRecord(S, f, vs);
        }
      } else {
        forall i | 0 <= i < |vs|
          ensures GoodFor(f, ElementRecords(S, f, vs)[i])
        {
          ValueRecordScans(S, f, vs[i]);
        }
      }
  }

  /** The message whose fields before `i` are those of `m`, the others as initialised. */
  function Partial(S: Schema, t: nat, m: Message, i: nat): (p: Message)
    requires t < |S| && |m.slots| == |S[t].fields| && i <= |m.slots|
    ensures |p.slots| == |m.slots|
  {
    Message(m.slots[..i] + Init(S[t]).slots[i..], [])
  }

  /** Clearing a union whose other members are not set changes nothing. */
  lemma ClearedIsSame(S: Schema, t: nat, m: Message, i: nat)
    requires ValidSchema(S) && Shaped(S, t, m) && i < |m.slots|
    requires m.slots[i].Present? && InOneof(S[t].fields[i])
    ensures Cleared(S[t].fields, Partial(S, t, m, i).slots, S[t].fields[i]) == Partial(S, t, m, i).slots
  {
    hide ShapedSlot;
    var fields, p := S[t].fields, Partial(S, t, m, i).slots;
    forall j | 0 <= j < |p| && Siblings(fields[j], fields[i])
      ensures p[j] == Absent
    {
      assert j < i ==> p[j] == m.slots[j];
      assert j >= i ==> p[j] == InitSlot(fields[j]);
    }
  }

  /** Storing one value record of field `i`. */
  lemma StoreValue(S: Schema, t: nat, m: Message, i: nat)
    requires ValidSchema(S) && Shaped(S, t, m) && i < |m.slots| && m.slots[i].Present?
    requires ShapedSlot(S, S[t].fields[i], m.slots[i]) && WellFormedSlot(S, S[t].fields[i], m.slots[i])
    ensures var r := ValueRecord(S, S[t].fields[i], m.slots[i].v);
      Exact(r) && StoreRecord(S, t, r, Partial(S, t, m, i)) == Some(Partial(S, t, m, i + 1))
    decreases m.slots[i], 1
  {
    hide ShapedValue, WellFormedValue, ParseValue, ScanPayload, Cleared, Payload, Zero;
    var f, p := S[t].fields[i], Partial(S, t, m, i);
    LookupFinds(S[t].fields, i);
    var there := if InOneof(f) then Absent else p.slots[i];
    assert p.slots[i] == InitSlot(f);
    NotASub(f);
    ValueRoundTrip(S, f, m.slots[i].v, there);
    if InOneof(f) {
      ClearedIsSame(S, t, m, i);
    }
    assert p.slots[i := m.slots[i]] == Partial(S, t, m, i + 1).slots;
  }

  lemma NotASub(f: Field)
    ensures !HoldsMessage(InitSlot(f))
  {
  }

  /** A message under construction, with the elements read so far of repeated field `i`. */
  function WithElements(S: Schema, t: nat, m: Message, i: nat, vs: seq<Value>): (p: Message)
    requires t < |S| && |m.slots| == |S[t].fields| && i < |m.slots|
    ensures |p.slots| == |m.slots|
  {
    var p := Partial(S, t, m, i);
    p.(slots := p.slots[i := Many(vs)])
  }

  /** Storing the element records of an unpacked repeated field from the `k`-th on. */
  lemma {:induction false} StoreElements(S: Schema, t: nat, m: Message, i: nat, k: nat)
    requires ValidSchema(S) && Shaped(S, t, m) && i < |m.slots| && m.slots[i].Many?
    requires ShapedSlot(S, S[t].fields[i], m.slots[i]) && WellFormedSlot(S, S[t].fields[i], m.slots[i])
    requires k <= |m.slots[i].vs|
    ensures var vs := m.slots[i].vs; var rs := ElementRecords(S, S[t].fields[i], vs[k..]);
      AllExact(rs) && StoreAll(S, t, rs, WithElements(S, t, m, i, vs[..k])) == Some(WithElements(S, t, m, i, vs))
    decreases m.slots[i], 2, |m.slots[i].vs| - k
  {
    hide ShapedValue, WellFormedValue, StoreRecord, ScanPayload, ValueRecord;
    var f, vs := S[t].fields[i], m.slots[i].vs;
    if k == |vs| {
      assert vs[..k] == vs && vs[k..] == [];
    } else {
      StoreElement(S, t, m, i, k);
      StoreElements(S, t, m, i, k + 1);
      assert vs[k..][0] == vs[k] && vs[k..][1..] == vs[k + 1..];
      var rs := ElementRecords(S, f, vs[k..]);
      assert rs[0] == ValueRecord(S, f, vs[k]) && rs[1..] == ElementRecords(S, f, vs[k + 1..]);
    }
  }

  lemma StoreElement(S: Schema, t: nat, m: Message, i: nat, k: nat)
    requires ValidSchema(S) && Shaped(S, t, m) && i < |m.slots| && m.slots[i].Many?
    requires ShapedSlot(S, S[t].fields[i], m.slots[i]) && WellFormedSlot(S, S[t].fields[i], m.slots[i])
    requires k < |m.slots[i].vs|
    ensures var vs := m.slots[i].vs; var r := ValueRecord(S, S[t].fields[i], vs[k]);
      Exact(r) && StoreRecord(S, t, r, WithElements(S, t, m, i, vs[..k])) == Some(WithElements(S, t, m, i, vs[..k + 1]))
    decreases m.slots[i], 1
  {
    var f, vs := S[t].fields[i], m.slots[i].vs;
    assert ShapedValue(S, f, vs[k]) && WellFormedValue(S, f, vs[k]);
    hide ShapedValue, WellFormedValue, ParseValue, ScanPayload, Payload, ShapedSlot, WellFormedSlot;
    LookupFinds(S[t].fields, i);
    ValueRecordScans(S, f, vs[k]);
    ValueRoundTrip(S, f, vs[k], Absent);
    assert vs[..k] + [vs[k]] == vs[..k + 1];
    var p := WithElements(S, t, m, i, vs[..k]);
    assert p.slots[i := Many(vs[..k + 1])] == WithElements(S, t, m, i, vs[..k + 1]).slots;
  }

  /** Storing the records of one field turns its initial slot into the slot encoded. */
  lemma StoreSlot(S: Schema, t: nat, m: Message, i: nat)
    requires ValidSchema(S) && Shaped(S, t, m) && i < |m.slots|
    requires ShapedSlot(S, S[t].fields[i], m.slots[i]) && WellFormedSlot(S, S[t].fields[i], m.slots[i])
    ensures var rs := SlotRecords(S, S[t].fields[i], m.slots[i]);
      AllExact(rs) && StoreAll(S, t, rs, Partial(S, t, m, i)) == Some(Partial(S, t, m, i + 1))
    decreases m.slots[i], 3
  {
    hide ShapedValue, WellFormedValue, ScanPayload, Payload, StoreRecord, Partial, WithElements;
    var f, slot := S[t].fields[i], m.slots[i];
    SlotRecordsAreGood(S, f, slot);
    match slot
    case Absent => SkipSlot(S, t, m, i);
    case Present(v) =>
      ShapedIsOf(S, f, v);
      if IsUnwritten(f, v) {
        SkipSlot(S, t, m, i);
      } else {
        StoreValue(S, t, m, i);
      }
    case Many(vs) =>
      if !f.packed {
        StoreElements(S, t, m, i, 0);
        assert vs[0..] == vs && vs[..0] == [];
        ElementsAtStart(S, t, m, i);
      } else if vs == [] {
        SkipSlot(S, t, m, i);
      } else {
        StorePacked(S, t, m, i);
      }
  }

  lemma ShapedIsOf(S: Schema, f: Field, v: Value)
    requires ShapedValue(S, f, v)
    ensures IsOf(f.typ, v)
  {
  }

  lemma SkipSlot(S: Schema, t: nat, m: Message, i: nat)
    requires t < |S| && |m.slots| == |S[t].fields| && i < |m.slots| && m.slots[i] == InitSlot(S[t].fields[i])
    ensures Partial(S, t, m, i) == Partial(S, t, m, i + 1)
  {
  }

  lemma ElementsAtStart(S: Schema, t: nat, m: Message, i: nat)
    requires t < |S| && |m.slots| == |S[t].fields| && i < |m.slots|
    requires S[t].fields[i].kind == Repeated && m.slots[i].Many?
    ensures WithElements(S, t, m, i, []) == Partial(S, t, m, i)
    ensures WithElements(S, t, m, i, m.slots[i].vs) == Partial(S, t, m, i + 1)
  {
    var p := Partial(S, t, m, i);
    assert p.slots[i := Many([])] == p.slots;
    assert p.slots[i := m.slots[i]] == Partial(S, t, m, i + 1).slots;
  }

  lemma StorePacked(S: Schema, t: nat, m: Message, i: nat)
    requires ValidSchema(S) && Shaped(S, t, m) && i < |m.slots|
    requires ShapedSlot(S, S[t].fields[i], m.slots[i]) && WellFormedSlot(S, S[t].fields[i], m.slots[i])
    requires S[t].fields[i].packed && m.slots[i].Many? && m.slots[i].vs != []
    ensures var r := SlotRecords(S, S[t].fields[i], m.slots[i])[0];
      Exact(r) && StoreRecord(S, t, r, Partial(S, t, m, i)) == Some(Partial(S, t, m, i + 1))
  {
    hide ShapedValue, WellFormedValue, ParseElements, ScanPayload, Partial, WithElements;
    var f, vs := S[t].fields[i], m.slots[i].vs;
    LookupFinds(S[t].fields, i);
    PackedRecord(S, f, vs);
    assert [] + vs == vs;
    PartialUpdate(S, t, m, i);
  }

  lemma PartialUpdate(S: Schema, t: nat, m: Message, i: nat)
    requires t < |S| && |m.slots| == |S[t].fields| && i < |m.slots|
    ensures var p := Partial(S, t, m, i);
      p.slots[i] == InitSlot(S[t].fields[i]) && p.(slots := p.slots[i := m.slots[i]]) == Partial(S, t, m, i + 1)
  {
    var p := Partial(S, t, m, i);
    assert p.slots[i := m.slots[i]] == Partial(S, t, m, i + 1).slots;
  }

  lemma {:induction false} StoreAllAppend(S: Schema, t: nat, a: seq<Record>, b: seq<Record>, m: Message)
    requires ValidSchema(S) && t < |S| && |m.slots| == |S[t].fields| && AllExact(a) && AllExact(b)
    ensures AllExact(a + b)
    ensures StoreAll(S, t, a + b, m) ==
      match StoreAll(S, t, a, m) case None => None case Some(m') => StoreAll(S, t, b, m')
  {
    hide StoreRecord, Exact, ValidSchema;
    if a == [] {
      assert a + b == b;
    } else {
      assert (a + b)[1..] == a[1..] + b && (a + b)[0] == a[0];
      var next := StoreRecord(S, t, a[0], m);
      if next.Some? {
        StoreAllAppend(S, t, a[1..], b, next.value);
      }
    }
  }

  /** Storing the records of the fields from `i` on completes the message but for its unknown fields. */
  lemma {:induction false} StoreFields(S: Schema, t: nat, m: Message, i: nat)
    requires ValidSchema(S) && Shaped(S, t, m) && WellFormed(S, t, m) && i <= |m.slots|
    ensures var rs := FieldRecords(S, t, m, i);
      AllExact(rs) && StoreAll(S, t, rs, Partial(S, t, m, i)) == Some(m.(unknown := []))
    decreases m, 0, |m.slots| - i
  {
    hide ShapedSlot, WellFormedSlot, StoreAll, Exact, SlotRecords;
    if i == |m.slots| {
      assert m.slots[..i] + Init(S[t]).slots[i..] == m.slots;
      StoreNothing(S, t, m.(unknown := []));
    } else {
      StoreSlot(S, t, m, i);
      StoreFields(S, t, m, i + 1);
      StoreAllAppend(S, t, SlotRecords(S, S[t].fields[i], m.slots[i]), FieldRecords(S, t, m, i + 1), Partial(S, t, m, i));
    }
  }

  lemma StoreNothing(S: Schema, t: nat, m: Message)
    requires ValidSchema(S) && t < |S| && |m.slots| == |S[t].fields|
    ensures StoreAll(S, t, [], m) == Some(m)
  {
  }

  /** Records of tags that the descriptor does not have are retained in order. */
  lemma {:induction false} StoreUnknown(S: Schema, t: nat, rs: seq<Record>, m: Message)
    requires ValidSchema(S) && t < |S| && |m.slots| == |S[t].fields| && AllExact(rs)
    requires forall r <- rs :: Lookup(S[t].fields, r.tag).None?
    ensures StoreAll(S, t, rs, m) == Some(m.(unknown := m.unknown + rs))
  {
    hide Exact, ParseValue, ParseElements, ValidSchema;
    if rs == [] {
      assert m.unknown + [] == m.unknown;
    } else {
      StoreUnknown(S, t, rs[1..], m.(unknown := m.unknown + [rs[0]]));
      assert m.unknown + [rs[0]] + rs[1..] == m.unknown + rs;
    }
  }

  // ----- the checks between the passes -----

  lemma {:induction false} FieldRecordsAreGood(S: Schema, t: nat, m: Message, i: nat)
    requires ValidSchema(S) && Shaped(S, t, m) && WellFormed(S, t, m) && i <= |m.slots|
    ensures forall r <- FieldRecords(S, t, m, i) :: Scannable(r) && Countable(S[t], r)
    ensures forall j :: i <= j < |m.slots| && S[t].fields[j].kind == Required ==>
      Seen(S[t].fields[j], FieldRecords(S, t, m, i))
    decreases |m.slots| - i
  {
    hide ShapedSlot, WellFormedSlot, SlotRecords, ScanPayload, Exact, CountPacked;
    if i == |m.slots| {
    } else {
      var f, rs, more := S[t].fields[i], SlotRecords(S, S[t].fields[i], m.slots[i]), FieldRecords(S, t, m, i + 1);
      SlotRecordsAreGood(S, f, m.slots[i]);
      FieldRecordsAreGood(S, t, m, i + 1);
      LookupFinds(S[t].fields, i);
      forall r | r in rs
        ensures Scannable(r) && Countable(S[t], r)
      {
        assert GoodFor(f, r);
      }
      forall j | i <= j < |m.slots| && S[t].fields[j].kind == Required
        ensures Seen(S[t].fields[j], rs + more)
      {
        SeenInEither(S[t].fields[j], rs, more);
      }
    }
  }

  lemma SeenInEither(f: Field, a: seq<Record>, b: seq<Record>)
    ensures Seen(f, a) || Seen(f, b) ==> Seen(f, a + b)
  {
    if Seen(f, a) {
      var r :| r in a && r.tag == f.id;
      assert r in a + b;
    } else if Seen(f, b) {
      var r :| r in b && r.tag == f.id;
      assert r in a + b;
    }
  }

  lemma RecordsAreAdmissible(S: Schema, t: nat, m: Message)
    requires ValidSchema(S) && Shaped(S, t, m) && WellFormed(S, t, m)
    ensures AllScannable(MessageRecords(S, t, m)) && AllExact(MessageRecords(S, t, m))
    ensures Admissible(S[t], MessageRecords(S, t, m))
  {
    hide ShapedSlot, WellFormedSlot, FieldRecords, ScanPayload, CountPacked;
    FieldRecordsAreGood(S, t, m, 0);
    forall j | 0 <= j < |m.slots| && S[t].fields[j].kind == Required
      ensures Seen(S[t].fields[j], MessageRecords(S, t, m))
    {
      SeenInEither(S[t].fields[j], FieldRecords(S, t, m, 0), m.unknown);
    }
  }

  /** The round trip, for every well-formed message of every valid schema. */
  lemma {:induction false} MessageRoundTrip(S: Schema, t: nat, m: Message)
    requires ValidSchema(S) && Shaped(S, t, m) && WellFormed(S, t, m)
    ensures Decode(S, t, EncodeMessage(S, t, m)) == Some(m)
    decreases m, 1
  {
    hide ShapedSlot, WellFormedSlot, FieldRecords, Scan, StoreAll, Exact, Admissible;
    var rs := MessageRecords(S, t, m);
    RecordsAreAdmissible(S, t, m);
    ScanSerialized(rs);
    StoreFields(S, t, m, 0);
    assert Partial(S, t, m, 0) == Init(S[t]);
    StoreAllAppend(S, t, FieldRecords(S, t, m, 0), m.unknown, Init(S[t]));
    StoreUnknown(S, t, m.unknown, m.(unknown := []));
    assert [] + m.unknown == m.unknown;
  }
}
