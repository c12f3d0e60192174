/** When a decoded message, encoded again, decodes to the same message. */
module Reencoding {
  import opened Options
  import opened Varint
  import opened Wire
  import opened Schema
  import opened Scalars
  import opened Encoder
  import opened Decoder
  import opened RoundTrip
  import opened Concatenation
  import opened DecodedShape

  // ----- records that are written and not found again -----

  ghost predicate TooLong(r: Record) {
    exists body :: r.data == Delimited(body) && INT_MAX < |body| < TWO_32
  }

  /** Of id 0, or longer than INT_MAX. */
  ghost predicate Refused(r: Record) {
    (r.tag == 0 && r.wireType < 8) || (r.tag >= 1 && r.wireType == WIRE_LENGTH_PREFIXED && TooLong(r))
  }

  lemma LongPrefix(body: seq<byte>, rest: seq<byte>)
    requires INT_MAX < |body| < TWO_32
    ensures ScanDelimited(Delimited(body) + rest) == None
  {
    hide Encode, Number, FirstEnd;
    var e := Encode(|body|);
    assert Delimited(body) + rest == e + (body + rest);
    EncodeShape(|body|);
    SizesAreLengths(|body|);
    FirstEndOfEncoding(|body|, body + rest);
    assert (e + (body + rest))[..|e|] == e;
  }

  lemma FirstEndOfEncoding(n: uint32, rest: seq<byte>)
    ensures |Encode(n)| <= 5 && FirstEnd(Encode(n) + rest, 5) == |Encode(n)|
  {
    hide Number;
    EncodeShape(n);
    SizesAreLengths(n);
    ScanStopsAt(Encode(n), rest, 5);
  }

  lemma RefusedAtHead(r: Record, rest: seq<byte>)
    requires Refused(r)
    ensures r.wireType < 8 && ScanOne(RecordBytes(r) + rest) == None
  {
    if r.tag == 0 {
      assert TagBytes(0, r.wireType) == [r.wireType];
      assert (RecordBytes(r) + rest)[0] == r.wireType;
    } else {
      hide TagBytes, ParseTag, Delimited, ScanDelimited;
      var body :| r.data == Delimited(body) && INT_MAX < |body| < TWO_32;
      var t := TagBytes(r.tag, r.wireType);
      TagRoundTrip(r.tag, r.wireType, r.data + rest);
      assert RecordBytes(r) + rest == t + (r.data + rest);
      assert (t + (r.data + rest))[|t|..] == r.data + rest;
      LongPrefix(body, rest);
    }
  }

  /** A list with a record that is refused does not scan. */
  lemma {:induction false} RefusedStopsScan(rs: seq<Record>)
    requires (forall r <- rs :: Scannable(r) || Refused(r)) && !AllScannable(rs)
    ensures Tagged(rs) && Scan(Serialize(rs)) == None
  {
    hide RecordBytes, ScanOne, ScanPayload;
    if rs == [] {
    } else {
      forall r | r in rs
        ensures r.wireType < 8
      {
        if Scannable(r) {
          ExactWireType(r);
        }
      }
      if Scannable(rs[0]) {
        RefusedStopsScan(rs[1..]);
        RecordRoundTrip(rs[0], Serialize(rs[1..]));
        var head, tail := RecordBytes(rs[0]), Serialize(rs[1..]);
        assert (head + tail)[|head|..] == tail;
      } else {
        RefusedAtHead(rs[0], Serialize(rs[1..]));
      }
    }
  }

  // ----- the encoders write no others -----

  lemma DelimitedIsWritten(id: uint32, body: seq<byte>)
    requires id >= 1 && |Delimited(body)| < TWO_32
    ensures var r := Record(id, WIRE_LENGTH_PREFIXED, Delimited(body));
      (|body| <= INT_MAX && Scannable(r) && Body(r) == body) || (INT_MAX < |body| && Refused(r))
  {
    if |body| <= INT_MAX {
      DelimitedBody(id, body);
    } else {
      var r := Record(id, WIRE_LENGTH_PREFIXED, Delimited(body));
      assert r.data == Delimited(body) && INT_MAX < |body| < TWO_32;
    }
  }

  ghost predicate Written(rs: seq<Record>) {
    forall r <- rs :: Scannable(r) || Refused(r)
  }

  lemma ValueIsWritten(S: Schema, f: Field, v: Value)
    requires ValidSchema(S) && ValidField(S, f) && ShapedValue(S, f, v) && |Payload(S, f, v)| < TWO_32
    ensures var r := ValueRecord(S, f, v); Scannable(r) || Refused(r)
  {
    hide Delimited, Refused, EncodeMessage, Shaped, CString, Scannable;
    match v
    case Text(s) => DelimitedIsWritten(f.id, CString(s));
    case Blob(s) => DelimitedIsWritten(f.id, s);
    case Sub(m) => DelimitedIsWritten(f.id, EncodeMessage(S, f.sub, m));
    case _ => ValueRecordScans(S, f, v);
  }

  /** The records' payloads are within 4 GiB. */
  ghost predicate Within(rs: seq<Record>) {
    forall r <- rs :: |r.data| < TWO_32
  }

  lemma SlotIsWritten(S: Schema, f: Field, slot: Slot)
    requires ValidSchema(S) && ValidField(S, f) && GoodSlot(S, f, slot) && Within(SlotRecords(S, f, slot))
    ensures Written(SlotRecords(S, f, slot))
  {
    hide Refused, Scannable, ShapedValue, TidyValue, Payload, Delimited, EncodeAll, Zeroish;
    var rs := SlotRecords(S, f, slot);
    match slot
    case Absent =>
    case Present(v) =>
      if rs != [] {
        assert rs == [ValueRecord(S, f, v)] && rs[0] in rs;
        ValueIsWritten(S, f, v);
      }
    case Many(vs) =>
      ElementsAreOf(S, f, vs);
      if f.packed && vs != [] {
        assert rs[0] in rs;
        DelimitedIsWritten(f.id, EncodeAll(f.typ, vs));
      } else if !f.packed {
        forall i | 0 <= i < |vs|
          ensures Scannable(rs[i]) || Refused(rs[i])
        {
          assert rs[i] in rs && rs[i] == ValueRecord(S, f, vs[i]) && vs[i] in vs;
          ValueIsWritten(S, f, vs[i]);
        }
      }
  }

  lemma {:induction false} PayloadsAreWithin(rs: seq<Record>)
    requires Tagged(rs) && |Serialize(rs)| < TWO_32
    ensures Within(rs)
  {
    hide RecordBytes;
    if rs == [] {
    } else {
      PayloadsAreWithin(rs[1..]);
    }
  }

  lemma {:induction false} FieldsAreWritten(S: Schema, t: nat, m: Message, i: nat)
    requires ValidSchema(S) && Tidy(S, t, m) && i <= |m.slots| && Within(FieldRecords(S, t, m, i))
    ensures Written(FieldRecords(S, t, m, i))
    decreases |m.slots| - i
  {
    hide SlotRecords, ShapedSlot, TidySlot, Refused, Scannable, ValidField;
    if i == |m.slots| {
    } else {
      var own, rest := SlotRecords(S, S[t].fields[i], m.slots[i]), FieldRecords(S, t, m, i + 1);
      assert FieldRecords(S, t, m, i) == own + rest;
      assert forall r :: r in own || r in rest ==> r in own + rest;
      SlotIsWritten(S, S[t].fields[i], m.slots[i]);
      FieldsAreWritten(S, t, m, i + 1);
    }
  }

  lemma MessageIsWritten(S: Schema, t: nat, m: Message)
    requires ValidSchema(S) && Tidy(S, t, m) && |EncodeMessage(S, t, m)| < TWO_32
    ensures Written(MessageRecords(S, t, m))
  {
    hide FieldRecords, ShapedSlot, TidySlot, Serialize, Exact;
    var fields := FieldRecords(S, t, m, 0);
    PayloadsAreWithin(MessageRecords(S, t, m));
    assert forall r <- fields :: r in fields + m.unknown;
    FieldsAreWritten(S, t, m, 0);
  }

  // ----- what a field's own records make of it -----

  /** None of the records touches field `k`. */
  predicate Apart(fields: seq<Field>, k: nat, rs: seq<Record>)
    requires k < |fields|
  {
    forall r <- rs :: var j := Lookup(fields, r.tag); j.Some? ==> j.value != k && !Siblings(fields[j.value], fields[k])
  }

  lemma {:induction false} ApartIsKept(S: Schema, t: nat, rs: seq<Record>, m: Message, k: nat)
    requires ValidSchema(S) && t < |S| && k < |m.slots| == |S[t].fields| && AllExact(rs) && Apart(S[t].fields, k, rs)
    ensures var x := StoreAll(S, t, rs, m); x.Some? ==> x.value.slots[k] == m.slots[k]
    decreases |rs|
  {
    hide Exact, ParseValue, ParseElements, Lookup;
    if rs == [] {
    } else {
      assert rs[0] in rs && forall r <- rs[1..] :: r in rs;
      var next := StoreRecord(S, t, rs[0], m);
      if next.Some? {
        ApartIsKept(S, t, rs[1..], next.value, k);
      }
    }
  }

  /** The records of the other fields are apart from a field that is set. */
  lemma OthersAreApart(S: Schema, t: nat, m: Message, k: nat, j: nat)
    requires ValidSchema(S) && Tidy(S, t, m) && k < |m.slots| && j < |m.slots| && k != j && !m.slots[k].Absent?
    ensures Apart(S[t].fields, k, SlotRecords(S, S[t].fields[j], m.slots[j]))
  {
    hide ShapedValue, TidyValue, Payload, Zeroish, EncodeAll;
    var fields := S[t].fields;
    LookupFinds(fields, j);
    SlotTags(S, fields[j], m.slots[j]);
    assert ShapedSlot(S, fields[k], m.slots[k]) && TidySlot(S, fields[j], m.slots[j]);
    if Siblings(fields[j], fields[k]) {
      assert m.slots[j].Absent?;
    }
  }

  lemma {:induction false} LaterAreApart(S: Schema, t: nat, m: Message, k: nat, i: nat)
    requires ValidSchema(S) && Tidy(S, t, m) && k < i <= |m.slots| && !m.slots[k].Absent?
    ensures Apart(S[t].fields, k, FieldRecords(S, t, m, i))
    decreases |m.slots| - i
  {
    hide SlotRecords, ShapedSlot, TidySlot, Lookup, ValidField;
    if i == |m.slots| {
    } else {
      OthersAreApart(S, t, m, k, i);
      LaterAreApart(S, t, m, k, i + 1);
    }
  }

  lemma {:induction false} EarlierAreApart(S: Schema, t: nat, m: Message, k: nat, i: nat) returns (before: seq<Record>)
    requires ValidSchema(S) && Tidy(S, t, m) && i <= k < |m.slots| && !m.slots[k].Absent?
    ensures FieldRecords(S, t, m, i) == before + FieldRecords(S, t, m, k) && Apart(S[t].fields, k, before)
    decreases k - i
  {
    hide SlotRecords, ShapedSlot, TidySlot, Lookup, ValidField;
    if i == k {
      before := [];
    } else {
      OthersAreApart(S, t, m, k, i);
      before := EarlierAreApart(S, t, m, k, i + 1);
      var own := SlotRecords(S, S[t].fields[i], m.slots[i]);
      assert own + (before + FieldRecords(S, t, m, k)) == (own + before) + FieldRecords(S, t, m, k);
      before := own + before;
    }
  }

  /** The records of field `k` alone bring its slot from what it is at first to what the whole run makes of it. */
  lemma OwnRecords(S: Schema, t: nat, m: Message, k: nat) returns (start: Message)
    requires ValidSchema(S) && Tidy(S, t, m) && k < |m.slots| && !m.slots[k].Absent?
    requires AllExact(MessageRecords(S, t, m)) && StoreAll(S, t, MessageRecords(S, t, m), Init(S[t])) == Some(m)
    ensures |start.slots| == |m.slots| && start.slots[k] == InitSlot(S[t].fields[k])
    ensures var own := SlotRecords(S, S[t].fields[k], m.slots[k]);
      AllExact(own) && StoreAll(S, t, own, start).Some? && StoreAll(S, t, own, start).value.slots[k] == m.slots[k]
  {
    hide SlotRecords, FieldRecords, StoreAll, Exact, ShapedSlot, TidySlot, Lookup, ValidField;
    var before := EarlierAreApart(S, t, m, k, 0);
    var own, later := SlotRecords(S, S[t].fields[k], m.slots[k]), FieldRecords(S, t, m, k + 1) + m.unknown;
    FieldStep(S, t, m, k);
    assert MessageRecords(S, t, m) == before + (own + later);
    assert forall r :: r in before || r in own || r in later ==> r in MessageRecords(S, t, m);
    LaterAreApart(S, t, m, k, k + 1);
    InitLength(S[t]);
    StoreAllAppend(S, t, before, own + later, Init(S[t]));
    start := StoreAll(S, t, before, Init(S[t])).value;
    ApartIsKept(S, t, before, Init(S[t]), k);
    StoreAllAppend(S, t, own, later, start);
    var reached := StoreAll(S, t, own, start).value;
    ApartIsKept(S, t, later, reached, k);
  }

  lemma FieldStep(S: Schema, t: nat, m: Message, k: nat)
    requires ValidSchema(S) && Shaped(S, t, m) && k < |m.slots|
    ensures FieldRecords(S, t, m, k) == SlotRecords(S, S[t].fields[k], m.slots[k]) + FieldRecords(S, t, m, k + 1)
  {
    hide SlotRecords;
  }

  /** A value that is not written is the one that the field is initialised with. */
  lemma UnwrittenComesBack(S: Schema, t: nat, m: Message, k: nat, v: Value)
    requires ValidSchema(S) && Tidy(S, t, m) && k < |m.slots| && m.slots[k] == Present(v)
    requires AllExact(MessageRecords(S, t, m)) && StoreAll(S, t, MessageRecords(S, t, m), Init(S[t])) == Some(m)
    requires IsOf(S[t].fields[k].typ, v) && IsUnwritten(S[t].fields[k], v)
    ensures m.slots[k] == InitSlot(S[t].fields[k])
  {
    hide FieldRecords, Exact, StoreRecord, ValueRecord, MessageRecords, TidyValue, IsUnwritten;
    var f := S[t].fields[k];
    assert ShapedSlot(S, f, m.slots[k]);
    var start := OwnRecords(S, t, m, k);
    assert SlotRecords(S, f, m.slots[k]) == [];
  }

  /** A single value comes back from its record. */
  lemma SingleComesBack(S: Schema, t: nat, m: Message, k: nat, v: Value)
    requires ValidSchema(S) && Tidy(S, t, m) && k < |m.slots| && m.slots[k] == Present(v)
    requires AllExact(MessageRecords(S, t, m)) && StoreAll(S, t, MessageRecords(S, t, m), Init(S[t])) == Some(m)
    requires IsOf(S[t].fields[k].typ, v) && !IsUnwritten(S[t].fields[k], v)
    ensures ShapedValue(S, S[t].fields[k], v) && ComesBack(S, S[t].fields[k], v)
  {
    hide FieldRecords, Exact, ParseValue, ParseElements, ValueRecord, MessageRecords, TidyValue, IsUnwritten;
    var f := S[t].fields[k];
    assert ShapedSlot(S, f, m.slots[k]);
    var start := OwnRecords(S, t, m, k);
    var r := ValueRecord(S, f, v);
    ValueRecordTag(S, f, v);
    assert SlotRecords(S, f, m.slots[k]) == [r] && r in [r] && [r][1..] == [];
    LookupFinds(S[t].fields, k);
    assert StoreAll(S, t, [r], start) == StoreRecord(S, t, r, start);
  }

  lemma ValueRecordTag(S: Schema, f: Field, v: Value)
    requires ValidSchema(S) && ShapedValue(S, f, v)
    ensures ValueRecord(S, f, v).tag == f.id && ValueRecord(S, f, v).wireType == WireType(f.typ)
  {
  }

  predicate ComesBack(S: Schema, f: Field, v: Value)
    requires ValidSchema(S) && ValidField(S, f) && ShapedValue(S, f, v)
  {
    var r := ValueRecord(S, f, v);
    Exact(r) && ParseValue(S, f, r, Absent) == Some(v)
  }

  /** The elements of an unpacked field come back one by one. */
  lemma {:induction false} ElementsComeBack(S: Schema, t: nat, k: nat, vs: seq<Value>, m: Message)
    requires ValidSchema(S) && t < |S| && k < |m.slots| == |S[t].fields| && m.slots[k].Many?
    requires S[t].fields[k].kind == Repeated && !S[t].fields[k].packed && forall v <- vs :: ShapedValue(S, S[t].fields[k], v)
    requires var rs := ElementRecords(S, S[t].fields[k], vs);
      && AllExact(rs) && StoreAll(S, t, rs, m).Some?
      && StoreAll(S, t, rs, m).value.slots[k] == Many(m.slots[k].vs + vs)
    ensures forall v <- vs :: ComesBack(S, S[t].fields[k], v)
    decreases |vs|
  {
    hide Exact, ParseValue, ValueRecord, ShapedValue, StoreAll, Lookup;
    if vs == [] {
    } else {
      var f := S[t].fields[k];
      var rs := ElementRecords(S, f, vs);
      assert rs[0] == ValueRecord(S, f, vs[0]) && rs[1..] == ElementRecords(S, f, vs[1..]);
      var w, next := FirstElement(S, t, k, vs, m);
      GrowsTo(S, t, k, vs[1..], next);
      NextIsSame(m.slots[k].vs, w, vs);
      ElementsComeBack(S, t, k, vs[1..], next);
    }
  }

  lemma NextIsSame(before: seq<Value>, w: Value, vs: seq<Value>)
    requires vs != [] && before + [w] <= before + vs
    ensures w == vs[0] && before + vs == (before + [w]) + vs[1..]
  {
    assert (before + [w])[|before|] == (before + vs)[|before|];
  }

  lemma FirstElement(S: Schema, t: nat, k: nat, vs: seq<Value>, m: Message) returns (w: Value, next: Message)
    requires ValidSchema(S) && t < |S| && k < |m.slots| == |S[t].fields| && m.slots[k].Many? && vs != []
    requires S[t].fields[k].kind == Repeated && !S[t].fields[k].packed && forall v <- vs :: ShapedValue(S, S[t].fields[k], v)
    requires var rs := ElementRecords(S, S[t].fields[k], vs); AllExact(rs) && StoreAll(S, t, rs, m).Some?
    ensures var f, rs := S[t].fields[k], ElementRecords(S, S[t].fields[k], vs);
      && Exact(rs[0]) && ParseValue(S, f, rs[0], Absent) == Some(w)
      && |next.slots| == |m.slots| && next.slots[k] == Many(m.slots[k].vs + [w])
      && AllExact(ElementRecords(S, f, vs[1..])) && StoreAll(S, t, ElementRecords(S, f, vs[1..]), next) == StoreAll(S, t, rs, m)
  {
    hide Exact, ParseValue, ValueRecord, ShapedValue, Lookup;
    var f := S[t].fields[k];
    var rs := ElementRecords(S, f, vs);
    assert rs[0] == ValueRecord(S, f, vs[0]) && rs[1..] == ElementRecords(S, f, vs[1..]) && rs[0] in rs;
    ValueRecordTag(S, f, vs[0]);
    LookupFinds(S[t].fields, k);
    assert !TakenAsPacked(f, rs[0]);
    assert ParseElements(S, f, rs[0]) == match ParseValue(S, f, rs[0], Absent) case None => None case Some(x) => Some([x]);
    next := StoreRecord(S, t, rs[0], m).value;
    w := ParseValue(S, f, rs[0], Absent).value;
  }

  /** Elements are appended behind those there are. */
  lemma {:induction false} GrowsTo(S: Schema, t: nat, k: nat, vs: seq<Value>, m: Message)
    requires ValidSchema(S) && t < |S| && k < |m.slots| == |S[t].fields| && m.slots[k].Many?
    requires S[t].fields[k].kind == Repeated && !S[t].fields[k].packed && forall v <- vs :: ShapedValue(S, S[t].fields[k], v)
    requires var rs := ElementRecords(S, S[t].fields[k], vs); AllExact(rs) && StoreAll(S, t, rs, m).Some?
    ensures var x := StoreAll(S, t, ElementRecords(S, S[t].fields[k], vs), m).value.slots[k];
      x.Many? && m.slots[k].vs <= x.vs
    decreases |vs|
  {
    hide Exact, ParseValue, ValueRecord, ShapedValue;
    if vs == [] {
    } else {
      var w, next := FirstElement(S, t, k, vs, m);
      GrowsTo(S, t, k, vs[1..], next);
    }
  }

  // ----- a message that comes back is well formed -----

  lemma {:induction false} CutOffOnlyAtNul(s: seq<byte>)
    requires CString(s) == s
    ensures NulFree(s)
  {
    if s == [] {
    } else {
      assert CString(s)[1..] == CString(s[1..]);
      CutOffOnlyAtNul(s[1..]);
    }
  }

  lemma {:induction false} ValueIsWellFormed(S: Schema, f: Field, v: Value)
    requires ValidSchema(S) && ValidField(S, f) && GoodValue(S, f, v) && |Payload(S, f, v)| < TWO_32
    requires Scannable(ValueRecord(S, f, v)) && ComesBack(S, f, v)
    ensures WellFormedValue(S, f, v)
    decreases v, 0
  {
    hide Delimited, EncodeMessage, Shaped, Tidy, CString, Decode, DecodeScalar, WellFormed, ScanPayload;
    match v
    case Text(s) =>
      DelimitedIsWritten(f.id, CString(s));
      NotBoth(ValueRecord(S, f, v));
      CutOffOnlyAtNul(s);
    case Blob(s) =>
      DelimitedIsWritten(f.id, s);
      NotBoth(ValueRecord(S, f, v));
    case Sub(m) =>
      DelimitedIsWritten(f.id, EncodeMessage(S, f.sub, m));
      NotBoth(ValueRecord(S, f, v));
      ReencodedIsWellFormed(S, f.sub, m);
    case _ =>
  }

  lemma NotBoth(r: Record)
    requires Scannable(r)
    ensures !Refused(r)
  {
    if Refused(r) {
      var body :| r.data == Delimited(body) && INT_MAX < |body| < TWO_32;
      assert Delimited(body) + [] == Delimited(body);
      LongPrefix(body, []);
    }
  }

  lemma {:induction false} SingleIsWellFormed(S: Schema, t: nat, m: Message, k: nat, v: Value)
    requires ValidSchema(S) && Tidy(S, t, m) && k < |m.slots| && Within(MessageRecords(S, t, m))
    requires AllScannable(MessageRecords(S, t, m)) && StoreAll(S, t, MessageRecords(S, t, m), Init(S[t])) == Some(m)
    requires m.slots[k] == Present(v)
    ensures GoodValue(S, S[t].fields[k], v) && WellFormedValue(S, S[t].fields[k], v)
    ensures IsUnwritten(S[t].fields[k], v) ==> m.slots[k] == InitSlot(S[t].fields[k])
    decreases v, 1
  {
    hide MessageRecords, StoreAll, Exact, ShapedValue, TidyValue, Payload, ValueRecord, WellFormedValue, ParseValue, Init;
    hide ComesBack, IsUnwritten;
    var f := S[t].fields[k];
    assert ShapedSlot(S, f, m.slots[k]) && TidySlot(S, f, m.slots[k]);
    ShapedIsOf(S, f, v);
    if IsUnwritten(f, v) {
      UnwrittenComesBack(S, t, m, k, v);
      InitIsWellFormed(S, f, v);
    } else {
      OwnAreAmong(S, t, m, k);
      SingleComesBack(S, t, m, k, v);
      assert SlotRecords(S, f, m.slots[k]) == [ValueRecord(S, f, v)];
      ValueAmong(S, f, v, [ValueRecord(S, f, v)]);
      ValueIsWellFormed(S, f, v);
    }
  }

  lemma InitIsWellFormed(S: Schema, f: Field, v: Value)
    requires ValidSchema(S) && ShapedValue(S, f, v) && InitSlot(f) == Present(v)
    ensures WellFormedValue(S, f, v)
  {
  }

  lemma {:induction false} ElementsAreWellFormed(S: Schema, t: nat, m: Message, k: nat, vs: seq<Value>)
    requires ValidSchema(S) && Tidy(S, t, m) && k < |m.slots| && Within(MessageRecords(S, t, m))
    requires AllScannable(MessageRecords(S, t, m)) && StoreAll(S, t, MessageRecords(S, t, m), Init(S[t])) == Some(m)
    requires m.slots[k] == Many(vs) && !S[t].fields[k].packed
    ensures forall v <- vs :: GoodValue(S, S[t].fields[k], v) && WellFormedValue(S, S[t].fields[k], v)
    decreases vs, 1
  {
    hide MessageRecords, StoreAll, Exact, ShapedValue, TidyValue, Payload, ValueRecord, WellFormedValue, ParseValue, Init, ComesBack;
    var f := S[t].fields[k];
    assert ShapedSlot(S, f, m.slots[k]) && TidySlot(S, f, m.slots[k]);
    OwnAreAmong(S, t, m, k);
    var start := OwnRecords(S, t, m, k);
    assert [] + vs == vs;
    ElementsComeBack(S, t, k, vs, start);
    forall v | v in vs
      ensures GoodValue(S, f, v) && WellFormedValue(S, f, v)
    {
      var i :| 0 <= i < |vs| && vs[i] == v;
      assert ElementRecords(S, f, vs)[i] == ValueRecord(S, f, v);
      ValueAmong(S, f, v, ElementRecords(S, f, vs));
      ValueIsWellFormed(S, f, v);
    }
  }

  lemma {:induction false} SlotIsWellFormed(S: Schema, t: nat, m: Message, k: nat)
    requires ValidSchema(S) && Tidy(S, t, m) && k < |m.slots| && Within(MessageRecords(S, t, m))
    requires AllScannable(MessageRecords(S, t, m)) && StoreAll(S, t, MessageRecords(S, t, m), Init(S[t])) == Some(m)
    ensures ShapedSlot(S, S[t].fields[k], m.slots[k]) && WellFormedSlot(S, S[t].fields[k], m.slots[k])
    decreases m, 0
  {
    hide MessageRecords, StoreAll, ShapedValue, TidyValue, WellFormedValue, Init, EncodeAll, SlotRecords, Scannable;
    var f, slot := S[t].fields[k], m.slots[k];
    assert ShapedSlot(S, f, slot) && TidySlot(S, f, slot);
    match slot
    case Absent =>
    case Present(v) => SingleIsWellFormed(S, t, m, k, v);
    case Many(vs) =>
      ElementsAreOf(S, f, vs);
      if !f.packed {
        ElementsAreWellFormed(S, t, m, k, vs);
      } else {
        if vs != [] {
          OwnAreAmong(S, t, m, k);
          PackedIsShort(S, f, vs);
        }
        PackedAreWellFormed(S, f, vs);
      }
  }

  lemma PackedAreWellFormed(S: Schema, f: Field, vs: seq<Value>)
    requires ValidSchema(S) && ValidField(S, f) && f.packed && forall v <- vs :: ShapedValue(S, f, v)
    ensures forall v <- vs :: WellFormedValue(S, f, v)
    ensures vs == [] ==> |EncodeAll(f.typ, vs)| == 0
  {
  }

  lemma OwnAreAmong(S: Schema, t: nat, m: Message, k: nat)
    requires ValidSchema(S) && Tidy(S, t, m) && k < |m.slots| && !m.slots[k].Absent?
    requires AllScannable(MessageRecords(S, t, m)) && Within(MessageRecords(S, t, m))
    ensures var own := SlotRecords(S, S[t].fields[k], m.slots[k]); AllScannable(own) && Within(own)
  {
    hide SlotRecords, FieldRecords, Scannable, ShapedSlot, TidySlot, Lookup, ValidField, Exact;
    var before := EarlierAreApart(S, t, m, k, 0);
    FieldStep(S, t, m, k);
    forall r | r in SlotRecords(S, S[t].fields[k], m.slots[k])
      ensures r in MessageRecords(S, t, m)
    {
      assert r in FieldRecords(S, t, m, k);
    }
  }

  lemma ValueAmong(S: Schema, f: Field, v: Value, rs: seq<Record>)
    requires ValidSchema(S) && ShapedValue(S, f, v) && ValueRecord(S, f, v) in rs && AllScannable(rs) && Within(rs)
    ensures Scannable(ValueRecord(S, f, v)) && |Payload(S, f, v)| < TWO_32
  {
    hide Payload, Scannable, ShapedValue;
  }

  lemma PackedIsShort(S: Schema, f: Field, vs: seq<Value>)
    requires ValidSchema(S) && ValidField(S, f) && f.packed && vs != [] && ShapedSlot(S, f, Many(vs))
    requires AllScannable(SlotRecords(S, f, Many(vs))) && Within(SlotRecords(S, f, Many(vs)))
    ensures AllOf(f.typ, vs) && |EncodeAll(f.typ, vs)| <= INT_MAX
  {
    hide EncodeAll, Delimited, Scannable, ShapedValue;
    ElementsAreOf(S, f, vs);
    var r := SlotRecords(S, f, Many(vs))[0];
    assert r in SlotRecords(S, f, Many(vs));
    DelimitedIsWritten(f.id, EncodeAll(f.typ, vs));
    NotBoth(r);
  }

  lemma {:induction false} ReencodedIsWellFormed(S: Schema, t: nat, m: Message)
    requires ValidSchema(S) && Tidy(S, t, m) && |EncodeMessage(S, t, m)| < TWO_32
    requires Decode(S, t, EncodeMessage(S, t, m)) == Some(m)
    ensures WellFormed(S, t, m)
    decreases m, 1
  {
    hide MessageRecords, Serialize, Scan, StoreAll, Exact, ShapedSlot, TidySlot, Init, Decode;
    var rs := MessageRecords(S, t, m);
    PayloadsAreWithin(rs);
    MessageIsWritten(S, t, m);
    DecodeIsStoreAll(S, t, Serialize(rs));
    if !AllScannable(rs) {
      RefusedStopsScan(rs);
    }
    ScanSerialized(rs);
    DecodedIsAdmissible(S, t, Serialize(rs));
    forall r | r in m.unknown
      ensures Scannable(r)
    {
      UnknownAmong(S, t, m, r);
    }
    forall k | 0 <= k < |m.slots|
      ensures ShapedSlot(S, S[t].fields[k], m.slots[k]) && WellFormedSlot(S, S[t].fields[k], m.slots[k])
    {
      SlotIsWellFormed(S, t, m, k);
    }
  }

  lemma UnknownAmong(S: Schema, t: nat, m: Message, r: Record)
    requires ValidSchema(S) && Shaped(S, t, m) && r in m.unknown && AllScannable(MessageRecords(S, t, m))
    ensures Scannable(r)
  {
    hide FieldRecords, Scannable;
    assert r in FieldRecords(S, t, m, 0) + m.unknown;
  }

  lemma DecodedIsAdmissible(S: Schema, t: nat, s: seq<byte>)
    requires ValidSchema(S) && t < |S| && Decode(S, t, s).Some?
    ensures Scan(s).Some? && |Scan(s).value| <= SLAB_CAPACITY
  {
    hide Scan, StoreAll, Exact, Countable;
  }

  /** A message that was decoded, from whatever bytes, and is encoded to less than 4 GiB decodes to itself again if and only if
      it is well formed: no NUL in a string, no zero of a field without label but the initial one, no unknown field of id 0,
      nothing longer than INT_MAX when it is written, and no more records than the slabs hold. */
  lemma ReencodingIff(S: Schema, t: nat, s: seq<byte>)
    requires ValidSchema(S) && t < |S| && Decode(S, t, s).Some?
    ensures var m := Decode(S, t, s).value;
      && Shaped(S, t, m)
      && (|EncodeMessage(S, t, m)| < TWO_32 ==> (Decode(S, t, EncodeMessage(S, t, m)) == Some(m) <==> WellFormed(S, t, m)))
  {
    hide Decode, EncodeMessage, WellFormed;
    DecodeIsTidy(S, t, s);
    var m := Decode(S, t, s).value;
    if |EncodeMessage(S, t, m)| < TWO_32 {
      if WellFormed(S, t, m) {
        MessageRoundTrip(S, t, m);
      } else if Decode(S, t, EncodeMessage(S, t, m)) == Some(m) {
        ReencodedIsWellFormed(S, t, m);
      }
    }
  }

  // ----- a NUL that is lost -----

  const NAMED: Schema := [Descriptor([Field(1, String, Optional, false, None, 0)])]

  const NUL_NAMED: Message := Message([Present(Text([0]))], [])

  const NUL_RECORD: Record := Record(1, WIRE_LENGTH_PREFIXED, Delimited([0]))

  lemma NamedIsValid()
    ensures ValidSchema(NAMED) && Lookup(NAMED[0].fields, 1) == Some(0)
  {
    assert ValidDescriptor(NAMED, NAMED[0]);
    LookupFinds(NAMED[0].fields, 0);
  }

  lemma NulScans()
    ensures Serialize([NUL_RECORD]) == [10, 1, 0] && Scan([10, 1, 0]) == Some([NUL_RECORD])
    ensures Exact(NUL_RECORD) && Body(NUL_RECORD) == [0]
  {
    hide Scan, ScanPayload;
    var r := NUL_RECORD;
    DelimitedBody(1, [0]);
    ScanSerialized([r]);
    assert Encode(10) == [10] && Encode(1) == [1];
    assert [r][1..] == [] && TagBytes(1, WIRE_LENGTH_PREFIXED) == [10] && Delimited([0]) == [1] + [0];
    assert Serialize([r]) == ([10] + ([1] + [0])) + Serialize([]);
  }

  lemma NulDecodes()
    ensures ValidSchema(NAMED) && Decode(NAMED, 0, [10, 1, 0]) == Some(NUL_NAMED)
  {
    hide Scan, Exact, Body, Lookup, Delimited;
    NamedIsValid();
    NulScans();
    var S, r, m0 := NAMED, NUL_RECORD, Init(NAMED[0]);
    assert ParseValue(S, S[0].fields[0], r, Absent) == Some(Text([0]));
    assert m0.slots == [Absent] && m0.slots[0 := Present(Text([0]))] == NUL_NAMED.slots;
    assert StoreRecord(S, 0, r, m0) == Some(NUL_NAMED);
    assert [r][1..] == [];
    assert StoreAll(S, 0, [r], m0) == Some(NUL_NAMED);
    assert Admissible(S[0], [r]);
  }

  lemma NulIsCutOff()
    ensures ValidSchema(NAMED) && Shaped(NAMED, 0, NUL_NAMED) && EncodeMessage(NAMED, 0, NUL_NAMED) == [10, 0]
  {
    hide Lookup;
    NamedIsValid();
    var S, m, f := NAMED, NUL_NAMED, NAMED[0].fields[0];
    assert ShapedValue(S, f, Text([0]));
    var r := ValueRecord(S, f, Text([0]));
    assert r == Record(1, WIRE_LENGTH_PREFIXED, [0]);
    assert SlotRecords(S, f, m.slots[0]) == [r];
    assert FieldRecords(S, 0, m, 1) == [];
    FieldStep(S, 0, m, 0);
    assert MessageRecords(S, 0, m) == [r];
    assert TagBytes(1, WIRE_LENGTH_PREFIXED) == [10] && [r][1..] == [];
    assert Serialize([r]) == ([10] + [0]) + Serialize([]);
  }

  /** A string that is one NUL is decoded, and its encoding decodes to another message. */
  lemma NulIsLost()
    ensures ValidSchema(NAMED) && Shaped(NAMED, 0, NUL_NAMED)
    ensures Decode(NAMED, 0, [10, 1, 0]) == Some(NUL_NAMED)
    ensures Decode(NAMED, 0, EncodeMessage(NAMED, 0, NUL_NAMED)) != Some(NUL_NAMED)
  {
    hide Decode, EncodeMessage;
    NamedIsValid();
    NulDecodes();
    NulIsCutOff();
    ReencodingIff(NAMED, 0, [10, 1, 0]);
    assert !WellFormedSlot(NAMED, NAMED[0].fields[0], NUL_NAMED.slots[0]);
  }
}
