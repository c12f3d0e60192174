/** The merge rule of the wire format at every depth, and how far the code keeps it. */
module WireRule {
  import opened Options
  import opened Varint
  import opened Wire
  import opened Schema
  import opened Scalars
  import opened Encoder
  import opened Decoder
  import opened RoundTrip
  import opened Concatenation

  // ----- the rule -----

  /** What the wire format makes of one message followed by another: at every field the last one set wins, unless elements are
      appended or sub-messages joined in turn; a union keeps the later member, and unknown fields add up. */
  function WireJoin(S: Schema, t: nat, a: Message, b: Message): Message
    requires Fit(S, t, a) && Fit(S, t, b)
    decreases a, 1
  {
    Message(seq(|a.slots|, i requires 0 <= i < |a.slots| => WireJoinAt(S, t, a, b, i)), a.unknown + b.unknown)
  }

  function WireJoinAt(S: Schema, t: nat, a: Message, b: Message, i: nat): Slot
    requires Fit(S, t, a) && Fit(S, t, b) && i < |a.slots|
    decreases a, 0
  {
    var f, earlier, latter := S[t].fields[i], a.slots[i], b.slots[i];
    assert FitSlot(S, f, earlier) && FitSlot(S, f, latter);
    if InOneof(f) then (if Chosen(S[t].fields, b.slots, f) then latter else earlier)
    else if f.kind == Repeated then Many(earlier.vs + latter.vs)
    else if Merges(f) && HoldsMessage(earlier) && HoldsMessage(latter) then
      Present(Sub(WireJoin(S, f.sub, earlier.v.m, latter.v.m)))
    else if latter.Absent? then earlier else latter
  }

  // ----- when the earlier message adds nothing to the rule -----

  predicate AddsNothing(S: Schema, t: nat, a: Message, b: Message)
    requires Fit(S, t, a) && Fit(S, t, b)
    decreases a, 1
  {
    a.unknown == [] && forall i :: 0 <= i < |a.slots| ==> AddsNothingAt(S, t, a, b, i)
  }

  predicate AddsNothingAt(S: Schema, t: nat, a: Message, b: Message, i: nat)
    requires Fit(S, t, a) && Fit(S, t, b) && i < |a.slots|
    decreases a, 0
  {
    var f, earlier, latter := S[t].fields[i], a.slots[i], b.slots[i];
    assert FitSlot(S, f, earlier) && FitSlot(S, f, latter);
    if InOneof(f) then Chosen(S[t].fields, b.slots, f) || earlier.Absent?
    else if f.kind == Repeated then earlier.vs == []
    else if Merges(f) && HoldsMessage(earlier) && HoldsMessage(latter) then AddsNothing(S, f.sub, earlier.v.m, latter.v.m)
    else latter.Absent? ==> earlier.Absent?
  }

  lemma {:induction false} JoinIsLatter(S: Schema, t: nat, a: Message, b: Message)
    requires Fit(S, t, a) && Fit(S, t, b)
    ensures WireJoin(S, t, a, b) == b <==> AddsNothing(S, t, a, b)
    decreases a, 1
  {
    var j := WireJoin(S, t, a, b);
    forall i | 0 <= i < |a.slots|
      ensures j.slots[i] == b.slots[i] <==> AddsNothingAt(S, t, a, b, i)
    {
      JoinIsLatterAt(S, t, a, b, i);
    }
    if AddsNothing(S, t, a, b) {
      assert j.slots == b.slots && [] + b.unknown == b.unknown;
    } else if a.unknown != [] {
      assert |j.unknown| > |b.unknown|;
    }
  }

  lemma {:induction false} JoinIsLatterAt(S: Schema, t: nat, a: Message, b: Message, i: nat)
    requires Fit(S, t, a) && Fit(S, t, b) && i < |a.slots|
    ensures WireJoinAt(S, t, a, b, i) == b.slots[i] <==> AddsNothingAt(S, t, a, b, i)
    decreases a, 0
  {
    hide WireJoin, AddsNothing;
    var f, x, y := S[t].fields[i], a.slots[i], b.slots[i];
    assert FitSlot(S, f, x) && FitSlot(S, f, y);
    if InOneof(f) {
      if !Chosen(S[t].fields, b.slots, f) {
        UnchosenIsAbsent(S, t, b, i);
      }
    } else if f.kind == Repeated {
      AppendsNothing(x.vs, y.vs);
    } else if Merges(f) && HoldsMessage(x) && HoldsMessage(y) {
      JoinIsLatter(S, f.sub, x.v.m, y.v.m);
    }
  }

  lemma AppendsNothing(a: seq<Value>, b: seq<Value>)
    ensures a + b == b <==> a == []
  {
    assert |a + b| == |a| + |b|;
    assert [] + b == b;
  }

  // ----- when merge_messages keeps the rule -----

  /** The earlier message, at every depth that gets merged, has no unknown fields; every union is set in one of the two, and not
      to an empty byte string that would be lost; no empty byte string meets data or nothing; required members of the earlier
      message add nothing. */
  predicate KeepsWire(S: Schema, t: nat, a: Message, b: Message)
    requires Fit(S, t, a) && Fit(S, t, b)
    decreases a, 1
  {
    a.unknown == [] && forall i :: 0 <= i < |a.slots| ==> KeepsWireAt(S, t, a, b, i)
  }

  predicate KeepsWireAt(S: Schema, t: nat, a: Message, b: Message, i: nat)
    requires Fit(S, t, a) && Fit(S, t, b) && i < |a.slots|
    decreases a, 0
  {
    var f, x, y := S[t].fields[i], a.slots[i], b.slots[i];
    assert FitSlot(S, f, x) && FitSlot(S, f, y);
    if InOneof(f) then
      Chosen(S[t].fields, b.slots, f) || (Chosen(S[t].fields, a.slots, f) && x != Present(Blob([])))
    else if f.kind == Repeated then true
    else if f.kind == Required then
      if f.typ == Nested && HoldsMessage(x) && HoldsMessage(y) then AddsNothing(S, f.sub, x.v.m, y.v.m) else y.Absent? ==> x.Absent?
    else if f.typ == Bytes then
      !(x == Present(Blob([])) && y.Absent?) && !(!NoData(x) && y == Present(Blob([])))
    else f.typ == Nested && HoldsMessage(x) && HoldsMessage(y) ==> KeepsWire(S, f.sub, x.v.m, y.v.m)
  }

  lemma {:induction false} KeepsWireSlot(S: Schema, t: nat, a: Message, b: Message, i: nat)
    requires Fit(S, t, a) && Fit(S, t, b) && i < |a.slots|
    ensures MergeSlot(S, t, a, b, i) == Some(WireJoinAt(S, t, a, b, i)) <==> KeepsWireAt(S, t, a, b, i)
    decreases a, 0
  {
    hide Merge, WireJoin, AddsNothing, KeepsWire;
    var f, x, y := S[t].fields[i], a.slots[i], b.slots[i];
    assert FitSlot(S, f, x) && FitSlot(S, f, y);
    if InOneof(f) {
      if !Chosen(S[t].fields, b.slots, f) {
        UnchosenIsAbsent(S, t, b, i);
      }
    } else if Merges(f) && HoldsMessage(x) && HoldsMessage(y) {
      JoinIsLatter(S, f.sub, x.v.m, y.v.m);
      MergeKeepsWireJoin(S, f.sub, x.v.m, y.v.m);
    }
  }

  /** `merge_messages` gives what the wire format makes of the two messages if and only if `KeepsWire`, at every depth. */
  lemma {:induction false} MergeKeepsWireJoin(S: Schema, t: nat, a: Message, b: Message)
    requires Fit(S, t, a) && Fit(S, t, b)
    ensures Merge(S, t, a, b) == Some(WireJoin(S, t, a, b)) <==> KeepsWire(S, t, a, b)
    decreases a, 1
  {
    hide MergeSlot, WireJoinAt, KeepsWireAt, FitSlot;
    MergeSlotsAt(S, t, a, b, 0);
    var j := WireJoin(S, t, a, b);
    forall i | 0 <= i < |a.slots|
      ensures MergeSlot(S, t, a, b, i) == Some(j.slots[i]) <==> KeepsWireAt(S, t, a, b, i)
    {
      KeepsWireSlot(S, t, a, b, i);
    }
    if KeepsWire(S, t, a, b) {
      assert MergesFrom(S, t, a, b, 0);
      assert Merge(S, t, a, b).value.slots == j.slots && [] + b.unknown == b.unknown;
    } else if a.unknown != [] {
      assert |j.unknown| > |b.unknown|;
    }
  }

  // ----- when decoding a concatenation keeps the rule -----

  /** Every pair of sub-messages that gets merged keeps the rule. */
  predicate SubsKeepWire(S: Schema, t: nat, a: Message, b: Message)
    requires Fit(S, t, a) && Fit(S, t, b)
  {
    forall i :: 0 <= i < |a.slots| ==> PairKeepsWire(S, S[t].fields[i], a.slots[i], b.slots[i])
  }

  predicate PairKeepsWire(S: Schema, f: Field, x: Slot, y: Slot) {
    Merges(f) && HoldsMessage(x) && HoldsMessage(y) ==>
      Fit(S, f.sub, x.v.m) && Fit(S, f.sub, y.v.m) && KeepsWire(S, f.sub, x.v.m, y.v.m)
  }

  /** What the decoder's own joining makes of two messages is what the wire format does if and only if those pairs keep the rule. */
  lemma JoinIsWireJoin(S: Schema, t: nat, a: Message, b: Message)
    requires Fit(S, t, a) && Fit(S, t, b)
    ensures Joins(S, t, a, b) && Join(S, t, a, b) == WireJoin(S, t, a, b) <==> SubsKeepWire(S, t, a, b)
  {
    hide Merge, WireJoinAt, JoinSlot, FitSlot, KeepsWire, PairKeepsWire;
    forall i | 0 <= i < |a.slots|
      ensures JoinSlot(S, t, a, b, i) == Some(WireJoinAt(S, t, a, b, i)) <==> PairKeepsWire(S, S[t].fields[i], a.slots[i], b.slots[i])
    {
      JoinIsWireJoinAt(S, t, a, b, i);
    }
    var w := WireJoin(S, t, a, b);
    if SubsKeepWire(S, t, a, b) {
      assert Join(S, t, a, b).slots == w.slots;
    } else if Joins(S, t, a, b) && Join(S, t, a, b) == w {
      forall i | 0 <= i < |a.slots|
        ensures PairKeepsWire(S, S[t].fields[i], a.slots[i], b.slots[i])
      {
        JoinAt(S, t, a, b, i);
        assert w.slots[i] == WireJoinAt(S, t, a, b, i);
      }
    }
  }

  lemma JoinIsWireJoinAt(S: Schema, t: nat, a: Message, b: Message, i: nat)
    requires Fit(S, t, a) && Fit(S, t, b) && i < |a.slots|
    ensures JoinSlot(S, t, a, b, i) == Some(WireJoinAt(S, t, a, b, i)) <==> PairKeepsWire(S, S[t].fields[i], a.slots[i], b.slots[i])
  {
    hide Merge, WireJoin, KeepsWire;
    var f, x, y := S[t].fields[i], a.slots[i], b.slots[i];
    assert FitSlot(S, f, x) && FitSlot(S, f, y);
    if Merges(f) && HoldsMessage(x) && HoldsMessage(y) {
      MergeKeepsWireJoin(S, f.sub, x.v.m, y.v.m);
    }
  }

  /** One byte string after another decodes to what the wire format makes of the two messages if and only if every pair of
      sub-messages that gets merged keeps its rule, as far as the slabs hold the members. */
  lemma ConcatenationIsWireJoin(S: Schema, t: nat, plain: set<nat>, x: seq<byte>, y: seq<byte>)
    requires Lawful(S, t, plain) && Decode(S, t, x).Some? && Decode(S, t, y).Some?
    requires Settled(S, t, plain, Scan(y).value, Init(S[t]))
    requires |Scan(x).value| + |Scan(y).value| <= SLAB_CAPACITY
    ensures var a, b := Decode(S, t, x).value, Decode(S, t, y).value;
      && Fit(S, t, a) && Fit(S, t, b)
      && (Decode(S, t, x + y) == Some(WireJoin(S, t, a, b)) <==> SubsKeepWire(S, t, a, b))
  {
    hide Decode, Join, Joins, Scan, Fit, Lawful, Settled, WireJoin, SubsKeepWire;
    assert ValidSchema(S) && t < |S| by { LawfulIsValid(S, t, plain); }
    DecodeIsFit(S, t, x);
    DecodeIsFit(S, t, y);
    Concatenation.Concatenation(S, t, plain, x, y);
    JoinIsWireJoin(S, t, Decode(S, t, x).value, Decode(S, t, y).value);
  }

  /** The same for the encodings of any two messages. */
  lemma EncodingsAreWireJoined(S: Schema, t: nat, a: Message, b: Message)
    requires ValidSchema(S) && Shaped(S, t, a) && WellFormed(S, t, a) && Shaped(S, t, b) && WellFormed(S, t, b) && Proto2(S[t])
    requires |MessageRecords(S, t, a)| + |MessageRecords(S, t, b)| <= SLAB_CAPACITY
    ensures Fit(S, t, a) && Fit(S, t, b)
    ensures Decode(S, t, EncodeMessage(S, t, a) + EncodeMessage(S, t, b)) == Some(WireJoin(S, t, a, b)) <==> SubsKeepWire(S, t, a, b)
  {
    hide WellFormed, EncodeMessage, Decode, MessageRecords, Join, Joins, Fit, WireJoin, SubsKeepWire;
    MessageRoundTrip(S, t, a);
    MessageRoundTrip(S, t, b);
    DecodeIsFit(S, t, EncodeMessage(S, t, a));
    DecodeIsFit(S, t, EncodeMessage(S, t, b));
    ConcatenationOfEncodings(S, t, a, b);
    JoinIsWireJoin(S, t, a, b);
  }

  // ----- an unknown field that is lost one level down -----

  /** A message with one optional sub-message, whose type has no fields. */
  const NESTED: Schema := [Descriptor([Field(1, Nested, Optional, false, None, 1)]), Descriptor([])]

  const UNKNOWN: Record := Record(5, WIRE_VARINT, [1])

  function Holding(unknown: seq<Record>): Message {
    Message([Present(Sub(Message([], unknown)))], [])
  }

  lemma HoldingIsWellFormed(unknown: seq<Record>)
    requires unknown == [] || unknown == [UNKNOWN]
    ensures ValidSchema(NESTED) && Shaped(NESTED, 0, Holding(unknown)) && WellFormed(NESTED, 0, Holding(unknown))
    ensures |MessageRecords(NESTED, 0, Holding(unknown))| == 1
    ensures EncodeMessage(NESTED, 0, Holding(unknown)) == if unknown == [] then [10, 0] else [10, 2, 40, 1]
  {
    hide EncodeMessage, MessageRecords, ValidSchema, ValueRecord, Serialize, ShapedValue, WellFormedValue;
    var f, inner, m := NESTED[0].fields[0], Message([], unknown), Holding(unknown);
    InnerValue(unknown);
    OneRecord(NESTED, f, inner, m);
    assert WellFormedSlot(NESTED, f, m.slots[0]);
    WholeEncoding(NESTED, 0, m);
  }

  /** The value of the one field, and what its record is written as. */
  lemma InnerValue(unknown: seq<Record>)
    requires unknown == [] || unknown == [UNKNOWN]
    ensures ValidSchema(NESTED)
    ensures var f, v := NESTED[0].fields[0], Sub(Message([], unknown));
      && ShapedValue(NESTED, f, v) && WellFormedValue(NESTED, f, v) && ValueRecord(NESTED, f, v).wireType < 8
      && Serialize([ValueRecord(NESTED, f, v)]) == if unknown == [] then [10, 0] else [10, 2, 40, 1]
  {
    hide EncodeMessage, ValidSchema, WellFormed, Shaped, Encode, Serialize;
    InnerBytes(unknown);
    SmallBytes();
    var f, inner := NESTED[0].fields[0], Message([], unknown);
    assert f.typ == Nested && f.sub == 1;
    var r := ValueRecord(NESTED, f, Sub(inner));
    assert r == Record(1, WIRE_LENGTH_PREFIXED, Delimited(EncodeMessage(NESTED, 1, inner)));
    SerializeOne(r);
  }

  lemma SmallBytes()
    ensures Encode(0) == [0] && Encode(2) == [2] && TagBytes(1, WIRE_LENGTH_PREFIXED) == [10]
  {
  }

  lemma NestedIsValid()
    ensures ValidSchema(NESTED) && Lookup(NESTED[1].fields, 5).None?
  {
    assert ValidDescriptor(NESTED, NESTED[0]) && ValidDescriptor(NESTED, NESTED[1]);
  }

  lemma UnknownScans()
    ensures Scannable(UNKNOWN) && TagBytes(5, WIRE_VARINT) == [40]
  {
    assert ScanVarint([1]) == 1;
  }

  lemma InnerBytes(unknown: seq<Record>)
    requires unknown == [] || unknown == [UNKNOWN]
    ensures ValidSchema(NESTED) && Shaped(NESTED, 1, Message([], unknown)) && WellFormed(NESTED, 1, Message([], unknown))
    ensures EncodeMessage(NESTED, 1, Message([], unknown)) == if unknown == [] then [] else [40, 1]
  {
    hide ValidSchema, Scannable, Lookup, TagBytes, RecordBytes, Serialize, WellFormedSlot, ShapedSlot, SlotRecords;
    var m := Message([], unknown);
    NestedIsValid();
    UnknownScans();
    assert MessageRecords(NESTED, 1, m) == unknown;
    if unknown != [] {
      SerializeOne(UNKNOWN);
    } else {
      SerializeNone();
    }
  }

  lemma WholeEncoding(S: Schema, t: nat, m: Message)
    requires ValidSchema(S) && Shaped(S, t, m)
    ensures EncodeMessage(S, t, m) == Serialize(MessageRecords(S, t, m))
  {
    hide MessageRecords;
  }

  lemma OneRecord(S: Schema, f: Field, inner: Message, m: Message)
    requires S == NESTED && f == S[0].fields[0] && ValidSchema(S) && ShapedValue(S, f, Sub(inner))
    requires m == Message([Present(Sub(inner))], [])
    ensures Shaped(S, 0, m) && MessageRecords(S, 0, m) == [ValueRecord(S, f, Sub(inner))]
  {
    hide Payload, EncodeMessage;
    var r := ValueRecord(S, f, Sub(inner));
    assert FieldRecords(S, 0, m, 1) == [];
    assert SlotRecords(S, f, m.slots[0]) == [r];
    assert FieldRecords(S, 0, m, 0) == [r] + [];
  }

  lemma InnerMerge()
    ensures var x, y := Message([], [UNKNOWN]), Message([], []);
      && Fit(NESTED, 1, x) && Fit(NESTED, 1, y)
      && Merge(NESTED, 1, x, y) == Some(y) && WireJoin(NESTED, 1, x, y) == x
  {
    assert WireJoin(NESTED, 1, Message([], [UNKNOWN]), Message([], [])).slots == [];
  }

  lemma OuterMerge()
    ensures var S, a, b := NESTED, Holding([UNKNOWN]), Holding([]);
      && Fit(S, 0, a) && Fit(S, 0, b) && WireJoin(S, 0, a, b) == a && Merge(S, 0, a, b) == Some(b)
      && Joins(S, 0, a, b) && Join(S, 0, a, b) == b
  {
    hide Merge, WireJoin, Fit;
    InnerMerge();
    HoldingFits([UNKNOWN]);
    HoldingFits([]);
    var S, a, b := NESTED, Holding([UNKNOWN]), Holding([]);
    OneSlot(S, a, b);
    assert WireJoinAt(S, 0, a, b, 0) == a.slots[0];
    assert Join(S, 0, a, b).slots == b.slots && Join(S, 0, a, b).unknown == [];
  }

  lemma OneSlot(S: Schema, a: Message, b: Message)
    requires S == NESTED && |a.slots| == |b.slots| == 1 && Fit(S, 0, a) && Fit(S, 0, b) && a.unknown == b.unknown == []
    requires MergeSlot(S, 0, a, b, 0) == Some(b.slots[0])
    ensures Merge(S, 0, a, b) == Some(b)
    ensures WireJoin(S, 0, a, b) == Message([WireJoinAt(S, 0, a, b, 0)], [])
  {
    hide MergeSlot, WireJoinAt, Fit;
    MergeSlotsAt(S, 0, a, b, 0);
    assert forall j :: 0 <= j < 1 ==> MergeSlot(S, 0, a, b, j).Some?;
    assert Merge(S, 0, a, b).value.slots == b.slots;
    assert WireJoin(S, 0, a, b).slots == [WireJoinAt(S, 0, a, b, 0)];
  }

  lemma HoldingFits(unknown: seq<Record>)
    ensures Fit(NESTED, 0, Holding(unknown)) && Fit(NESTED, 1, Message([], unknown))
  {
    var f, inner := NESTED[0].fields[0], Message([], unknown);
    assert f.typ == Nested && IsOf(Nested, Sub(inner)) && Fit(NESTED, 1, inner);
    assert FitSlot(NESTED, f, Present(Sub(inner)));
  }

  /** A sub-message with an unknown field, and the same sub-message again without it: the wire format keeps the field, and both
      merging and decoding the one encoding after the other lose it. */
  lemma NestedUnknownIsLost()
    ensures var S, a, b := NESTED, Holding([UNKNOWN]), Holding([]);
      && ValidSchema(S) && Fit(S, 0, a) && Fit(S, 0, b) && WireJoin(S, 0, a, b) == a
      && Merge(S, 0, a, b) == Some(b) && Decode(S, 0, [10, 2, 40, 1] + [10, 0]) == Some(b)
  {
    hide EncodeMessage, Decode, WellFormed, Shaped, MessageRecords, Joins, Join, Merge, WireJoin, Fit;
    HoldingIsWellFormed([UNKNOWN]);
    HoldingIsWellFormed([]);
    OuterMerge();
    ConcatenationOfEncodings(NESTED, 0, Holding([UNKNOWN]), Holding([]));
  }
}
