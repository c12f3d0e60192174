/** The concatenation law of the wire format, and how far `merge_messages` keeps it. */
module Concatenation {
  import opened Options
  import opened Varint
  import opened Wire
  import opened Schema
  import opened Scalars
  import opened Encoder
  import opened Decoder
  import opened RoundTrip

  // ----- the messages and types that merging is defined on -----

  /** Slots of the right kind and unions with one member at most, down through singular sub-messages. */
  predicate Fit(S: Schema, t: nat, m: Message)
    decreases m, 1
  {
    && t < |S|
    && |m.slots| == |S[t].fields|
    && OneCase(S[t].fields, m.slots)
    && forall i :: 0 <= i < |m.slots| ==> FitSlot(S, S[t].fields[i], m.slots[i])
  }

  predicate FitSlot(S: Schema, f: Field, slot: Slot)
    decreases slot, 0
  {
    && (slot.Many? <==> f.kind == Repeated)
    && (slot.Present? && f.typ == Nested ==> slot.v.Sub? && Fit(S, f.sub, slot.v.m))
    && (slot.Present? ==> IsOf(f.typ, slot.v))
  }

  /** The field's occurrences are merged: a singular sub-message outside any union. */
  predicate Merges(f: Field) {
    f.typ == Nested && f.kind != Repeated && !InOneof(f)
  }

  /** Types without unions, closed under the sub-messages that get merged. */
  predicate UnionFree(S: Schema, plain: set<nat>) {
    forall t <- plain :: t < |S| && forall i :: 0 <= i < |S[t].fields| ==>
      !InOneof(S[t].fields[i]) && (Merges(S[t].fields[i]) ==> S[t].fields[i].sub in plain)
  }

  /** The sub-messages that occurrences of `t` may merge are union free. */
  predicate MergesInto(S: Schema, t: nat, plain: set<nat>)
    requires t < |S|
  {
    forall i :: 0 <= i < |S[t].fields| && Merges(S[t].fields[i]) ==> S[t].fields[i].sub in plain
  }

  // ----- merging on union-free types: total and associative -----

  predicate MergesFrom(S: Schema, t: nat, a: Message, b: Message, i: nat)
    requires t < |S| && |S[t].fields| == |a.slots| == |b.slots|
  {
    forall j :: i <= j < |S[t].fields| ==> MergeSlot(S, t, a, b, j).Some?
  }

  /** Merging succeeds when it succeeds at every field, and then each field is what it gives there. */
  lemma {:induction false} MergeSlotsAt(S: Schema, t: nat, a: Message, b: Message, i: nat)
    requires t < |S| && i <= |S[t].fields| == |a.slots| == |b.slots|
    ensures MergeSlots(S, t, a, b, i).Some? <==> MergesFrom(S, t, a, b, i)
    ensures MergeSlots(S, t, a, b, i).Some? ==> forall j :: i <= j < |S[t].fields| ==>
      MergeSlot(S, t, a, b, j) == Some(MergeSlots(S, t, a, b, i).value[j - i])
    decreases |S[t].fields| - i
  {
    if i == |S[t].fields| {
    } else {
      MergeSlotsAt(S, t, a, b, i + 1);
      var slot, rest := MergeSlot(S, t, a, b, i), MergeSlots(S, t, a, b, i + 1);
      if slot.Some? && rest.Some? {
        var all := [slot.value] + rest.value;
        assert MergeSlots(S, t, a, b, i) == Some(all);
        forall j | i <= j < |S[t].fields|
          ensures MergeSlot(S, t, a, b, j) == Some(all[j - i])
        {
          assert j > i ==> all[j - i] == rest.value[j - (i + 1)];
        }
      } else {
        assert MergeSlots(S, t, a, b, i).None?;
      }
    }
  }

  lemma {:induction false} MergeIsTotal(S: Schema, plain: set<nat>, t: nat, a: Message, b: Message)
    requires UnionFree(S, plain) && t in plain && Fit(S, t, a) && Fit(S, t, b)
    ensures Merge(S, t, a, b).Some? && Fit(S, t, Merge(S, t, a, b).value)
    ensures forall i :: 0 <= i < |a.slots| ==>
      MergeField(S, S[t].fields[i], a.slots[i], b.slots[i]) == Some(Merge(S, t, a, b).value.slots[i])
    decreases a, 1
  {
    forall i | 0 <= i < |a.slots|
      ensures MergeSlot(S, t, a, b, i) == MergeField(S, S[t].fields[i], a.slots[i], b.slots[i])
      ensures MergeField(S, S[t].fields[i], a.slots[i], b.slots[i]).Some?
      ensures FitSlot(S, S[t].fields[i], MergeField(S, S[t].fields[i], a.slots[i], b.slots[i]).value)
    {
      MergeFieldIsTotal(S, plain, S[t].fields[i], a.slots[i], b.slots[i]);
    }
    MergeSlotsAt(S, t, a, b, 0);
  }

  lemma {:induction false} MergeFieldIsTotal(S: Schema, plain: set<nat>, f: Field, a: Slot, b: Slot)
    requires UnionFree(S, plain) && (Merges(f) ==> f.sub in plain) && !InOneof(f) && FitSlot(S, f, a) && FitSlot(S, f, b)
    ensures MergeField(S, f, a, b).Some? && FitSlot(S, f, MergeField(S, f, a, b).value)
    decreases a, 0
  {
    if f.kind != Repeated && f.typ == Nested && HoldsMessage(a) && HoldsMessage(b) {
      MergeIsTotal(S, plain, f.sub, a.v.m, b.v.m);
    }
  }

  /** Merging is associative on union-free types, byte strings, required and unknown fields included. */
  lemma {:induction false} MergeIsAssociative(S: Schema, plain: set<nat>, t: nat, a: Message, b: Message, c: Message)
    requires UnionFree(S, plain) && t in plain && Fit(S, t, a) && Fit(S, t, b) && Fit(S, t, c)
    ensures Merge(S, t, a, b).Some? && Merge(S, t, b, c).Some?
    ensures Merge(S, t, Merge(S, t, a, b).value, c) == Merge(S, t, a, Merge(S, t, b, c).value)
    ensures Merge(S, t, a, Merge(S, t, b, c).value).Some?
    decreases a, 1
  {
    hide FitSlot, MergeField, UnionFree;
    MergeIsTotal(S, plain, t, a, b);
    MergeIsTotal(S, plain, t, b, c);
    var ab, bc := Merge(S, t, a, b).value, Merge(S, t, b, c).value;
    MergeIsTotal(S, plain, t, ab, c);
    MergeIsTotal(S, plain, t, a, bc);
    var l, r := Merge(S, t, ab, c).value, Merge(S, t, a, bc).value;
    forall i | 0 <= i < |a.slots|
      ensures l.slots[i] == r.slots[i]
    {
      PlainField(S, plain, t, i);
      MergeFieldIsAssociative(S, plain, S[t].fields[i], a.slots[i], b.slots[i], c.slots[i]);
    }
    assert l.slots == r.slots;
  }

  lemma PlainField(S: Schema, plain: set<nat>, t: nat, i: nat)
    requires UnionFree(S, plain) && t in plain && i < |S[t].fields|
    ensures !InOneof(S[t].fields[i]) && (Merges(S[t].fields[i]) ==> S[t].fields[i].sub in plain)
  {
  }

  lemma {:induction false} MergeFieldIsAssociative(S: Schema, plain: set<nat>, f: Field, a: Slot, b: Slot, c: Slot)
    requires UnionFree(S, plain) && (Merges(f) ==> f.sub in plain) && !InOneof(f)
    requires FitSlot(S, f, a) && FitSlot(S, f, b) && FitSlot(S, f, c)
    ensures MergeField(S, f, a, b).Some? && MergeField(S, f, b, c).Some?
    ensures MergeField(S, f, MergeField(S, f, a, b).value, c) == MergeField(S, f, a, MergeField(S, f, b, c).value)
    decreases a, 0
  {
    hide Merge;
    MergeFieldIsTotal(S, plain, f, a, b);
    MergeFieldIsTotal(S, plain, f, b, c);
    if f.kind == Repeated {
      assert (a.vs + b.vs) + c.vs == a.vs + (b.vs + c.vs);
    } else if f.kind != Required && f.typ == Nested && a.Present? && b.Present? && c.Present? {
      MergeIsAssociative(S, plain, f.sub, a.v.m, b.v.m, c.v.m);
    }
  }

  // ----- what is decoded is fit for merging -----

  lemma {:induction false} MergeKeepsFit(S: Schema, t: nat, a: Message, b: Message)
    requires Fit(S, t, a) && Fit(S, t, b) && Merge(S, t, a, b).Some?
    ensures Fit(S, t, Merge(S, t, a, b).value)
    decreases a, 1
  {
    var m := Merge(S, t, a, b).value;
    MergeSlotsAt(S, t, a, b, 0);
    forall i | 0 <= i < |m.slots|
      ensures FitSlot(S, S[t].fields[i], m.slots[i])
    {
      assert MergeSlot(S, t, a, b, i) == Some(m.slots[i]);
      MergeFieldKeepsFit(S, S[t].fields[i], a.slots[i], b.slots[i]);
    }
    forall i, j | 0 <= i < j < |m.slots| && Siblings(S[t].fields[i], S[t].fields[j])
      ensures m.slots[i].Absent? || m.slots[j].Absent?
    {
      OneOfMerged(S, t, a, b, i, j);
    }
  }

  lemma OneOfMerged(S: Schema, t: nat, a: Message, b: Message, i: nat, j: nat)
    requires Fit(S, t, a) && Fit(S, t, b) && i < j < |a.slots| && Siblings(S[t].fields[i], S[t].fields[j])
    requires MergeSlot(S, t, a, b, i).Some? && MergeSlot(S, t, a, b, j).Some?
    ensures MergeSlot(S, t, a, b, i).value.Absent? || MergeSlot(S, t, a, b, j).value.Absent?
  {
    hide Merge, MergeField, FitSlot;
    SameUnion(S[t].fields, b.slots, S[t].fields[i], S[t].fields[j]);
    assert FitSlot(S, S[t].fields[i], b.slots[i]) && FitSlot(S, S[t].fields[j], b.slots[j]);
    if !Chosen(S[t].fields, b.slots, S[t].fields[i]) {
      UnchosenIsAbsent(S, t, b, i);
      UnchosenIsAbsent(S, t, b, j);
    }
  }

  lemma SameUnion(fields: seq<Field>, slots: seq<Slot>, f: Field, g: Field)
    requires Siblings(f, g)
    ensures Chosen(fields, slots, f) == Chosen(fields, slots, g)
  {
    if Chosen(fields, slots, f) {
      var k :| 0 <= k < |fields| && k < |slots| && Siblings(fields[k], f) && slots[k].Present?;
      assert Siblings(fields[k], g);
    }
    if Chosen(fields, slots, g) {
      var k :| 0 <= k < |fields| && k < |slots| && Siblings(fields[k], g) && slots[k].Present?;
      assert Siblings(fields[k], f);
    }
  }

  lemma UnchosenIsAbsent(S: Schema, t: nat, m: Message, i: nat)
    requires Fit(S, t, m) && i < |m.slots| && InOneof(S[t].fields[i]) && !Chosen(S[t].fields, m.slots, S[t].fields[i])
    ensures m.slots[i] == Absent
  {
    assert FitSlot(S, S[t].fields[i], m.slots[i]);
    assert Siblings(S[t].fields[i], S[t].fields[i]);
  }

  lemma {:induction false} MergeFieldKeepsFit(S: Schema, f: Field, a: Slot, b: Slot)
    requires FitSlot(S, f, a) && FitSlot(S, f, b)
    ensures MergeField(S, f, a, b).Some? ==> FitSlot(S, f, MergeField(S, f, a, b).value)
    decreases a, 0
  {
    if f.kind != Repeated && f.typ == Nested && HoldsMessage(a) && HoldsMessage(b) {
      if Merge(S, f.sub, a.v.m, b.v.m).Some? {
        MergeKeepsFit(S, f.sub, a.v.m, b.v.m);
      }
    }
  }

  lemma InitIsFit(S: Schema, t: nat)
    requires t < |S|
    ensures Fit(S, t, Init(S[t]))
  {
  }

  lemma {:induction false} ParseValueIsFit(S: Schema, f: Field, r: Record, there: Slot)
    requires ValidSchema(S) && ValidField(S, f) && Exact(r) && f.kind != Repeated
    requires there == Absent || FitSlot(S, f, there)
    ensures ParseValue(S, f, r, there).Some? ==> FitSlot(S, f, Present(ParseValue(S, f, r, there).value))
    decreases |r.data| + 1, 0
  {
    hide Exact, DecodeScalar, Decode, Body, Merge;
    if f.typ == Nested && r.wireType == WireType(f.typ) && Decode(S, f.sub, Body(r)).Some? {
      BodyIsShorter(r);
      DecodeIsFit(S, f.sub, Body(r));
      var m := Decode(S, f.sub, Body(r)).value;
      if HoldsMessage(there) && Merge(S, f.sub, there.v.m, m).Some? {
        MergeKeepsFit(S, f.sub, there.v.m, m);
      }
    }
  }

  lemma BodyIsShorter(r: Record)
    requires Exact(r) && r.wireType == WIRE_LENGTH_PREFIXED
    ensures |Body(r)| < |r.data|
  {
  }

  lemma {:induction false} StoreRecordIsFit(S: Schema, t: nat, r: Record, m: Message)
    requires ValidSchema(S) && Fit(S, t, m) && Exact(r)
    ensures StoreRecord(S, t, r, m).Some? ==> Fit(S, t, StoreRecord(S, t, r, m).value)
    decreases |r.data| + 1, 2
  {
    hide Exact, ParseValue, ParseElements;
    var res := StoreRecord(S, t, r, m);
    var found := Lookup(S[t].fields, r.tag);
    if res.Some? && found.Some? {
      var f := S[t].fields[found.value];
      if f.kind != Repeated {
        ParseValueIsFit(S, f, r, if InOneof(f) then Absent else m.slots[found.value]);
      }
      forall j | 0 <= j < |m.slots|
        ensures FitSlot(S, S[t].fields[j], res.value.slots[j])
      {
        assert FitSlot(S, S[t].fields[j], m.slots[j]);
      }
    }
  }

  lemma {:induction false} StoreAllIsFit(S: Schema, t: nat, rs: seq<Record>, m: Message)
    requires ValidSchema(S) && Fit(S, t, m) && AllExact(rs)
    ensures StoreAll(S, t, rs, m).Some? ==> Fit(S, t, StoreAll(S, t, rs, m).value)
    decreases Weight(rs), 3
  {
    hide Exact, StoreRecord;
    if rs == [] {
    } else {
      StoreRecordIsFit(S, t, rs[0], m);
      var next := StoreRecord(S, t, rs[0], m);
      if next.Some? {
        StoreAllIsFit(S, t, rs[1..], next.value);
      }
    }
  }

  lemma {:induction false} DecodeIsFit(S: Schema, t: nat, s: seq<byte>)
    requires ValidSchema(S) && t < |S|
    ensures Decode(S, t, s).Some? ==> Fit(S, t, Decode(S, t, s).value)
    decreases |s|, 5
  {
    hide Admissible, Scan, StoreAll;
    if Decode(S, t, s).Some? {
      ScannedAreExact(s);
      InitIsFit(S, t);
      StoreAllIsFit(S, t, Scan(s).value, Init(S[t]));
    }
  }

  // ----- the meaning of concatenation -----

  /** What decoding makes of field `i` given in one message and again in a later one: repeated fields are appended, a union keeps
      the later member if there is one, and for everything else the last one set wins, which is what the wire format makes of
      it; but sub-messages are merged by the code's own `Merge`, which is not. */
  function JoinSlot(S: Schema, t: nat, a: Message, b: Message, i: nat): Option<Slot>
    requires t < |S| && i < |S[t].fields| == |a.slots| == |b.slots|
  {
    var f, earlier, latter := S[t].fields[i], a.slots[i], b.slots[i];
    if InOneof(f) then Some(if Chosen(S[t].fields, b.slots, f) then latter else earlier)
    else JoinField(S, f, earlier, latter)
  }

  function JoinField(S: Schema, f: Field, earlier: Slot, latter: Slot): Option<Slot> {
    if f.kind == Repeated && earlier.Many? && latter.Many? then Some(Many(earlier.vs + latter.vs))
    else if Merges(f) && HoldsMessage(earlier) && HoldsMessage(latter) then
      match Merge(S, f.sub, earlier.v.m, latter.v.m)
      case None => None
      case Some(m) => Some(Present(Sub(m)))
    else Some(if latter.Absent? then earlier else latter)
  }

  predicate Joins(S: Schema, t: nat, a: Message, b: Message) {
    && t < |S| && |S[t].fields| == |a.slots| == |b.slots|
    && forall i :: 0 <= i < |a.slots| ==> JoinSlot(S, t, a, b, i).Some?
  }

  function Join(S: Schema, t: nat, a: Message, b: Message): Message
    requires Joins(S, t, a, b)
  {
    Message(seq(|a.slots|, i requires 0 <= i < |a.slots| => JoinSlot(S, t, a, b, i).value), a.unknown + b.unknown)
  }

  /** Optional, required and repeated fields and unions: proto2's labels. */
  predicate Proto2(d: Descriptor) {
    forall i :: 0 <= i < |d.fields| && d.fields[i].kind == Unlabeled ==> InOneof(d.fields[i])
  }

  /** What the schema needs for the law: the labels of proto2. `plain` are types known to have no unions. */
  predicate Lawful(S: Schema, t: nat, plain: set<nat>) {
    ValidSchema(S) && t < |S| && UnionFree(S, plain) && Proto2(S[t])
  }

  function Occurrences(id: uint32, rs: seq<Record>): nat {
    if rs == [] then 0 else (if rs[0].tag == id then 1 else 0) + Occurrences(id, rs[1..])
  }

  /** Where the sub-messages of a field may have unions, the records to come have one for it at most, and that only while
      the field is not set. Every encoder writes such records. */
  predicate Settled(S: Schema, t: nat, plain: set<nat>, rs: seq<Record>, b: Message) {
    && t < |S| && |b.slots| == |S[t].fields|
    && forall i :: 0 <= i < |b.slots| && Merges(S[t].fields[i]) && S[t].fields[i].sub !in plain ==>
      Occurrences(S[t].fields[i].id, rs) <= if b.slots[i].Absent? then 1 else 0
  }

  /** Without unions in what gets merged, every two messages join. */
  lemma JoinsAll(S: Schema, t: nat, plain: set<nat>, a: Message, b: Message)
    requires Lawful(S, t, plain) && MergesInto(S, t, plain) && Fit(S, t, a) && Fit(S, t, b)
    ensures Joins(S, t, a, b)
  {
    forall i | 0 <= i < |a.slots|
      ensures JoinSlot(S, t, a, b, i).Some?
    {
      var f := S[t].fields[i];
      if Merges(f) && HoldsMessage(a.slots[i]) && HoldsMessage(b.slots[i]) {
        MergeIsTotal(S, plain, f.sub, a.slots[i].v.m, b.slots[i].v.m);
      }
    }
  }

  /** Joining with a message just initialised changes nothing. */
  lemma JoinInit(S: Schema, t: nat, plain: set<nat>, a: Message)
    requires Lawful(S, t, plain) && Fit(S, t, a)
    ensures Joins(S, t, a, Init(S[t])) && Join(S, t, a, Init(S[t])) == a
  {
    InitIsFit(S, t);
    forall i | 0 <= i < |a.slots|
      ensures JoinSlot(S, t, a, Init(S[t]), i) == Some(a.slots[i])
    {
      assert FitSlot(S, S[t].fields[i], a.slots[i]);
      assert !Chosen(S[t].fields, Init(S[t]).slots, S[t].fields[i]);
      assert a.slots[i].Many? ==> a.slots[i].vs + [] == a.slots[i].vs;
    }
    var j := Join(S, t, a, Init(S[t]));
    assert j.slots == a.slots && a.unknown + [] == a.unknown;
  }

  // ----- storing into a message that something was joined to -----

  /** Storing one record of field `i` before or after joining an earlier message comes to the same, at that
      field: this is where merging has to be associative, unless the field was not set. */
  lemma StoreJoinField(S: Schema, t: nat, plain: set<nat>, r: Record, i: nat, a: Slot, b: Slot, j: Slot)
    requires Lawful(S, t, plain) && Exact(r) && i < |S[t].fields| && !InOneof(S[t].fields[i])
    requires S[t].fields[i].kind != Repeated && FitSlot(S, S[t].fields[i], a) && FitSlot(S, S[t].fields[i], b)
    requires Merges(S[t].fields[i]) ==> S[t].fields[i].sub in plain || b.Absent?
    requires JoinField(S, S[t].fields[i], a, b) == Some(j)
    ensures var f := S[t].fields[i];
      var v, v' := ParseValue(S, f, r, b), ParseValue(S, f, r, j);
      && (v.None? ==> v'.None?)
      && (v.Some? ==> JoinField(S, f, a, Present(v.value)) == if v'.Some? then Some(Present(v'.value)) else None)
  {
    hide Exact, DecodeScalar, Decode, Body, Merge;
    var f := S[t].fields[i];
    if f.typ != Nested || r.wireType != WireType(f.typ) || Decode(S, f.sub, Body(r)).None? {
      assert ParseValue(S, f, r, b) == ParseValue(S, f, r, j);
    } else if f.sub in plain {
      var c := Decode(S, f.sub, Body(r)).value;
      DecodeIsFit(S, f.sub, Body(r));
      if HoldsMessage(b) {
        MergeIsTotal(S, plain, f.sub, b.v.m, c);
      }
      if HoldsMessage(a) {
        MergeIsTotal(S, plain, f.sub, a.v.m, c);
        if HoldsMessage(b) {
          MergeIsAssociative(S, plain, f.sub, a.v.m, b.v.m, c);
        }
      }
    }
  }

  /** Writing slots of one union leaves every other union as it was. */
  lemma ChosenElsewhere(fields: seq<Field>, s: seq<Slot>, s': seq<Slot>, i: nat, f: Field)
    requires |s| == |s'| == |fields| && i < |fields| && !Siblings(fields[i], f)
    requires forall j :: 0 <= j < |s| && j != i && !Siblings(fields[j], fields[i]) ==> s'[j] == s[j]
    ensures Chosen(fields, s', f) == Chosen(fields, s, f)
  {
    if Chosen(fields, s, f) {
      var j :| 0 <= j < |s| && Siblings(fields[j], f) && s[j].Present?;
      assert s'[j].Present?;
    }
    if Chosen(fields, s', f) {
      var j :| 0 <= j < |s| && Siblings(fields[j], f) && s'[j].Present?;
      assert s[j].Present?;
    }
  }

  /** Storing record `r` into `a` joined with `b`, against storing it into `b` first and joining then. */
  ghost predicate Commutes(S: Schema, t: nat, r: Record, a: Message, b: Message)
    requires ValidSchema(S) && Exact(r) && Joins(S, t, a, b)
  {
    var x, y := StoreRecord(S, t, r, b), StoreRecord(S, t, r, Join(S, t, a, b));
    && (x.None? ==> y.None?)
    && (x.Some? ==> y == if Joins(S, t, a, x.value) then Some(Join(S, t, a, x.value)) else None)
  }

  /** What is to be stored meets the condition on sub-messages with unions. */
  predicate Storable(S: Schema, t: nat, plain: set<nat>, r: Record, b: Message)
    requires t < |S| && |b.slots| == |S[t].fields|
  {
    var i := Lookup(S[t].fields, r.tag);
    i.Some? && Merges(S[t].fields[i.value]) ==> S[t].fields[i.value].sub in plain || b.slots[i.value].Absent?
  }

  lemma JoinsWhenSlotsDo(S: Schema, t: nat, a: Message, b: Message, x: Message)
    requires Joins(S, t, a, b) && |x.slots| == |b.slots|
    requires forall k :: 0 <= k < |a.slots| ==> JoinSlot(S, t, a, x, k) == JoinSlot(S, t, a, b, k) || JoinSlot(S, t, a, x, k).Some?
    ensures Joins(S, t, a, x)
  {
    hide JoinSlot;
    assert forall k :: 0 <= k < |a.slots| ==> JoinSlot(S, t, a, b, k).Some?;
  }

  lemma StoreJoinUnion(S: Schema, t: nat, plain: set<nat>, r: Record, i: nat, a: Message, b: Message)
    requires Lawful(S, t, plain) && Fit(S, t, a) && Fit(S, t, b) && Exact(r) && Joins(S, t, a, b)
    requires Lookup(S[t].fields, r.tag) == Some(i) && InOneof(S[t].fields[i])
    ensures Commutes(S, t, r, a, b)
  {
    hide Exact, ParseValue, Merge, JoinField, Fit, UnionFree;
    StoreRecordIsFit(S, t, r, b);
    var fields, j := S[t].fields, Join(S, t, a, b);
    var x, y := StoreRecord(S, t, r, b), StoreRecord(S, t, r, j);
    if x.Some? {
      forall k | 0 <= k < |fields|
        ensures JoinSlot(S, t, a, x.value, k) == Some(y.value.slots[k])
      {
        assert JoinSlot(S, t, a, b, k) == Some(j.slots[k]);
        if Siblings(fields[k], fields[i]) {
          assert x.value.slots[i].Present? && Siblings(fields[i], fields[k]);
        } else {
          ChosenElsewhere(fields, b.slots, x.value.slots, i, fields[k]);
        }
      }
      assert Join(S, t, a, x.value).slots == y.value.slots;
    }
  }

  lemma StoreJoinSingle(S: Schema, t: nat, plain: set<nat>, r: Record, i: nat, a: Message, b: Message)
    requires Lawful(S, t, plain) && Fit(S, t, a) && Fit(S, t, b) && Exact(r) && Joins(S, t, a, b) && Storable(S, t, plain, r, b)
    requires Lookup(S[t].fields, r.tag) == Some(i) && !InOneof(S[t].fields[i]) && S[t].fields[i].kind != Repeated
    ensures Commutes(S, t, r, a, b)
  {
    hide Exact, ParseValue, Merge, JoinField, UnionFree;
    StoreRecordIsFit(S, t, r, b);
    var fields, j := S[t].fields, Join(S, t, a, b);
    assert JoinSlot(S, t, a, b, i) == Some(j.slots[i]);
    StoreJoinField(S, t, plain, r, i, a.slots[i], b.slots[i], j.slots[i]);
    var x, y := StoreRecord(S, t, r, b), StoreRecord(S, t, r, j);
    if x.Some? {
      forall k | 0 <= k < |fields| && k != i
        ensures JoinSlot(S, t, a, x.value, k) == Some(j.slots[k])
      {
        assert JoinSlot(S, t, a, b, k) == Some(j.slots[k]);
        ChosenElsewhere(fields, b.slots, x.value.slots, i, fields[k]);
      }
      assert JoinSlot(S, t, a, x.value, i) == if y.Some? then Some(y.value.slots[i]) else None;
      if y.Some? {
        assert Joins(S, t, a, x.value);
        assert Join(S, t, a, x.value).slots == y.value.slots;
      }
    }
  }

  /** Storing for a repeated field appends to its own slot. */
  lemma StoreRepeated(S: Schema, t: nat, r: Record, i: nat, m: Message)
    requires ValidSchema(S) && t < |S| && |m.slots| == |S[t].fields| && Exact(r)
    requires Lookup(S[t].fields, r.tag) == Some(i) && S[t].fields[i].kind == Repeated && m.slots[i].Many?
    ensures StoreRecord(S, t, r, m) == match ParseElements(S, S[t].fields[i], r)
      case None => None
      case Some(vs) => Some(m.(slots := m.slots[i := Many(m.slots[i].vs + vs)]))
  {
    hide Exact, ParseElements, Lookup;
  }

  /** Another repeated slot changes nothing in how a slot is joined. */
  lemma JoinElsewhere(S: Schema, t: nat, a: Message, b: Message, x: Message, i: nat, k: nat)
    requires t < |S| && i < |S[t].fields| == |a.slots| == |b.slots| == |x.slots| && k < |S[t].fields| && k != i
    requires S[t].fields[i].kind == Repeated && forall j :: 0 <= j < |b.slots| && j != i ==> x.slots[j] == b.slots[j]
    ensures JoinSlot(S, t, a, x, k) == JoinSlot(S, t, a, b, k)
  {
    if InOneof(S[t].fields[k]) {
      ChosenElsewhere(S[t].fields, b.slots, x.slots, i, S[t].fields[k]);
    }
  }

  lemma JoinAt(S: Schema, t: nat, a: Message, b: Message, k: nat)
    requires Joins(S, t, a, b) && k < |a.slots|
    ensures |Join(S, t, a, b).slots| == |a.slots| && JoinSlot(S, t, a, b, k) == Some(Join(S, t, a, b).slots[k])
  {
  }

  lemma JoinOfRepeatedAt(S: Schema, t: nat, a: Message, b: Message, i: nat)
    requires t < |S| && i < |S[t].fields| == |a.slots| == |b.slots|
    requires S[t].fields[i].kind == Repeated && a.slots[i].Many? && b.slots[i].Many?
    ensures JoinSlot(S, t, a, b, i) == Some(Many(a.slots[i].vs + b.slots[i].vs))
  {
  }

  lemma StoreJoinRepeated(S: Schema, t: nat, plain: set<nat>, r: Record, i: nat, a: Message, b: Message)
    requires Lawful(S, t, plain) && Fit(S, t, a) && Fit(S, t, b) && Exact(r) && Joins(S, t, a, b)
    requires Lookup(S[t].fields, r.tag) == Some(i) && S[t].fields[i].kind == Repeated
    ensures Commutes(S, t, r, a, b)
  {
    hide Exact, ParseElements, Merge, UnionFree, JoinField, JoinSlot, StoreRecord, Lookup, Proto2, FitSlot;
    StoreRecordIsFit(S, t, r, b);
    RepeatedIsMany(S, t, a, i);
    RepeatedIsMany(S, t, b, i);
    var fields, j := S[t].fields, Join(S, t, a, b);
    JoinAt(S, t, a, b, i);
    JoinOfRepeatedAt(S, t, a, b, i);
    StoreRepeated(S, t, r, i, b);
    StoreRepeated(S, t, r, i, j);
    if ParseElements(S, fields[i], r).Some? {
      StoreJoinElements(S, t, i, a, b, StoreRecord(S, t, r, b).value, ParseElements(S, fields[i], r).value);
    }
  }

  /** Elements appended to the latter message are those appended to the joined one. */
  lemma StoreJoinElements(S: Schema, t: nat, i: nat, a: Message, b: Message, x: Message, vs: seq<Value>)
    requires Joins(S, t, a, b)
    requires i < |S[t].fields| && S[t].fields[i].kind == Repeated && b.slots[i].Many? && a.slots[i].Many?
    requires x == b.(slots := b.slots[i := Many(b.slots[i].vs + vs)])
    ensures Joins(S, t, a, x)
    ensures var j := Join(S, t, a, b);
      j.slots[i] == Many(a.slots[i].vs + b.slots[i].vs) && Join(S, t, a, x) == j.(slots := j.slots[i := Many(j.slots[i].vs + vs)])
  {
    hide JoinSlot, JoinField, Join;
    JoinAt(S, t, a, b, i);
    JoinOfRepeatedAt(S, t, a, b, i);
    JoinOfRepeatedAt(S, t, a, x, i);
    forall k | 0 <= k < |a.slots| && k != i
      ensures JoinSlot(S, t, a, x, k) == JoinSlot(S, t, a, b, k)
    {
      JoinElsewhere(S, t, a, b, x, i, k);
    }
    JoinsWhenSlotsDo(S, t, a, b, x);
    JoinShape(S, t, a, b);
    JoinShape(S, t, a, x);
    assert (a.slots[i].vs + b.slots[i].vs) + vs == a.slots[i].vs + (b.slots[i].vs + vs);
    forall k | 0 <= k < |a.slots|
      ensures Join(S, t, a, x).slots[k] == if k == i then Many((a.slots[i].vs + b.slots[i].vs) + vs) else Join(S, t, a, b).slots[k]
    {
      JoinAt(S, t, a, x, k);
      JoinAt(S, t, a, b, k);
    }
  }

  lemma JoinShape(S: Schema, t: nat, a: Message, b: Message)
    requires Joins(S, t, a, b)
    ensures t < |S| && |S[t].fields| == |a.slots| == |b.slots| == |Join(S, t, a, b).slots|
    ensures Join(S, t, a, b).unknown == a.unknown + b.unknown
  {
  }

  lemma RepeatedIsMany(S: Schema, t: nat, m: Message, i: nat)
    requires Fit(S, t, m) && i < |m.slots| && S[t].fields[i].kind == Repeated
    ensures m.slots[i].Many?
  {
    assert FitSlot(S, S[t].fields[i], m.slots[i]);
  }

  lemma StoreJoin(S: Schema, t: nat, plain: set<nat>, r: Record, a: Message, b: Message)
    requires Lawful(S, t, plain) && Fit(S, t, a) && Fit(S, t, b) && Exact(r) && Joins(S, t, a, b) && Storable(S, t, plain, r, b)
    ensures Commutes(S, t, r, a, b)
  {
    hide Exact, ParseElements, ParseValue, JoinSlot, Fit, UnionFree;
    match Lookup(S[t].fields, r.tag)
    case None =>
      var x := b.(unknown := b.unknown + [r]);
      assert StoreRecord(S, t, r, b) == Some(x);
      forall k | 0 <= k < |a.slots|
        ensures JoinSlot(S, t, a, b, k) == JoinSlot(S, t, a, x, k)
      {
        SlotsOnly(S, t, a, b, x, k);
      }
      JoinsWhenSlotsDo(S, t, a, b, x);
      assert Join(S, t, a, x).slots == Join(S, t, a, b).slots;
      assert a.unknown + (b.unknown + [r]) == (a.unknown + b.unknown) + [r];
    case Some(i) =>
      if S[t].fields[i].kind == Repeated {
        StoreJoinRepeated(S, t, plain, r, i, a, b);
      } else if InOneof(S[t].fields[i]) {
        StoreJoinUnion(S, t, plain, r, i, a, b);
      } else {
        StoreJoinSingle(S, t, plain, r, i, a, b);
      }
  }

  lemma SlotsOnly(S: Schema, t: nat, a: Message, b: Message, b': Message, i: nat)
    requires t < |S| && i < |S[t].fields| == |a.slots| == |b.slots| && b'.slots == b.slots
    ensures JoinSlot(S, t, a, b, i) == JoinSlot(S, t, a, b', i)
  {
  }

  /** A record leaves a slot alone that is outside unions and of another id. */
  lemma StoreElsewhere(S: Schema, t: nat, r: Record, b: Message, i: nat)
    requires ValidSchema(S) && t < |S| && i < |b.slots| == |S[t].fields| && Exact(r)
    requires !InOneof(S[t].fields[i]) && r.tag != S[t].fields[i].id
    ensures var x := StoreRecord(S, t, r, b); x.Some? ==> x.value.slots[i] == b.slots[i]
  {
    hide Exact, ParseElements, ParseValue;
  }

  lemma {:induction false} StoreAllElsewhere(S: Schema, t: nat, rs: seq<Record>, b: Message, i: nat)
    requires ValidSchema(S) && t < |S| && i < |b.slots| == |S[t].fields| && AllExact(rs)
    requires !InOneof(S[t].fields[i]) && Occurrences(S[t].fields[i].id, rs) == 0
    ensures var x := StoreAll(S, t, rs, b); x.Some? ==> x.value.slots[i] == b.slots[i]
    decreases |rs|
  {
    hide Exact, StoreRecord;
    if rs == [] {
    } else {
      StoreElsewhere(S, t, rs[0], b, i);
      var next := StoreRecord(S, t, rs[0], b);
      if next.Some? {
        StoreAllElsewhere(S, t, rs[1..], next.value, i);
      }
    }
  }

  lemma SettledStep(S: Schema, t: nat, plain: set<nat>, rs: seq<Record>, b: Message)
    requires ValidSchema(S) && rs != [] && AllExact(rs) && Settled(S, t, plain, rs, b)
    ensures Storable(S, t, plain, rs[0], b)
    ensures var x := StoreRecord(S, t, rs[0], b); x.Some? ==> Settled(S, t, plain, rs[1..], x.value)
  {
    hide Exact, StoreRecord;
    var x := StoreRecord(S, t, rs[0], b);
    if x.Some? {
      forall i | 0 <= i < |b.slots| && Merges(S[t].fields[i]) && S[t].fields[i].sub !in plain
        ensures Occurrences(S[t].fields[i].id, rs[1..]) <= if x.value.slots[i].Absent? then 1 else 0
      {
        if rs[0].tag != S[t].fields[i].id {
          StoreElsewhere(S, t, rs[0], b, i);
        }
      }
    }
  }

  /** A slot that does not join is a set one of a field whose sub-messages may have unions. */
  lemma NoJoinAt(S: Schema, t: nat, plain: set<nat>, a: Message, b: Message, i: nat)
    requires Lawful(S, t, plain) && Fit(S, t, a) && Fit(S, t, b) && i < |a.slots| && JoinSlot(S, t, a, b, i).None?
    ensures Merges(S[t].fields[i]) && S[t].fields[i].sub !in plain && b.slots[i].Present?
  {
    hide Merge;
    var f := S[t].fields[i];
    assert FitSlot(S, f, a.slots[i]) && FitSlot(S, f, b.slots[i]);
    if f.sub in plain && Merges(f) && HoldsMessage(a.slots[i]) && HoldsMessage(b.slots[i]) {
      MergeIsTotal(S, plain, f.sub, a.slots[i].v.m, b.slots[i].v.m);
    }
  }

  /** What does not join, and gets no more records, never will. */
  lemma StaysApart(S: Schema, t: nat, plain: set<nat>, rs: seq<Record>, a: Message, b: Message)
    requires Lawful(S, t, plain) && Fit(S, t, a) && Fit(S, t, b) && AllExact(rs) && Settled(S, t, plain, rs, b)
    requires !Joins(S, t, a, b)
    ensures var x := StoreAll(S, t, rs, b); x.Some? ==> !Joins(S, t, a, x.value)
  {
    hide Exact, StoreAll, Fit, UnionFree, JoinField;
    assert |a.slots| == |b.slots| == |S[t].fields| by { FitLength(S, t, a); FitLength(S, t, b); }
    var i :| 0 <= i < |a.slots| && JoinSlot(S, t, a, b, i).None?;
    NoJoinAt(S, t, plain, a, b, i);
    StoreAllElsewhere(S, t, rs, b, i);
    var x := StoreAll(S, t, rs, b);
    if x.Some? {
      assert JoinSlot(S, t, a, x.value, i) == JoinSlot(S, t, a, b, i);
    }
  }

  lemma FitLength(S: Schema, t: nat, m: Message)
    requires Fit(S, t, m)
    ensures t < |S| && |m.slots| == |S[t].fields|
  {
  }

  /** Storing a whole run of records commutes with joining an earlier message. */
  lemma {:induction false} StoreAllJoin(S: Schema, t: nat, plain: set<nat>, rs: seq<Record>, a: Message, b: Message)
    requires Lawful(S, t, plain) && Fit(S, t, a) && Fit(S, t, b) && AllExact(rs)
    requires Joins(S, t, a, b) && Settled(S, t, plain, rs, b)
    ensures var x, y := StoreAll(S, t, rs, b), StoreAll(S, t, rs, Join(S, t, a, b));
      && (x.None? ==> y.None?)
      && (x.Some? ==> y == if Joins(S, t, a, x.value) then Some(Join(S, t, a, x.value)) else None)
    decreases |rs|
  {
    hide Exact, StoreRecord, Joins, Join, UnionFree, Fit, Settled, Storable;
    FitLength(S, t, a);
    FitLength(S, t, b);
    JoinShape(S, t, a, b);
    if rs == [] {
    } else {
      SettledStep(S, t, plain, rs, b);
      StoreJoin(S, t, plain, rs[0], a, b);
      StoreRecordIsFit(S, t, rs[0], b);
      var next := StoreRecord(S, t, rs[0], b);
      if next.Some? {
        if Joins(S, t, a, next.value) {
          StoreAllJoin(S, t, plain, rs[1..], a, next.value);
        } else {
          StaysApart(S, t, plain, rs[1..], a, next.value);
        }
      }
    }
  }

  lemma AdmissibleTogether(d: Descriptor, a: seq<Record>, b: seq<Record>)
    requires AllExact(a) && AllExact(b) && Admissible(d, a) && Admissible(d, b)
    ensures AllExact(a + b) && (Admissible(d, a + b) <==> |a| + |b| <= SLAB_CAPACITY)
  {
    hide Exact, Countable;
    forall i | 0 <= i < |d.fields| && d.fields[i].kind == Required
      ensures Seen(d.fields[i], a + b)
    {
      SeenInEither(d.fields[i], a, b);
    }
  }

  /** The concatenation law: if two byte strings decode, so does one after the other, to the join of the two messages, unless
      together they hold more records than the slabs, or two of their sub-messages do not merge. The second has each
      sub-message that may have unions once at most, and others as often as it likes. */
  lemma Concatenation(S: Schema, t: nat, plain: set<nat>, x: seq<byte>, y: seq<byte>)
    requires Lawful(S, t, plain) && Decode(S, t, x).Some? && Decode(S, t, y).Some?
    requires Settled(S, t, plain, Scan(y).value, Init(S[t]))
    ensures var a, b := Decode(S, t, x).value, Decode(S, t, y).value;
      Decode(S, t, x + y) ==
      if |Scan(x).value| + |Scan(y).value| <= SLAB_CAPACITY && Joins(S, t, a, b) then Some(Join(S, t, a, b)) else None
  {
    hide Admissible, Scan, StoreAll, Exact, Joins, Join, Fit, UnionFree, Settled, Init;
    var rx, ry := Scan(x).value, Scan(y).value;
    var a, b := Decode(S, t, x).value, Decode(S, t, y).value;
    ScannedAreExact(x);
    ScannedAreExact(y);
    ScanAppend(x, y);
    AdmissibleTogether(S[t], rx, ry);
    InitIsFit(S, t);
    InitLength(S[t]);
    StoreAllAppend(S, t, rx, ry, Init(S[t]));
    DecodeIsFit(S, t, x);
    JoinInit(S, t, plain, a);
    StoreAllJoin(S, t, plain, ry, a, Init(S[t]));
  }

  lemma PlainIsSettled(S: Schema, t: nat, plain: set<nat>, rs: seq<Record>, b: Message)
    requires t < |S| && MergesInto(S, t, plain) && |b.slots| == |S[t].fields|
    ensures Settled(S, t, plain, rs, b)
  {
  }

  /** Without unions in what gets merged, that is for any two byte strings that decode. */
  lemma ConcatenationWithoutUnions(S: Schema, t: nat, plain: set<nat>, x: seq<byte>, y: seq<byte>)
    requires Lawful(S, t, plain) && MergesInto(S, t, plain) && Decode(S, t, x).Some? && Decode(S, t, y).Some?
    ensures var a, b := Decode(S, t, x).value, Decode(S, t, y).value;
      && Joins(S, t, a, b)
      && Decode(S, t, x + y) ==
         if |Scan(x).value| + |Scan(y).value| <= SLAB_CAPACITY then Some(Join(S, t, a, b)) else None
  {
    hide Decode, Scan, Joins, Join, Fit, UnionFree, Init;
    InitLength(S[t]);
    DecodeIsFit(S, t, x);
    DecodeIsFit(S, t, y);
    JoinsAll(S, t, plain, Decode(S, t, x).value, Decode(S, t, y).value);
    DecodedScans(S, t, y);
    PlainIsSettled(S, t, plain, Scan(y).value, Init(S[t]));
    Concatenation(S, t, plain, x, y);
  }

  lemma DecodedScans(S: Schema, t: nat, s: seq<byte>)
    requires ValidSchema(S) && t < |S| && Decode(S, t, s).Some?
    ensures Scan(s).Some?
  {
  }

  // ----- encoded messages in particular -----

  lemma {:induction false} OccurrencesAppend(id: uint32, a: seq<Record>, b: seq<Record>)
    ensures Occurrences(id, a + b) == Occurrences(id, a) + Occurrences(id, b)
  {
    if a == [] {
      assert a + b == b;
    } else {
      OccurrencesAppend(id, a[1..], b);
      assert (a + b)[1..] == a[1..] + b;
    }
  }

  lemma {:induction false} NoOccurrence(id: uint32, rs: seq<Record>)
    requires forall r <- rs :: r.tag != id
    ensures Occurrences(id, rs) == 0
  {
    if rs == [] {
    } else {
      NoOccurrence(id, rs[1..]);
    }
  }

  lemma AtMostOne(id: uint32, rs: seq<Record>)
    requires |rs| <= 1
    ensures Occurrences(id, rs) <= 1
  {
    assert rs != [] ==> rs[1..] == [];
  }

  /** A field that is not repeated is written once at most. */
  lemma {:induction false} WrittenOnce(S: Schema, t: nat, m: Message, k: nat, i: nat)
    requires ValidSchema(S) && Shaped(S, t, m) && k < |m.slots| && i <= |m.slots| && S[t].fields[k].kind != Repeated
    ensures Occurrences(S[t].fields[k].id, FieldRecords(S, t, m, i)) <= if k < i then 0 else 1
    decreases |m.slots| - i
  {
    hide SlotRecords, ValidField, ShapedSlot;
    if i == |m.slots| {
    } else {
      WrittenOnce(S, t, m, k, i + 1);
      var f := S[t].fields[i];
      var own := SlotRecords(S, f, m.slots[i]);
      OccurrencesAppend(S[t].fields[k].id, own, FieldRecords(S, t, m, i + 1));
      SlotTags(S, f, m.slots[i]);
      if k == i {
        AtMostOne(f.id, own);
      } else {
        NoOccurrence(S[t].fields[k].id, own);
      }
    }
  }

  lemma SlotTags(S: Schema, f: Field, slot: Slot)
    requires ValidSchema(S) && ShapedSlot(S, f, slot) && ValidField(S, f)
    ensures forall r <- SlotRecords(S, f, slot) :: r.tag == f.id
    ensures f.kind != Repeated ==> |SlotRecords(S, f, slot)| <= 1
  {
  }

  lemma EncodedIsSettled(S: Schema, t: nat, m: Message)
    requires ValidSchema(S) && Shaped(S, t, m) && WellFormed(S, t, m)
    ensures Settled(S, t, {}, MessageRecords(S, t, m), Init(S[t]))
  {
    hide FieldRecords, SlotRecords, WellFormedValue, ShapedValue;
    forall i | 0 <= i < |m.slots|
      ensures Merges(S[t].fields[i]) ==> Occurrences(S[t].fields[i].id, MessageRecords(S, t, m)) <= 1
    {
      var f := S[t].fields[i];
      if Merges(f) {
        WrittenOnce(S, t, m, i, 0);
        NoOccurrence(f.id, m.unknown);
        OccurrencesAppend(f.id, FieldRecords(S, t, m, 0), m.unknown);
      }
    }
  }

  /** The encodings of any two messages of a type, one after the other, decode to the join of the two; or to nothing if they are
      too many records or two of their sub-messages do not merge. */
  lemma ConcatenationOfEncodings(S: Schema, t: nat, a: Message, b: Message)
    requires ValidSchema(S) && Shaped(S, t, a) && WellFormed(S, t, a) && Shaped(S, t, b) && WellFormed(S, t, b) && Proto2(S[t])
    ensures Decode(S, t, EncodeMessage(S, t, a) + EncodeMessage(S, t, b)) ==
      if |MessageRecords(S, t, a)| + |MessageRecords(S, t, b)| <= SLAB_CAPACITY && Joins(S, t, a, b) then Some(Join(S, t, a, b))
      else None
  {
    hide WellFormed, Scan, Decode, Serialize, Admissible, MessageRecords, Joins, Join, Init, Settled, Proto2;
    MessageRoundTrip(S, t, a);
    MessageRoundTrip(S, t, b);
    RecordsAreAdmissible(S, t, a);
    RecordsAreAdmissible(S, t, b);
    ScanSerialized(MessageRecords(S, t, a));
    ScanSerialized(MessageRecords(S, t, b));
    EncodedIsSettled(S, t, b);
    Concatenation(S, t, {}, EncodeMessage(S, t, a), EncodeMessage(S, t, b));
  }

  // ----- how far merge_messages keeps the law -----

  /** Merging gets stuck exactly on a union that neither message has set, here or in a pair of optional
      sub-messages. */
  predicate Stuck(S: Schema, t: nat, a: Message, b: Message)
    requires Fit(S, t, a) && Fit(S, t, b)
    decreases a, 1
  {
    exists i :: 0 <= i < |a.slots| && StuckAt(S, t, a, b, i)
  }

  predicate StuckAt(S: Schema, t: nat, a: Message, b: Message, i: nat)
    requires Fit(S, t, a) && Fit(S, t, b) && i < |a.slots|
    decreases a, 0
  {
    var f := S[t].fields[i];
    if InOneof(f) then !Chosen(S[t].fields, a.slots, f) && !Chosen(S[t].fields, b.slots, f)
    else
      && (f.kind == Optional || f.kind == Unlabeled) && f.typ == Nested
      && HoldsMessage(a.slots[i]) && HoldsMessage(b.slots[i])
      && FitSlot(S, f, a.slots[i]) && FitSlot(S, f, b.slots[i])
      && Stuck(S, f.sub, a.slots[i].v.m, b.slots[i].v.m)
  }

  lemma {:induction false} MergeFailsWhenStuck(S: Schema, t: nat, a: Message, b: Message)
    requires Fit(S, t, a) && Fit(S, t, b)
    ensures Merge(S, t, a, b).None? <==> Stuck(S, t, a, b)
    decreases a, 1
  {
    MergeSlotsAt(S, t, a, b, 0);
    forall i | 0 <= i < |a.slots|
      ensures MergeSlot(S, t, a, b, i).None? <==> StuckAt(S, t, a, b, i)
    {
      var f := S[t].fields[i];
      assert FitSlot(S, f, a.slots[i]) && FitSlot(S, f, b.slots[i]);
      if !InOneof(f) && f.typ == Nested && HoldsMessage(a.slots[i]) && HoldsMessage(b.slots[i]) {
        MergeFailsWhenStuck(S, f.sub, a.slots[i].v.m, b.slots[i].v.m);
      }
    }
  }

  /** Two messages join unless the sub-messages of some field are stuck. */
  lemma JoinsUnlessStuck(S: Schema, t: nat, a: Message, b: Message)
    requires Fit(S, t, a) && Fit(S, t, b)
    ensures Joins(S, t, a, b) <==> forall i :: 0 <= i < |a.slots| ==> !SubsStuck(S, S[t].fields[i], a.slots[i], b.slots[i])
  {
    hide Merge, Stuck;
    forall i | 0 <= i < |a.slots|
      ensures JoinSlot(S, t, a, b, i).None? <==> SubsStuck(S, S[t].fields[i], a.slots[i], b.slots[i])
    {
      var f := S[t].fields[i];
      assert FitSlot(S, f, a.slots[i]) && FitSlot(S, f, b.slots[i]);
      if Merges(f) && HoldsMessage(a.slots[i]) && HoldsMessage(b.slots[i]) {
        MergeFailsWhenStuck(S, f.sub, a.slots[i].v.m, b.slots[i].v.m);
      }
    }
  }

  predicate SubsStuck(S: Schema, f: Field, a: Slot, b: Slot) {
    && Merges(f) && HoldsMessage(a) && HoldsMessage(b)
    && Fit(S, f.sub, a.v.m) && Fit(S, f.sub, b.v.m) && Stuck(S, f.sub, a.v.m, b.v.m)
  }

  /** The earlier message adds nothing to the latter one. */
  predicate Absorbed(S: Schema, t: nat, a: Message, b: Message)
    requires Fit(S, t, a) && Fit(S, t, b)
    decreases a, 1
  {
    forall i :: 0 <= i < |a.slots| ==> AbsorbedAt(S, t, a, b, i)
  }

  predicate AbsorbedAt(S: Schema, t: nat, a: Message, b: Message, i: nat)
    requires Fit(S, t, a) && Fit(S, t, b) && i < |a.slots|
    decreases a, 0
  {
    var f := S[t].fields[i];
    assert FitSlot(S, f, a.slots[i]) && FitSlot(S, f, b.slots[i]);
    if InOneof(f) then Chosen(S[t].fields, b.slots, f) || (Chosen(S[t].fields, a.slots, f) && NoData(a.slots[i]))
    else AbsorbedSlot(S, f, a.slots[i], b.slots[i])
  }

  predicate AbsorbedSlot(S: Schema, f: Field, a: Slot, b: Slot)
    requires FitSlot(S, f, a) && FitSlot(S, f, b)
    decreases a, 0
  {
    if f.kind == Repeated then a.vs == []
    else if f.kind == Required then true
    else if f.typ == Bytes then NoData(a) || !NoData(b)
    else if f.typ == Nested && a.Present? && b.Present? then Absorbed(S, f.sub, a.v.m, b.v.m)
    else b.Absent? ==> a.Absent?
  }

  lemma {:induction false} MergeIsLatter(S: Schema, t: nat, a: Message, b: Message)
    requires Fit(S, t, a) && Fit(S, t, b)
    ensures Merge(S, t, a, b) == Some(b) <==> Absorbed(S, t, a, b)
    decreases a, 1
  {
    MergeSlotsAt(S, t, a, b, 0);
    forall i | 0 <= i < |a.slots|
      ensures MergeSlot(S, t, a, b, i) == Some(b.slots[i]) <==> AbsorbedAt(S, t, a, b, i)
    {
      MergeIsLatterAt(S, t, a, b, i);
    }
    if Absorbed(S, t, a, b) {
      assert Merge(S, t, a, b).Some?;
      assert Merge(S, t, a, b).value.slots == b.slots;
    }
  }

  lemma {:induction false} MergeIsLatterAt(S: Schema, t: nat, a: Message, b: Message, i: nat)
    requires Fit(S, t, a) && Fit(S, t, b) && i < |a.slots|
    ensures MergeSlot(S, t, a, b, i) == Some(b.slots[i]) <==> AbsorbedAt(S, t, a, b, i)
    decreases a, 0
  {
    hide Merge, Absorbed;
    var f, x, y := S[t].fields[i], a.slots[i], b.slots[i];
    assert FitSlot(S, f, x) && FitSlot(S, f, y);
    if InOneof(f) {
      if !Chosen(S[t].fields, b.slots, f) {
        UnchosenIsAbsent(S, t, b, i);
      }
    } else if f.kind == Repeated {
      assert x.vs + y.vs == y.vs <==> x.vs == [] by { assert |x.vs + y.vs| == |x.vs| + |y.vs|; assert [] + y.vs == y.vs; }
    } else if f.kind != Required && f.typ == Nested && x.Present? && y.Present? {
      MergeIsLatter(S, f.sub, x.v.m, y.v.m);
    }
  }

  /** Where merging does to field `i` what concatenation does. */
  predicate KeepsSlot(S: Schema, t: nat, a: Message, b: Message, i: nat)
    requires Fit(S, t, a) && Fit(S, t, b) && i < |a.slots|
  {
    var f, x, y := S[t].fields[i], a.slots[i], b.slots[i];
    assert FitSlot(S, f, x) && FitSlot(S, f, y);
    if InOneof(f) then
      Chosen(S[t].fields, b.slots, f) || (Chosen(S[t].fields, a.slots, f) && x != Present(Blob([])))
    else if f.kind == Repeated then true
    else if f.kind == Required then
      if f.typ == Nested && x.Present? && y.Present? then Absorbed(S, f.sub, x.v.m, y.v.m) else y.Absent? ==> x.Absent?
    else if f.typ == Bytes then
      !(x == Present(Blob([])) && y.Absent?) && !(!NoData(x) && y == Present(Blob([])))
    else true
  }

  predicate Keeps(S: Schema, t: nat, a: Message, b: Message)
    requires Fit(S, t, a) && Fit(S, t, b)
  {
    a.unknown == [] && forall i :: 0 <= i < |a.slots| ==> KeepsSlot(S, t, a, b, i)
  }

  lemma KeepsField(S: Schema, t: nat, a: Message, b: Message, i: nat)
    requires Fit(S, t, a) && Fit(S, t, b) && i < |a.slots| && JoinSlot(S, t, a, b, i).Some?
    ensures MergeSlot(S, t, a, b, i) == JoinSlot(S, t, a, b, i) <==> KeepsSlot(S, t, a, b, i)
  {
    hide Merge, Absorbed;
    var f, x, y := S[t].fields[i], a.slots[i], b.slots[i];
    assert FitSlot(S, f, x) && FitSlot(S, f, y);
    if InOneof(f) && !Chosen(S[t].fields, b.slots, f) {
      UnchosenIsAbsent(S, t, b, i);
    }
    if Merges(f) && x.Present? && y.Present? {
      MergeIsLatter(S, f.sub, x.v.m, y.v.m);
    }
  }

  /** Where two messages join, `merge_messages` gives the join if and only if every union is set in one of the two (and not to
      an empty byte string that would be lost), no empty byte string meets data or nothing, the required sub-messages of the
      earlier message add nothing, and it has no unknown fields. */
  lemma MergeKeepsJoin(S: Schema, t: nat, a: Message, b: Message)
    requires Fit(S, t, a) && Fit(S, t, b) && Joins(S, t, a, b)
    ensures Merge(S, t, a, b) == Some(Join(S, t, a, b)) <==> Keeps(S, t, a, b)
  {
    hide MergeSlot, JoinSlot, KeepsSlot, MergeSlots, FitSlot;
    MergeSlotsAt(S, t, a, b, 0);
    var j := Join(S, t, a, b);
    forall i | 0 <= i < |a.slots|
      ensures MergeSlot(S, t, a, b, i) == Some(j.slots[i]) <==> KeepsSlot(S, t, a, b, i)
    {
      KeepsField(S, t, a, b, i);
    }
    if Keeps(S, t, a, b) {
      assert MergesFrom(S, t, a, b, 0);
      var m := Merge(S, t, a, b).value;
      assert m.slots == j.slots;
      assert [] + b.unknown == b.unknown;
    } else if a.unknown != [] {
      assert |j.unknown| > |b.unknown|;
    }
  }

  /** So decoding the concatenation is merging the two decoded messages exactly when `Keeps` says so, or both fail. */
  lemma ConcatenationIsMerge(S: Schema, t: nat, plain: set<nat>, x: seq<byte>, y: seq<byte>)
    requires Lawful(S, t, plain) && Decode(S, t, x).Some? && Decode(S, t, y).Some?
    requires Settled(S, t, plain, Scan(y).value, Init(S[t]))
    requires |Scan(x).value| + |Scan(y).value| <= SLAB_CAPACITY
    ensures var a, b := Decode(S, t, x).value, Decode(S, t, y).value;
      && Fit(S, t, a) && Fit(S, t, b)
      && (Decode(S, t, x + y) == Merge(S, t, a, b) <==> if Joins(S, t, a, b) then Keeps(S, t, a, b) else Stuck(S, t, a, b))
  {
    hide Decode, Merge, Join, Joins, Scan, Keeps, Fit, Lawful, Stuck, Settled;
    assert ValidSchema(S) && t < |S| by { LawfulIsValid(S, t, plain); }
    DecodeIsFit(S, t, x);
    DecodeIsFit(S, t, y);
    Concatenation(S, t, plain, x, y);
    var a, b := Decode(S, t, x).value, Decode(S, t, y).value;
    if Joins(S, t, a, b) {
      MergeKeepsJoin(S, t, a, b);
    } else {
      MergeFailsWhenStuck(S, t, a, b);
    }
  }

  lemma LawfulIsValid(S: Schema, t: nat, plain: set<nat>)
    requires Lawful(S, t, plain)
    ensures ValidSchema(S) && t < |S|
  {
  }

  // ----- unions inside merged sub-messages break the law -----

  /** A further occurrence of a sub-message that by itself decodes is rejected exactly when the merge with
      the one already there is stuck. */
  lemma FurtherOccurrence(S: Schema, f: Field, r: Record, there: Slot)
    requires ValidSchema(S) && ValidField(S, f) && Merges(f) && Exact(r) && r.wireType == WIRE_LENGTH_PREFIXED
    requires HoldsMessage(there) && FitSlot(S, f, there) && Decode(S, f.sub, Body(r)).Some?
    ensures var c := Decode(S, f.sub, Body(r)).value;
      Fit(S, f.sub, c) && (ParseValue(S, f, r, there).None? <==> Stuck(S, f.sub, there.v.m, c))
  {
    hide Exact, Decode, Merge, Stuck, Fit;
    assert Fit(S, f.sub, there.v.m) by { FitInside(S, f, there); }
    DecodeIsFit(S, f.sub, Body(r));
    MergeFailsWhenStuck(S, f.sub, there.v.m, Decode(S, f.sub, Body(r)).value);
  }

  lemma FitInside(S: Schema, f: Field, slot: Slot)
    requires FitSlot(S, f, slot) && HoldsMessage(slot)
    ensures Fit(S, f.sub, slot.v.m)
  {
  }

  /** An outer message with one optional sub-message, whose type has nothing but a union. */
  const UNION_INSIDE: Schema := [
    Descriptor([Field(1, Nested, Optional, false, None, 1)]),
    Descriptor([Field(1, Int32, Optional, false, Some(0), 0)])]

  const NOTHING_SET: Message := Message([Absent], [])

  /** The sub-message given, and empty. */
  const EMPTY_SUB: Message := Message([Present(Sub(NOTHING_SET))], [])

  lemma InnerFacts()
    ensures ValidSchema(UNION_INSIDE) && Shaped(UNION_INSIDE, 1, NOTHING_SET)
    ensures EncodeMessage(UNION_INSIDE, 1, NOTHING_SET) == [] && WellFormed(UNION_INSIDE, 1, NOTHING_SET)
  {
    var S, m := UNION_INSIDE, NOTHING_SET;
    assert FieldRecords(S, 1, m, 0) == [] by { assert FieldRecords(S, 1, m, 1) == []; }
  }

  lemma OuterFacts()
    ensures ValidSchema(UNION_INSIDE) && Shaped(UNION_INSIDE, 0, EMPTY_SUB) && WellFormed(UNION_INSIDE, 0, EMPTY_SUB)
    ensures ShapedValue(UNION_INSIDE, UNION_INSIDE[0].fields[0], Sub(NOTHING_SET))
    ensures MessageRecords(UNION_INSIDE, 0, EMPTY_SUB) ==
      [ValueRecord(UNION_INSIDE, UNION_INSIDE[0].fields[0], Sub(NOTHING_SET))]
  {
    hide EncodeMessage, Payload;
    InnerFacts();
    var S, m := UNION_INSIDE, EMPTY_SUB;
    var f := S[0].fields[0];
    assert ShapedValue(S, f, Sub(NOTHING_SET)) && WellFormedValue(S, f, Sub(NOTHING_SET));
    var r := ValueRecord(S, f, Sub(NOTHING_SET));
    assert FieldRecords(S, 0, m, 1) == [];
    assert SlotRecords(S, f, m.slots[0]) == [r];
    assert FieldRecords(S, 0, m, 0) == [r] + [];
    assert MessageRecords(S, 0, m) == [r] + [];
  }

  /** Encoded once it decodes; the same bytes twice are refused, though each half decodes. */
  lemma UnsetUnionTwiceFails()
    ensures ValidSchema(UNION_INSIDE) && Shaped(UNION_INSIDE, 0, EMPTY_SUB)
    ensures var x := EncodeMessage(UNION_INSIDE, 0, EMPTY_SUB);
      Decode(UNION_INSIDE, 0, x) == Some(EMPTY_SUB) && Decode(UNION_INSIDE, 0, x + x) == None
  {
    hide Shaped, WellFormed, Scan, Decode, ScanPayload, Payload, Serialize, Admissible, MessageRecords;
    OuterFacts();
    var S, m := UNION_INSIDE, EMPTY_SUB;
    var r := ValueRecord(S, S[0].fields[0], Sub(NOTHING_SET));
    var x := EncodeMessage(S, 0, m);
    MessageRoundTrip(S, 0, m);
    RecordsAreAdmissible(S, 0, m);
    assert MessageRecords(S, 0, m)[0] == r;
    ScanSerialized([r]);
    ScanAppend(x, x);
    assert [r] + [r] == [r, r];
    StuckOnSecond(S, r, NOTHING_SET, x);
  }

  lemma StuckOnSecond(S: Schema, r: Record, inner: Message, x: seq<byte>)
    requires S == UNION_INSIDE && ValidSchema(S) && inner == NOTHING_SET && r.tag == 1
    requires Scan(x) == Some([r]) && Scan(x + x) == Some([r, r]) && Decode(S, 0, x) == Some(EMPTY_SUB)
    requires Exact(r) && r.wireType == WIRE_LENGTH_PREFIXED
    ensures Decode(S, 0, x + x) == None
  {
    hide Exact, Scan, Admissible, ParseValue, Countable, Body;
    ScannedAreExact(x);
    ScannedAreExact(x + x);
    InitLength(S[0]);
    StoreAllAppend(S, 0, [r], [r], Init(S[0]));
    assert [r] + [r] == [r, r];
    LookupFinds(S[0].fields, 0);
    assert StoreAll(S, 0, [r], Init(S[0])) == Some(EMPTY_SUB);
    var f := S[0].fields[0];
    assert !Chosen(S[1].fields, inner.slots, S[1].fields[0]);
    MergeSlotsAt(S, 1, inner, inner, 0);
    assert MergeSlot(S, 1, inner, inner, 0).None?;
    assert StoreRecord(S, 0, r, EMPTY_SUB).None? by { SecondParse(S, f, r, inner); }
  }

  lemma SecondParse(S: Schema, f: Field, r: Record, inner: Message)
    requires ValidSchema(S) && ValidField(S, f) && f.typ == Nested && Exact(r)
    requires Merge(S, f.sub, inner, inner) == None
    requires ParseValue(S, f, r, Absent) == Some(Sub(inner))
    ensures ParseValue(S, f, r, Present(Sub(inner))) == None
  {
  }
}
