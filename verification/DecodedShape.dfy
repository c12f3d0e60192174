/** Whatever bytes are decoded, the result is a message as the encoders take it. */
module DecodedShape {
  import opened Options
  import opened Varint
  import opened Wire
  import opened Schema
  import opened Scalars
  import opened Decoder
  import opened Concatenation

  /** The shape of its type, with every required member set and unknown fields that are whole records of unknown ids, down
      through all sub-messages and elements. */
  predicate Tidy(S: Schema, t: nat, m: Message)
    decreases m, 1
  {
    && Shaped(S, t, m)
    && (forall r <- m.unknown :: Exact(r) && Lookup(S[t].fields, r.tag).None?)
    && forall i :: 0 <= i < |m.slots| ==> TidySlot(S, S[t].fields[i], m.slots[i])
  }

  predicate TidySlot(S: Schema, f: Field, slot: Slot)
    decreases slot, 1
  {
    match slot
    case Absent => f.kind != Required
    case Present(v) => TidyValue(S, f, v)
    case Many(vs) => forall v <- vs :: TidyValue(S, f, v)
  }

  predicate TidyValue(S: Schema, f: Field, v: Value)
    decreases v, 1
  {
    v.Sub? ==> Tidy(S, f.sub, v.m)
  }

  // ----- merging keeps the shape -----

  lemma {:induction false} ShapedIsFit(S: Schema, t: nat, m: Message)
    requires Shaped(S, t, m)
    ensures Fit(S, t, m)
    decreases m
  {
    forall i | 0 <= i < |m.slots|
      ensures FitSlot(S, S[t].fields[i], m.slots[i])
    {
      var f, slot := S[t].fields[i], m.slots[i];
      assert ShapedSlot(S, f, slot);
      if slot.Present? && slot.v.Sub? {
        ShapedIsFit(S, f.sub, slot.v.m);
      }
    }
  }

  /** The slot is as a decoded message has it. */
  predicate GoodSlot(S: Schema, f: Field, slot: Slot) {
    ShapedSlot(S, f, slot) && TidySlot(S, f, slot)
  }

  predicate GoodValue(S: Schema, f: Field, v: Value) {
    ShapedValue(S, f, v) && TidyValue(S, f, v)
  }

  lemma {:induction false} MergeKeepsTidy(S: Schema, t: nat, a: Message, b: Message)
    requires Tidy(S, t, a) && Tidy(S, t, b) && Merge(S, t, a, b).Some?
    ensures Tidy(S, t, Merge(S, t, a, b).value)
    decreases a, 1
  {
    hide ShapedSlot, TidySlot;
    ShapedIsFit(S, t, a);
    ShapedIsFit(S, t, b);
    MergeKeepsFit(S, t, a, b);
    MergeSlotsAt(S, t, a, b, 0);
    var m := Merge(S, t, a, b).value;
    forall i | 0 <= i < |m.slots|
      ensures GoodSlot(S, S[t].fields[i], m.slots[i])
    {
      assert MergeSlot(S, t, a, b, i) == Some(m.slots[i]);
      assert GoodSlot(S, S[t].fields[i], a.slots[i]) && GoodSlot(S, S[t].fields[i], b.slots[i]);
      MergeFieldKeepsTidy(S, S[t].fields[i], a.slots[i], b.slots[i]);
    }
  }

  lemma {:induction false} MergeFieldKeepsTidy(S: Schema, f: Field, a: Slot, b: Slot)
    requires GoodSlot(S, f, a) && GoodSlot(S, f, b)
    ensures MergeField(S, f, a, b).Some? ==> GoodSlot(S, f, MergeField(S, f, a, b).value)
    decreases a, 0
  {
    hide Merge, Tidy, Shaped;
    if f.kind != Repeated && HoldsMessage(a) && HoldsMessage(b) && Merge(S, f.sub, a.v.m, b.v.m).Some? {
      SubIsTidy(S, f, a);
      SubIsTidy(S, f, b);
      MergeKeepsTidy(S, f.sub, a.v.m, b.v.m);
      var m := Merge(S, f.sub, a.v.m, b.v.m).value;
      TidyIsShaped(S, f.sub, m);
      assert f.typ == Nested ==> GoodValue(S, f, Sub(m));
    }
  }

  lemma SubIsTidy(S: Schema, f: Field, slot: Slot)
    requires GoodSlot(S, f, slot) && HoldsMessage(slot)
    ensures Tidy(S, f.sub, slot.v.m)
  {
    assert TidyValue(S, f, slot.v);
  }

  // ----- storing keeps it, but for the required members that are still missing -----

  predicate Started(S: Schema, t: nat, m: Message) {
    && t < |S|
    && |m.slots| == |S[t].fields|
    && (forall i :: 0 <= i < |m.slots| ==> StartedSlot(S, S[t].fields[i], m.slots[i]))
    && OneCase(S[t].fields, m.slots)
    && (forall r <- m.unknown :: Exact(r) && Lookup(S[t].fields, r.tag).None?)
  }

  predicate StartedSlot(S: Schema, f: Field, slot: Slot) {
    GoodSlot(S, f, slot) || (f.kind == Required && slot.Absent?)
  }

  lemma InitIsStarted(S: Schema, t: nat)
    requires t < |S|
    ensures Started(S, t, Init(S[t]))
  {
  }

  lemma {:induction false} ParsedIsGood(S: Schema, f: Field, r: Record, there: Slot)
    requires ValidSchema(S) && ValidField(S, f) && Exact(r)
    requires HoldsMessage(there) ==> GoodSlot(S, f, there)
    ensures ParseValue(S, f, r, there).Some? ==> GoodValue(S, f, ParseValue(S, f, r, there).value)
    decreases |r.data| + 1, 0
  {
    hide Exact, DecodeScalar, Decode, Body, Merge, Shaped, Tidy;
    if f.typ == Nested && r.wireType == WireType(f.typ) && Decode(S, f.sub, Body(r)).Some? {
      BodyIsShorter(r);
      DecodeIsTidy(S, f.sub, Body(r));
      var m := Decode(S, f.sub, Body(r)).value;
      TidyIsShaped(S, f.sub, m);
      if HoldsMessage(there) && Merge(S, f.sub, there.v.m, m).Some? {
        SubIsTidy(S, f, there);
        MergeKeepsTidy(S, f.sub, there.v.m, m);
        TidyIsShaped(S, f.sub, Merge(S, f.sub, there.v.m, m).value);
      }
    }
  }

  lemma TidyIsShaped(S: Schema, t: nat, m: Message)
    requires Tidy(S, t, m)
    ensures Shaped(S, t, m)
  {
  }

  lemma {:induction false} ElementsAreGood(S: Schema, f: Field, r: Record)
    requires ValidSchema(S) && ValidField(S, f) && Exact(r)
    ensures ParseElements(S, f, r).Some? ==> forall v <- ParseElements(S, f, r).value :: GoodValue(S, f, v)
    decreases |r.data| + 1, 1
  {
    hide Exact, ParseValue, PackedElements, PackedParses;
    if TakenAsPacked(f, r) {
      var vs := PackedElements(f.typ, Body(r));
      forall v | v in vs
        ensures GoodValue(S, f, v)
      {
        assert IsOf(f.typ, v);
      }
    } else {
      ParsedIsGood(S, f, r, Absent);
    }
  }

  lemma {:induction false} StoreRecordIsStarted(S: Schema, t: nat, r: Record, m: Message)
    requires ValidSchema(S) && Started(S, t, m) && Exact(r)
    ensures StoreRecord(S, t, r, m).Some? ==> Started(S, t, StoreRecord(S, t, r, m).value)
    decreases |r.data| + 1, 2
  {
    hide ParseValue, ParseElements, ShapedSlot, TidySlot, GoodValue, Exact, Lookup;
    var res, found := StoreRecord(S, t, r, m), Lookup(S[t].fields, r.tag);
    if res.Some? && found.Some? {
      var f, slot := S[t].fields[found.value], m.slots[found.value];
      assert StartedSlot(S, f, slot);
      if f.kind == Repeated {
        ElementsAreGood(S, f, r);
        AppendedIsGood(S, f, slot, ParseElements(S, f, r).value);
      } else {
        var there := if InOneof(f) then Absent else slot;
        ParsedIsGood(S, f, r, there);
        PresentIsGood(S, f, ParseValue(S, f, r, there).value);
      }
      forall j | 0 <= j < |m.slots|
        ensures StartedSlot(S, S[t].fields[j], res.value.slots[j])
      {
        assert StartedSlot(S, S[t].fields[j], m.slots[j]);
        ClearedIsGood(S, S[t].fields[j]);
      }
    }
  }

  lemma PresentIsGood(S: Schema, f: Field, v: Value)
    requires f.kind != Repeated && GoodValue(S, f, v)
    ensures GoodSlot(S, f, Present(v))
  {
  }

  lemma AppendedIsGood(S: Schema, f: Field, slot: Slot, vs: seq<Value>)
    requires f.kind == Repeated && StartedSlot(S, f, slot) && forall v <- vs :: GoodValue(S, f, v)
    ensures slot.Many? && GoodSlot(S, f, Appended(slot, vs))
  {
    assert slot.Many? ==> forall v <- slot.vs :: GoodValue(S, f, v);
  }

  lemma ClearedIsGood(S: Schema, f: Field)
    ensures InOneof(f) ==> GoodSlot(S, f, Absent)
  {
  }

  lemma {:induction false} StoreAllIsStarted(S: Schema, t: nat, rs: seq<Record>, m: Message)
    requires ValidSchema(S) && Started(S, t, m) && AllExact(rs)
    ensures StoreAll(S, t, rs, m).Some? ==> Started(S, t, StoreAll(S, t, rs, m).value)
    decreases Weight(rs), 3
  {
    hide Exact, StoreRecord, Started;
    assert |m.slots| == |S[t].fields| by { StartedLength(S, t, m); }
    if rs == [] {
    } else {
      StoreRecordIsStarted(S, t, rs[0], m);
      var next := StoreRecord(S, t, rs[0], m);
      if next.Some? {
        StoreAllIsStarted(S, t, rs[1..], next.value);
      }
    }
  }

  lemma StartedLength(S: Schema, t: nat, m: Message)
    requires Started(S, t, m)
    ensures t < |S| && |m.slots| == |S[t].fields|
  {
  }

  // ----- no required member is missing in the end -----

  /** A required member stays set, and its record sets it. */
  lemma StoreRecordSets(S: Schema, t: nat, r: Record, m: Message, i: nat)
    requires ValidSchema(S) && t < |S| && i < |m.slots| == |S[t].fields| && Exact(r) && S[t].fields[i].kind == Required
    ensures var res := StoreRecord(S, t, r, m);
      res.Some? && (m.slots[i].Present? || r.tag == S[t].fields[i].id) ==> res.value.slots[i].Present?
  {
    hide Exact, ParseValue, ParseElements, Lookup;
    LookupFinds(S[t].fields, i);
  }

  lemma {:induction false} StoreAllSets(S: Schema, t: nat, rs: seq<Record>, m: Message, i: nat)
    requires ValidSchema(S) && t < |S| && i < |m.slots| == |S[t].fields| && AllExact(rs) && S[t].fields[i].kind == Required
    requires m.slots[i].Present? || Seen(S[t].fields[i], rs)
    ensures StoreAll(S, t, rs, m).Some? ==> StoreAll(S, t, rs, m).value.slots[i].Present?
    decreases |rs|
  {
    hide Exact, StoreRecord;
    if rs == [] {
    } else {
      StoreRecordSets(S, t, rs[0], m, i);
      var next := StoreRecord(S, t, rs[0], m);
      if next.Some? {
        StoreAllSets(S, t, rs[1..], next.value, i);
      }
    }
  }

  lemma DecodeIsStoreAll(S: Schema, t: nat, s: seq<byte>)
    requires ValidSchema(S) && t < |S| && Decode(S, t, s).Some?
    ensures Scan(s).Some? && AllExact(Scan(s).value) && AllRequiredSeen(S[t], Scan(s).value)
    ensures StoreAll(S, t, Scan(s).value, Init(S[t])) == Decode(S, t, s)
  {
    hide Scan, StoreAll, Exact, Countable, Init, AllRequiredSeen;
    ScannedAreExact(s);
  }

  lemma {:induction false} DecodeIsTidy(S: Schema, t: nat, s: seq<byte>)
    requires ValidSchema(S) && t < |S|
    ensures Decode(S, t, s).Some? ==> Tidy(S, t, Decode(S, t, s).value)
    decreases |s|, 5
  {
    hide Decode, Scan, StoreAll, Exact, Init;
    if Decode(S, t, s).Some? {
      DecodeIsStoreAll(S, t, s);
      InitIsStarted(S, t);
      InitLength(S[t]);
      var rs, m := Scan(s).value, Decode(S, t, s).value;
      StoreAllIsStarted(S, t, rs, Init(S[t]));
      forall i | 0 <= i < |m.slots|
        ensures GoodSlot(S, S[t].fields[i], m.slots[i])
      {
        assert StartedSlot(S, S[t].fields[i], m.slots[i]);
        if S[t].fields[i].kind == Required {
          StoreAllSets(S, t, rs, Init(S[t]), i);
        }
      }
      forall r | r in m.unknown
        ensures r.wireType < 8
      {
        ExactWireType(r);
      }
    }
  }

  lemma ExactWireType(r: Record)
    requires Exact(r)
    ensures r.wireType < 8
  {
  }

  /** A decoded message has the shape of its type, down through all its sub-messages and elements: it is one the encoders
      accept, with every required member set. */
  lemma DecodeIsShaped(S: Schema, t: nat, s: seq<byte>)
    requires ValidSchema(S) && t < |S|
    ensures Decode(S, t, s).Some? ==> Shaped(S, t, Decode(S, t, s).value)
    ensures Decode(S, t, s).Some? ==> forall i :: 0 <= i < |S[t].fields| && S[t].fields[i].kind == Required ==>
      Decode(S, t, s).value.slots[i].Present?
  {
    hide Decode;
    DecodeIsTidy(S, t, s);
    if Decode(S, t, s).Some? {
      var m := Decode(S, t, s).value;
      forall i | 0 <= i < |m.slots| && S[t].fields[i].kind == Required
        ensures m.slots[i].Present?
      {
        assert TidySlot(S, S[t].fields[i], m.slots[i]) && ShapedSlot(S, S[t].fields[i], m.slots[i]);
      }
    }
  }
}
