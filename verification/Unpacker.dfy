/** `protobuf_c_message_unpack` as it runs: a scan into slabs with a cached last field and a bitmap of
    required fields, an allocation pass, and a parsing pass into a struct of fixed arrays. It is proved to
    compute `Decode`. */
module Unpacker {
  import opened Options
  import opened Varint
  import opened Wire
  import opened Schema
  import opened Scalars
  import opened Decoder
  import opened RoundTrip
  import opened Counting
  import opened Concatenation
  import opened IntRanges
  import opened Readers

  // ----- descriptors with their range tables -----

  datatype RangeTable = RangeTable(n: nat, ranges: seq<IntRange>)

  function Ids(fields: seq<Field>): (ids: seq<int>)
    ensures |ids| == |fields| && forall i :: 0 <= i < |ids| ==> ids[i] == fields[i].id
  {
    seq(|fields|, i requires 0 <= i < |fields| => fields[i].id)
  }

  /** The table is the one `WriteIntRanges` makes of the ids. */
  predicate TableOf(fields: seq<Field>, table: RangeTable) {
    && (table.n == 0 ==> fields == [])
    && (table.n > 0 ==> IsTable(Ids(fields), table.ranges) && |table.ranges| == table.n + 1)
  }

  predicate TablesOf(S: Schema, tables: seq<RangeTable>) {
    |tables| == |S| && forall t :: 0 <= t < |S| ==> TableOf(S[t].fields, tables[t])
  }

  /** The search by a tag, taken as an `int`, finds what a search through the descriptor finds. */
  method FieldIndex(S: Schema, d: Descriptor, table: RangeTable, tag: uint32) returns (r: Option<nat>)
    requires ValidDescriptor(S, d) && TableOf(d.fields, table)
    ensures r == Lookup(d.fields, tag)
  {
    hide IsTable, Lookup, IndexOf, Increasing, Ints;
    IdsIncrease(S, d);
    IdsAreInts(S, d);
    r := IntRangeLookup(Ids(d.fields), table.n, table.ranges, Signed32(tag));
    LookupIsIndex(S, d, tag);
  }

  lemma IdsIncrease(S: Schema, d: Descriptor)
    requires ValidDescriptor(S, d)
    ensures Increasing(Ids(d.fields))
  {
  }

  /** The ids of a descriptor are `int`s that do not reach INT_MAX, so there are fewer of them and none is lost. */
  lemma IdsAreInts(S: Schema, d: Descriptor)
    requires ValidDescriptor(S, d)
    ensures Ints(Ids(d.fields)) && (d.fields != [] ==> Ids(d.fields)[|d.fields| - 1] < INT_MAX)
  {
    if d.fields != [] {
      IdGrows(S, d, |d.fields| - 1);
    }
  }

  lemma {:induction false} IdGrows(S: Schema, d: Descriptor, i: nat)
    requires ValidDescriptor(S, d) && i < |d.fields|
    ensures i < d.fields[i].id
  {
    if i == 0 {
      assert ValidField(S, d.fields[0]);
    } else {
      IdGrows(S, d, i - 1);
      assert ValidField(S, d.fields[i]);
    }
  }

  lemma LookupIsIndex(S: Schema, d: Descriptor, tag: uint32)
    requires ValidDescriptor(S, d)
    ensures IndexOf(Ids(d.fields), Signed32(tag)) == Lookup(d.fields, tag)
  {
    IdsIncrease(S, d);
    var ids := Ids(d.fields);
    assert forall i :: 0 <= i < |ids| ==> d.fields[i] in d.fields && ValidField(S, d.fields[i]);
    var l := Lookup(d.fields, tag);
    if l.Some? {
      IndexIsUnique(ids, l.value);
    }
  }

  // ----- unions -----

  /** The case member of the union of `f`: the id of the member set, 0 for none. */
  method OneofCase(S: Schema, t: nat, slots: seq<Slot>, f: Field) returns (id: uint32, ghost at: nat)
    requires ValidSchema(S) && t < |S| && |slots| == |S[t].fields|
    ensures id == 0 <==> !Chosen(S[t].fields, slots, f)
    ensures id != 0 ==> at < |slots| && S[t].fields[at].id == id && Siblings(S[t].fields[at], f) && slots[at].Present?
  {
    at := 0;
    for i := 0 to |slots|
      invariant forall j :: 0 <= j < i ==> !(Siblings(S[t].fields[j], f) && slots[j].Present?)
    {
      if Siblings(S[t].fields[i], f) && slots[i].Present? {
        assert ValidField(S, S[t].fields[i]);
        return S[t].fields[i].id, i;
      }
    }
    id := 0;
  }

  lemma ZeroIsNoId(S: Schema, d: Descriptor)
    requires ValidDescriptor(S, d)
    ensures Lookup(d.fields, 0) == None
  {
    assert forall i :: 0 <= i < |d.fields| ==> ValidField(S, d.fields[i]);
  }

  // ----- merge_messages -----

  /** Whether the loop over the fields has dealt with slot `j` by the time it comes to field `i`: it is before
      `i`, or in the union of a field before `i`. */
  ghost predicate Settled(fields: seq<Field>, j: nat, i: nat)
    requires j < |fields|
  {
    j < i || exists k :: 0 <= k < i && k < |fields| && Siblings(fields[k], fields[j])
  }

  /** What the latter message looks like when the loop comes to field `i`. */
  ghost predicate MergedUpTo(S: Schema, t: nat, a: Message, b: Message, slots: seq<Slot>, i: nat)
    requires t < |S| && |S[t].fields| == |a.slots| == |b.slots| == |slots|
  {
    forall j :: 0 <= j < |slots| ==>
      if Settled(S[t].fields, j, i) then MergeSlot(S, t, a, b, j) == Some(slots[j]) else slots[j] == b.slots[j]
  }

  lemma OutsideUnion(S: Schema, t: nat, a: Message, b: Message, slots: seq<Slot>, i: nat)
    requires t < |S| && |S[t].fields| == |a.slots| == |b.slots| == |slots| && i < |slots|
    requires MergedUpTo(S, t, a, b, slots, i) && !InOneof(S[t].fields[i])
    ensures slots[i] == b.slots[i]
    ensures forall s: Slot :: MergeSlot(S, t, a, b, i) == Some(s) ==> MergedUpTo(S, t, a, b, slots[i := s], i + 1)
  {
    hide MergeSlot;
    assert !Settled(S[t].fields, i, i);
    forall s: Slot | MergeSlot(S, t, a, b, i) == Some(s)
      ensures MergedUpTo(S, t, a, b, slots[i := s], i + 1)
    {
      forall j | 0 <= j < |slots|
        ensures j != i ==> Settled(S[t].fields, j, i + 1) == Settled(S[t].fields, j, i)
      {
        if j != i && Settled(S[t].fields, j, i + 1) && j >= i {
          var k :| 0 <= k < i + 1 && Siblings(S[t].fields[k], S[t].fields[j]);
          assert k < i;
        }
      }
    }
  }

  /** A union dealt with before: it is set, or neither message has data for it and nothing more is done. */
  lemma SettledUnion(S: Schema, t: nat, a: Message, b: Message, slots: seq<Slot>, i: nat)
    requires Fit(S, t, a) && Fit(S, t, b) && |slots| == |a.slots| && i < |slots|
    requires MergedUpTo(S, t, a, b, slots, i) && InOneof(S[t].fields[i]) && Settled(S[t].fields, i, i)
    ensures MergedUpTo(S, t, a, b, slots, i + 1)
    ensures !Chosen(S[t].fields, slots, S[t].fields[i]) ==> Chosen(S[t].fields, a.slots, S[t].fields[i])
    ensures forall j :: 0 <= j < |slots| && Siblings(S[t].fields[j], S[t].fields[i]) && !NoData(a.slots[j]) ==>
      Chosen(S[t].fields, slots, S[t].fields[i])
  {
    hide MergeField, Merge;
    var fields, f := S[t].fields, S[t].fields[i];
    assert Siblings(f, f);
    forall j | 0 <= j < |slots|
      ensures Settled(fields, j, i + 1) == Settled(fields, j, i)
    {
      if Settled(fields, j, i + 1) && j >= i {
        SettledTogether(fields, i, j, i);
      }
    }
    forall j | 0 <= j < |slots| && Siblings(fields[j], f)
      ensures MergeSlot(S, t, a, b, j) == Some(slots[j])
    {
      SettledTogether(fields, i, j, i);
    }
    if Chosen(fields, b.slots, f) {
      ChosenCarries(S, t, a, b, slots, f);
    } else {
      forall j | 0 <= j < |slots| && Siblings(fields[j], f) && !NoData(a.slots[j])
        ensures Chosen(fields, slots, f)
      {
        SameUnion(fields, b.slots, fields[j], f);
        assert FitSlot(S, fields[j], a.slots[j]);
        assert slots[j].Present?;
      }
    }
  }

  lemma ChosenCarries(S: Schema, t: nat, a: Message, b: Message, slots: seq<Slot>, f: Field)
    requires t < |S| && |S[t].fields| == |a.slots| == |b.slots| == |slots| && Chosen(S[t].fields, b.slots, f)
    requires forall j :: 0 <= j < |slots| && Siblings(S[t].fields[j], f) ==> MergeSlot(S, t, a, b, j) == Some(slots[j])
    ensures Chosen(S[t].fields, slots, f)
  {
    var k :| 0 <= k < |slots| && Siblings(S[t].fields[k], f) && b.slots[k].Present?;
    SameUnion(S[t].fields, b.slots, S[t].fields[k], f);
    assert slots[k] == b.slots[k];
  }

  lemma SettledTogether(fields: seq<Field>, i: nat, j: nat, n: nat)
    requires i < |fields| && j < |fields| && n <= i && InOneof(fields[i]) && Settled(fields, i, n)
    ensures Siblings(fields[j], fields[i]) ==> Settled(fields, j, n)
    ensures Settled(fields, j, n + 1) && n == i ==> Settled(fields, j, n) 
  {
    var k :| 0 <= k < n && Siblings(fields[k], fields[i]);
    if Siblings(fields[j], fields[i]) {
      assert Siblings(fields[k], fields[j]);
    }
    if Settled(fields, j, n + 1) && n == i && !(j < n) {
      if j == n {
        assert Settled(fields, j, n);
      } else {
        var k' :| 0 <= k' < n + 1 && Siblings(fields[k'], fields[j]);
        if k' == n {
          assert Siblings(fields[k], fields[j]);
        }
      }
    }
  }

  /** A union dealt with now: `k` is the member the earlier message has set. */
  lemma SettleUnion(S: Schema, t: nat, a: Message, b: Message, slots: seq<Slot>, slots': seq<Slot>, i: nat, k: nat)
    requires Fit(S, t, a) && Fit(S, t, b) && |slots| == |slots'| == |a.slots| && i < |slots| && k < |slots|
    requires MergedUpTo(S, t, a, b, slots, i) && InOneof(S[t].fields[i]) && !Settled(S[t].fields, i, i)
    requires !Chosen(S[t].fields, b.slots, S[t].fields[i])
    requires Siblings(S[t].fields[k], S[t].fields[i]) && a.slots[k].Present?
    requires slots' == if NoData(a.slots[k]) then slots else slots[k := a.slots[k]]
    ensures MergedUpTo(S, t, a, b, slots', i + 1)
  {
    hide MergeField, Merge;
    var fields, f := S[t].fields, S[t].fields[i];
    forall j | 0 <= j < |slots|
      ensures if Settled(fields, j, i + 1) then MergeSlot(S, t, a, b, j) == Some(slots'[j]) else slots'[j] == b.slots[j]
    {
      if Siblings(fields[j], f) {
        SameUnion(fields, b.slots, fields[j], f);
        SameUnion(fields, a.slots, fields[j], f);
        UnchosenIsAbsent(S, t, b, j);
        assert Siblings(fields[i], fields[j]) && Settled(fields, j, i + 1);
        UnsettledTogether(fields, i, j);
        if j != k {
          assert a.slots[j].Absent? by { OnlyOne(S, t, a, j, k); }
        }
      } else {
        assert j != k;
        SettledElsewhere(fields, i, j);
      }
    }
  }

  lemma OnlyOne(S: Schema, t: nat, m: Message, j: nat, k: nat)
    requires Fit(S, t, m) && j < |m.slots| && k < |m.slots| && j != k && Siblings(S[t].fields[j], S[t].fields[k])
    requires m.slots[k].Present?
    ensures m.slots[j].Absent?
  {
    assert Siblings(S[t].fields[k], S[t].fields[j]);
  }

  lemma UnsettledTogether(fields: seq<Field>, i: nat, j: nat)
    requires i < |fields| && j < |fields| && !Settled(fields, i, i) && Siblings(fields[j], fields[i])
    ensures !Settled(fields, j, i)
  {
    if Settled(fields, j, i) {
      SettledWith(fields, i, j);
    }
  }

  lemma SettledWith(fields: seq<Field>, i: nat, j: nat)
    requires i < |fields| && j < |fields| && Settled(fields, j, i) && Siblings(fields[j], fields[i])
    ensures Settled(fields, i, i)
  {
    if j >= i {
      var k :| 0 <= k < i && Siblings(fields[k], fields[j]);
      assert Siblings(fields[k], fields[i]);
    }
  }

  lemma SettledElsewhere(fields: seq<Field>, i: nat, j: nat)
    requires i < |fields| && j < |fields| && InOneof(fields[i]) && !Siblings(fields[j], fields[i])
    ensures Settled(fields, j, i + 1) == Settled(fields, j, i)
  {
    assert Siblings(fields[i], fields[i]);
    if Settled(fields, j, i + 1) && !(j < i) {
      assert j != i;
      var k :| 0 <= k < i + 1 && Siblings(fields[k], fields[j]);
      assert k < i;
    }
  }

  /** A union the latter message has set: all its slots stay as they are. */
  lemma KeepUnion(S: Schema, t: nat, a: Message, b: Message, slots: seq<Slot>, i: nat)
    requires Fit(S, t, a) && Fit(S, t, b) && |slots| == |a.slots| && i < |slots|
    requires MergedUpTo(S, t, a, b, slots, i) && InOneof(S[t].fields[i]) && !Settled(S[t].fields, i, i)
    requires Chosen(S[t].fields, b.slots, S[t].fields[i])
    ensures MergedUpTo(S, t, a, b, slots, i + 1)
  {
    hide MergeField, Merge;
    var fields, f := S[t].fields, S[t].fields[i];
    forall j | 0 <= j < |slots|
      ensures if Settled(fields, j, i + 1) then MergeSlot(S, t, a, b, j) == Some(slots[j]) else slots[j] == b.slots[j]
    {
      if Siblings(fields[j], f) {
        SameUnion(fields, b.slots, fields[j], f);
        UnsettledTogether(fields, i, j);
      } else {
        SettledElsewhere(fields, i, j);
      }
    }
  }

  /** In a union not dealt with yet, the latter message is as it came. */
  lemma UnsettledUnion(S: Schema, t: nat, a: Message, b: Message, slots: seq<Slot>, i: nat)
    requires t < |S| && |S[t].fields| == |a.slots| == |b.slots| == |slots| && i < |slots|
    requires MergedUpTo(S, t, a, b, slots, i) && InOneof(S[t].fields[i]) && !Settled(S[t].fields, i, i)
    ensures Chosen(S[t].fields, slots, S[t].fields[i]) == Chosen(S[t].fields, b.slots, S[t].fields[i])
    ensures forall j :: 0 <= j < |slots| && Siblings(S[t].fields[j], S[t].fields[i]) ==> slots[j] == b.slots[j]
  {
    hide MergeSlot;
    var fields, f := S[t].fields, S[t].fields[i];
    forall j | 0 <= j < |slots| && Siblings(fields[j], f)
      ensures slots[j] == b.slots[j]
    {
      UnsettledTogether(fields, i, j);
    }
    if Chosen(fields, b.slots, f) {
      var k :| 0 <= k < |fields| && Siblings(fields[k], f) && b.slots[k].Present?;
      assert slots[k].Present?;
    }
  }

  /** `merge_messages`: the slots of the latter message are filled in from the earlier one. It returns FALSE,
      here `None`, when a union is set in neither. */
  method MergeMessages(S: Schema, tables: seq<RangeTable>, t: nat, a: Message, b: Message) returns (r: Option<Message>)
    requires ValidSchema(S) && TablesOf(S, tables) && Fit(S, t, a) && Fit(S, t, b)
    ensures r == Merge(S, t, a, b)
    decreases a, 1
  {
    hide Merge, MergeField, MergedUpTo, Settled, TableOf, Chosen;
    var fields := S[t].fields;
    var slots := b.slots;
    assert MergedUpTo(S, t, a, b, slots, 0) by { NothingSettled(S, t, a, b); }
    for i := 0 to |fields|
      invariant |slots| == |fields|
      invariant MergedUpTo(S, t, a, b, slots, i)
    {
      var f := fields[i];
      if f.kind == Repeated || f.kind == Required || !InOneof(f) {
        OutsideUnion(S, t, a, b, slots, i);
        var s := MergePlain(S, tables, f, a.slots[i], slots[i]);
        if s.None? {
          MergeFails(S, t, a, b, i);
          return None;
        }
        slots := slots[i := s.value];
      } else {
        var s := MergeUnion(S, tables, t, a, b, slots, i);
        if s.None? {
          MergeFails(S, t, a, b, i);
          return None;
        }
        slots := s.value;
      }
    }
    AllSettled(S, t, a, b, slots);
    r := Some(Message(slots, b.unknown));
  }

  lemma NothingSettled(S: Schema, t: nat, a: Message, b: Message)
    requires t < |S| && |S[t].fields| == |a.slots| == |b.slots|
    ensures MergedUpTo(S, t, a, b, b.slots, 0)
  {
  }

  lemma MergeFails(S: Schema, t: nat, a: Message, b: Message, i: nat)
    requires t < |S| && i < |S[t].fields| == |a.slots| == |b.slots| && MergeSlot(S, t, a, b, i).None?
    ensures Merge(S, t, a, b).None?
  {
    MergeSlotsAt(S, t, a, b, 0);
    if MergesFrom(S, t, a, b, 0) {
      MergesAt(S, t, a, b, i);
    }
  }

  lemma MergesAt(S: Schema, t: nat, a: Message, b: Message, i: nat)
    requires t < |S| && i < |S[t].fields| == |a.slots| == |b.slots| && MergesFrom(S, t, a, b, 0)
    ensures MergeSlot(S, t, a, b, i).Some?
  {
  }

  lemma AllSettled(S: Schema, t: nat, a: Message, b: Message, slots: seq<Slot>)
    requires t < |S| && |S[t].fields| == |a.slots| == |b.slots| == |slots|
    requires MergedUpTo(S, t, a, b, slots, |slots|)
    ensures Merge(S, t, a, b) == Some(Message(slots, b.unknown))
  {
    forall j | 0 <= j < |slots|
      ensures MergeSlot(S, t, a, b, j) == Some(slots[j])
    {
      assert Settled(S[t].fields, j, |slots|);
    }
    MergeSlotsAt(S, t, a, b, 0);
    assert MergesFrom(S, t, a, b, 0);
    assert MergeSlots(S, t, a, b, 0).value == slots;
  }

  /** The turn of the loop for a field outside any union. */
  method MergePlain(S: Schema, tables: seq<RangeTable>, f: Field, earlier: Slot, latter: Slot) returns (r: Option<Slot>)
    requires ValidSchema(S) && TablesOf(S, tables) && FitSlot(S, f, earlier) && FitSlot(S, f, latter)
    ensures r == MergeField(S, f, earlier, latter)
    decreases earlier, 2
  {
    hide Merge, TableOf;
    if f.kind == Repeated {
      if |earlier.vs| > 0 {
        if |latter.vs| > 0 {
          return Some(Many(earlier.vs + latter.vs));
        }
        assert earlier.vs + latter.vs == earlier.vs;
        return Some(earlier);
      }
      assert earlier.vs + latter.vs == latter.vs;
      return Some(latter);
    }
    if f.kind == Required {
      return Some(latter);
    }
    r := MergeOptional(S, tables, f, earlier, latter);
  }

  method MergeOptional(S: Schema, tables: seq<RangeTable>, f: Field, earlier: Slot, latter: Slot) returns (r: Option<Slot>)
    requires ValidSchema(S) && TablesOf(S, tables) && FitSlot(S, f, earlier) && FitSlot(S, f, latter)
    requires f.kind == Optional || f.kind == Unlabeled
    ensures r == MergeField(S, f, earlier, latter)
    decreases earlier, 1
  {
    hide Merge, TableOf;
    var needToMerge := false;
    if f.typ == Nested {
      if earlier.Present? {
        if latter.Present? {
          var m := MergeMessages(S, tables, f.sub, earlier.v.m, latter.v.m);
          return if m.None? then None else Some(Present(Sub(m.value)));
        }
        needToMerge := true;
      }
    } else if f.typ == Bytes {
      needToMerge := !NoData(earlier) && NoData(latter);
    } else {
      needToMerge := earlier.Present? && latter.Absent?;
    }
    r := Some(if needToMerge then earlier else latter);
  }

  /** The turn of the loop for a union member. */
  method MergeUnion(S: Schema, tables: seq<RangeTable>, t: nat, a: Message, b: Message, slots: seq<Slot>, i: nat)
    returns (r: Option<seq<Slot>>)
    requires ValidSchema(S) && TablesOf(S, tables) && Fit(S, t, a) && Fit(S, t, b)
    requires i < |slots| == |S[t].fields| && InOneof(S[t].fields[i]) && MergedUpTo(S, t, a, b, slots, i)
    ensures r.None? ==> MergeSlot(S, t, a, b, i).None?
    ensures r.Some? ==> |r.value| == |slots| && MergedUpTo(S, t, a, b, r.value, i + 1)
  {
    hide Merge, MergeField, MergedUpTo, Settled, TableOf, Chosen, Lookup;
    var fields, f := S[t].fields, S[t].fields[i];
    var latterCase, _ := OneofCase(S, t, slots, f);
    if latterCase != 0 {
      // A member set in the latter message stays, and the earlier one's is not looked at.
      if Settled(fields, i, i) {
        SettledUnion(S, t, a, b, slots, i);
      } else {
        UnsettledUnion(S, t, a, b, slots, i);
        KeepUnion(S, t, a, b, slots, i);
      }
      return Some(slots);
    }
    var earlierCase, at := OneofCase(S, t, a.slots, f);
    var fieldIndex := FieldIndex(S, S[t], tables[t], earlierCase);
    if Settled(fields, i, i) {
      SettledUnion(S, t, a, b, slots, i);
    } else {
      UnsettledUnion(S, t, a, b, slots, i);
    }
    if earlierCase == 0 {
      ZeroIsNoId(S, S[t]);
    } else {
      LookupFinds(fields, at);
    }
    if fieldIndex.None? {
      return None;
    }
    var k := fieldIndex.value;
    // The union in the latter message is zeroed memory: only the pointer of a byte string tells it from data.
    var merged := if NoData(a.slots[k]) then slots else slots[k := a.slots[k]];
    if !Settled(fields, i, i) {
      SettleUnion(S, t, a, b, slots, merged, i, k);
    }
    r := Some(merged);
  }

  // ----- the slabs of scanned members -----

  /** A member as the scan leaves it: the field found for it, and its bytes with their prefix length. */
  datatype ScannedMember = ScannedMember(tag: uint32, wireType: nat, prefixLen: nat, field: Option<nat>, data: seq<byte>)

  ghost predicate Holds(d: Descriptor, m: ScannedMember, r: Record) {
    && Exact(r) && m.tag == r.tag && m.wireType == r.wireType && m.data == r.data
    && m.prefixLen == PrefixLength(r) && m.field == Lookup(d.fields, r.tag)
  }

  const FIRST_SLAB_SIZE := 16
  const MAX_SLAB := 22

  function Pow2(k: nat): (p: nat)
    ensures p >= 1
  {
    if k == 0 then 1 else 2 * Pow2(k - 1)
  }

  /** Each slab is twice the one before; all but the last are full. */
  predicate SlabsShape(slabs: seq<seq<ScannedMember>>) {
    && 1 <= |slabs| <= MAX_SLAB + 1
    && (forall k :: 0 <= k < |slabs| - 1 ==> |slabs[k]| == FIRST_SLAB_SIZE * Pow2(k))
    && |slabs[|slabs| - 1]| <= FIRST_SLAB_SIZE * Pow2(|slabs| - 1)
  }

  /** The members of the slabs in the order they are replayed. */
  function Flat(slabs: seq<seq<ScannedMember>>): seq<ScannedMember> {
    if slabs == [] then [] else Flat(slabs[..|slabs| - 1]) + slabs[|slabs| - 1]
  }

  lemma {:induction false} FullSlabs(slabs: seq<seq<ScannedMember>>)
    requires forall k :: 0 <= k < |slabs| ==> |slabs[k]| == FIRST_SLAB_SIZE * Pow2(k)
    ensures |Flat(slabs)| == FIRST_SLAB_SIZE * (Pow2(|slabs|) - 1)
  {
    if slabs == [] {
    } else {
      FullSlabs(slabs[..|slabs| - 1]);
    }
  }

  lemma CapacityOfSlabs()
    ensures FIRST_SLAB_SIZE * (Pow2(MAX_SLAB + 1) - 1) == SLAB_CAPACITY
  {
    assert Pow2(8) == 2 * Pow2(7) == 4 * Pow2(6) == 8 * Pow2(5) == 16 * Pow2(4) == 32 * Pow2(3) == 64 * Pow2(2) == 256;
    assert Pow2(16) == 2 * Pow2(15) == 4 * Pow2(14) == 8 * Pow2(13) == 16 * Pow2(12) == 32 * Pow2(11) == 64 * Pow2(10)
      == 128 * Pow2(9) == 256 * Pow2(8) == 0x1_0000;
    assert Pow2(23) == 2 * Pow2(22) == 4 * Pow2(21) == 8 * Pow2(20) == 16 * Pow2(19) == 32 * Pow2(18) == 64 * Pow2(17)
      == 128 * Pow2(16) == 0x80_0000;
  }

  /** `scanned_member_slabs[which_slab][in_slab_index++] = tmp`, with a new slab when the last is full. It fails
      only when the slabs hold all they can. */
  method PushMember(slabs: seq<seq<ScannedMember>>, tmp: ScannedMember) returns (ok: bool, more: seq<seq<ScannedMember>>)
    requires SlabsShape(slabs)
    ensures ok ==> SlabsShape(more) && Flat(more) == Flat(slabs) + [tmp]
    ensures !ok ==> |Flat(slabs)| == SLAB_CAPACITY
  {
    hide Pow2;
    more := slabs;
    var whichSlab := |slabs| - 1;
    var inSlabIndex := |slabs[whichSlab]|;
    var size := SlabSize(whichSlab);
    if inSlabIndex == size {
      if whichSlab == MAX_SLAB {
        FullSlabs(slabs);
        CapacityOfSlabs();
        return false, more;
      }
      more := more + [[]];
      assert more[..|more| - 1] == slabs && Flat(slabs) + [] == Flat(slabs);
      whichSlab := whichSlab + 1;
    }
    ghost var was := more;
    more := more[whichSlab := more[whichSlab] + [tmp]];
    assert more[..|more| - 1] == was[..|was| - 1];
    assert Flat(was[..|was| - 1]) + (was[whichSlab] + [tmp]) == Flat(was[..|was| - 1]) + was[whichSlab] + [tmp];
    ok := true;
  }

  /** `1 << (which_slab + 4)`. */
  method SlabSize(k: nat) returns (size: nat)
    ensures size == FIRST_SLAB_SIZE * Pow2(k)
  {
    size := FIRST_SLAB_SIZE;
    for i := 0 to k
      invariant size == FIRST_SLAB_SIZE * Pow2(i)
    {
      size := 2 * size;
    }
  }

  // ----- the scan -----

  /** One turn of the scan loop: the tag, the field (the last one found again, or the result of the range
      search), and the payload the wire type announces. */
  method ScanMember(S: Schema, d: Descriptor, table: RangeTable, s: seq<byte>, lastField: Option<nat>)
    returns (ok: bool, tmp: ScannedMember, used: nat, lastFound: Option<nat>)
    requires ValidDescriptor(S, d) && TableOf(d.fields, table) && |s| > 0
    requires lastField.Some? ==> lastField.value < |d.fields|
    ensures !ok <==> ScanOne(s).None?
    ensures ok ==> ScanOne(s).Some? && ScanOne(s).value.1 == used && Holds(d, tmp, ScanOne(s).value.0)
    ensures lastFound.Some? ==> lastFound.value < |d.fields|
    ensures ok && tmp.field.Some? ==> lastFound == tmp.field
  {
    hide ParseTag, TableOf, ScanPayload, Lookup;
    lastFound, used := lastField, 0;
    tmp := ScannedMember(0, 0, 0, None, []);
    var tagLen, tag, wireType := ParseTagAndWireType(s);
    if tagLen == 0 {
      return false, tmp, used, lastFound;
    }
    var field := lastField;
    if lastField.None? || d.fields[lastField.value].id != tag {
      field := FieldIndex(S, d, table, tag);
      if field.Some? {
        lastFound := field;
      }
    } else {
      LookupFinds(d.fields, lastField.value);
    }
    var at := s[tagLen..];
    var len, prefixLen := ScanExtent(wireType, at);
    if len == 0 {
      return false, tmp, used, lastFound;
    }
    tmp := ScannedMember(tag, wireType, prefixLen, field, at[..len]);
    PayloadIsExact(wireType, at);
    used := tagLen + len;
    ok := true;
  }

  /** The switch over the wire type; 0 stands for the jump to the error exit. */
  method ScanExtent(wireType: nat, at: seq<byte>) returns (len: nat, prefixLen: nat)
    ensures len == 0 <==> ScanPayload(wireType, at).None?
    ensures len > 0 ==> ScanPayload(wireType, at) == Some(Extent(len, prefixLen))
  {
    len, prefixLen := 0, 0;
    if wireType == WIRE_VARINT {
      len := ScanVarintLoop(at);
    } else if wireType == WIRE_64BIT {
      len := if |at| < 8 then 0 else 8;
    } else if wireType == WIRE_LENGTH_PREFIXED {
      len, prefixLen := ScanLengthPrefixedData(at);
    } else if wireType == WIRE_32BIT {
      len := if |at| < 4 then 0 else 4;
    }
  }

  ghost predicate AllHold(d: Descriptor, ms: seq<ScannedMember>, rs: seq<Record>) {
    |ms| == |rs| && forall k :: 0 <= k < |ms| ==> Holds(d, ms[k], rs[k])
  }

  /** What the scan keeps: the slabs of members, the counts of the repeated fields and the bitmap of the
      required ones. */
  datatype Tally = Tally(slabs: seq<seq<ScannedMember>>, counts: seq<nat>, seen: seq<bool>)

  /** The state of the scan after the records `done`. */
  ghost predicate ScanState(d: Descriptor, done: seq<Record>, x: Tally)
  {
    && SlabsShape(x.slabs) && AllHold(d, Flat(x.slabs), done) && AllExact(done)
    && (forall r <- done :: Countable(d, r))
    && |x.counts| == |x.seen| == |d.fields|
    && (forall i :: 0 <= i < |d.fields| && d.fields[i].kind == Repeated ==> x.counts[i] == Counted(d, i, done))
    && (forall i :: 0 <= i < |d.fields| && d.fields[i].kind == Required ==> x.seen[i] == Seen(d.fields[i], done))
  }

  lemma SeenSnoc(f: Field, rs: seq<Record>, r: Record)
    ensures Seen(f, rs + [r]) <==> Seen(f, rs) || r.tag == f.id
  {
    SeenInEither(f, rs, [r]);
    assert r in [r];
    if Seen(f, rs + [r]) {
      var x :| x in rs + [r] && x.tag == f.id;
    }
  }

  /** The counting of one scanned member; `None` when the elements of a packed run cannot be counted. */
  method CountMember(d: Descriptor, tmp: ScannedMember, ghost r: Record) returns (n: Option<nat>)
    requires Holds(d, tmp, r) && tmp.field.Some? && d.fields[tmp.field.value].kind == Repeated
    ensures n.None? <==> !Countable(d, r)
    ensures n.Some? ==> n.value == CountOf(d.fields[tmp.field.value], r)
  {
    hide Exact, CountPacked, PrefixLength, Lookup;
    var f := d.fields[tmp.field.value];
    if tmp.wireType == WIRE_LENGTH_PREFIXED && (f.packed || Packable(f.typ)) {
      n := CountPackedElements(f.typ, tmp.data[tmp.prefixLen..]);
    } else {
      n := Some(1);
    }
  }

  /** The updates that one more record makes to the counts and the bitmap. */
  lemma ScanStep(d: Descriptor, done: seq<Record>, x: Tally, tmp: ScannedMember, r: Record, y: Tally)
    requires Sorted(d.fields)
    requires ScanState(d, done, x) && Holds(d, tmp, r) && Countable(d, r)
    requires SlabsShape(y.slabs) && Flat(y.slabs) == Flat(x.slabs) + [tmp]
    requires y.counts == if tmp.field.Some? && d.fields[tmp.field.value].kind == Repeated
      then x.counts[tmp.field.value := x.counts[tmp.field.value] + CountOf(d.fields[tmp.field.value], r)] else x.counts
    requires y.seen == if tmp.field.Some? && d.fields[tmp.field.value].kind == Required
      then x.seen[tmp.field.value := true] else x.seen
    ensures ScanState(d, done + [r], y)
  {
    hide Exact, CountOf, Countable, Counted, SlabsShape, Flat, Seen, Lookup, PrefixLength;
    forall i | 0 <= i < |d.fields| && d.fields[i].kind == Repeated
      ensures y.counts[i] == Counted(d, i, done + [r])
    {
      CountedSnoc(d, i, done, r);
    }
    forall i | 0 <= i < |d.fields| && d.fields[i].kind == Required
      ensures y.seen[i] == Seen(d.fields[i], done + [r])
    {
      SeenSnoc(d.fields[i], done, r);
      if r.tag == d.fields[i].id {
        LookupFinds(d.fields, i);
      }
    }
  }

  lemma ScanStart(d: Descriptor, counts: seq<nat>, seen: seq<bool>)
    requires |counts| == |seen| == |d.fields|
    requires (forall i :: 0 <= i < |counts| ==> counts[i] == 0) && (forall i :: 0 <= i < |seen| ==> !seen[i])
    ensures ScanState(d, [], Tally([[]], counts, seen))
  {
    assert Flat([[]]) == Flat([]) + [];
  }

  /** After the records `done` the bytes `rem` are left, and they decide what the whole scans to. */
  ghost predicate Ahead(data: seq<byte>, rem: seq<byte>, done: seq<Record>) {
    Scan(data) == Joined(Some(done), Scan(rem))
  }

  lemma AheadStep(data: seq<byte>, done: seq<Record>, rem: seq<byte>)
    requires rem != [] && Ahead(data, rem, done)
    ensures ScanOne(rem).None? ==> Scan(data).None?
    ensures ScanOne(rem).Some? ==> var (r, used) := ScanOne(rem).value; Ahead(data, rem[used..], done + [r])
  {
    hide ScanOne, Scan, Joined;
    ScanCons(rem);
    if ScanOne(rem).None? {
      NoneJoins(Some(done));
    } else {
      var (r, used) := ScanOne(rem).value;
      JoinedAssociates(Some(done), Some([r]), Scan(rem[used..]));
      SomeJoins(done, [r]);
    }
  }

  lemma ScanCons(s: seq<byte>)
    requires s != []
    ensures ScanOne(s).None? ==> Scan(s) == None
    ensures ScanOne(s).Some? ==> Scan(s) == Joined(Some([ScanOne(s).value.0]), Scan(s[ScanOne(s).value.1..]))
  {
    hide ScanOne;
  }

  lemma NoneJoins(a: Option<seq<Record>>)
    ensures Joined(a, None) == None
  {
  }

  lemma SomeJoins(a: seq<Record>, b: seq<Record>)
    ensures Joined(Some(a), Some(b)) == Some(a + b)
  {
  }

  /** A record that cannot be counted, or one too many for the slabs, makes decoding fail whatever follows. */
  lemma BadRecord(S: Schema, t: nat, data: seq<byte>, done: seq<Record>, r: Record, rem: seq<byte>)
    requires ValidSchema(S) && t < |S| && Ahead(data, rem, done + [r])
    requires NotAdmissible(S[t], done, r)
    ensures Decode(S, t, data) == None
  {
    hide Exact, Countable, StoreAll;
    if Scan(data).Some? {
      ScannedAreExact(data);
      assert r in done + [r] && r in Scan(data).value;
    }
  }

  /** The rest of the turn: the bitmap, the slabs and the counts. It stops at a member too many or a run that
      cannot be counted. */
  method NoteMember(d: Descriptor, x: Tally, tmp: ScannedMember, ghost done: seq<Record>, ghost r: Record)
    returns (ok: bool, y: Tally)
    requires Sorted(d.fields) && ScanState(d, done, x) && Holds(d, tmp, r)
    ensures ok ==> ScanState(d, done + [r], y)
    ensures !ok ==> NotAdmissible(d, done, r)
  {
    hide ScanState, Holds, Countable, CountOf, SlabsShape, Flat, Sorted;
    StateFacts(d, done, x);
    HoldsFacts(d, tmp, r);
    var counts, seen := x.counts, x.seen;
    if tmp.field.Some? && d.fields[tmp.field.value].kind == Required {
      seen := seen[tmp.field.value := true];
    }
    var slabs;
    ok, slabs := PushMember(x.slabs, tmp);
    if ok && tmp.field.Some? && d.fields[tmp.field.value].kind == Repeated {
      var n := CountMember(d, tmp, r);
      if n.None? {
        ok := false;
      } else {
        counts := counts[tmp.field.value := counts[tmp.field.value] + n.value];
      }
    }
    y := Tally(slabs, counts, seen);
    if ok {
      ScanStep(d, done, x, tmp, r, y);
    }
  }

  ghost predicate NotAdmissible(d: Descriptor, done: seq<Record>, r: Record) {
    AllExact(done + [r]) && (|done + [r]| > SLAB_CAPACITY || !Countable(d, r))
  }

  /** The records scanned so far, the bytes still ahead, and the state kept of them. */
  ghost predicate Scanning(d: Descriptor, data: seq<byte>, rem: seq<byte>, done: seq<Record>, x: Tally)
  {
    Ahead(data, rem, done) && ScanState(d, done, x)
  }

  /** A whole turn of the scan loop. */
  method ScanTurn(S: Schema, t: nat, table: RangeTable, s: seq<byte>, last: Option<nat>, x: Tally, ghost done: seq<Record>)
    returns (ok: bool, used: nat, lastFound: Option<nat>, y: Tally)
    requires ValidSchema(S) && t < |S| && TableOf(S[t].fields, table) && |s| > 0
    requires last.Some? ==> last.value < |S[t].fields|
    requires ScanState(S[t], done, x)
    ensures ok ==> ScanOne(s).Some? && used == ScanOne(s).value.1 && ScanState(S[t], done + [ScanOne(s).value.0], y)
    ensures lastFound.Some? ==> lastFound.value < |S[t].fields|
    ensures !ok ==> ScanOne(s).None? || NotAdmissible(S[t], done, ScanOne(s).value.0)
  {
    var d := S[t];
    assert ValidDescriptor(S, d) && Sorted(d.fields);
    hide *;
    y := x;
    var tmp;
    ok, tmp, used, lastFound := ScanMember(S, d, table, s, last);
    if ok {
      ok, y := NoteMember(d, x, tmp, done, ScanOne(s).value.0);
    }
  }

  /** The first pass. */
  method ScanMembers(S: Schema, tables: seq<RangeTable>, t: nat, data: seq<byte>) returns (ok: bool, x: Tally)
    requires ValidSchema(S) && TablesOf(S, tables) && t < |S|
    ensures ok ==> Scan(data).Some? && |Scan(data).value| <= SLAB_CAPACITY && ScanState(S[t], Scan(data).value, x)
    ensures !ok ==> Decode(S, t, data) == None
  {
    var d, table := S[t], tables[t];
    assert TableOf(d.fields, table);
    var last: Option<nat> := if |d.fields| > 0 then Some(0) else None;
    hide *;
    x := Tally([[]], seq(|d.fields|, _ => 0), seq(|d.fields|, _ => false));
    ghost var done: seq<Record> := [];
    StartScanning(d, data, x.counts, x.seen);
    var rem := data;
    while |rem| > 0
      invariant Scanning(d, data, rem, done, x)
      invariant last.Some? ==> last.value < |d.fields|
    {
      TurnFacts(S, t, data, rem, done, x);
      var used;
      ok, used, last, x := ScanTurn(S, t, table, rem, last, x, done);
      if !ok {
        return;
      }
      done := NextTurn(d, data, rem, used, done, x);
      rem := rem[used..];
    }
    StopScanning(d, data, done, x);
    ok := true;
  }

  /** What a turn starts from, and why its failure is the failure of the whole. */
  lemma TurnFacts(S: Schema, t: nat, data: seq<byte>, rem: seq<byte>, done: seq<Record>, x: Tally)
    requires ValidSchema(S) && t < |S| && rem != [] && Scanning(S[t], data, rem, done, x)
    ensures ScanState(S[t], done, x) && Ahead(data, rem, done)
    ensures ScanOne(rem).None? || NotAdmissible(S[t], done, ScanOne(rem).value.0) ==> Decode(S, t, data) == None
  {
    hide Scan, Decode, ScanState, ScanOne, Ahead, NotAdmissible, ValidSchema;
    AheadStep(data, done, rem);
    if ScanOne(rem).None? {
      ScanFails(S, t, data);
    } else if NotAdmissible(S[t], done, ScanOne(rem).value.0) {
      var (r, used) := ScanOne(rem).value;
      BadRecord(S, t, data, done, r, rem[used..]);
    }
  }

  lemma NextTurn(d: Descriptor, data: seq<byte>, rem: seq<byte>, used: nat, done: seq<Record>, x: Tally)
    returns (now: seq<Record>)
    requires rem != [] && Ahead(data, rem, done) && ScanOne(rem).Some? && used == ScanOne(rem).value.1
    requires ScanState(d, done + [ScanOne(rem).value.0], x)
    ensures 0 < used <= |rem| && Scanning(d, data, rem[used..], now, x)
  {
    hide Scan, ScanState, ScanOne;
    AheadStep(data, done, rem);
    now := done + [ScanOne(rem).value.0];
  }

  lemma StartScanning(d: Descriptor, data: seq<byte>, counts: seq<nat>, seen: seq<bool>)
    requires |counts| == |seen| == |d.fields|
    requires (forall i :: 0 <= i < |counts| ==> counts[i] == 0) && (forall i :: 0 <= i < |seen| ==> !seen[i])
    ensures Scanning(d, data, data, [], Tally([[]], counts, seen))
  {
    hide Scan, ScanState;
    ScanStart(d, counts, seen);
    NothingDone(Scan(data));
  }

  lemma StopScanning(d: Descriptor, data: seq<byte>, done: seq<Record>, x: Tally)
    requires Scanning(d, data, [], done, x)
    ensures Scan(data) == Some(done) && |done| <= SLAB_CAPACITY && ScanState(d, done, x)
  {
    hide ScanState;
    assert done + [] == done;
    StateFacts(d, done, x);
  }

  lemma NothingDone(s: Option<seq<Record>>)
    ensures s == Joined(Some([]), s)
  {
    if s.Some? {
      assert [] + s.value == s.value;
    }
  }

  lemma ScanFails(S: Schema, t: nat, data: seq<byte>)
    requires ValidSchema(S) && t < |S| && Scan(data).None?
    ensures Decode(S, t, data) == None
  {
  }

  lemma StateFacts(d: Descriptor, done: seq<Record>, x: Tally)
    requires ScanState(d, done, x)
    ensures SlabsShape(x.slabs) && |Flat(x.slabs)| == |done| <= SLAB_CAPACITY && AllExact(done)
    ensures |x.counts| == |x.seen| == |d.fields|
  {
    hide Exact, Countable, Holds, Pow2;
    SlabsFit(x.slabs);
  }

  lemma SlabsFit(slabs: seq<seq<ScannedMember>>)
    requires SlabsShape(slabs)
    ensures |Flat(slabs)| <= SLAB_CAPACITY
  {
    var n := |slabs|;
    FullSlabs(slabs[..n - 1]);
    CapacityOfSlabs();
    Pow2Monotone(n, MAX_SLAB + 1);
    assert Pow2(n) == 2 * Pow2(n - 1);
  }

  lemma {:induction false} Pow2Monotone(j: nat, k: nat)
    requires j <= k
    ensures Pow2(j) <= Pow2(k)
  {
    if j == k {
    } else {
      Pow2Monotone(j, k - 1);
    }
  }

  lemma HoldsFacts(d: Descriptor, m: ScannedMember, r: Record)
    requires Holds(d, m, r)
    ensures Exact(r) && (m.field.Some? ==> m.field.value < |d.fields|)
    ensures m.field.None? || d.fields[m.field.value].kind != Repeated ==> Countable(d, r)
  {
  }

  // ----- the struct being filled -----

  /** The message struct of the parsing pass: its singular members, and for each repeated field the array
      allocated for it and how many of its elements are in use. */
  class MessageStruct {
    var slots: array<Slot>
    var used: array<nat>
    var elements: seq<array<Value>>
    var unknown: seq<Record>

    /** The struct is laid out for the fields. */
    ghost predicate Valid(fields: seq<Field>)
      reads this, slots, used
    {
      && slots.Length == used.Length == |elements| == |fields|
      && (forall i, j :: 0 <= i < j < |elements| ==> elements[i] != elements[j])
      && (forall i :: 0 <= i < |fields| ==> used[i] <= elements[i].Length)
      && (forall i :: 0 <= i < |fields| && fields[i].kind != Repeated ==> !slots[i].Many?)
    }

    /** The struct holds message `m`. */
    ghost predicate Represents(fields: seq<Field>, m: Message)
      reads this, slots, used, elements
    {
      && Valid(fields) && |m.slots| == |fields| && m.unknown == unknown
      && forall i :: 0 <= i < |fields| ==> HoldsSlot(fields, i, m.slots[i])
    }

    ghost predicate HoldsSlot(fields: seq<Field>, i: nat, slot: Slot)
      requires Valid(fields) && i < |fields|
      reads this, slots, used, elements
    {
      if fields[i].kind == Repeated then slot == Many(elements[i][..used[i]]) else slot == slots[i]
    }

    /** Zeroed members, and arrays of the counted sizes as an `unsigned` keeps them. */
    constructor (fields: seq<Field>, counts: seq<nat>)
      requires |counts| == |fields|
      ensures Represents(fields, Init(Descriptor(fields)))
      ensures fresh(slots) && fresh(used) && fresh(elements)
      ensures forall i :: 0 <= i < |fields| ==> elements[i].Length == ArrayLength(counts[i]) && used[i] == 0
    {
      slots := new Slot[|fields|](i requires 0 <= i < |fields| => InitSlot(fields[i]));
      used := new nat[|fields|](_ => 0);
      elements := [];
      unknown := [];
      new;
      for i := 0 to |fields|
        invariant |elements| == i
        invariant fresh(slots) && fresh(used) && fresh(elements)
        invariant slots.Length == used.Length == |fields|
        invariant forall j :: 0 <= j < |fields| ==> slots[j] == InitSlot(fields[j]) && used[j] == 0
        invariant forall j :: 0 <= j < i ==> elements[j].Length == ArrayLength(counts[j])
        invariant forall j, k :: 0 <= j < k < i ==> elements[j] != elements[k]
        invariant unknown == []
      {
        var n := ArrayLength(counts[i]);
        var a := new Value[n](_ => Flag(false));
        assert a !in elements;
        elements := elements + [a];
      }
    }
  }

  // ----- the parsing pass -----

  /** `parse_required_member`: the value of a scanned member, merged into the sub-message already there. */
  method ParseRequiredMember(S: Schema, tables: seq<RangeTable>, d: Descriptor, f: Field, sm: ScannedMember, there: Slot,
      ghost r: Record) returns (v: Option<Value>)
    requires ValidSchema(S) && TablesOf(S, tables) && ValidField(S, f) && Holds(d, sm, r)
    requires there == Absent || FitSlot(S, f, there)
    ensures v == ParseValue(S, f, r, there)
    decreases |sm.data| + 1, 0
  {
    hide Exact, DecodeScalar, Decode, Merge, PrefixLength, TablesOf, ValidSchema, Lookup, Number64, ParseUInt32;
    match f.typ
    case Boolean =>
      var b := ParseBoolean(sm.data);
      v := Some(Flag(b));
    case String =>
      v := if sm.wireType != WIRE_LENGTH_PREFIXED then None else Some(Text(sm.data[sm.prefixLen..]));
    case Bytes =>
      v := if sm.wireType != WIRE_LENGTH_PREFIXED then None else Some(Blob(sm.data[sm.prefixLen..]));
    case Nested =>
      if sm.wireType != WIRE_LENGTH_PREFIXED {
        return None;
      }
      BodyIsShorter(r);
      BodyIsSmall(r);
      SmallInputsFit(S[f.sub], Body(r));
      var subm := Unpack(S, tables, f.sub, sm.data[sm.prefixLen..]);
      if subm.None? {
        return None;
      }
      if !HoldsMessage(there) {
        return Some(Sub(subm.value));
      }
      DecodeIsFit(S, f.sub, Body(r));
      var merged := MergeMessages(S, tables, f.sub, there.v.m, subm.value);
      v := if merged.None? then None else Some(Sub(merged.value));
    case _ =>
      if sm.wireType != WireType(f.typ) {
        return None;
      }
      assert Readable(f.typ, sm.data) by { ReadableRecord(f, r); }
      var x := ParseScalar(f.typ, sm.data);
      v := Some(x);
  }

  /** A sub-message has at most INT_MAX bytes, so its counts always fit. */
  lemma BodyIsSmall(r: Record)
    requires Exact(r) && r.wireType == WIRE_LENGTH_PREFIXED
    ensures |Body(r)| <= INT_MAX
  {
    hide Number;
  }

  lemma ReadableRecord(f: Field, r: Record)
    requires Exact(r) && Packable(f.typ) && f.typ != Boolean && r.wireType == WireType(f.typ)
    ensures Readable(f.typ, r.data)
  {
  }

  /** `parse_required_member` or `parse_optional_member` of field `i`. */
  method ParseSingleMember(S: Schema, tables: seq<RangeTable>, t: nat, i: nat, sm: ScannedMember, msg: MessageStruct,
      ghost r: Record, ghost m: Message) returns (ok: bool)
    requires ValidSchema(S) && TablesOf(S, tables) && t < |S| && Holds(S[t], sm, r) && sm.field == Some(i)
    requires S[t].fields[i].kind != Repeated && !InOneof(S[t].fields[i])
    requires msg.Represents(S[t].fields, m) && Fit(S, t, m)
    modifies msg.slots
    ensures ok <==> StoreRecord(S, t, r, m).Some?
    ensures ok ==> msg.Represents(S[t].fields, StoreRecord(S, t, r, m).value)
    decreases |sm.data| + 1, 1
  {
    hide Exact, ParseValue, TablesOf, ValidSchema, Lookup, PrefixLength, FitSlot, ParseElements;
    var f := S[t].fields[i];
    assert ValidField(S, f) && FitSlot(S, f, msg.slots[i]) by { FieldFacts(S, t, m, i); assert msg.HoldsSlot(S[t].fields, i, m.slots[i]); }
    var v := ParseRequiredMember(S, tables, S[t], f, sm, msg.slots[i], r);
    assert msg.HoldsSlot(S[t].fields, i, m.slots[i]);
    if v.None? {
      return false;
    }
    msg.slots[i] := Present(v.value);
    ok := true;
  }

  lemma FieldFacts(S: Schema, t: nat, m: Message, i: nat)
    requires ValidSchema(S) && Fit(S, t, m) && i < |m.slots|
    ensures ValidField(S, S[t].fields[i]) && FitSlot(S, S[t].fields[i], m.slots[i]) && ValidDescriptor(S, S[t])
  {
  }

  /** The start of `parse_oneof_member`: a union that is set is looked up and its memory zeroed. The lookup
      of a case that was stored never fails. */
  method ClearOneof(S: Schema, tables: seq<RangeTable>, t: nat, f: Field, msg: MessageStruct, ghost m: Message)
    returns (ok: bool)
    requires ValidSchema(S) && TablesOf(S, tables) && t < |S| && InOneof(f)
    requires msg.Represents(S[t].fields, m) && Fit(S, t, m)
    modifies msg.slots
    ensures ok && msg.Represents(S[t].fields, m.(slots := Cleared(S[t].fields, m.slots, f)))
  {
    hide FitSlot, TableOf, Chosen, Lookup, ValidField;
    var fields := S[t].fields;
    assert forall j :: 0 <= j < |fields| ==> msg.HoldsSlot(fields, j, m.slots[j]);
    var oldCase, at := OneofCase(S, t, msg.slots[..], f);
    SameUnionSlots(S, t, m, msg.slots[..], f);
    ok := true;
    if oldCase == 0 {
      AlreadyClear(S, t, m, f);
      return;
    }
    var fieldIndex := FieldIndex(S, S[t], tables[t], oldCase);
    LookupFinds(fields, at);
    if fieldIndex.None? {
      return false;
    }
    ResetUnion(fields, f, msg.slots);
  }

  /** `parse_oneof_member` of field `i`. */
  method ParseOneofMember(S: Schema, tables: seq<RangeTable>, t: nat, i: nat, sm: ScannedMember, msg: MessageStruct,
      ghost r: Record, ghost m: Message) returns (ok: bool)
    requires ValidSchema(S) && TablesOf(S, tables) && t < |S| && Holds(S[t], sm, r) && sm.field == Some(i)
    requires InOneof(S[t].fields[i])
    requires msg.Represents(S[t].fields, m) && Fit(S, t, m)
    modifies msg.slots
    ensures ok <==> StoreRecord(S, t, r, m).Some?
    ensures ok ==> msg.Represents(S[t].fields, StoreRecord(S, t, r, m).value)
    decreases |sm.data| + 1, 1
  {
    hide Exact, ParseValue, Lookup, PrefixLength, FitSlot, TablesOf, ParseElements, ValidSchema, Cleared;
    var fields := S[t].fields;
    var f := fields[i];
    FieldFacts(S, t, m, i);
    ok := ClearOneof(S, tables, t, f, msg, m);
    if !ok {
      return;
    }
    ghost var cleared := m.(slots := Cleared(fields, m.slots, f));
    assert forall j :: 0 <= j < |fields| ==> msg.HoldsSlot(fields, j, cleared.slots[j]);
    var v := ParseRequiredMember(S, tables, S[t], f, sm, Absent, r);
    if v.None? {
      return false;
    }
    msg.slots[i] := Present(v.value);
  }

  /** Unions are told by their non-repeated slots alone. */
  lemma SameUnionSlots(S: Schema, t: nat, m: Message, slots: seq<Slot>, f: Field)
    requires t < |S| && |m.slots| == |slots| == |S[t].fields|
    requires forall j :: 0 <= j < |slots| && S[t].fields[j].kind != Repeated ==> slots[j] == m.slots[j]
    ensures Chosen(S[t].fields, slots, f) == Chosen(S[t].fields, m.slots, f)
  {
    if Chosen(S[t].fields, m.slots, f) {
      var k :| 0 <= k < |slots| && Siblings(S[t].fields[k], f) && m.slots[k].Present?;
      assert slots[k].Present?;
    }
    if Chosen(S[t].fields, slots, f) {
      var k :| 0 <= k < |slots| && Siblings(S[t].fields[k], f) && slots[k].Present?;
      assert m.slots[k].Present?;
    }
  }

  lemma AlreadyClear(S: Schema, t: nat, m: Message, f: Field)
    requires Fit(S, t, m) && !Chosen(S[t].fields, m.slots, f)
    ensures Cleared(S[t].fields, m.slots, f) == m.slots
  {
    forall j | 0 <= j < |m.slots| && Siblings(S[t].fields[j], f)
      ensures m.slots[j] == Absent
    {
      SameUnion(S[t].fields, m.slots, S[t].fields[j], f);
      UnchosenIsAbsent(S, t, m, j);
    }
  }

  /** The memory of a union, zeroed. */
  method ResetUnion(fields: seq<Field>, f: Field, slots: array<Slot>)
    requires slots.Length == |fields|
    modifies slots
    ensures forall j :: 0 <= j < |fields| ==> slots[j] == if Siblings(fields[j], f) then Absent else old(slots[j])
  {
    for j := 0 to |fields|
      invariant forall k :: 0 <= k < |fields| ==>
        slots[k] == if k < j && Siblings(fields[k], f) then Absent else old(slots[k])
    {
      if Siblings(fields[j], f) {
        slots[j] := Absent;
      }
    }
  }

  /** The elements of an occurrence, written behind the elements in use. */
  method WriteElements(S: Schema, tables: seq<RangeTable>, d: Descriptor, i: nat, sm: ScannedMember, msg: MessageStruct,
      ghost r: Record) returns (ok: bool)
    requires ValidSchema(S) && TablesOf(S, tables) && ValidDescriptor(S, d) && Holds(d, sm, r) && i < |d.fields|
    requires msg.Valid(d.fields) && msg.used[i] + WrittenBy(d.fields[i], r) <= msg.elements[i].Length
    modifies msg.used, msg.elements[i]
    ensures ok == ParseElements(S, d.fields[i], r).Some?
    ensures ok ==> msg.used[i] == old(msg.used[i]) + WrittenBy(d.fields[i], r) && msg.used[i] <= msg.elements[i].Length
    ensures ok ==> msg.elements[i][..msg.used[i]] == old(msg.elements[i][..msg.used[i]]) + ParseElements(S, d.fields[i], r).value
    ensures forall j :: 0 <= j < msg.used.Length && j != i ==> msg.used[j] == old(msg.used[j])
    decreases |sm.data| + 1, 1, 0
  {
    hide Exact, ParseValue, Lookup, PrefixLength, TablesOf, PackedElements, PackedParses;
    var f := d.fields[i];
    var a, n := msg.elements[i], msg.used[i];
    ghost var was := a[..n];
    if sm.wireType == WIRE_LENGTH_PREFIXED && (f.packed || Packable(f.typ)) {
      var parsed, count := ParsePackedRepeatedMember(f.typ, sm.data[sm.prefixLen..], a, n);
      if !parsed {
        return false;
      }
      msg.used[i] := n + count;
    } else {
      var v := ParseRequiredMember(S, tables, d, f, sm, Absent, r);
      if v.None? {
        return false;
      }
      a[n] := v.value;
      msg.used[i] := n + 1;
      assert a[..n + 1] == was + [v.value];
    }
    ok := true;
  }

  /** `parse_repeated_member` or `parse_packed_repeated_member` of field `i`, behind the elements in use. */
  method ParseElementsMember(S: Schema, tables: seq<RangeTable>, t: nat, i: nat, sm: ScannedMember, msg: MessageStruct,
      ghost r: Record, ghost m: Message) returns (ok: bool)
    requires ValidSchema(S) && TablesOf(S, tables) && t < |S| && Holds(S[t], sm, r) && sm.field == Some(i)
    requires S[t].fields[i].kind == Repeated
    requires msg.Represents(S[t].fields, m) && Fit(S, t, m)
    requires msg.used[i] + WrittenBy(S[t].fields[i], r) <= msg.elements[i].Length
    modifies msg.used, msg.elements[i]
    ensures ok <==> StoreRecord(S, t, r, m).Some?
    ensures ok ==> msg.Represents(S[t].fields, StoreRecord(S, t, r, m).value)
    ensures ok ==> msg.used[i] == old(msg.used[i]) + WrittenBy(S[t].fields[i], r)
    ensures forall j :: 0 <= j < msg.used.Length && j != i ==> msg.used[j] == old(msg.used[j])
    decreases |sm.data| + 1, 1, 1
  {
    hide Exact, ParseElements, Lookup, FitSlot, TablesOf, WrittenBy;
    var fields := S[t].fields;
    FieldFacts(S, t, m, i);
    assert msg.HoldsSlot(fields, i, m.slots[i]);
    ok := WriteElements(S, tables, S[t], i, sm, msg, r);
    if !ok {
      return;
    }
    ghost var m' := StoreRecord(S, t, r, m).value;
    forall j | 0 <= j < |fields|
      ensures msg.HoldsSlot(fields, j, m'.slots[j])
    {
      assert old(msg.HoldsSlot(fields, j, m.slots[j]));
    }
  }

  /** There is room in every array for what records `rest` can still add. */
  ghost predicate Room(d: Descriptor, msg: MessageStruct, rest: seq<Record>)
    requires AllExact(rest) && msg.Valid(d.fields)
    reads msg, msg.slots, msg.used
  {
    forall i :: 0 <= i < |d.fields| && d.fields[i].kind == Repeated ==>
      msg.used[i] + Counted(d, i, rest) <= msg.elements[i].Length
  }

  lemma RoomForFirst(S: Schema, d: Descriptor, i: nat, rest: seq<Record>)
    requires ValidSchema(S) && ValidDescriptor(S, d) && AllExact(rest) && rest != [] && i < |d.fields|
    requires d.fields[i].kind == Repeated && Countable(d, rest[0]) && Lookup(d.fields, rest[0].tag) == Some(i)
    ensures WrittenBy(d.fields[i], rest[0]) + Counted(d, i, rest[1..]) <= Counted(d, i, rest)
  {
    hide Exact, CountOf, WrittenBy, Lookup, Countable;
    RecordWritesCounted(S, d, i, rest[0]);
  }

  lemma LessToCount(d: Descriptor, i: nat, rest: seq<Record>)
    requires AllExact(rest) && rest != [] && i < |d.fields|
    ensures Counted(d, i, rest[1..]) <= Counted(d, i, rest)
  {
    hide Exact, CountOf, Lookup;
  }

  /** `parse_member`: an unknown field is retained, a known one stored as its label says. */
  method ParseMember(S: Schema, tables: seq<RangeTable>, t: nat, sm: ScannedMember, msg: MessageStruct,
      ghost rest: seq<Record>, ghost m: Message) returns (ok: bool)
    requires ValidSchema(S) && TablesOf(S, tables) && t < |S|
    requires AllExact(rest) && rest != [] && Holds(S[t], sm, rest[0]) && Countable(S[t], rest[0])
    requires msg.Represents(S[t].fields, m) && Fit(S, t, m) && Room(S[t], msg, rest)
    modifies msg, msg.slots, msg.used, msg.elements
    ensures msg.slots == old(msg.slots) && msg.used == old(msg.used) && msg.elements == old(msg.elements)
    ensures ok <==> StoreRecord(S, t, rest[0], m).Some?
    ensures ok ==> msg.Represents(S[t].fields, StoreRecord(S, t, rest[0], m).value) && Room(S[t], msg, rest[1..])
    decreases |sm.data| + 1, 2
  {
    hide Exact, ParseValue, ParseElements, TablesOf, ValidSchema, Lookup, FitSlot, PrefixLength, Countable, Counted, WrittenBy, Fit;
    var d := S[t];
    forall i | 0 <= i < |d.fields|
      ensures Counted(d, i, rest[1..]) <= Counted(d, i, rest)
    {
      LessToCount(d, i, rest);
    }
    if sm.field.None? {
      ghost var r := rest[0];
      assert forall j :: 0 <= j < |d.fields| ==> msg.HoldsSlot(d.fields, j, m.slots[j]);
      msg.unknown := msg.unknown + [Record(sm.tag, sm.wireType, sm.data)];
      assert Record(sm.tag, sm.wireType, sm.data) == r;
      return true;
    }
    var i := sm.field.value;
    var f := d.fields[i];
    FitLength(S, t, m);
    FieldFacts(S, t, m, i);
    if f.kind == Repeated {
      RoomForFirst(S, d, i, rest);
      ok := ParseElementsMember(S, tables, t, i, sm, msg, rest[0], m);
    } else if InOneof(f) {
      ok := ParseOneofMember(S, tables, t, i, sm, msg, rest[0], m);
    } else {
      ok := ParseSingleMember(S, tables, t, i, sm, msg, rest[0], m);
    }
  }

  lemma FitLength(S: Schema, t: nat, m: Message)
    requires Fit(S, t, m)
    ensures t < |S| && |m.slots| == |S[t].fields|
  {
  }

  // ----- the whole -----

  /** The members of the slabs from the `i`-th on. */
  function FlatFrom(slabs: seq<seq<ScannedMember>>, i: nat): seq<ScannedMember>
    requires i <= |slabs|
    decreases |slabs| - i
  {
    if i == |slabs| then [] else slabs[i] + FlatFrom(slabs, i + 1)
  }

  lemma {:induction false} FlatBothWays(slabs: seq<seq<ScannedMember>>, i: nat)
    requires i <= |slabs|
    ensures Flat(slabs[..i]) + FlatFrom(slabs, i) == Flat(slabs)
    decreases |slabs| - i
  {
    if i == |slabs| {
      assert slabs[..i] == slabs;
    } else {
      FlatBothWays(slabs, i + 1);
      assert slabs[..i + 1][..i] == slabs[..i];
      assert Flat(slabs[..i + 1]) == Flat(slabs[..i]) + slabs[i];
      assert Flat(slabs[..i]) + slabs[i] + FlatFrom(slabs, i + 1) == Flat(slabs[..i]) + (slabs[i] + FlatFrom(slabs, i + 1));
    }
  }

  /** How the parsing pass stands: `ahead` are the members not yet parsed, `rest` their records, and storing
      those into `m` gives what decoding gives. */
  ghost predicate Parsing(S: Schema, t: nat, ahead: seq<ScannedMember>, rest: seq<Record>, m: Message, goal: Option<Message>)
  {
    && ValidSchema(S) && t < |S| && AllHold(S[t], ahead, rest) && AllExact(rest)
    && (forall r <- rest :: Countable(S[t], r))
    && Fit(S, t, m) && StoreAll(S, t, rest, m) == goal
  }

  lemma ParsingStep(S: Schema, t: nat, ahead: seq<ScannedMember>, rest: seq<Record>, m: Message, goal: Option<Message>)
    requires Parsing(S, t, ahead, rest, m, goal) && ahead != []
    ensures rest != [] && AllExact(rest) && Holds(S[t], ahead[0], rest[0]) && Countable(S[t], rest[0]) && |m.slots| == |S[t].fields|
    ensures StoreRecord(S, t, rest[0], m).None? ==> goal == None
    ensures StoreRecord(S, t, rest[0], m).Some? ==> Parsing(S, t, ahead[1..], rest[1..], StoreRecord(S, t, rest[0], m).value, goal)
  {
    hide Exact, Countable, Holds, FitSlot, StoreRecord;
    StoreRecordIsFit(S, t, rest[0], m);
  }

  /** The parsing of one slab. */
  method ParseSlab(S: Schema, tables: seq<RangeTable>, t: nat, slab: seq<ScannedMember>, msg: MessageStruct, n: nat,
      ghost after: seq<ScannedMember>, ghost rest: seq<Record>, ghost m: Message, ghost goal: Option<Message>)
    returns (ok: bool, ghost restNow: seq<Record>, ghost mNow: Message)
    requires ValidSchema(S) && TablesOf(S, tables) && t < |S|
    requires Parsing(S, t, slab + after, rest, m, goal) && msg.Represents(S[t].fields, m) && AllExact(rest) && Room(S[t], msg, rest)
    requires forall sm <- slab :: |sm.data| + 1 <= n
    modifies msg, msg.slots, msg.used, msg.elements
    ensures msg.slots == old(msg.slots) && msg.used == old(msg.used) && msg.elements == old(msg.elements)
    ensures ok ==> Parsing(S, t, after, restNow, mNow, goal) && msg.Represents(S[t].fields, mNow)
    ensures ok ==> AllExact(restNow) && Room(S[t], msg, restNow)
    ensures !ok ==> goal == None
    decreases n, 3
  {
    hide Parsing, TablesOf, ValidSchema, Exact, Holds, Countable, Room, StoreRecord;
    restNow, mNow := rest, m;
    var left := slab;
    while |left| > 0
      invariant msg.slots == old(msg.slots) && msg.used == old(msg.used) && msg.elements == old(msg.elements)
      invariant Parsing(S, t, left + after, restNow, mNow, goal) && msg.Represents(S[t].fields, mNow)
      invariant AllExact(restNow) && Room(S[t], msg, restNow)
      invariant forall sm <- left :: |sm.data| + 1 <= n
      decreases |left|
    {
      assert (left + after)[0] == left[0] && (left + after)[1..] == left[1..] + after;
      ParsingStep(S, t, left + after, restNow, mNow, goal);
      ParsingFits(S, t, left + after, restNow, mNow, goal);
      assert left[0] in left;
      ok := ParseMember(S, tables, t, left[0], msg, restNow, mNow);
      if !ok {
        return;
      }
      mNow := StoreRecord(S, t, restNow[0], mNow).value;
      restNow := restNow[1..];
      left := left[1..];
    }
    assert [] + after == after;
    ok := true;
  }

  lemma ParsingFits(S: Schema, t: nat, ahead: seq<ScannedMember>, rest: seq<Record>, m: Message, goal: Option<Message>)
    requires Parsing(S, t, ahead, rest, m, goal)
    ensures Fit(S, t, m)
  {
  }

  /** The check that every required field was seen. */
  method CheckRequired(d: Descriptor, seen: seq<bool>, ghost rs: seq<Record>) returns (ok: bool)
    requires |seen| == |d.fields|
    requires forall i :: 0 <= i < |d.fields| && d.fields[i].kind == Required ==> seen[i] == Seen(d.fields[i], rs)
    ensures ok <==> AllRequiredSeen(d, rs)
  {
    hide Seen;
    for f := 0 to |d.fields|
      invariant forall i :: 0 <= i < f && d.fields[i].kind == Required ==> Seen(d.fields[i], rs)
    {
      if d.fields[f].kind == Required && !seen[f] {
        return false;
      }
    }
    ok := true;
  }

  /** The arrays are allocated by the counts; fields that are not repeated have none. The arrays have room for all that will
      be stored if every count is below 2^32. */
  method Allocate(d: Descriptor, counts: seq<nat>, ghost rs: seq<Record>) returns (msg: MessageStruct)
    requires |counts| == |d.fields| && AllExact(rs)
    requires forall i :: 0 <= i < |d.fields| && d.fields[i].kind == Repeated ==> counts[i] == Counted(d, i, rs)
    ensures fresh(msg) && fresh(msg.slots) && fresh(msg.used) && fresh(msg.elements)
    ensures msg.Represents(d.fields, Init(d))
    ensures forall i :: 0 <= i < |d.fields| ==> msg.elements[i].Length == ArrayLength(counts[i])
    ensures CountsFit(d, rs) ==> Room(d, msg, rs)
  {
    hide Exact, Counted, Init;
    assert d == Descriptor(d.fields);
    msg := new MessageStruct(d.fields, counts);
  }

  /** The members of the slabs are payloads of the input, so sub-messages are shorter than it. */
  lemma MembersAreShorter(S: Schema, t: nat, data: seq<byte>, x: Tally)
    requires Scan(data).Some? && t < |S| && ScanState(S[t], Scan(data).value, x)
    ensures forall sm <- Flat(x.slabs) :: |sm.data| + 1 <= |data|
  {
    hide Exact, Countable, Scan, SlabsShape, Flat, PrefixLength;
    var rs := Scan(data).value;
    forall sm | sm in Flat(x.slabs)
      ensures |sm.data| + 1 <= |data|
    {
      var k :| 0 <= k < |Flat(x.slabs)| && Flat(x.slabs)[k] == sm;
      assert Holds(S[t], sm, rs[k]);
      WeightOfOne(rs, k);
      ScanWeighs(data);
    }
  }

  lemma ScanWeighs(data: seq<byte>)
    requires Scan(data).Some?
    ensures Weight(Scan(data).value) <= |data|
  {
  }

  lemma {:induction false} WeightOfOne(rs: seq<Record>, k: nat)
    requires k < |rs|
    ensures |rs[k].data| + 1 <= Weight(rs)
  {
    if k == 0 {
    } else {
      WeightOfOne(rs[1..], k - 1);
      assert rs[1..][k - 1] == rs[k];
    }
  }

  lemma SlabInside(slabs: seq<seq<ScannedMember>>, i: nat)
    requires i < |slabs|
    ensures forall sm <- slabs[i] :: sm in FlatFrom(slabs, i)
    ensures forall sm <- FlatFrom(slabs, i + 1) :: sm in FlatFrom(slabs, i)
  {
  }

  /** The replay of the slabs in order. */
  method ParseSlabs(S: Schema, tables: seq<RangeTable>, t: nat, slabs: seq<seq<ScannedMember>>, msg: MessageStruct, n: nat,
      ghost rs: seq<Record>, ghost goal: Option<Message>) returns (ok: bool, ghost m: Message)
    requires ValidSchema(S) && TablesOf(S, tables) && t < |S|
    requires Parsing(S, t, FlatFrom(slabs, 0), rs, Init(S[t]), goal) && AllExact(rs)
    requires msg.Represents(S[t].fields, Init(S[t])) && Room(S[t], msg, rs)
    requires forall sm <- FlatFrom(slabs, 0) :: |sm.data| + 1 <= n
    modifies msg, msg.slots, msg.used, msg.elements
    ensures msg.slots == old(msg.slots) && msg.used == old(msg.used) && msg.elements == old(msg.elements)
    ensures ok ==> goal == Some(m) && msg.Represents(S[t].fields, m)
    ensures !ok ==> goal == None
    decreases n, 4, 0
  {
    hide Parsing, TablesOf, ValidSchema, Exact, Room, FlatFrom, Init;
    m := Init(S[t]);
    ghost var rest := rs;
    var i := 0;
    while i < |slabs|
      invariant i <= |slabs|
      invariant msg.slots == old(msg.slots) && msg.used == old(msg.used) && msg.elements == old(msg.elements)
      invariant Parsing(S, t, FlatFrom(slabs, i), rest, m, goal) && AllExact(rest)
      invariant msg.Represents(S[t].fields, m) && Room(S[t], msg, rest)
      invariant forall sm <- FlatFrom(slabs, i) :: |sm.data| + 1 <= n
      decreases |slabs| - i
    {
      SlabInside(slabs, i);
      FlatFromStep(slabs, i);
      ok, rest, m := ParseSlab(S, tables, t, slabs[i], msg, n, FlatFrom(slabs, i + 1), rest, m, goal);
      if !ok {
        return;
      }
      i := i + 1;
    }
    ParsingEnds(S, t, slabs, rest, m, goal);
    ok := true;
  }

  lemma FlatFromStep(slabs: seq<seq<ScannedMember>>, i: nat)
    requires i < |slabs|
    ensures FlatFrom(slabs, i) == slabs[i] + FlatFrom(slabs, i + 1)
  {
  }

  lemma ParsingEnds(S: Schema, t: nat, slabs: seq<seq<ScannedMember>>, rest: seq<Record>, m: Message, goal: Option<Message>)
    requires Parsing(S, t, FlatFrom(slabs, |slabs|), rest, m, goal)
    ensures goal == Some(m)
  {
  }

  lemma ParsingStarts(S: Schema, t: nat, data: seq<byte>, x: Tally)
    requires ValidSchema(S) && t < |S| && Scan(data).Some? && |Scan(data).value| <= SLAB_CAPACITY
    requires ScanState(S[t], Scan(data).value, x)
    ensures AllExact(Scan(data).value)
    ensures AllRequiredSeen(S[t], Scan(data).value) ==>
      Parsing(S, t, FlatFrom(x.slabs, 0), Scan(data).value, Init(S[t]), Decode(S, t, data))
    ensures !AllRequiredSeen(S[t], Scan(data).value) ==> Decode(S, t, data) == None
    ensures Flat(x.slabs) == FlatFrom(x.slabs, 0)
  {
    hide Exact, Countable, Scan, SlabsShape, StoreAll, AllRequiredSeen, Init, Holds, Fit;
    ScannedAreExact(data);
    InitIsFit(S, t);
    InitLength(S[t]);
    FlatBothWays(x.slabs, 0);
    assert x.slabs[..0] == [] && Flat(x.slabs[..0]) == [];
    assert [] + FlatFrom(x.slabs, 0) == FlatFrom(x.slabs, 0);
  }

  /** The passes after the scan: the required fields, the allocation, the parsing. */
  method ParseTally(S: Schema, tables: seq<RangeTable>, t: nat, x: Tally, n: nat, ghost rs: seq<Record>,
      ghost goal: Option<Message>) returns (res: Option<Message>)
    requires ValidSchema(S) && TablesOf(S, tables) && t < |S| && ScanState(S[t], rs, x) && CountsFit(S[t], rs)
    requires AllRequiredSeen(S[t], rs) ==> Parsing(S, t, FlatFrom(x.slabs, 0), rs, Init(S[t]), goal)
    requires !AllRequiredSeen(S[t], rs) ==> goal == None
    requires forall sm <- FlatFrom(x.slabs, 0) :: |sm.data| + 1 <= n
    ensures res == goal
    decreases n, 5
  {
    var d := S[t];
    hide Parsing, TablesOf, ValidSchema, Exact, Room, FlatFrom, Init, Countable, SlabsShape, AllRequiredSeen, Seen, Counted, AllHold;
    var ok := CheckRequired(d, x.seen, rs);
    if !ok {
      return None;
    }
    res := ParseInto(S, tables, t, x, n, rs, goal);
  }

  /** The allocation and the parsing, into a new struct. */
  method ParseInto(S: Schema, tables: seq<RangeTable>, t: nat, x: Tally, n: nat, ghost rs: seq<Record>,
      ghost goal: Option<Message>) returns (res: Option<Message>)
    requires ValidSchema(S) && TablesOf(S, tables) && t < |S| && ScanState(S[t], rs, x) && CountsFit(S[t], rs)
    requires Parsing(S, t, FlatFrom(x.slabs, 0), rs, Init(S[t]), goal)
    requires forall sm <- FlatFrom(x.slabs, 0) :: |sm.data| + 1 <= n
    ensures res == goal
    decreases n, 4, 1
  {
    CountsOfState(S[t], rs, x);
    hide *;
    var msg := Allocate(S[t], x.counts, rs);
    var ok;
    ghost var m;
    ok, m := ParseSlabs(S, tables, t, x.slabs, msg, n, rs, goal);
    if !ok {
      return None;
    }
    var read := ReadStruct(S[t].fields, msg, m);
    res := Some(read);
  }

  lemma CountsOfState(d: Descriptor, rs: seq<Record>, x: Tally)
    requires ScanState(d, rs, x)
    ensures |x.counts| == |d.fields| && AllExact(rs)
    ensures forall i :: 0 <= i < |d.fields| && d.fields[i].kind == Repeated ==> x.counts[i] == Counted(d, i, rs)
  {
  }

  /** `protobuf_c_message_unpack` computes `Decode`, for every input whose counts are below 2^32, as they are in every input
      below 4 GiB. The struct is returned as the message it holds. */
  method Unpack(S: Schema, tables: seq<RangeTable>, t: nat, data: seq<byte>) returns (res: Option<Message>)
    requires ValidSchema(S) && TablesOf(S, tables) && t < |S| && CountsFitIn(S[t], data)
    ensures res == Decode(S, t, data)
    decreases |data|, 6
  {
    var ok, x := ScanMembers(S, tables, t, data);
    if !ok {
      return None;
    }
    hide *;
    ParsingStarts(S, t, data, x);
    MembersAreShorter(S, t, data, x);
    res := ParseTally(S, tables, t, x, |data|, Scan(data).value, Decode(S, t, data));
  }

  /** The struct read out as a message. */
  method ReadStruct(fields: seq<Field>, msg: MessageStruct, ghost m: Message) returns (r: Message)
    requires msg.Represents(fields, m)
    ensures r == m
  {
    var slots: seq<Slot> := [];
    for i := 0 to |fields|
      invariant |slots| == i && forall j :: 0 <= j < i ==> slots[j] == m.slots[j]
    {
      assert msg.HoldsSlot(fields, i, m.slots[i]);
      slots := slots + [if fields[i].kind == Repeated then Many(msg.elements[i][..msg.used[i]]) else msg.slots[i]];
    }
    assert slots == m.slots;
    r := Message(slots, msg.unknown);
  }
}
