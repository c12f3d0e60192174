/** What decoding gives for any two byte strings one after the other, also where the grouping of repeated sub-messages matters. */
module Regrouping {
  import opened Options
  import opened Varint
  import opened Wire
  import opened Schema
  import opened Scalars
  import opened Encoder
  import opened Decoder
  import opened RoundTrip
  import opened Concatenation

  predicate Labelled(S: Schema, t: nat) {
    ValidSchema(S) && t < |S| && Proto2(S[t])
  }

  /** A field whose occurrences are merged goes its own way: each occurrence is decoded and merged into what the earlier ones left. */
  function FoldSlot(S: Schema, f: Field, slot: Slot, rs: seq<Record>): Option<Slot>
    requires ValidSchema(S) && ValidField(S, f) && AllExact(rs)
    decreases |rs|
  {
    if rs == [] then Some(slot)
    else if rs[0].tag != f.id then FoldSlot(S, f, slot, rs[1..])
    else
      match ParseValue(S, f, rs[0], slot)
      case None => None
      case Some(v) => FoldSlot(S, f, Present(v), rs[1..])
  }

  predicate AllFold(S: Schema, t: nat, rs: seq<Record>, j: Message)
    requires ValidSchema(S) && AllExact(rs)
  {
    && t < |S| && |j.slots| == |S[t].fields|
    && forall i :: 0 <= i < |j.slots| && Merges(S[t].fields[i]) ==> FoldSlot(S, S[t].fields[i], j.slots[i], rs).Some?
  }

  /** `j` is `a` joined with `b` but for the fields that get merged. */
  predicate Tracks(S: Schema, t: nat, a: Message, b: Message, j: Message) {
    && t < |S| && |S[t].fields| == |a.slots| == |b.slots| == |j.slots|
    && j.unknown == a.unknown + b.unknown
    && forall i :: 0 <= i < |j.slots| && !Merges(S[t].fields[i]) ==> JoinSlot(S, t, a, b, i) == Some(j.slots[i])
  }

  // ----- one record -----

  /** A record of a field that gets merged changes only its own slot, and decides alone whether it can be stored. */
  lemma MergedStep(S: Schema, t: nat, r: Record, i: nat, a: Message, b: Message, j: Message)
    requires Labelled(S, t) && Exact(r) && Tracks(S, t, a, b, j)
    requires Lookup(S[t].fields, r.tag) == Some(i) && Merges(S[t].fields[i]) && StoreRecord(S, t, r, b).Some?
    ensures var x, y, v := StoreRecord(S, t, r, b).value, StoreRecord(S, t, r, j), ParseValue(S, S[t].fields[i], r, j.slots[i]);
      && (y.Some? <==> v.Some?)
      && (y.Some? ==> y.value == j.(slots := j.slots[i := Present(v.value)]) && Tracks(S, t, a, x, y.value))
  {
    hide Exact, ParseValue, JoinField, Lookup;
    var fields, x := S[t].fields, StoreRecord(S, t, r, b).value;
    forall k | 0 <= k < |fields| && k != i
      ensures JoinSlot(S, t, a, x, k) == JoinSlot(S, t, a, b, k)
    {
      ChosenElsewhere(fields, b.slots, x.slots, i, fields[k]);
    }
  }

  lemma UnknownStep(S: Schema, t: nat, r: Record, a: Message, b: Message, j: Message)
    requires Labelled(S, t) && Exact(r) && Tracks(S, t, a, b, j) && Lookup(S[t].fields, r.tag).None?
    ensures StoreRecord(S, t, r, b) == Some(b.(unknown := b.unknown + [r]))
    ensures StoreRecord(S, t, r, j) == Some(j.(unknown := j.unknown + [r]))
    ensures Tracks(S, t, a, b.(unknown := b.unknown + [r]), j.(unknown := j.unknown + [r]))
  {
    hide Exact, JoinSlot;
    var x := b.(unknown := b.unknown + [r]);
    forall k | 0 <= k < |a.slots|
      ensures JoinSlot(S, t, a, x, k) == JoinSlot(S, t, a, b, k)
    {
      SlotsOnly(S, t, a, b, x, k);
    }
    assert (a.unknown + b.unknown) + [r] == a.unknown + (b.unknown + [r]);
  }

  lemma UnionStep(S: Schema, t: nat, r: Record, i: nat, a: Message, b: Message, j: Message)
    requires Labelled(S, t) && Exact(r) && Tracks(S, t, a, b, j) && StoreRecord(S, t, r, b).Some?
    requires Lookup(S[t].fields, r.tag) == Some(i) && InOneof(S[t].fields[i])
    ensures var y := StoreRecord(S, t, r, j); y.Some? && Tracks(S, t, a, StoreRecord(S, t, r, b).value, y.value)
    ensures forall k :: 0 <= k < |j.slots| && Merges(S[t].fields[k]) ==> StoreRecord(S, t, r, j).value.slots[k] == j.slots[k]
  {
    hide Exact, ParseValue, JoinField, Lookup;
    var fields, x, y := S[t].fields, StoreRecord(S, t, r, b).value, StoreRecord(S, t, r, j).value;
    forall k | 0 <= k < |fields| && !Merges(fields[k])
      ensures JoinSlot(S, t, a, x, k) == Some(y.slots[k])
    {
      assert JoinSlot(S, t, a, b, k) == Some(j.slots[k]);
      if Siblings(fields[k], fields[i]) {
        assert x.slots[i].Present? && Siblings(fields[i], fields[k]);
      } else {
        ChosenElsewhere(fields, b.slots, x.slots, i, fields[k]);
      }
    }
  }

  /** What is left of the proof when only slot `i` and no union has changed. */
  lemma SlotStep(S: Schema, t: nat, i: nat, a: Message, b: Message, j: Message, x: Message, y: Message)
    requires Tracks(S, t, a, b, j) && i < |j.slots| && !InOneof(S[t].fields[i])
    requires |x.slots| == |b.slots| && x.unknown == b.unknown && |y.slots| == |j.slots| && y.unknown == j.unknown
    requires forall k :: 0 <= k < |b.slots| && k != i ==> x.slots[k] == b.slots[k] && y.slots[k] == j.slots[k]
    requires JoinSlot(S, t, a, x, i) == Some(y.slots[i])
    ensures Tracks(S, t, a, x, y)
  {
    hide JoinField;
    forall k | 0 <= k < |j.slots| && k != i && !Merges(S[t].fields[k])
      ensures JoinSlot(S, t, a, x, k) == Some(y.slots[k])
    {
      assert JoinSlot(S, t, a, b, k) == Some(j.slots[k]);
      ChosenElsewhere(S[t].fields, b.slots, x.slots, i, S[t].fields[k]);
    }
  }

  /** A field outside unions that is not merged. */
  lemma SingleStep(S: Schema, t: nat, r: Record, i: nat, a: Message, b: Message, j: Message)
    requires Labelled(S, t) && Exact(r) && Tracks(S, t, a, b, j) && StoreRecord(S, t, r, b).Some?
    requires Lookup(S[t].fields, r.tag) == Some(i)
    requires !InOneof(S[t].fields[i]) && !Merges(S[t].fields[i]) && S[t].fields[i].kind != Repeated
    ensures var y := StoreRecord(S, t, r, j); y.Some? && Tracks(S, t, a, StoreRecord(S, t, r, b).value, y.value)
    ensures forall k :: 0 <= k < |j.slots| && Merges(S[t].fields[k]) ==> StoreRecord(S, t, r, j).value.slots[k] == j.slots[k]
  {
    hide Exact, Lookup, Merge, ParseValue, Tracks;
    TracksShape(S, t, a, b, j);
    PlainParse(S, S[t].fields[i], r, b.slots[i], j.slots[i]);
    SlotStep(S, t, i, a, b, j, StoreRecord(S, t, r, b).value, StoreRecord(S, t, r, j).value);
  }

  lemma TracksShape(S: Schema, t: nat, a: Message, b: Message, j: Message)
    requires Tracks(S, t, a, b, j)
    ensures t < |S| && |S[t].fields| == |a.slots| == |b.slots| == |j.slots|
  {
  }

  lemma RepeatedStep(S: Schema, t: nat, r: Record, i: nat, a: Message, b: Message, j: Message)
    requires Labelled(S, t) && Exact(r) && Fit(S, t, a) && Fit(S, t, b) && Tracks(S, t, a, b, j) && StoreRecord(S, t, r, b).Some?
    requires Lookup(S[t].fields, r.tag) == Some(i) && S[t].fields[i].kind == Repeated
    ensures var y := StoreRecord(S, t, r, j); y.Some? && Tracks(S, t, a, StoreRecord(S, t, r, b).value, y.value)
    ensures forall k :: 0 <= k < |j.slots| && Merges(S[t].fields[k]) ==> StoreRecord(S, t, r, j).value.slots[k] == j.slots[k]
  {
    hide Exact, Lookup, Merge, ParseElements, StoreRecord, Fit, JoinSlot, Tracks;
    TracksShape(S, t, a, b, j);
    RepeatedIsMany(S, t, a, i);
    RepeatedIsMany(S, t, b, i);
    JoinOfRepeatedAt(S, t, a, b, i);
    TracksAt(S, t, a, b, j, i);
    StoreRepeated(S, t, r, i, b);
    StoreRepeated(S, t, r, i, j);
    var vs, x := ParseElements(S, S[t].fields[i], r).value, StoreRecord(S, t, r, b).value;
    JoinOfRepeatedAt(S, t, a, x, i);
    assert (a.slots[i].vs + b.slots[i].vs) + vs == a.slots[i].vs + (b.slots[i].vs + vs);
    SlotStep(S, t, i, a, b, j, x, StoreRecord(S, t, r, j).value);
  }

  lemma TracksAt(S: Schema, t: nat, a: Message, b: Message, j: Message, i: nat)
    requires Tracks(S, t, a, b, j) && i < |j.slots| && !Merges(S[t].fields[i])
    ensures JoinSlot(S, t, a, b, i) == Some(j.slots[i])
  {
  }

  lemma PlainParse(S: Schema, f: Field, r: Record, x: Slot, y: Slot)
    requires ValidSchema(S) && ValidField(S, f) && Exact(r) && !InOneof(f) && !Merges(f) && f.kind != Repeated
    ensures ParseValue(S, f, r, x) == ParseValue(S, f, r, y)
  {
  }

  // ----- whole runs -----

  /** Any record but of a field that gets merged. */
  lemma OtherStep(S: Schema, t: nat, r: Record, a: Message, b: Message, j: Message)
    requires Labelled(S, t) && Exact(r) && Fit(S, t, a) && Fit(S, t, b) && Tracks(S, t, a, b, j) && StoreRecord(S, t, r, b).Some?
    requires var i := Lookup(S[t].fields, r.tag); i.Some? ==> !Merges(S[t].fields[i.value])
    ensures var y := StoreRecord(S, t, r, j); y.Some? && Tracks(S, t, a, StoreRecord(S, t, r, b).value, y.value)
    ensures forall k :: 0 <= k < |j.slots| && Merges(S[t].fields[k]) ==> StoreRecord(S, t, r, j).value.slots[k] == j.slots[k]
  {
    hide Exact, StoreRecord, Fit, Tracks;
    TracksShape(S, t, a, b, j);
    match Lookup(S[t].fields, r.tag)
    case None => UnknownStep(S, t, r, a, b, j);
    case Some(i) =>
      if S[t].fields[i].kind == Repeated {
        RepeatedStep(S, t, r, i, a, b, j);
      } else if InOneof(S[t].fields[i]) {
        UnionStep(S, t, r, i, a, b, j);
      } else {
        SingleStep(S, t, r, i, a, b, j);
      }
  }

  /** The slots of the fields that get merged are what the run makes of those of `j`. */
  predicate Folded(S: Schema, t: nat, rs: seq<Record>, j: Message, y: Message)
    requires ValidSchema(S) && AllExact(rs)
  {
    && t < |S| && |j.slots| == |y.slots| == |S[t].fields|
    && forall i :: 0 <= i < |j.slots| && Merges(S[t].fields[i]) ==> FoldSlot(S, S[t].fields[i], j.slots[i], rs) == Some(y.slots[i])
  }

  /** The first record is not of a field that gets merged: it changes nothing for those fields. */
  lemma FoldElsewhere(S: Schema, t: nat, rs: seq<Record>, j: Message, next: Message)
    requires Labelled(S, t) && AllExact(rs) && rs != [] && |j.slots| == |next.slots| == |S[t].fields|
    requires var i := Lookup(S[t].fields, rs[0].tag); i.Some? ==> !Merges(S[t].fields[i.value])
    requires forall k :: 0 <= k < |j.slots| && Merges(S[t].fields[k]) ==> next.slots[k] == j.slots[k]
    ensures AllFold(S, t, rs, j) <==> AllFold(S, t, rs[1..], next)
    ensures forall y :: Folded(S, t, rs, j, y) <==> Folded(S, t, rs[1..], next, y)
  {
    hide Exact, ParseValue;
    forall k | 0 <= k < |j.slots| && Merges(S[t].fields[k])
      ensures FoldSlot(S, S[t].fields[k], j.slots[k], rs) == FoldSlot(S, S[t].fields[k], next.slots[k], rs[1..])
    {
      LookupFinds(S[t].fields, k);
    }
  }

  lemma FoldHere(S: Schema, t: nat, rs: seq<Record>, i: nat, j: Message, next: Message)
    requires Labelled(S, t) && AllExact(rs) && rs != [] && |j.slots| == |S[t].fields|
    requires Lookup(S[t].fields, rs[0].tag) == Some(i) && Merges(S[t].fields[i])
    requires ParseValue(S, S[t].fields[i], rs[0], j.slots[i]).Some?
    requires next == j.(slots := j.slots[i := Present(ParseValue(S, S[t].fields[i], rs[0], j.slots[i]).value)])
    ensures AllFold(S, t, rs, j) <==> AllFold(S, t, rs[1..], next)
    ensures forall y :: Folded(S, t, rs, j, y) <==> Folded(S, t, rs[1..], next, y)
  {
    hide Exact, ParseValue;
    forall k | 0 <= k < |j.slots| && Merges(S[t].fields[k])
      ensures FoldSlot(S, S[t].fields[k], j.slots[k], rs) == FoldSlot(S, S[t].fields[k], next.slots[k], rs[1..])
    {
      LookupFinds(S[t].fields, k);
    }
  }

  lemma FoldFails(S: Schema, t: nat, rs: seq<Record>, i: nat, j: Message)
    requires Labelled(S, t) && AllExact(rs) && rs != [] && |j.slots| == |S[t].fields|
    requires Lookup(S[t].fields, rs[0].tag) == Some(i) && Merges(S[t].fields[i])
    requires ParseValue(S, S[t].fields[i], rs[0], j.slots[i]).None?
    ensures !AllFold(S, t, rs, j)
  {
    hide Exact, ParseValue;
    assert FoldSlot(S, S[t].fields[i], j.slots[i], rs).None?;
  }

  /** Storing a run behind an earlier message: the fields that get merged decide whether it succeeds, each by itself, and get what
      their own occurrences make of them; every other field gets its join. */
  lemma {:induction false} RunTracks(S: Schema, t: nat, rs: seq<Record>, a: Message, b: Message, j: Message)
    requires Labelled(S, t) && AllExact(rs) && Fit(S, t, a) && Fit(S, t, b) && Tracks(S, t, a, b, j)
    requires StoreAll(S, t, rs, b).Some?
    ensures StoreAll(S, t, rs, j).Some? <==> AllFold(S, t, rs, j)
    ensures StoreAll(S, t, rs, j).Some? ==>
      var y := StoreAll(S, t, rs, j).value; Tracks(S, t, a, StoreAll(S, t, rs, b).value, y) && Folded(S, t, rs, j, y)
    decreases |rs|
  {
    hide Exact, StoreRecord, Fit, Tracks, AllFold, Folded, ParseValue, Merges;
    FitLength(S, t, b);
    TracksShape(S, t, a, b, j);
    if rs == [] {
      NoRun(S, t, j);
    } else {
      var r, x := rs[0], StoreRecord(S, t, rs[0], b).value;
      StoreRecordIsFit(S, t, r, b);
      var i := Lookup(S[t].fields, r.tag);
      if i.Some? && Merges(S[t].fields[i.value]) {
        MergedStep(S, t, r, i.value, a, b, j);
        if StoreRecord(S, t, r, j).Some? {
          var next := StoreRecord(S, t, r, j).value;
          FoldHere(S, t, rs, i.value, j, next);
          RunTracks(S, t, rs[1..], a, x, next);
        } else {
          FoldFails(S, t, rs, i.value, j);
        }
      } else {
        OtherStep(S, t, r, a, b, j);
        var next := StoreRecord(S, t, r, j).value;
        FoldElsewhere(S, t, rs, j, next);
        RunTracks(S, t, rs[1..], a, x, next);
      }
    }
  }

  lemma NoRun(S: Schema, t: nat, j: Message)
    requires ValidSchema(S) && t < |S| && |j.slots| == |S[t].fields|
    ensures AllFold(S, t, [], j) && Folded(S, t, [], j, j)
  {
  }

  // ----- the law -----

  /** The message that the second run makes of the first message: fields that get merged by their own occurrences, others joined. */
  ghost predicate IsContinued(S: Schema, t: nat, rs: seq<Record>, a: Message, b: Message, m: Message)
    requires ValidSchema(S) && AllExact(rs)
  {
    Tracks(S, t, a, b, m) && Folded(S, t, rs, a, m)
  }

  /** For any two byte strings that decode: one after the other decodes if and only if the slabs hold the members and the
      occurrences of every sub-message in the second merge one by one into what the first left; and then those fields are the
      results, and all others are joined. */
  lemma AnyConcatenation(S: Schema, t: nat, x: seq<byte>, y: seq<byte>)
    requires Labelled(S, t) && Decode(S, t, x).Some? && Decode(S, t, y).Some?
    ensures AllExact(Scan(y).value)
    ensures var a, b, rs, m := Decode(S, t, x).value, Decode(S, t, y).value, Scan(y).value, Decode(S, t, x + y);
      && (m.Some? <==> |Scan(x).value| + |rs| <= SLAB_CAPACITY && AllFold(S, t, rs, a))
      && (m.Some? ==> IsContinued(S, t, rs, a, b, m.value))
  {
    hide Admissible, Scan, StoreAll, Exact, Fit, AllFold, Folded, Tracks, Init;
    var rx, ry := Scan(x).value, Scan(y).value;
    var a := Decode(S, t, x).value;
    ScannedAreExact(x);
    ScannedAreExact(y);
    ScanAppend(x, y);
    AdmissibleTogether(S[t], rx, ry);
    InitIsFit(S, t);
    InitLength(S[t]);
    StoreAllAppend(S, t, rx, ry, Init(S[t]));
    DecodeIsFit(S, t, x);
    TracksFromInit(S, t, a);
    RunTracks(S, t, ry, a, Init(S[t]), a);
  }

  lemma TracksFromInit(S: Schema, t: nat, a: Message)
    requires Labelled(S, t) && Fit(S, t, a)
    ensures Tracks(S, t, a, Init(S[t]), a)
  {
    JoinInit(S, t, {}, a);
    forall i | 0 <= i < |a.slots|
      ensures JoinSlot(S, t, a, Init(S[t]), i) == Some(a.slots[i])
    {
      JoinAt(S, t, a, Init(S[t]), i);
    }
    assert a.unknown + [] == a.unknown;
  }

  /** The grouping of the occurrences makes no difference to a field: merging them one by one into what the first message has is
      merging what they make by themselves. */
  predicate GroupingAgrees(S: Schema, t: nat, rs: seq<Record>, a: Message, b: Message)
    requires Labelled(S, t) && AllExact(rs) && |a.slots| == |b.slots| == |S[t].fields|
  {
    forall i :: 0 <= i < |a.slots| && Merges(S[t].fields[i]) ==>
      JoinSlot(S, t, a, b, i).Some? && FoldSlot(S, S[t].fields[i], a.slots[i], rs) == JoinSlot(S, t, a, b, i)
  }

  /** So one string after the other decodes to the join of the two messages if and only if the grouping makes no difference. */
  lemma JoinedIffGroupingAgrees(S: Schema, t: nat, x: seq<byte>, y: seq<byte>)
    requires Labelled(S, t) && Decode(S, t, x).Some? && Decode(S, t, y).Some?
    requires |Scan(x).value| + |Scan(y).value| <= SLAB_CAPACITY
    ensures AllExact(Scan(y).value)
    ensures var a, b, rs := Decode(S, t, x).value, Decode(S, t, y).value, Scan(y).value;
      Joins(S, t, a, b) && Decode(S, t, x + y) == Some(Join(S, t, a, b)) <==> GroupingAgrees(S, t, rs, a, b)
  {
    hide Decode, Scan, Exact, FoldSlot, JoinSlot, ParseValue;
    DecodedScans(S, t, x);
    DecodedScans(S, t, y);
    AnyConcatenation(S, t, x, y);
    var a, b, rs, m := Decode(S, t, x).value, Decode(S, t, y).value, Scan(y).value, Decode(S, t, x + y);
    if GroupingAgrees(S, t, rs, a, b) {
      OthersJoin(S, t, a, b);
      assert AllFold(S, t, rs, a);
      assert m.value.slots == Join(S, t, a, b).slots;
    } else if Joins(S, t, a, b) && m == Some(Join(S, t, a, b)) {
      forall i | 0 <= i < |a.slots| && Merges(S[t].fields[i])
        ensures FoldSlot(S, S[t].fields[i], a.slots[i], rs) == JoinSlot(S, t, a, b, i)
      {
        JoinAt(S, t, a, b, i);
      }
    }
  }

  lemma OthersJoin(S: Schema, t: nat, a: Message, b: Message)
    requires t < |S| && |a.slots| == |b.slots| == |S[t].fields|
    ensures forall i :: 0 <= i < |a.slots| && !Merges(S[t].fields[i]) ==> JoinSlot(S, t, a, b, i).Some?
  {
  }

  // ----- where the grouping matters -----

  lemma {:induction false} FailsEarly(S: Schema, f: Field, slot: Slot, p: seq<Record>, q: seq<Record>)
    requires ValidSchema(S) && ValidField(S, f) && AllExact(p) && AllExact(q) && FoldSlot(S, f, slot, p).None?
    ensures AllExact(p + q) && FoldSlot(S, f, slot, p + q).None?
    decreases |p|
  {
    hide Exact, ParseValue;
    if p == [] {
    } else {
      assert (p + q)[0] == p[0] && (p + q)[1..] == p[1..] + q;
      if p[0].tag != f.id {
        FailsEarly(S, f, slot, p[1..], q);
      } else if ParseValue(S, f, p[0], slot).Some? {
        FailsEarly(S, f, Present(ParseValue(S, f, p[0], slot).value), p[1..], q);
      }
    }
  }

  /** If decoding fails with the first part of the second string, so it does with the whole. */
  lemma FailsWithMore(S: Schema, t: nat, x: seq<byte>, y: seq<byte>, z: seq<byte>)
    requires Labelled(S, t) && Decode(S, t, x).Some? && Decode(S, t, y).Some? && Decode(S, t, y + z).Some?
    requires Scan(z).Some? && |Scan(x).value| + |Scan(y).value| <= SLAB_CAPACITY && Decode(S, t, x + y).None?
    ensures Decode(S, t, x + (y + z)).None?
  {
    hide Decode, Scan, Exact, FoldSlot, ParseValue, Merges;
    DecodedScans(S, t, y);
    AnyConcatenation(S, t, x, y);
    ScanAppend(y, z);
    ScannedAreExact(y);
    ScannedAreExact(z);
    AnyConcatenation(S, t, x, y + z);
    var a, p, q := Decode(S, t, x).value, Scan(y).value, Scan(z).value;
    if i :| 0 <= i < |a.slots| && Merges(S[t].fields[i]) && FoldSlot(S, S[t].fields[i], a.slots[i], p).None? {
      FailsEarly(S, S[t].fields[i], a.slots[i], p, q);
    }
  }

  const SET_INNER: Message := Message([Present(Word32(1))], [])

  const SET_SUB: Message := Message([Present(Sub(SET_INNER))], [])

  lemma SetValue()
    ensures var S, g, v := UNION_INSIDE, UNION_INSIDE[1].fields[0], Word32(1);
      ValidSchema(S) && ShapedValue(S, g, v) && WellFormedValue(S, g, v) && |Payload(S, g, v)| <= MAX_VARINT
  {
    hide Encode, SignExtend;
    InnerFacts();
    SizesAreLengths(SignExtend(1));
  }

  lemma SetInnerFacts()
    ensures ValidSchema(UNION_INSIDE) && Shaped(UNION_INSIDE, 1, SET_INNER)
    ensures MessageRecords(UNION_INSIDE, 1, SET_INNER) == [ValueRecord(UNION_INSIDE, UNION_INSIDE[1].fields[0], Word32(1))]
    ensures WellFormed(UNION_INSIDE, 1, SET_INNER)
  {
    hide Payload, ShapedValue, WellFormedValue, ValidSchema;
    SetValue();
    var S, m, g := UNION_INSIDE, SET_INNER, UNION_INSIDE[1].fields[0];
    assert ShapedSlot(S, g, m.slots[0]) && WellFormedSlot(S, g, m.slots[0]);
    var r := ValueRecord(S, g, Word32(1));
    assert FieldRecords(S, 1, m, 1) == [];
    assert SlotRecords(S, g, m.slots[0]) == [r];
    assert FieldRecords(S, 1, m, 0) == [r] + [];
    assert MessageRecords(S, 1, m) == [r] + [];
  }

  lemma SetInnerIsShort()
    ensures ValidSchema(UNION_INSIDE) && Shaped(UNION_INSIDE, 1, SET_INNER)
    ensures |EncodeMessage(UNION_INSIDE, 1, SET_INNER)| <= MAX_VARINT + 5
  {
    hide Payload, MessageRecords, TagBytes, ValidSchema, Shaped, ShapedValue;
    SetInnerFacts();
    SetValue();
    var r := ValueRecord(UNION_INSIDE, UNION_INSIDE[1].fields[0], Word32(1));
    TagRoundTrip(1, WIRE_VARINT, []);
    assert [r][1..] == [];
    assert Serialize([r]) == RecordBytes(r) + [];
  }

  lemma SetIsWellFormed()
    ensures ValidSchema(UNION_INSIDE) && Shaped(UNION_INSIDE, 0, SET_SUB) && WellFormed(UNION_INSIDE, 0, SET_SUB)
    ensures |MessageRecords(UNION_INSIDE, 0, SET_SUB)| == 1
  {
    hide Payload, EncodeMessage, ValidSchema;
    SetInnerFacts();
    SetInnerIsShort();
    var S, m, f, v := UNION_INSIDE, SET_SUB, UNION_INSIDE[0].fields[0], Sub(SET_INNER);
    assert f.typ == Nested && f.sub == 1;
    assert ShapedValue(S, f, v) && WellFormedValue(S, f, v);
    assert ShapedSlot(S, f, m.slots[0]) && WellFormedSlot(S, f, m.slots[0]);
    var r := ValueRecord(S, f, v);
    assert FieldRecords(S, 0, m, 1) == [];
    assert SlotRecords(S, f, m.slots[0]) == [r];
    assert FieldRecords(S, 0, m, 0) == [r] + [];
    assert MessageRecords(S, 0, m) == [r] + [];
  }

  /** An unset union and a set one merge to the set one. */
  lemma SetJoins()
    ensures Joins(UNION_INSIDE, 0, EMPTY_SUB, SET_SUB) && Join(UNION_INSIDE, 0, EMPTY_SUB, SET_SUB) == SET_SUB
  {
    var S := UNION_INSIDE;
    assert Chosen(S[1].fields, SET_INNER.slots, S[1].fields[0]);
    assert MergeSlot(S, 1, NOTHING_SET, SET_INNER, 0) == Some(SET_INNER.slots[0]);
    hide MergeSlot;
    MergeSlotsAt(S, 1, NOTHING_SET, SET_INNER, 0);
    assert Merge(S, 1, NOTHING_SET, SET_INNER).value.slots == SET_INNER.slots;
    assert JoinSlot(S, 0, EMPTY_SUB, SET_SUB, 0) == Some(SET_SUB.slots[0]);
    assert Join(S, 0, EMPTY_SUB, SET_SUB).slots == SET_SUB.slots;
  }

  /** A sub-message with an unset union; then the same twice more, the second time with the union set. Each string decodes, and
      their messages join, but one after the other they are refused: the first two occurrences do not merge. */
  lemma GroupingMatters()
    ensures ValidSchema(UNION_INSIDE) && Shaped(UNION_INSIDE, 0, EMPTY_SUB) && Shaped(UNION_INSIDE, 0, SET_SUB)
    ensures var S, x, z := UNION_INSIDE, EncodeMessage(UNION_INSIDE, 0, EMPTY_SUB), EncodeMessage(UNION_INSIDE, 0, SET_SUB);
      && Decode(S, 0, x) == Some(EMPTY_SUB) && Decode(S, 0, x + z) == Some(SET_SUB)
      && Joins(S, 0, EMPTY_SUB, SET_SUB) && Decode(S, 0, x + (x + z)) == None
  {
    hide EncodeMessage, Decode, WellFormed, Shaped, MessageRecords, Scan, Serialize, ValueRecord;
    OuterFacts();
    SetIsWellFormed();
    SetJoins();
    UnsetUnionTwiceFails();
    var S, x, z := UNION_INSIDE, EncodeMessage(UNION_INSIDE, 0, EMPTY_SUB), EncodeMessage(UNION_INSIDE, 0, SET_SUB);
    MessageRoundTrip(S, 0, SET_SUB);
    ConcatenationOfEncodings(S, 0, EMPTY_SUB, SET_SUB);
    EncodingScans(S, 0, EMPTY_SUB);
    EncodingScans(S, 0, SET_SUB);
    FailsWithMore(S, 0, x, x, z);
  }

  lemma EncodingScans(S: Schema, t: nat, m: Message)
    requires ValidSchema(S) && Shaped(S, t, m) && WellFormed(S, t, m)
    ensures Scan(EncodeMessage(S, t, m)) == Some(MessageRecords(S, t, m))
  {
    hide MessageRecords, Scan, Serialize, Admissible;
    RecordsAreAdmissible(S, t, m);
    ScanSerialized(MessageRecords(S, t, m));
  }
}
