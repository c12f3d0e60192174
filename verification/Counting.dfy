/** The counting pass sizes the arrays of repeated fields; the storing pass never needs more. */
module Counting {
  import opened Options
  import opened Varint
  import opened Wire
  import opened Schema
  import opened Scalars
  import opened Decoder
  import opened RoundTrip

  /** What the scan loop adds to the count of repeated field `f` for one of its records. */
  function CountOf(f: Field, r: Record): nat
    requires Exact(r)
  {
    if !TakenAsPacked(f, r) then 1
    else match CountPacked(f.typ, Body(r)) case None => 0 case Some(n) => n
  }

  /** How many elements the parse of the record writes, even if it then fails. */
  function WrittenBy(f: Field, r: Record): nat
    requires Exact(r)
  {
    if TakenAsPacked(f, r) && Packable(f.typ) then |PackedElements(f.typ, Body(r))| else 1
  }

  /** The count of field `i` over records, a `size_t`. */
  function Counted(d: Descriptor, i: nat, rs: seq<Record>): nat
    requires AllExact(rs) && i < |d.fields|
  {
    if rs == [] then 0
    else (if Lookup(d.fields, rs[0].tag) == Some(i) then CountOf(d.fields[i], rs[0]) else 0) + Counted(d, i, rs[1..])
  }

  lemma {:induction false} CountedAppend(d: Descriptor, i: nat, a: seq<Record>, b: seq<Record>)
    requires AllExact(a) && AllExact(b) && i < |d.fields|
    ensures AllExact(a + b) && Counted(d, i, a + b) == Counted(d, i, a) + Counted(d, i, b)
  {
    hide CountOf, Exact, Lookup;
    if a == [] {
      assert a + b == b;
    } else {
      assert (a + b)[1..] == a[1..] + b && (a + b)[0] == a[0];
      CountedAppend(d, i, a[1..], b);
    }
  }

  lemma CountedSnoc(d: Descriptor, i: nat, rs: seq<Record>, r: Record)
    requires AllExact(rs) && Exact(r) && i < |d.fields|
    ensures AllExact(rs + [r])
    ensures Counted(d, i, rs + [r]) == Counted(d, i, rs) + if Lookup(d.fields, r.tag) == Some(i) then CountOf(d.fields[i], r) else 0
  {
    hide CountOf, Exact, Lookup;
    CountedAppend(d, i, rs, [r]);
    assert [r][1..] == [];
    assert Counted(d, i, [r]) == (if Lookup(d.fields, r.tag) == Some(i) then CountOf(d.fields[i], r) else 0) + Counted(d, i, []);
  }

  /** One record: no more is written than was counted, and when it parses exactly that, packed bools apart. */
  lemma RecordWritesCounted(S: Schema, d: Descriptor, i: nat, r: Record)
    requires ValidSchema(S) && ValidDescriptor(S, d) && i < |d.fields| && d.fields[i].kind == Repeated
    requires Exact(r) && Lookup(d.fields, r.tag) == Some(i) && Countable(d, r)
    ensures var f := d.fields[i];
      && WrittenBy(f, r) <= CountOf(f, r)
      && (ParseElements(S, f, r).Some? ==> |ParseElements(S, f, r).value| == WrittenBy(f, r))
      && (ParseElements(S, f, r).Some? && f.typ != Boolean ==> WrittenBy(f, r) == CountOf(f, r))
  {
    hide Exact, PackedElements, PackedParses, CountPacked, ParseValue, Body, Lookup;
    var f := d.fields[i];
    if TakenAsPacked(f, r) {
      StoresAtMostCount(f.typ, Body(r));
    }
  }

  function Elements(slot: Slot): nat {
    if slot.Many? then |slot.vs| else 0
  }

  /** Over any records that pass the counting: what is stored in a repeated field is at most what was
      counted for it, and equal unless its type is bool. */
  lemma {:induction false} StoredIsCounted(S: Schema, t: nat, i: nat, rs: seq<Record>, m: Message)
    requires ValidSchema(S) && t < |S| && |m.slots| == |S[t].fields| && AllExact(rs) && forall r <- rs :: Countable(S[t], r)
    requires i < |m.slots| && S[t].fields[i].kind == Repeated && StoreAll(S, t, rs, m).Some?
    ensures var e := StoreAll(S, t, rs, m).value;
      && Elements(e.slots[i]) <= Elements(m.slots[i]) + Counted(S[t], i, rs)
      && (S[t].fields[i].typ != Boolean ==> Elements(e.slots[i]) == Elements(m.slots[i]) + Counted(S[t], i, rs))
    decreases |rs|
  {
    hide Exact, ParseElements, ParseValue, Countable, CountOf, WrittenBy;
    if rs == [] {
    } else {
      var next := StoreRecord(S, t, rs[0], m).value;
      StoredIsCounted(S, t, i, rs[1..], next);
      if Lookup(S[t].fields, rs[0].tag) == Some(i) {
        RecordWritesCounted(S, S[t], i, rs[0]);
      } else {
        OtherSlot(S, t, rs[0], m, i);
      }
    }
  }

  lemma OtherSlot(S: Schema, t: nat, r: Record, m: Message, i: nat)
    requires ValidSchema(S) && t < |S| && |m.slots| == |S[t].fields| && Exact(r) && i < |m.slots|
    requires S[t].fields[i].kind == Repeated && Lookup(S[t].fields, r.tag) != Some(i) && StoreRecord(S, t, r, m).Some?
    ensures StoreRecord(S, t, r, m).value.slots[i] == m.slots[i]
  {
    hide Exact, ParseElements, ParseValue;
  }

  /** Every message decoded: each repeated field holds exactly what was counted for it, fewer only if it is
      of type bool. */
  lemma DecodedIsCounted(S: Schema, t: nat, i: nat, s: seq<byte>)
    requires ValidSchema(S) && t < |S| && Decode(S, t, s).Some? && i < |S[t].fields| && S[t].fields[i].kind == Repeated
    ensures AllExact(Scan(s).value)
    ensures var n := Counted(S[t], i, Scan(s).value);
      && Elements(Decode(S, t, s).value.slots[i]) <= n
      && (S[t].fields[i].typ != Boolean ==> Elements(Decode(S, t, s).value.slots[i]) == n)
  {
    hide Exact, StoreAll, Counted, Countable;
    ScannedAreExact(s);
    StoredIsCounted(S, t, i, Scan(s).value, Init(S[t]));
    assert Init(S[t]).slots[i] == Many([]);
  }

  // ----- the arrays -----

  /** The count goes through an `unsigned` on its way to the allocator. */
  function ArrayLength(count: nat): nat {
    count % TWO_32
  }

  predicate CountsFit(d: Descriptor, rs: seq<Record>)
    requires AllExact(rs)
  {
    forall i :: 0 <= i < |d.fields| && d.fields[i].kind == Repeated ==> Counted(d, i, rs) < TWO_32
  }

  /** The counts of an input: each repeated field of the type is counted below 2^32. */
  predicate CountsFitIn(d: Descriptor, s: seq<byte>) {
    match Scan(s)
    case None => true
    case Some(rs) =>
      ScannedAreExact(s);
      CountsFit(d, rs)
  }

  /** A record is counted at most for its own bytes and its tag. */
  lemma CountOfWeighs(f: Field, r: Record)
    requires Exact(r)
    ensures CountOf(f, r) <= |r.data| + 1
  {
    hide Exact, PrefixLength;
    var s := Body(r);
    assert Width(f.typ) > 0 ==> |s| / Width(f.typ) <= |s|;
  }

  lemma {:induction false} CountedWeighs(d: Descriptor, i: nat, rs: seq<Record>)
    requires AllExact(rs) && i < |d.fields|
    ensures Counted(d, i, rs) <= Weight(rs)
  {
    hide Exact, CountOf, Lookup;
    if rs == [] {
    } else {
      CountOfWeighs(d.fields[i], rs[0]);
      CountedWeighs(d, i, rs[1..]);
    }
  }

  /** No count exceeds the length of the input, so every input below 4 GiB keeps its counts. */
  lemma CountedBelowInput(d: Descriptor, s: seq<byte>)
    requires Scan(s).Some?
    ensures AllExact(Scan(s).value)
    ensures forall i :: 0 <= i < |d.fields| ==> Counted(d, i, Scan(s).value) <= |s|
    ensures |s| < TWO_32 ==> CountsFit(d, Scan(s).value) && CountsFitIn(d, s)
  {
    hide Exact, Scan, Counted;
    ScannedAreExact(s);
    forall i | 0 <= i < |d.fields|
      ensures Counted(d, i, Scan(s).value) <= |s|
    {
      CountedWeighs(d, i, Scan(s).value);
    }
  }

  lemma SmallInputsFit(d: Descriptor, s: seq<byte>)
    requires |s| < TWO_32
    ensures CountsFitIn(d, s)
  {
    hide CountsFit;
    if Scan(s).Some? {
      CountedBelowInput(d, s);
    }
  }

  /** At every point of the storing pass, the next record needs no more elements than were counted, whether or not it parses;
      so it still fits the array if the count does not wrap around. */
  lemma NextRecordFits(S: Schema, t: nat, i: nat, rs: seq<Record>, k: nat)
    requires ValidSchema(S) && t < |S| && AllExact(rs) && (forall r <- rs :: Countable(S[t], r)) && k < |rs|
    requires i < |S[t].fields| && S[t].fields[i].kind == Repeated && Lookup(S[t].fields, rs[k].tag) == Some(i)
    requires AllExact(rs[..k]) && StoreAll(S, t, rs[..k], Init(S[t])).Some?
    ensures Elements(StoreAll(S, t, rs[..k], Init(S[t])).value.slots[i]) + WrittenBy(S[t].fields[i], rs[k])
      <= Counted(S[t], i, rs)
    ensures Counted(S[t], i, rs) < TWO_32 ==>
      Elements(StoreAll(S, t, rs[..k], Init(S[t])).value.slots[i]) + WrittenBy(S[t].fields[i], rs[k])
      <= ArrayLength(Counted(S[t], i, rs))
  {
    hide Exact, StoreAll, CountOf, WrittenBy, Countable, Lookup;
    StoredIsCounted(S, t, i, rs[..k], Init(S[t]));
    assert Init(S[t]).slots[i] == Many([]);
    RecordWritesCounted(S, S[t], i, rs[k]);
    CountedAppend(S[t], i, rs[..k], rs[k..]);
    assert rs[..k] + rs[k..] == rs;
    assert Counted(S[t], i, rs[k..]) >= CountOf(S[t].fields[i], rs[k]);
  }

  /** The elements stored by a whole pass fit the array that was allocated for them. */
  predicate StoredFit(S: Schema, t: nat, i: nat, rs: seq<Record>)
    requires ValidSchema(S) && t < |S| && AllExact(rs) && i < |S[t].fields| && StoreAll(S, t, rs, Init(S[t])).Some?
  {
    Elements(StoreAll(S, t, rs, Init(S[t])).value.slots[i]) <= ArrayLength(Counted(S[t], i, rs))
  }

  /** What a successful pass stores fits if the count is below 2^32, and only then unless the type is bool, whose elements can
      be fewer than were counted. */
  lemma StoredFitIff(S: Schema, t: nat, i: nat, rs: seq<Record>)
    requires ValidSchema(S) && t < |S| && AllExact(rs) && (forall r <- rs :: Countable(S[t], r))
    requires i < |S[t].fields| && S[t].fields[i].kind == Repeated && StoreAll(S, t, rs, Init(S[t])).Some?
    ensures Counted(S[t], i, rs) < TWO_32 ==> StoredFit(S, t, i, rs)
    ensures S[t].fields[i].typ != Boolean ==> (StoredFit(S, t, i, rs) <==> Counted(S[t], i, rs) < TWO_32)
  {
    hide Exact, StoreAll, Counted, Countable;
    StoredIsCounted(S, t, i, rs, Init(S[t]));
    assert Init(S[t]).slots[i] == Many([]);
    WrapsBelow(Counted(S[t], i, rs));
  }

  lemma WrapsBelow(count: nat)
    ensures ArrayLength(count) == count <==> count < TWO_32
    ensures ArrayLength(count) <= count
  {
  }

  // ----- a count that wraps around -----

  /** One repeated field of bools, with the id 1. */
  const BOOLS: Schema := [Descriptor([Field(1, Boolean, Repeated, true, None, 0)])]

  function Ones(n: nat): (s: seq<byte>)
    ensures |s| == n && forall k :: 0 <= k < n ==> s[k] == 1
  {
    seq(n, _ => 1)
  }

  /** A packed run of bools of one byte each. */
  function BoolRun(n: nat): Record {
    Record(1, WIRE_LENGTH_PREFIXED, Delimited(Ones(n)))
  }

  lemma {:induction false} OnesAreElements(s: seq<byte>)
    requires forall k :: 0 <= k < |s| ==> s[k] == 1
    ensures |PackedElements(Boolean, s)| == |s| && PackedParses(Boolean, s)
  {
    if s == [] {
    } else {
      assert ScanVarint(s) == 1;
      OnesAreElements(s[1..]);
    }
  }

  lemma BoolsAreValid()
    ensures ValidSchema(BOOLS) && Lookup(BOOLS[0].fields, 1) == Some(0)
  {
    var fields := BOOLS[0].fields;
    assert forall i :: 0 <= i < |fields| ==> ValidField(BOOLS, fields[i]);
    assert fields[0] in fields;
    assert Lookup(fields, 1).Some?;
  }

  /** A run is counted for all its bools and adds them. */
  lemma BoolRunCounts(n: nat)
    requires n <= INT_MAX
    ensures var r, f := BoolRun(n), BOOLS[0].fields[0];
      && Scannable(r) && Exact(r) && Countable(BOOLS[0], r) && CountOf(f, r) == n
      && ValidSchema(BOOLS) && ParseElements(BOOLS, f, r).Some? && |ParseElements(BOOLS, f, r).value| == n
  {
    hide Exact, Delimited, Lookup, PackedElements, PackedParses;
    BoolsAreValid();
    DelimitedBody(1, Ones(n));
    OnesAreElements(Ones(n));
  }

  lemma BoolRunStores(n: nat, m: Message)
    requires n <= INT_MAX && |m.slots| == 1 && m.slots[0].Many?
    ensures ValidSchema(BOOLS) && Exact(BoolRun(n))
    ensures var e := StoreRecord(BOOLS, 0, BoolRun(n), m);
      e.Some? && e.value.slots[0].Many? && Elements(e.value.slots[0]) == Elements(m.slots[0]) + n
  {
    hide Exact, Delimited, Lookup, ParseElements, CountOf, Countable, Scannable;
    BoolsAreValid();
    BoolRunCounts(n);
  }

  /** Three members whose runs have 2^32 bools together. */
  function WrappingRuns(): seq<Record> {
    [BoolRun(INT_MAX), BoolRun(INT_MAX), BoolRun(2)]
  }

  lemma CountedThree(d: Descriptor, i: nat, a: Record, b: Record)
    requires i < |d.fields| && Exact(a) && Exact(b) && Lookup(d.fields, a.tag) == Lookup(d.fields, b.tag) == Some(i)
    ensures AllExact([a, a, b]) && Counted(d, i, [a, a, b]) == 2 * CountOf(d.fields[i], a) + CountOf(d.fields[i], b)
  {
    hide Exact, Lookup, CountOf, Counted;
    CountedSnoc(d, i, [], a);
    assert [] + [a] == [a];
    CountedSnoc(d, i, [a], a);
    assert [a] + [a] == [a, a];
    CountedSnoc(d, i, [a, a], b);
    assert [a, a] + [b] == [a, a, b];
    NoneCounted(d, i);
  }

  lemma NoneCounted(d: Descriptor, i: nat)
    requires i < |d.fields|
    ensures Counted(d, i, []) == 0
  {
  }

  lemma WrappingCount()
    ensures AllExact(WrappingRuns()) && AllScannable(WrappingRuns()) && Counted(BOOLS[0], 0, WrappingRuns()) == TWO_32
    ensures forall r <- WrappingRuns() :: Countable(BOOLS[0], r)
  {
    hide Exact, BoolRun, Lookup, CountOf, Countable, Scannable, Counted;
    BoolRunTag(INT_MAX);
    BoolRunTag(2);
    BoolsAreValid();
    BoolRunCounts(INT_MAX);
    BoolRunCounts(2);
    CountedThree(BOOLS[0], 0, BoolRun(INT_MAX), BoolRun(2));
  }

  lemma BoolRunTag(n: nat)
    ensures BoolRun(n).tag == 1
  {
  }

  /** These members scan and pass the count, but the array made for them has no room for any of their 2^32 elements. */
  lemma WrappingCountOverflows()
    ensures ValidSchema(BOOLS) && AllExact(WrappingRuns()) && AllScannable(WrappingRuns())
    ensures Scan(Serialize(WrappingRuns())) == Some(WrappingRuns())
    ensures forall r <- WrappingRuns() :: Countable(BOOLS[0], r)
    ensures ArrayLength(Counted(BOOLS[0], 0, WrappingRuns())) == 0
    ensures StoreAll(BOOLS, 0, WrappingRuns(), Init(BOOLS[0])).Some? && !StoredFit(BOOLS, 0, 0, WrappingRuns())
  {
    hide Exact, BoolRun, Counted, Countable, Scannable, Scan, Serialize, StoreRecord;
    BoolsAreValid();
    WrappingCount();
    ScanSerialized(WrappingRuns());
    var m0 := Init(BOOLS[0]);
    assert m0.slots[0] == Many([]);
    BoolRunStores(INT_MAX, m0);
    var m1 := StoreRecord(BOOLS, 0, BoolRun(INT_MAX), m0).value;
    BoolRunStores(INT_MAX, m1);
    var m2 := StoreRecord(BOOLS, 0, BoolRun(INT_MAX), m1).value;
    BoolRunStores(2, m2);
    var m3 := StoreRecord(BOOLS, 0, BoolRun(2), m2).value;
    var rs := WrappingRuns();
    assert rs[1..] == [BoolRun(INT_MAX), BoolRun(2)] && rs[1..][1..] == [BoolRun(2)] && rs[1..][1..][1..] == [];
    assert StoreAll(BOOLS, 0, rs[1..][1..], m2) == Some(m3);
    assert StoreAll(BOOLS, 0, rs[1..], m1) == Some(m3);
  }
}
