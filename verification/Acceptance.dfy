/** Which inputs a decoder takes: the limits of tags, lengths and runs in numbers, truncated inputs, and wire types that do not fit. */
module Acceptance {
  import opened Options
  import opened Varint
  import opened Wire
  import opened Schema
  import opened Scalars
  import opened Encoder
  import opened Decoder
  import opened RoundTrip
  import opened WireBytes

  // ----- the head of a record -----

  /** None of the first `n` bytes ends a varint. */
  predicate Endless(s: seq<byte>, n: nat) {
    forall i :: 0 <= i < |s| && i < n ==> s[i] >= 0x80
  }

  lemma EndlessIff(s: seq<byte>, n: nat)
    ensures FirstEnd(s, n) == 0 <==> Endless(s, n)
  {
  }

  /** A tag is refused if its first byte has nothing above the wire type, or it does not end within five bytes. */
  lemma TagRefusedIff(s: seq<byte>)
    requires s != []
    ensures ParseTag(s).None? <==> s[0] < 8 || Endless(s, 5)
  {
    EndlessIff(s, 5);
  }

  /** A varint is refused if it does not end within ten bytes, a fixed-width word if it is not all there; wire types 3, 4, 6 and 7
      always are. */
  lemma PayloadRefusedIff(wireType: nat, s: seq<byte>)
    requires wireType != 2
    ensures ScanPayload(wireType, s).None? <==>
      if wireType == 0 then Endless(s, 10) else if wireType == 1 then |s| < 8 else if wireType == 5 then |s| < 4 else true
    ensures ScanPayload(wireType, s).Some? ==>
      ScanPayload(wireType, s).value.len == if wireType == 1 then 8 else if wireType == 5 then 4 else FirstEnd(s, 10)
  {
    EndlessIff(s, 10);
  }

  /** A length is refused if it does not end within five bytes, is above 2^31 - 1, or is more than there is. */
  lemma LengthRefusedIff(s: seq<byte>)
    ensures ScanPayload(2, s).None? <==>
      Endless(s, 5) || Number(s[..FirstEnd(s, 5)]) > 0x7fff_ffff || FirstEnd(s, 5) + Number(s[..FirstEnd(s, 5)]) > |s|
  {
    hide Number;
    EndlessIff(s, 5);
  }

  // ----- inputs that are cut off -----

  /** `k` bytes are whole records. */
  predicate IsBoundary(s: seq<byte>, k: nat)
    decreases |s|
  {
    k == 0 || (s != [] && ScanOne(s).Some? && ScanOne(s).value.1 <= k && IsBoundary(s[ScanOne(s).value.1..], k - ScanOne(s).value.1))
  }

  /** The bytes of a record alone are scanned as that record. */
  lemma ScanOneIsExact(s: seq<byte>)
    requires s != [] && ScanOne(s).Some?
    ensures var used := ScanOne(s).value.1; s[..used] != [] && ScanOne(s[..used]) == ScanOne(s)
  {
    hide ScanPayload, ParseTag;
    var (head, used) := ScanOne(s).value;
    var tag := ParseTag(s).value;
    TagIsExact(s, used);
    PayloadIsExact(tag.wireType, s[tag.used..]);
    assert s[..used][tag.used..] == s[tag.used..][..used - tag.used];
    assert s[tag.used..][..used - tag.used][..used - tag.used] == s[tag.used..][..used - tag.used];
  }

  lemma TagIsExact(s: seq<byte>, k: nat)
    requires s != [] && ParseTag(s).Some? && ParseTag(s).value.used <= k <= |s|
    ensures s[..k] != [] && ParseTag(s[..k]) == ParseTag(s)
  {
    hide Number;
    var n := ParseTag(s).value.used;
    ScanStopsAt(s[..n], s[n..k], 5);
    assert s[..n] + s[n..k] == s[..k] && s[..k][..n] == s[..n];
  }

  lemma HeadOfPrefix(s: seq<byte>, k: nat)
    requires s != [] && ScanOne(s).Some? && 0 < k <= |s|
    ensures s[..k] != [] && ScanOne(s[..k]) == if ScanOne(s).value.1 <= k then ScanOne(s) else None
  {
    hide ScanOne;
    var used := ScanOne(s).value.1;
    if used <= k {
      ScanOneIsExact(s);
      ScanOneIsStable(s[..used], s[used..k]);
      assert s[..used] + s[used..k] == s[..k];
    } else if ScanOne(s[..k]).Some? {
      UsedIsWithin(s, k);
    }
  }

  lemma UsedIsWithin(s: seq<byte>, k: nat)
    requires 0 < k <= |s| && ScanOne(s[..k]).Some?
    ensures ScanOne(s).Some? && ScanOne(s).value.1 <= k
  {
    hide ParseTag, ScanPayload;
    ScanOneIsStable(s[..k], s[k..]);
    assert s[..k] + s[k..] == s;
  }

  /** An input that is cut off still scans if and only if it is cut between two records. */
  lemma {:induction false} CutOff(s: seq<byte>, k: nat)
    requires Scan(s).Some? && k <= |s|
    ensures Scan(s[..k]).Some? <==> IsBoundary(s, k)
    decreases |s|
  {
    hide ScanOne;
    if k == 0 {
      assert s[..k] == [];
    } else {
      HeadOfPrefix(s, k);
      var used := ScanOne(s).value.1;
      if used <= k {
        CutOff(s[used..], k - used);
        assert s[..k][used..] == s[used..][..k - used];
      }
    }
  }

  /** So no decoder takes an input that ends within a record. */
  lemma CutOffIsRefused(S: Schema, t: nat, s: seq<byte>, k: nat)
    requires ValidSchema(S) && t < |S| && Scan(s).Some? && k <= |s| && !IsBoundary(s, k)
    ensures Decode(S, t, s[..k]) == None
  {
    hide Scan, Build, IsBoundary;
    CutOff(s, k);
  }

  // ----- runs -----

  /** Ten bytes in a row from each place on have one that ends a varint. */
  predicate EndsInTime(s: seq<byte>) {
    forall i :: 0 <= i <= |s| - 10 ==> !Endless(s[i..], 10)
  }

  /** Whole words, or whole varints of at most ten bytes. */
  predicate RunFits(typ: Type, s: seq<byte>) {
    if WireNumber(typ) == 5 then |s| % 4 == 0
    else if WireNumber(typ) == 1 then |s| % 8 == 0
    else s == [] || (s[|s| - 1] < 0x80 && EndsInTime(s))
  }

  lemma {:induction false} VarintRunIff(typ: Type, s: seq<byte>)
    requires WireNumber(typ) == 0
    ensures PackedParses(typ, s) <==> s == [] || (s[|s| - 1] < 0x80 && EndsInTime(s))
    decreases |s|
  {
    hide FirstEnd, EndsInTime, PackedParses, Endless;
    VarintRunStep(typ, s);
    var n := FirstEnd(s, 10);
    EndlessIff(s, 10);
    if s == [] {
    } else if n == 0 {
      NeverInTime(s);
    } else {
      VarintRunIff(typ, s[n..]);
      InTimeBelow(s, n);
      NothingInTime(s[n..]);
    }
  }

  lemma NothingInTime(s: seq<byte>)
    ensures s == [] ==> EndsInTime(s)
  {
  }

  lemma VarintRunStep(typ: Type, s: seq<byte>)
    requires WireNumber(typ) == 0
    ensures PackedParses(typ, s) <==> s == [] || (FirstEnd(s, 10) > 0 && PackedParses(typ, s[FirstEnd(s, 10)..]))
  {
    hide FirstEnd;
    WireTypeIsNumbered(typ);
  }

  lemma NeverInTime(s: seq<byte>)
    requires s != [] && Endless(s, 10)
    ensures s[|s| - 1] >= 0x80 || !EndsInTime(s)
  {
    if |s| >= 10 {
      assert s[0..] == s;
    }
  }

  lemma InTimeBelow(s: seq<byte>, n: nat)
    requires 0 < n <= |s| && n <= 10 && s[n - 1] < 0x80
    ensures EndsInTime(s) <==> EndsInTime(s[n..])
  {
    forall i | 0 <= i <= |s| - 10 && i < n
      ensures !Endless(s[i..], 10)
    {
      assert s[i..][n - 1 - i] == s[n - 1];
    }
    if EndsInTime(s[n..]) {
      forall i | n <= i <= |s| - 10
        ensures !Endless(s[i..], 10)
      {
        assert s[n..][i - n..] == s[i..];
      }
    }
    if EndsInTime(s) {
      forall i | 0 <= i <= |s[n..]| - 10
        ensures !Endless(s[n..][i..], 10)
      {
        assert s[n..][i..] == s[n + i..];
      }
    }
  }

  lemma {:induction false} FixedRunParses(typ: Type, s: seq<byte>)
    requires WireNumber(typ) in {1, 5}
    ensures PackedParses(typ, s)
    decreases |s|
  {
    if |s| >= Width(typ) {
      FixedRunParses(typ, s[Width(typ)..]);
    }
  }

  /** A run is counted and read if and only if it is whole words, or whole varints of at most ten bytes. */
  lemma RunAcceptedIff(typ: Type, s: seq<byte>)
    requires Packable(typ)
    ensures CountPacked(typ, s).Some? && PackedParses(typ, s) <==> RunFits(typ, s)
  {
    hide EndsInTime, PackedParses;
    if WireNumber(typ) == 0 {
      VarintRunIff(typ, s);
    } else {
      FixedRunParses(typ, s);
    }
  }

  // ----- whole inputs, for types without sub-messages -----

  /** The record is one that a field of its id takes. A bool takes any wire type. */
  predicate Fits(f: Field, r: Record) {
    if f.kind == Repeated && r.wireType == 2 && Packable(f.typ) then Exact(r) && RunFits(f.typ, Body(r))
    else f.typ == Boolean || r.wireType == WireNumber(f.typ)
  }

  predicate FitsType(d: Descriptor, r: Record) {
    forall i :: 0 <= i < |d.fields| && d.fields[i].id == r.tag ==> Fits(d.fields[i], r)
  }

  predicate Flat(d: Descriptor) {
    forall i :: 0 <= i < |d.fields| ==> d.fields[i].typ != Nested
  }

  lemma ValueTakenIff(S: Schema, f: Field, r: Record, there: Slot)
    requires ValidSchema(S) && ValidField(S, f) && f.typ != Nested && Exact(r)
    ensures ParseValue(S, f, r, there).Some? <==> f.typ == Boolean || r.wireType == WireNumber(f.typ)
  {
    hide ScanPayload, DecodeScalar;
    WireTypeIsNumbered(f.typ);
  }

  lemma ElementsTakenIff(S: Schema, f: Field, r: Record)
    requires ValidSchema(S) && ValidField(S, f) && f.typ != Nested && f.kind == Repeated && Exact(r)
    ensures ParseElements(S, f, r).Some? && (TakenAsPacked(f, r) ==> CountPacked(f.typ, Body(r)).Some?) <==> Fits(f, r)
  {
    hide ScanPayload, ParseValue, CountPacked, PackedParses, PackedElements, RunFits;
    if TakenAsPacked(f, r) {
      RunAcceptedIff(f.typ, Body(r));
    } else {
      ValueTakenIff(S, f, r, Absent);
    }
  }

  lemma FitsAt(d: Descriptor, r: Record)
    requires Sorted(d.fields)
    ensures FitsType(d, r) <==> Lookup(d.fields, r.tag).Some? ==> Fits(d.fields[Lookup(d.fields, r.tag).value], r)
  {
    hide Fits;
    var i := Lookup(d.fields, r.tag);
    if i.Some? {
      forall j | 0 <= j < |d.fields| && d.fields[j].id == r.tag
        ensures j == i.value
      {
        LookupFinds(d.fields, j);
      }
    } else {
      assert forall j :: 0 <= j < |d.fields| ==> d.fields[j] in d.fields;
    }
  }

  /** Whether a record is stored does not depend on what is stored already. */
  lemma StoredIff(S: Schema, t: nat, r: Record, m: Message)
    requires ValidSchema(S) && t < |S| && Flat(S[t]) && |m.slots| == |S[t].fields| && Exact(r)
    ensures StoreRecord(S, t, r, m).Some? && Countable(S[t], r) <==> FitsType(S[t], r)
  {
    hide ScanPayload, ParseValue, ParseElements, CountPacked, Fits, FitsType, Lookup, Cleared;
    FitsAt(S[t], r);
    var i := Lookup(S[t].fields, r.tag);
    if i.Some? {
      var f := S[t].fields[i.value];
      if f.kind == Repeated {
        ElementsTakenIff(S, f, r);
      } else {
        ValueTakenIff(S, f, r, if InOneof(f) then Absent else m.slots[i.value]);
        SingleFits(f, r);
      }
    }
  }

  lemma SingleFits(f: Field, r: Record)
    requires f.kind != Repeated
    ensures Fits(f, r) <==> f.typ == Boolean || r.wireType == WireNumber(f.typ)
  {
  }

  lemma {:induction false} AllStoredIff(S: Schema, t: nat, rs: seq<Record>, m: Message)
    requires ValidSchema(S) && t < |S| && Flat(S[t]) && |m.slots| == |S[t].fields| && AllExact(rs)
    ensures StoreAll(S, t, rs, m).Some? && (forall r <- rs :: Countable(S[t], r)) <==> forall r <- rs :: FitsType(S[t], r)
    decreases |rs|
  {
    hide StoreRecord, Countable, Exact, FitsType, ValidSchema, Flat;
    if rs == [] {
    } else {
      assert rs == [rs[0]] + rs[1..];
      StoredIff(S, t, rs[0], m);
      var next := StoreRecord(S, t, rs[0], m);
      if next.Some? {
        AllStoredIff(S, t, rs[1..], next.value);
      }
    }
  }

  ghost predicate HasRequired(d: Descriptor, rs: seq<Record>) {
    forall f <- d.fields :: f.kind == Required ==> exists r <- rs :: r.tag == f.id
  }

  /** An input for a type without sub-messages is decoded if and only if it scans to no more records than the slabs hold, has one for
      each required field, and each is one that the field of its id takes. */
  lemma AcceptedIff(S: Schema, t: nat, s: seq<byte>)
    requires ValidSchema(S) && t < |S| && Flat(S[t])
    ensures Decode(S, t, s).Some? <==> Scan(s).Some? && var rs := Scan(s).value;
      |rs| <= 134_217_712 && HasRequired(S[t], rs) && forall r <- rs :: FitsType(S[t], r)
  {
    hide Scan, Exact, Countable, StoreAll, FitsType, Init;
    if Scan(s).Some? {
      ScannedAreExact(s);
      var rs := Scan(s).value;
      InitLength(S[t]);
      AllStoredIff(S, t, rs, Init(S[t]));
      RequiredIsSeen(S[t], rs);
    }
  }

  lemma RequiredIsSeen(d: Descriptor, rs: seq<Record>)
    ensures AllRequiredSeen(d, rs) <==> HasRequired(d, rs)
  {
    if AllRequiredSeen(d, rs) {
      forall f | f in d.fields && f.kind == Required
        ensures exists r <- rs :: r.tag == f.id
      {
        var i :| 0 <= i < |d.fields| && d.fields[i] == f;
        assert Seen(d.fields[i], rs);
      }
    }
    if HasRequired(d, rs) {
      forall i | 0 <= i < |d.fields| && d.fields[i].kind == Required
        ensures Seen(d.fields[i], rs)
      {
        assert d.fields[i] in d.fields;
      }
    }
  }

  // ----- what is read where nothing is written -----

  /** A field that no record is for: no elements, nothing, or the zero of a type without pointers where there is no label. */
  function Unset(f: Field): Slot {
    if f.kind == Repeated then Many([])
    else if f.kind != Unlabeled || f.oneof.Some? then Absent
    else match f.typ
      case Int32 | SInt32 | SFixed32 | UInt32 | Fixed32 | Float | Enum => Present(Word32(0))
      case Int64 | SInt64 | SFixed64 | UInt64 | Fixed64 | Double => Present(Word64(0))
      case Boolean => Present(Flag(false))
      case Bytes => Present(Blob([]))
      case String | Nested => Absent
  }

  function AllUnset(d: Descriptor): (slots: seq<Slot>)
    ensures |slots| == |d.fields| && forall i :: 0 <= i < |slots| ==> slots[i] == Unset(d.fields[i])
  {
    seq(|d.fields|, i requires 0 <= i < |d.fields| => Unset(d.fields[i]))
  }

  /** The empty input, for a type of any kind. */
  lemma EmptyInput(S: Schema, t: nat)
    requires ValidSchema(S) && t < |S|
    ensures Decode(S, t, []) ==
      if exists f <- S[t].fields :: f.kind == Required then None
      else Some(Message(AllUnset(S[t]), []))
  {
    RequiredIsSeen(S[t], []);
    var d := S[t];
    assert HasRequired(d, []) <==> !exists f <- d.fields :: f.kind == Required;
    assert Init(d).slots == AllUnset(d);
  }

  /** A bool is true if any of its payload bytes has a bit below the top one, whatever its wire type. */
  lemma BoolFromAnyType(S: Schema, f: Field, r: Record)
    requires ValidSchema(S) && ValidField(S, f) && f.typ == Boolean && Exact(r)
    ensures ParseValue(S, f, r, Absent) == Some(Flag(exists i :: 0 <= i < |r.data| && r.data[i] % 0x80 != 0))
  {
    hide ScanPayload;
    forall i | 0 <= i < |r.data|
      ensures Group(r.data[i]) == r.data[i] % 0x80
    {
    }
  }

  const RATIO: Schema := [Descriptor([Field(1, Float, Unlabeled, false, None, 0)])]

  /** A float without label that is -0.0 is not written, and comes back as 0. */
  lemma MinusZeroIsLost()
    ensures var minus, zero := Message([Present(Word32(0x8000_0000))], []), Message([Present(Word32(0))], []);
      && ValidSchema(RATIO) && Shaped(RATIO, 0, minus)
      && EncodeMessage(RATIO, 0, minus) == [] && Decode(RATIO, 0, []) == Some(zero)
  {
    hide Decode, EncodeMessage;
    assert ValidDescriptor(RATIO, RATIO[0]);
    MinusZeroIsNotWritten();
    EmptyInputOfOne(RATIO, 0, RATIO[0].fields[0]);
  }

  lemma EmptyInputOfOne(S: Schema, t: nat, f: Field)
    requires ValidSchema(S) && t < |S| && S[t].fields == [f] && f.kind != Required
    ensures Decode(S, t, []) == Some(Message([Unset(f)], []))
  {
    hide Decode, Unset;
    EmptyInput(S, t);
    assert forall g <- S[t].fields :: g == f;
    assert AllUnset(S[t]) == [Unset(f)];
  }

  lemma MinusZeroIsNotWritten()
    requires ValidSchema(RATIO)
    ensures var minus := Message([Present(Word32(0x8000_0000))], []); Shaped(RATIO, 0, minus) && EncodeMessage(RATIO, 0, minus) == []
  {
    hide EncodeMessage, SlotRecords;
    var minus, f := Message([Present(Word32(0x8000_0000))], []), RATIO[0].fields[0];
    assert ShapedSlot(RATIO, f, minus.slots[0]);
    OneField(RATIO, 0, minus);
    WrittenUnlessZero(RATIO, f, Word32(0x8000_0000));
    SerializeNone();
  }
}
