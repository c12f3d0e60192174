/** The loops that read single things off the wire, each against the function that says what it reads. */
module Readers {
  import opened Options
  import opened Varint
  import opened Wire
  import opened Schema
  import opened Scalars

  lemma FirstEndIs(s: seq<byte>, limit: nat, i: nat)
    requires i <= |s| && i <= limit && forall j :: 0 <= j < i ==> s[j] >= 128
    ensures i < |s| && i < limit && s[i] < 128 ==> FirstEnd(s, limit) == i + 1
    ensures i == |s| || i == limit ==> FirstEnd(s, limit) == 0
  {
    var n := FirstEnd(s, limit);
  }

  /** `scan_varint`, and the same loop in the scan of varint members. */
  method ScanVarintLoop(s: seq<byte>) returns (n: nat)
    ensures n == ScanVarint(s)
  {
    hide FirstEnd;
    var len := if |s| > MAX_VARINT then MAX_VARINT else |s|;
    var i := 0;
    while i < len && s[i] >= 128
      invariant i <= len && forall j :: 0 <= j < i ==> s[j] >= 128
    {
      i := i + 1;
    }
    FirstEndIs(s, MAX_VARINT, i);
    n := if i == len then 0 else i + 1;
  }

  /** `parse_tag_and_wiretype`, which returns 0 on a bad header. */
  method ParseTagAndWireType(s: seq<byte>) returns (used: nat, tag: uint32, wireType: nat)
    requires |s| > 0
    ensures used == 0 <==> ParseTag(s).None?
    ensures used > 0 ==> ParseTag(s) == Some(Tag(tag, wireType, used))
  {
    hide FirstEnd, Number;
    used, tag, wireType := 0, 0, 0;
    var maxRv := if |s| > 5 then 5 else |s|;
    if s[0] < 8 {
      return;
    }
    wireType := s[0] % 8;
    var t: nat := Group(s[0]) / 8;
    FirstGroup(s[0]);
    assert s[..1] == [s[0]];
    if s[0] < 128 {
      FirstEndIs(s, 5, 0);
      TagSoFar(s, 1, t);
      return 1, t, wireType;
    }
    var weight: nat := 16;
    var rv := 1;
    while rv < maxRv
      invariant 1 <= rv <= maxRv
      invariant forall j :: 0 <= j < rv ==> s[j] >= 128
      invariant 8 * weight == Pow128(rv)
      invariant 8 * t + s[0] % 8 == Number(s[..rv])
    {
      NextGroup(s, rv, t, weight);
      t := t + weight * Group(s[rv]);
      if s[rv] < 128 {
        FirstEndIs(s, 5, rv);
        TagSoFar(s, rv + 1, t);
        return rv + 1, t, wireType;
      }
      weight := weight * 128;
      rv := rv + 1;
    }
    FirstEndIs(s, 5, rv);
  }

  lemma FirstGroup(b: byte)
    ensures 8 * (Group(b) / 8) + b % 8 == Group(b)
    ensures Number([b]) == Group(b) && Pow128(1) == 128
  {
    assert Number([b]) == Group(b) + 128 * Number([]);
    assert Pow128(1) == 128 * Pow128(0);
  }

  lemma NextGroup(s: seq<byte>, rv: nat, t: nat, weight: nat)
    requires rv < |s| && 8 * weight == Pow128(rv) && 8 * t + s[0] % 8 == Number(s[..rv])
    ensures 8 * (t + weight * Group(s[rv])) + s[0] % 8 == Number(s[..rv + 1])
    ensures 8 * (weight * 128) == Pow128(rv + 1)
  {
    ValueSnoc(s[..rv], s[rv]);
    assert s[..rv] + [s[rv]] == s[..rv + 1];
    assert 8 * (weight * Group(s[rv])) == (8 * weight) * Group(s[rv]);
  }

  lemma TagSoFar(s: seq<byte>, n: nat, t: nat)
    requires 1 <= n <= |s| && n <= 5 && 8 * t + s[0] % 8 == Number(s[..n])
    ensures t == Number(s[..n]) / 8 < TWO_32
  {
    FiveGroups(s[..n]);
  }

  /** `scan_length_prefixed_data`, which returns 0 on any error. */
  method ScanLengthPrefixedData(s: seq<byte>) returns (len: nat, prefixLen: nat)
    ensures len == 0 <==> ScanDelimited(s).None?
    ensures len > 0 ==> ScanDelimited(s) == Some(Extent(len, prefixLen))
  {
    hide FirstEnd, Number;
    len, prefixLen := 0, 0;
    var hdrMax := if |s| < 5 then |s| else 5;
    var val, weight := 0, 1;
    var i := 0;
    assert s[..0] == [] && Number([]) == 0 && Pow128(0) == 1 by { NumberOfNothing(); }
    while i < hdrMax
      invariant 0 <= i <= hdrMax
      invariant forall j :: 0 <= j < i ==> s[j] >= 128
      invariant weight == Pow128(i) && val == Number(s[..i])
    {
      ValueSnoc(s[..i], s[i]);
      assert s[..i] + [s[i]] == s[..i + 1];
      val := val + weight * Group(s[i]);
      weight := weight * 128;
      if s[i] < 128 {
        break;
      }
      i := i + 1;
    }
    FirstEndIs(s, 5, i);
    if i == hdrMax {
      return;
    }
    var hdrLen := i + 1;
    prefixLen := hdrLen;
    if val > INT_MAX {
      return;
    }
    if hdrLen + val > |s| {
      return;
    }
    len := hdrLen + val;
  }

  lemma NumberOfNothing()
    ensures Number([]) == 0 && Pow128(0) == 1
  {
  }

  /** `max_b128_numbers`. */
  method MaxB128Numbers(s: seq<byte>) returns (rv: nat)
    ensures rv == Terminators(s)
  {
    rv := 0;
    assert s[0..] == s;
    for i := 0 to |s|
      invariant rv + Terminators(s[i..]) == Terminators(s)
    {
      assert s[i..][1..] == s[i + 1..];
      if s[i] < 128 {
        rv := rv + 1;
      }
    }
    assert s[|s|..] == [];
  }

  /** `count_packed_elements`. */
  method CountPackedElements(typ: Type, s: seq<byte>) returns (r: Option<nat>)
    ensures r == CountPacked(typ, s)
  {
    match typ
    case SFixed32 | Fixed32 | Float =>
      r := if |s| % 4 != 0 then None else Some(|s| / 4);
    case SFixed64 | Fixed64 | Double =>
      r := if |s| % 8 != 0 then None else Some(|s| / 8);
    case Enum | Int32 | SInt32 | UInt32 | Int64 | SInt64 | UInt64 =>
      var n := MaxB128Numbers(s);
      r := Some(n);
    case Boolean => r := Some(|s|);
    case String | Bytes | Nested => r := None;
  }

  /** `parse_boolean`. */
  method ParseBoolean(s: seq<byte>) returns (b: bool)
    ensures b == ParseBool(s)
  {
    for i := 0 to |s|
      invariant forall j :: 0 <= j < i ==> Group(s[j]) == 0
    {
      if Group(s[i]) != 0 {
        return true;
      }
    }
    b := false;
  }

  /** The value of one scalar, as the switch of `parse_required_member` and the loops of
      `parse_packed_repeated_member` read it. */
  method ParseScalar(typ: Type, s: seq<byte>) returns (v: Value)
    requires Readable(typ, s)
    ensures v == DecodeScalar(typ, s)
  {
    hide Number64, ParseUInt32, FixedValue;
    match typ
    case Int32 | Enum | UInt32 => v := Word32(ParseUInt32(s));
    case SInt32 => v := Word32(Unzigzag32(ParseUInt32(s)));
    case Int64 | UInt64 =>
      var n := ParseUInt64(s);
      v := Word64(n);
    case SInt64 =>
      var n := ParseUInt64(s);
      v := Word64(Unzigzag64(n));
    case SFixed32 | Fixed32 | Float =>
      FixedFits(s);
      v := Word32(FixedValue(s));
    case SFixed64 | Fixed64 | Double =>
      FixedFits(s);
      v := Word64(FixedValue(s));
    case Boolean =>
      var b := ParseBoolean(s);
      v := Flag(b);
  }

  /** `parse_packed_repeated_member`: elements go into the array behind the `n` already there. The array has
      room for as many as the counting pass found. */
  method ParsePackedRepeatedMember(typ: Type, s: seq<byte>, elements: array<Value>, n: nat) returns (ok: bool, count: nat)
    requires Packable(typ) && n + |PackedElements(typ, s)| <= elements.Length
    modifies elements
    ensures ok == PackedParses(typ, s)
    ensures count == |PackedElements(typ, s)|
    ensures elements[..n + count] == old(elements[..n]) + PackedElements(typ, s)
  {
    hide DecodeScalar, PackedElements, PackedParses, ElementLength;
    count := 0;
    var rem := s;
    assert elements[..n + 0] == elements[..n] + [];
    ghost var whole, done: seq<Value> := PackedElements(typ, s), [];
    assert [] + whole == whole;
    while |rem| > 0
      invariant count == |done|
      invariant whole == done + PackedElements(typ, rem)
      invariant PackedParses(typ, rem) == PackedParses(typ, s)
      invariant elements[..n + count] == old(elements[..n]) + done
    {
      PackedStep(typ, rem);
      var k := NextLength(typ, rem);
      if k == 0 {
        assert done + [] == done;
        // A fixed-width run ends at its last whole element; a varint that does not end is an error.
        return Width(typ) > 0, count;
      }
      var v := ParseScalar(typ, rem[..k]);
      rem := rem[k..];
      OneMore(done, v, PackedElements(typ, rem));
      elements[n + count] := v;
      assert elements[..n + count + 1] == old(elements[..n]) + (done + [v]);
      done := done + [v];
      count := count + 1;
    }
    PackedStep(typ, rem);
    assert done + [] == done;
    ok := true;
  }

  method NextLength(typ: Type, s: seq<byte>) returns (k: nat)
    ensures k == ElementLength(typ, s)
  {
    if Width(typ) == 0 {
      k := ScanVarintLoop(s);
    } else if |s| >= Width(typ) {
      k := Width(typ);
    } else {
      k := 0;
    }
  }

  lemma OneMore(done: seq<Value>, v: Value, more: seq<Value>)
    ensures done + ([v] + more) == (done + [v]) + more
  {
  }

  lemma PackedStep(typ: Type, s: seq<byte>)
    requires Packable(typ)
    ensures var n := ElementLength(typ, s);
      && (s == [] ==> n == 0 && PackedParses(typ, s))
      && (n == 0 ==> PackedElements(typ, s) == [] && (s != [] ==> PackedParses(typ, s) == (Width(typ) > 0)))
      && (n > 0 ==>
            Readable(typ, s[..n])
            && PackedElements(typ, s) == [DecodeScalar(typ, s[..n])] + PackedElements(typ, s[n..])
            && PackedParses(typ, s) == PackedParses(typ, s[n..]))
  {
    hide DecodeScalar;
  }
}
