/** `protobuf_c_message_pack`: the encoder that writes into one buffer, moving payloads when their length
    prefix turns out longer than the space left for it. */
module Packer {
  import opened Varint
  import opened Wire
  import opened Schema
  import opened Scalars
  import opened Encoder
  import opened SizePass

  // ----- buffers with bytes written over -----

  function Splice(buf: seq<byte>, at: nat, s: seq<byte>): (r: seq<byte>)
    requires at + |s| <= |buf|
    ensures |r| == |buf|
  {
    buf[..at] + s + buf[at + |s|..]
  }

  lemma SpliceAt(buf: seq<byte>, at: nat, s: seq<byte>, k: nat)
    requires at + |s| <= |buf| && k < |buf|
    ensures Splice(buf, at, s)[k] == if at <= k < at + |s| then s[k - at] else buf[k]
  {
  }

  lemma SpliceTwice(buf: seq<byte>, at: nat, a: seq<byte>, b: seq<byte>)
    requires at + |a| + |b| <= |buf|
    ensures Splice(Splice(buf, at, a), at + |a|, b) == Splice(buf, at, a + b)
  {
    var l, r := Splice(Splice(buf, at, a), at + |a|, b), Splice(buf, at, a + b);
    forall k | 0 <= k < |buf|
      ensures l[k] == r[k]
    {
      SpliceAt(Splice(buf, at, a), at + |a|, b, k);
      SpliceAt(buf, at, a, k);
      SpliceAt(buf, at, a + b, k);
    }
  }

  /** What was written is read back, and writing it again changes nothing. */
  lemma SpliceRead(buf: seq<byte>, at: nat, s: seq<byte>)
    requires at + |s| <= |buf|
    ensures Splice(buf, at, s)[at..at + |s|] == s
    ensures Splice(Splice(buf, at, s), at, s) == Splice(buf, at, s)
  {
  }

  lemma SpliceNothing(buf: seq<byte>, at: nat)
    requires at <= |buf|
    ensures Splice(buf, at, []) == buf
  {
  }

  /** A payload written where its prefix will be, moved past it, and the prefix written over its start: the
      same bytes as prefix and payload written in order. */
  lemma MovedPayload(buf: seq<byte>, at: nat, from: nat, prefix: seq<byte>, payload: seq<byte>)
    requires at <= from <= at + |prefix| && at + |prefix| + |payload| <= |buf|
    ensures Splice(Splice(Splice(buf, from, payload), at + |prefix|, payload), at, prefix) == Splice(buf, at, prefix + payload)
  {
    var b1 := Splice(buf, from, payload);
    var b2 := Splice(b1, at + |prefix|, payload);
    var l, r := Splice(b2, at, prefix), Splice(buf, at, prefix + payload);
    forall k | 0 <= k < |buf|
      ensures l[k] == r[k]
    {
      SpliceAt(b2, at, prefix, k);
      SpliceAt(b1, at + |prefix|, payload, k);
      SpliceAt(buf, from, payload, k);
      SpliceAt(buf, at, prefix + payload, k);
    }
  }

  /** `memcpy` into the buffer. */
  method Copy(s: seq<byte>, out: array<byte>, at: nat)
    requires at + |s| <= out.Length
    modifies out
    ensures out[..] == Splice(old(out[..]), at, s)
  {
    for i := 0 to |s|
      invariant forall k :: 0 <= k < out.Length ==> out[k] == if at <= k < at + i then s[k - at] else old(out[k])
    {
      out[at + i] := s[i];
    }
  }

  /** `memmove` towards the end of the buffer, from the last byte back. */
  method MoveUp(out: array<byte>, from: nat, to: nat, n: nat)
    requires from <= to && to + n <= out.Length
    modifies out
    ensures out[..] == Splice(old(out[..]), to, old(out[..])[from..from + n])
  {
    var i := n;
    while i > 0
      invariant 0 <= i <= n
      invariant forall k :: 0 <= k < out.Length ==>
        out[k] == if to + i <= k < to + n then old(out[k - to + from]) else old(out[k])
    {
      i := i - 1;
      out[to + i] := out[from + i];
    }
  }

  // ----- numbers -----

  lemma EncodeStep(v: nat)
    ensures Encode(v) == if v < 128 then [v] else [128 + v % 128] + Encode(v / 128)
  {
  }

  /** The part of an encoding from its `k`-th group on encodes the number left after `k` shifts. */
  predicate Remains(e: seq<byte>, k: nat, v: nat) {
    k < |e| && e[k..] == Encode(v)
  }

  lemma Peel(e: seq<byte>, k: nat, v: nat)
    requires Remains(e, k, v)
    ensures v < 128 ==> |e| == k + 1 && e[k] == v
    ensures v >= 128 ==> e[k] == 128 + v % 128 && Remains(e, k + 1, v / 128)
  {
    EncodeStep(v);
    assert e[k] == e[k..][0];
    if v >= 128 {
      assert e[k + 1..] == e[k..][1..];
    }
  }

  lemma WholeRemains(v: nat)
    ensures Remains(Encode(v), 0, v)
  {
    assert Encode(v)[0..] == Encode(v);
  }

  /** `uint32_pack`. */
  method UInt32Pack(value: uint32, out: array<byte>, at: nat) returns (rv: nat)
    requires at + |Encode(value)| <= out.Length
    modifies out
    ensures rv == |Encode(value)| && out[..] == Splice(old(out[..]), at, Encode(value))
  {
    hide Encode, Remains;
    ghost var e := Encode(value);
    WholeRemains(value);
    rv := 0;
    var v: nat := value;
    Peel(e, rv, v);
    if v >= 0x80 {
      out[at + rv] := 128 + v % 128;
      rv, v := rv + 1, v / 128;
      Peel(e, rv, v);
      if v >= 0x80 {
        out[at + rv] := 128 + v % 128;
        rv, v := rv + 1, v / 128;
        Peel(e, rv, v);
        if v >= 0x80 {
          out[at + rv] := 128 + v % 128;
          rv, v := rv + 1, v / 128;
          Peel(e, rv, v);
          if v >= 0x80 {
            out[at + rv] := 128 + v % 128;
            rv, v := rv + 1, v / 128;
            Peel(e, rv, v);
          }
        }
      }
    }
    assert v < 0x80;
    out[at + rv] := v;
    rv := rv + 1;
  }

  /** A number past 32 bits: four low groups, the group that straddles the halves, and the high half. */
  lemma EncodeUnrolled64(hi: nat, lo: uint32)
    requires hi > 0
    ensures var e := Encode(TWO_32 * hi + lo);
      && |e| >= 5
      && e[0] == 128 + lo % 128 && e[1] == 128 + lo / 0x80 % 128
      && e[2] == 128 + lo / 0x4000 % 128 && e[3] == 128 + lo / 0x20_0000 % 128
      && (hi < 8 ==> |e| == 5 && e[4] == hi * 16 + lo / 0x1000_0000)
      && (hi >= 8 ==> e[4] == 128 + hi % 8 * 16 + lo / 0x1000_0000 && Remains(e, 5, hi / 8))
  {
    hide Encode, Remains;
    var e, top := Encode(TWO_32 * hi + lo), lo / 0x1000_0000;
    LowGroups(hi, lo);
    TopBits(lo);
    StraddlingGroup(hi, top);
    InRange(e, 4, 16 * hi + top);
    Peel(e, 4, 16 * hi + top);
  }

  /** The next byte is the low group of the low half. */
  lemma PeelHalf(e: seq<byte>, k: nat, high: nat, low: nat)
    requires Remains(e, k, 128 * high + low) && high > 0
    ensures k < |e| && e[k] == 128 + low % 128 && Remains(e, k + 1, high + low / 128)
  {
    GroupOfSum(high, low);
    Peel(e, k, 128 * high + low);
  }

  lemma LowGroups(hi: nat, lo: uint32)
    requires hi > 0
    ensures var e := Encode(TWO_32 * hi + lo);
      && Remains(e, 4, 16 * hi + lo / 0x1000_0000)
      && e[0] == 128 + lo % 128 && e[1] == 128 + lo / 0x80 % 128
      && e[2] == 128 + lo / 0x4000 % 128 && e[3] == 128 + lo / 0x20_0000 % 128
  {
    hide Encode, Remains;
    var e := Encode(TWO_32 * hi + lo);
    WholeRemains(TWO_32 * hi + lo);
    PeelHalf(e, 0, 0x200_0000 * hi, lo);
    PeelHalf(e, 1, 0x4_0000 * hi, lo / 0x80);
    PeelHalf(e, 2, 0x800 * hi, lo / 0x4000);
    PeelHalf(e, 3, 16 * hi, lo / 0x20_0000);
    InRange(e, 4, 16 * hi + lo / 0x1000_0000);
  }

  lemma TopBits(lo: uint32)
    ensures lo / 0x1000_0000 < 16
  {
  }

  lemma GroupOfSum(a: nat, b: nat)
    ensures (128 * a + b) % 128 == b % 128 && (128 * a + b) / 128 == a + b / 128
  {
  }

  lemma StraddlingGroup(hi: nat, top: nat)
    requires top < 16
    ensures (16 * hi + top) % 128 == hi % 8 * 16 + top && (16 * hi + top) / 128 == hi / 8
  {
  }

  /** `uint64_pack`. */
  method UInt64Pack(value: uint64, out: array<byte>, at: nat) returns (rv: nat)
    requires at + |Encode(value)| <= out.Length
    modifies out
    ensures rv == |Encode(value)| && out[..] == Splice(old(out[..]), at, Encode(value))
  {
    hide Encode, Remains;
    var hi: nat, lo := value / TWO_32, value % TWO_32;
    if hi == 0 {
      rv := UInt32Pack(lo, out, at);
      return;
    }
    assert value == TWO_32 * hi + lo;
    EncodeUnrolled64(hi, lo);
    ghost var e := Encode(value);
    out[at] := 128 + lo % 128;
    out[at + 1] := 128 + lo / 0x80 % 128;
    out[at + 2] := 128 + lo / 0x4000 % 128;
    out[at + 3] := 128 + lo / 0x20_0000 % 128;
    if hi < 8 {
      out[at + 4] := hi * 16 + lo / 0x1000_0000;
      return 5;
    }
    out[at + 4] := 128 + hi % 8 * 16 + lo / 0x1000_0000;
    hi := hi / 8;
    rv := FinishPack(value, hi, out, at, e, old(out[..]));
  }

  /** The closing loop of `uint64_pack`. */
  method FinishPack(ghost value: uint64, high: nat, out: array<byte>, at: nat, ghost e: seq<byte>, ghost was: seq<byte>)
    returns (rv: nat)
    requires at + |e| <= out.Length == |was| && Remains(e, 5, high)
    requires forall k :: 0 <= k < out.Length ==> out[k] == if at <= k < at + 5 then e[k - at] else was[k]
    modifies out
    ensures rv == |e| && out[..] == Splice(was, at, e)
  {
    hide Encode, Remains;
    var hi := high;
    rv := 5;
    InRange(e, rv, hi);
    while hi >= 128
      invariant Remains(e, rv, hi) && rv < |e|
      invariant forall k :: 0 <= k < out.Length ==> out[k] == if at <= k < at + rv then e[k - at] else was[k]
    {
      Peel(e, rv, hi);
      out[at + rv] := 128 + hi % 128;
      rv, hi := rv + 1, hi / 128;
      assert rv < |e| by { InRange(e, rv, hi); }
    }
    Peel(e, rv, hi);
    out[at + rv] := hi;
    rv := rv + 1;
  }

  lemma InRange(e: seq<byte>, k: nat, v: nat)
    requires Remains(e, k, v)
    ensures k < |e|
  {
  }

  /** The ten bytes of a negative 32-bit number: the groups of its arithmetic shifts, then all ones. */
  lemma EncodeNegative(w: uint32)
    requires Signed32(w) < 0
    ensures var v := Signed32(w);
      Encode(SignExtend(w)) ==
        [128 + v % 128, 128 + v / 0x80 % 128, 128 + v / 0x4000 % 128, 128 + v / 0x20_0000 % 128,
         128 + v / 0x1000_0000 % 128, 0xff, 0xff, 0xff, 0xff, 0x01]
  {
    hide Encode, Remains;
    var x: uint64 := SignExtend(w);
    var e := Encode(x);
    EncodeUnrolled64(0xffff_ffff, w);
    assert x == TWO_32 * 0xffff_ffff + w && 0xffff_ffff / 8 == 0x1fff_ffff;
    NegativeGroups(w);
    Peel(e, 5, 0x1fff_ffff);
    Peel(e, 6, 0x3f_ffff);
    Peel(e, 7, 0x7fff);
    Peel(e, 8, 0xff);
    Peel(e, 9, 1);
    assert |e| == 10;
  }

  lemma NegativeGroups(w: uint32)
    requires Signed32(w) < 0
    ensures var v := Signed32(w);
      && v % 128 == w % 128 && v / 0x80 % 128 == w / 0x80 % 128
      && v / 0x4000 % 128 == w / 0x4000 % 128 && v / 0x20_0000 % 128 == w / 0x20_0000 % 128
      && v / 0x1000_0000 % 128 == 112 + w / 0x1000_0000
  {
    NegativeShift(w, 0x80);
    NegativeShift(w, 0x4000);
    NegativeShift(w, 0x20_0000);
    NegativeShift(w, 0x1000_0000);
    NegativeGroup(w / 0x80, 0x200_0000);
    NegativeGroup(w / 0x4000, 0x4_0000);
    NegativeGroup(w / 0x20_0000, 0x800);
  }

  lemma NegativeShift(w: uint32, p: nat)
    requires p in {0x80, 0x4000, 0x20_0000, 0x1000_0000}
    ensures (w - TWO_32) / p == w / p - TWO_32 / p
  {
  }

  lemma NegativeGroup(x: nat, c: nat)
    requires c in {0x200_0000, 0x4_0000, 0x800}
    ensures (x - c) % 128 == x % 128
  {
  }

  /** `int32_pack`, whose right shifts of a negative number are arithmetic. */
  method Int32Pack(w: uint32, out: array<byte>, at: nat) returns (rv: nat)
    requires at + |Encode(SignExtend(w))| <= out.Length
    modifies out
    ensures rv == |Encode(SignExtend(w))| && out[..] == Splice(old(out[..]), at, Encode(SignExtend(w)))
  {
    hide Encode;
    var value := Signed32(w);
    if value < 0 {
      EncodeNegative(w);
      out[at] := 128 + value % 128;
      out[at + 1] := 128 + value / 0x80 % 128;
      out[at + 2] := 128 + value / 0x4000 % 128;
      out[at + 3] := 128 + value / 0x20_0000 % 128;
      out[at + 4] := 128 + value / 0x1000_0000 % 128;
      out[at + 5], out[at + 6], out[at + 7], out[at + 8] := 0xff, 0xff, 0xff, 0xff;
      out[at + 9] := 0x01;
      rv := 10;
    } else {
      rv := UInt32Pack(value, out, at);
    }
  }

  // ----- tags and scalars -----

  /** `tag_pack`: the id shifted past the wire type, through the 64-bit writer when it no longer fits 32. */
  method TagPack(id: uint32, out: array<byte>, at: nat) returns (rv: nat)
    requires at + |Encode(8 * id)| <= out.Length
    modifies out
    ensures rv == |Encode(8 * id)| && out[..] == Splice(old(out[..]), at, Encode(8 * id))
  {
    hide Encode;
    if id < 0x2000_0000 {
      rv := UInt32Pack(8 * id, out, at);
    } else {
      rv := UInt64Pack(8 * id, out, at);
    }
  }

  lemma TypedTag(id: uint32, wireType: nat)
    requires wireType < 8
    ensures var e := Encode(8 * id);
      && |e| == |TagBytes(id, wireType)|
      && e[0] + wireType < 256
      && TagBytes(id, wireType) == [e[0] + wireType] + e[1..]
  {
    var a, b := 8 * id, 8 * id + wireType;
    assert a / 128 == b / 128 && b % 128 == a % 128 + wireType;
    assert a >= 128 <==> b >= 128;
  }

  /** The tag with the wire type or-ed into its first byte, as every field writer begins. */
  method HeaderPack(id: uint32, wireType: nat, out: array<byte>, at: nat) returns (rv: nat)
    requires wireType < 8 && at + |TagBytes(id, wireType)| <= out.Length
    modifies out
    ensures rv == |TagBytes(id, wireType)| && out[..] == Splice(old(out[..]), at, TagBytes(id, wireType))
  {
    hide Encode, TagBytes;
    TypedTag(id, wireType);
    rv := TagPack(id, out, at);
    ghost var b := out[..];
    assert b[at] == Encode(8 * id)[0];
    out[at] := out[at] + wireType;
    assert out[..] == b[at := b[at] + wireType];
  }

  method ScalarPack(typ: Type, v: Value, out: array<byte>, at: nat) returns (rv: nat)
    requires Packable(typ) && IsOf(typ, v) && at + |EncodeScalar(typ, v)| <= out.Length
    modifies out
    ensures rv == |EncodeScalar(typ, v)| && out[..] == Splice(old(out[..]), at, EncodeScalar(typ, v))
  {
    hide Encode, Fixed;
    match typ
    case SInt32 => rv := UInt32Pack(Zigzag32(v.w32), out, at);
    case Int32 | Enum => rv := Int32Pack(v.w32, out, at);
    case UInt32 => rv := UInt32Pack(v.w32, out, at);
    case SInt64 => rv := UInt64Pack(Zigzag64(v.w64), out, at);
    case Int64 | UInt64 => rv := UInt64Pack(v.w64, out, at);
    case SFixed32 | Fixed32 | Float =>
      Copy(Fixed(v.w32, 4), out, at);
      rv := 4;
    case SFixed64 | Fixed64 | Double =>
      Copy(Fixed(v.w64, 8), out, at);
      rv := 8;
    case Boolean =>
      out[at] := if v.b then 1 else 0;
      rv := 1;
  }

  /** `string_pack` and `binary_data_pack`. */
  method BytesPack(s: seq<byte>, out: array<byte>, at: nat) returns (rv: nat)
    requires at + |Delimited(s)| <= out.Length
    modifies out
    ensures rv == |Delimited(s)| && out[..] == Splice(old(out[..]), at, Delimited(s))
  {
    hide Encode;
    rv := UInt32Pack(|s| % TWO_32, out, at);
    Copy(s, out, at + rv);
    SpliceTwice(old(out[..]), at, Encode(|s| % TWO_32), s);
    rv := rv + |s|;
  }

  // ----- fields -----

  /** The payload of a member that is there. */
  method PayloadPack(S: Schema, f: Field, v: Value, out: array<byte>, at: nat) returns (rv: nat)
    requires ValidSchema(S) && ValidField(S, f) && ShapedValue(S, f, v)
    requires |Payload(S, f, v)| < TWO_32 && at + |Payload(S, f, v)| <= out.Length
    modifies out
    ensures rv == |Payload(S, f, v)| && out[..] == Splice(old(out[..]), at, Payload(S, f, v))
    decreases v, 1
  {
    hide Delimited, EncodeScalar, EncodeMessage, CString;
    match v
    case Text(s) =>
      var len := StringLength(s);
      CStringIsPrefix(s);
      var c := s[..len];
      rv := BytesPack(c, out, at);
    case Blob(s) => rv := BytesPack(s, out, at);
    case Sub(m) => rv := PrefixedMessagePack(S, f.sub, m, out, at);
    case _ => rv := ScalarPack(f.typ, v, out, at);
  }

  lemma {:induction false} CStringIsPrefix(s: seq<byte>)
    ensures |CString(s)| <= |s| && s[..|CString(s)|] == CString(s)
  {
    if s == [] || s[0] == 0 {
    } else {
      CStringIsPrefix(s[1..]);
    }
  }

  /** A payload of `n` bytes stands `gap` bytes after `at`; if its length prefix is longer than the gap the
      payload is moved, and then the prefix is written. */
  method BackPatch(out: array<byte>, at: nat, gap: nat, n: uint32, ghost buf: seq<byte>, ghost payload: seq<byte>)
    requires |payload| == n && gap <= |Encode(n)| && at + |Encode(n)| + n <= out.Length == |buf|
    requires out[..] == Splice(buf, at + gap, payload)
    modifies out
    ensures out[..] == Splice(buf, at, Encode(n) + payload)
  {
    hide Encode, UInt32Size, Splice;
    SizesAreLengths(n);
    SpliceRead(buf, at + gap, payload);
    var prefix := UInt32Size(n);
    if prefix != gap {
      MoveUp(out, at + gap, at + prefix, n);
    }
    var p := UInt32Pack(n, out, at);
    MovedPayload(buf, at, at + gap, Encode(n), payload);
  }

  /** `prefixed_message_pack`: room for a one-byte prefix, the message, and a move if the prefix is longer. */
  method PrefixedMessagePack(S: Schema, t: nat, m: Message, out: array<byte>, at: nat) returns (rv: nat)
    requires ValidSchema(S) && Shaped(S, t, m)
    requires |Delimited(EncodeMessage(S, t, m))| < TWO_32 && at + |Delimited(EncodeMessage(S, t, m))| <= out.Length
    modifies out
    ensures rv == |Delimited(EncodeMessage(S, t, m))|
    ensures out[..] == Splice(old(out[..]), at, Delimited(EncodeMessage(S, t, m)))
    decreases m, 5
  {
    hide Encode, EncodeMessage, UInt32Size, Splice;
    DelimitedSize(EncodeMessage(S, t, m));
    PositiveSize(|EncodeMessage(S, t, m)|);
    SizesAreLengths(|EncodeMessage(S, t, m)|);
    var n := MessagePack(S, t, m, out, at + 1);
    BackPatch(out, at, 1, n, old(out[..]), EncodeMessage(S, t, m));
    rv := UInt32Size(n) + n;
  }

  lemma PositiveSize(n: uint32)
    ensures UInt32Size(n) >= 1
  {
  }

  /** `required_field_pack`. */
  method RequiredFieldPack(S: Schema, f: Field, v: Value, out: array<byte>, at: nat) returns (rv: nat)
    requires ValidSchema(S) && ValidField(S, f) && ShapedValue(S, f, v)
    requires |RecordBytes(ValueRecord(S, f, v))| < TWO_32 && at + |RecordBytes(ValueRecord(S, f, v))| <= out.Length
    modifies out
    ensures rv == |RecordBytes(ValueRecord(S, f, v))|
    ensures out[..] == Splice(old(out[..]), at, RecordBytes(ValueRecord(S, f, v)))
    decreases v, 2
  {
    hide TagBytes, Payload;
    rv := HeaderPack(f.id, WireType(f.typ), out, at);
    var n := PayloadPack(S, f, v, out, at + rv);
    SpliceTwice(old(out[..]), at, TagBytes(f.id, WireType(f.typ)), Payload(S, f, v));
    rv := rv + n;
  }

  /** The elements of a packed run, one after the other. */
  method PackedPayloadPack(typ: Type, vs: seq<Value>, out: array<byte>, at: nat) returns (n: nat)
    requires Packable(typ) && AllOf(typ, vs) && at + |EncodeAll(typ, vs)| <= out.Length
    modifies out
    ensures n == |EncodeAll(typ, vs)| && out[..] == Splice(old(out[..]), at, EncodeAll(typ, vs))
  {
    hide EncodeScalar, IsOf, Splice, EncodeAll;
    n := 0;
    if Width(typ) > 0 {
      // The array is already laid out in the byte order of the wire.
      Copy(EncodeAll(typ, vs), out, at);
      return |EncodeAll(typ, vs)|;
    }
    SpliceNothing(out[..], at);
    NoElements(typ, vs);
    for i := 0 to |vs|
      invariant n == |EncodeAll(typ, vs[..i])| && n + |EncodeAll(typ, vs[i..])| == |EncodeAll(typ, vs)|
      invariant out[..] == Splice(old(out[..]), at, EncodeAll(typ, vs[..i]))
    {
      NextElement(typ, vs, i);
      var k := ScalarPack(typ, vs[i], out, at + n);
      SpliceTwice(old(out[..]), at, EncodeAll(typ, vs[..i]), EncodeScalar(typ, vs[i]));
      n := n + k;
    }
    assert vs[..|vs|] == vs;
  }

  lemma NoElements(typ: Type, vs: seq<Value>)
    requires Packable(typ) && AllOf(typ, vs)
    ensures EncodeAll(typ, vs[..0]) == [] && vs[0..] == vs
  {
  }

  lemma NextElement(typ: Type, vs: seq<Value>, i: nat)
    requires Packable(typ) && AllOf(typ, vs) && i < |vs|
    ensures IsOf(typ, vs[i])
    ensures EncodeAll(typ, vs[i..]) == EncodeScalar(typ, vs[i]) + EncodeAll(typ, vs[i + 1..])
    ensures EncodeAll(typ, vs[..i + 1]) == EncodeAll(typ, vs[..i]) + EncodeScalar(typ, vs[i])
  {
    hide EncodeScalar;
    assert vs[i] in vs;
    assert vs[i..][1..] == vs[i + 1..];
    EncodeAllAppend(typ, vs[..i], [vs[i]]);
    assert vs[..i + 1] == vs[..i] + [vs[i]];
    assert EncodeAll(typ, [vs[i]]) == EncodeScalar(typ, vs[i]) + EncodeAll(typ, []);
  }

  /** The packed branch of `repeated_field_pack`: space for the prefix is guessed from the smallest size the
      elements can have, and the payload is moved by one byte when the guess was short. The assertion is the
      code's own. */
  method PackedFieldPack(S: Schema, f: Field, vs: seq<Value>, out: array<byte>, at: nat) returns (rv: nat)
    requires ValidSchema(S) && ValidField(S, f) && ShapedSlot(S, f, Many(vs)) && f.packed
    requires |EncodeSlot(S, f, Many(vs))| < TWO_32 && at + |EncodeSlot(S, f, Many(vs))| <= out.Length
    modifies out
    ensures rv == |EncodeSlot(S, f, Many(vs))| && out[..] == Splice(old(out[..]), at, EncodeSlot(S, f, Many(vs)))
  {
    hide Encode, EncodeAll, TagBytes, UInt32Size, Splice, EncodeSlot, MinSize, ShapedSlot;
    if |vs| == 0 {
      SpliceNothing(out[..], at);
      EmptyPacked(S, f);
      return 0;
    }
    PackedParts(S, f, vs);
    ghost var tag, payload := TagBytes(f.id, WIRE_LENGTH_PREFIXED), EncodeAll(f.typ, vs);
    var headerLen := HeaderPack(f.id, WIRE_LENGTH_PREFIXED, out, at);
    ghost var buf := out[..];
    var lenStart := at + headerLen;
    var minLength: uint32 := MinSize(f.typ) * |vs|;
    var lengthSizeMin := UInt32Size(minLength);
    var payloadLen := PackedPayloadPack(f.typ, vs, out, lenStart + lengthSizeMin);
    var actualLengthSize := UInt32Size(payloadLen);
    if lengthSizeMin != actualLengthSize {
      assert actualLengthSize == lengthSizeMin + 1;
    }
    BackPatch(out, lenStart, lengthSizeMin, payloadLen, buf, payload);
    SpliceTwice(old(out[..]), at, tag, Encode(payloadLen) + payload);
    rv := headerLen + actualLengthSize + payloadLen;
  }

  lemma EmptyPacked(S: Schema, f: Field)
    requires ValidSchema(S) && ValidField(S, f) && ShapedSlot(S, f, Many([])) && f.packed
    ensures EncodeSlot(S, f, Many([])) == []
  {
  }

  /** The bytes of a packed field, and what its guessed prefix size can be. */
  lemma PackedParts(S: Schema, f: Field, vs: seq<Value>)
    requires ValidSchema(S) && ValidField(S, f) && ShapedSlot(S, f, Many(vs)) && f.packed && vs != []
    requires |EncodeSlot(S, f, Many(vs))| < TWO_32
    ensures Packable(f.typ) && AllOf(f.typ, vs)
    ensures var payload := EncodeAll(f.typ, vs);
      && |payload| < TWO_32 && MinSize(f.typ) * |vs| < TWO_32
      && EncodeSlot(S, f, Many(vs)) == TagBytes(f.id, WIRE_LENGTH_PREFIXED) + (Encode(|payload|) + payload)
      && |Encode(|payload|)| == UInt32Size(|payload|)
      && UInt32Size(MinSize(f.typ) * |vs|) <= UInt32Size(|payload|) <= UInt32Size(MinSize(f.typ) * |vs|) + 1
  {
    hide Encode, EncodeAll, TagBytes, UInt32Size, MinSize;
    ElementsAreOf(S, f, vs);
    var payload := EncodeAll(f.typ, vs);
    SerializeOne(SlotRecords(S, f, Many(vs))[0]);
    PayloadBounds(f.typ, vs);
    assert |payload| % TWO_32 == |payload|;
    SizesAreLengths(|payload|);
    PrefixGuess(MinSize(f.typ) * |vs|, |payload|);
  }

  lemma ElementStep(S: Schema, f: Field, vs: seq<Value>, i: nat)
    requires ValidSchema(S) && i < |vs| && forall v <- vs :: ShapedValue(S, f, v)
    ensures Serialize(ElementRecords(S, f, vs[i..])) ==
      RecordBytes(ValueRecord(S, f, vs[i])) + Serialize(ElementRecords(S, f, vs[i + 1..]))
  {
    hide ValueRecord, RecordBytes;
    assert vs[i..][1..] == vs[i + 1..];
    var rs := ElementRecords(S, f, vs[i..]);
    assert rs[1..] == ElementRecords(S, f, vs[i + 1..]);
  }

  /** `repeated_field_pack`. */
  method RepeatedFieldPack(S: Schema, f: Field, vs: seq<Value>, out: array<byte>, at: nat) returns (rv: nat)
    requires ValidSchema(S) && ValidField(S, f) && ShapedSlot(S, f, Many(vs))
    requires |EncodeSlot(S, f, Many(vs))| < TWO_32 && at + |EncodeSlot(S, f, Many(vs))| <= out.Length
    modifies out
    ensures rv == |EncodeSlot(S, f, Many(vs))| && out[..] == Splice(old(out[..]), at, EncodeSlot(S, f, Many(vs)))
    decreases vs, 3
  {
    hide ValueRecord, RecordBytes, Serialize, Splice, ElementRecords, TagBytes;
    if f.packed {
      rv := PackedFieldPack(S, f, vs, out, at);
      return;
    }
    ghost var whole, done := Serialize(ElementRecords(S, f, vs)), [];
    assert vs[0..] == vs;
    assert [] + whole == whole;
    SpliceNothing(out[..], at);
    rv := 0;
    for i := 0 to |vs|
      invariant whole == done + Serialize(ElementRecords(S, f, vs[i..]))
      invariant rv == |done| && out[..] == Splice(old(out[..]), at, done)
    {
      ElementStep(S, f, vs, i);
      ghost var e := RecordBytes(ValueRecord(S, f, vs[i]));
      var n := RequiredFieldPack(S, f, vs[i], out, at + rv);
      SpliceTwice(old(out[..]), at, done, e);
      assert done + e + Serialize(ElementRecords(S, f, vs[i + 1..])) == done + (e + Serialize(ElementRecords(S, f, vs[i + 1..])));
      done := done + e;
      rv := rv + n;
    }
    NoElementsLeft(S, f, vs);
    assert done + [] == done;
  }

  lemma NoElementsLeft(S: Schema, f: Field, vs: seq<Value>)
    requires ValidSchema(S) && forall v <- vs :: ShapedValue(S, f, v)
    ensures Serialize(ElementRecords(S, f, vs[|vs|..])) == []
  {
  }

  /** One field, as its label says: `required_field_pack` (of a NULL pointer, an empty payload),
      `oneof_field_pack`, `optional_field_pack`, `unlabeled_field_pack` or `repeated_field_pack`. */
  method FieldPack(S: Schema, f: Field, slot: Slot, out: array<byte>, at: nat) returns (rv: nat)
    requires ValidSchema(S) && ValidField(S, f) && ShapedSlot(S, f, slot)
    requires |EncodeSlot(S, f, slot)| < TWO_32 && at + |EncodeSlot(S, f, slot)| <= out.Length
    modifies out
    ensures rv == |EncodeSlot(S, f, slot)| && out[..] == Splice(old(out[..]), at, EncodeSlot(S, f, slot))
    decreases slot, 4
  {
    hide TagBytes, ValueRecord, Zeroish, Splice;
    rv := 0;
    SpliceNothing(out[..], at);
    match slot
    case Many(vs) => rv := RepeatedFieldPack(S, f, vs, out, at);
    case Absent =>
      if f.kind == Required {
        SerializeOne(Record(f.id, WIRE_LENGTH_PREFIXED, [0]));
        rv := HeaderPack(f.id, WIRE_LENGTH_PREFIXED, out, at);
        Copy([0], out, at + rv);
        SpliceTwice(old(out[..]), at, TagBytes(f.id, WIRE_LENGTH_PREFIXED), [0]);
        rv := rv + 1;
      }
    case Present(v) =>
      assert ShapedValue(S, f, v);
      if f.kind != Unlabeled || InOneof(f) || !Zeroish(f.typ, v) {
        assert SlotRecords(S, f, slot) == [ValueRecord(S, f, v)];
        SerializeOne(ValueRecord(S, f, v));
        rv := RequiredFieldPack(S, f, v, out, at);
      }
  }

  /** `unknown_field_pack`. */
  method UnknownFieldPack(r: Record, out: array<byte>, at: nat) returns (rv: nat)
    requires r.wireType < 8 && at + |RecordBytes(r)| <= out.Length
    modifies out
    ensures rv == |RecordBytes(r)| && out[..] == Splice(old(out[..]), at, RecordBytes(r))
  {
    hide TagBytes;
    rv := HeaderPack(r.tag, r.wireType, out, at);
    Copy(r.data, out, at + rv);
    SpliceTwice(old(out[..]), at, TagBytes(r.tag, r.wireType), r.data);
    rv := rv + |r.data|;
  }

  /** `protobuf_c_message_pack` leaves exactly the encoding in the buffer, touches nothing around it, and
      returns its length. */
  method MessagePack(S: Schema, t: nat, m: Message, out: array<byte>, at: nat) returns (rv: nat)
    requires ValidSchema(S) && Shaped(S, t, m)
    requires |EncodeMessage(S, t, m)| < TWO_32 && at + |EncodeMessage(S, t, m)| <= out.Length
    modifies out
    ensures rv == |EncodeMessage(S, t, m)| && out[..] == Splice(old(out[..]), at, EncodeMessage(S, t, m))
    decreases m, 4
  {
    hide Serialize, EncodeSlot, EncodeMessage, RecordBytes, FieldRecords, ShapedSlot, Splice;
    ghost var done: seq<byte> := [];
    ghost var tail := Serialize(m.unknown);
    EncodeMessageParts(S, t, m);
    SpliceNothing(out[..], at);
    assert [] + Serialize(FieldRecords(S, t, m, 0)) == Serialize(FieldRecords(S, t, m, 0));
    rv := 0;
    for i := 0 to |S[t].fields|
      invariant EncodeMessage(S, t, m) == done + Serialize(FieldRecords(S, t, m, i)) + tail
      invariant rv == |done| && out[..] == Splice(old(out[..]), at, done)
    {
      EncodeFieldsStep(S, t, m, i);
      ghost var e, more := EncodeSlot(S, S[t].fields[i], m.slots[i]), Serialize(FieldRecords(S, t, m, i + 1));
      assert done + (e + more) == done + e + more;
      var n := FieldPack(S, S[t].fields[i], m.slots[i], out, at + rv);
      SpliceTwice(old(out[..]), at, done, e);
      done := done + e;
      rv := rv + n;
    }
    NoFieldsLeft(S, t, m);
    assert m.unknown[0..] == m.unknown && done + [] == done;
    for i := 0 to |m.unknown|
      invariant EncodeMessage(S, t, m) == done + Serialize(m.unknown[i..])
      invariant rv == |done| && out[..] == Splice(old(out[..]), at, done)
    {
      UnknownStep(m.unknown, i);
      ghost var e, more := RecordBytes(m.unknown[i]), Serialize(m.unknown[i + 1..]);
      assert done + (e + more) == done + e + more;
      var n := UnknownFieldPack(m.unknown[i], out, at + rv);
      SpliceTwice(old(out[..]), at, done, e);
      done := done + e;
      rv := rv + n;
    }
    assert m.unknown[|m.unknown|..] == [];
    SerializeNothing();
    assert done + [] == done;
  }
}
