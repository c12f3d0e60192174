/** Single values and packed runs of them, on the wire. */
module Scalars {
  import opened Options
  import opened Varint
  import opened Wire
  import opened Schema

  // ----- writing -----

  /** The number a varint type writes for a value. */
  function VarintOf(typ: Type, v: Value): uint64
    requires Packable(typ) && Width(typ) == 0 && typ != Boolean && IsOf(typ, v)
  {
    match typ
    case SInt32 => Zigzag32(v.w32)
    case Int32 | Enum => SignExtend(v.w32)
    case UInt32 => v.w32
    case SInt64 => Zigzag64(v.w64)
    case Int64 | UInt64 => v.w64
  }

  function EncodeScalar(typ: Type, v: Value): (s: seq<byte>)
    requires Packable(typ) && IsOf(typ, v)
    ensures Width(typ) > 0 ==> |s| == Width(typ)
  {
    if Width(typ) == 4 then Fixed(v.w32, 4)
    else if Width(typ) == 8 then Fixed(v.w64, 8)
    else if typ == Boolean then [if v.b then 1 else 0]
    else Encode(VarintOf(typ, v))
  }

  /** The size functions, type by type. */
  function ScalarSize(typ: Type, v: Value): nat
    requires Packable(typ) && IsOf(typ, v)
  {
    match typ
    case SInt32 => UInt32Size(Zigzag32(v.w32))
    case Int32 | Enum => Int32Size(v.w32)
    case UInt32 => UInt32Size(v.w32)
    case SInt64 => UInt64Size(Zigzag64(v.w64))
    case Int64 | UInt64 => UInt64Size(v.w64)
    case SFixed32 | Fixed32 | Float => 4
    case SFixed64 | Fixed64 | Double => 8
    case Boolean => 1
  }

  /** `get_type_min_size`. */
  function MinSize(typ: Type): nat {
    if Width(typ) > 0 then Width(typ) else 1
  }

  ghost predicate AllOf(typ: Type, vs: seq<Value>) {
    forall v <- vs :: IsOf(typ, v)
  }

  function EncodeAll(typ: Type, vs: seq<Value>): seq<byte>
    requires Packable(typ) && AllOf(typ, vs)
  {
    if vs == [] then [] else EncodeScalar(typ, vs[0]) + EncodeAll(typ, vs[1..])
  }

  // ----- reading -----

  predicate Readable(typ: Type, s: seq<byte>) {
    Packable(typ) && s != [] && (Width(typ) > 0 ==> |s| == Width(typ))
  }

  function DecodeScalar(typ: Type, s: seq<byte>): (v: Value)
    requires Readable(typ, s)
    ensures IsOf(typ, v)
  {
    match typ
    case Int32 | Enum | UInt32 => Word32(ParseUInt32(s))
    case SInt32 => Word32(Unzigzag32(ParseUInt32(s)))
    case Int64 | UInt64 => Word64(Number64(s))
    case SInt64 => Word64(Unzigzag64(Number64(s)))
    case SFixed32 | Fixed32 | Float =>
      FixedFits(s);
      Word32(FixedValue(s))
    case SFixed64 | Fixed64 | Double =>
      FixedFits(s);
      Word64(FixedValue(s))
    case Boolean => Flag(ParseBool(s))
  }

  lemma FixedFits(s: seq<byte>)
    ensures |s| == 4 ==> FixedValue(s) < TWO_32
    ensures |s| == 8 ==> FixedValue(s) < TWO_64
  {
    FixedValueBound(s);
    WordBounds();
  }

  /** How many bytes the next element of a packed run takes, 0 when none can be read. */
  function ElementLength(typ: Type, s: seq<byte>): (n: nat)
    ensures n <= |s|
    ensures Packable(typ) && n > 0 ==> Readable(typ, s[..n])
  {
    if Width(typ) == 0 then ScanVarint(s)
    else if |s| < Width(typ) then 0
    else Width(typ)
  }

  /** The elements that `parse_packed_repeated_member` stores, whether or not it then fails. */
  function PackedElements(typ: Type, s: seq<byte>): (vs: seq<Value>)
    requires Packable(typ)
    ensures AllOf(typ, vs)
  {
    var n := ElementLength(typ, s);
    if n == 0 then [] else [DecodeScalar(typ, s[..n])] + PackedElements(typ, s[n..])
  }

  /** It fails on a byte that starts no whole varint; a fixed-width tail is never looked at. */
  predicate PackedParses(typ: Type, s: seq<byte>) {
    var n := ElementLength(typ, s);
    s == [] || (if n == 0 then Width(typ) > 0 else PackedParses(typ, s[n..]))
  }

  /** `max_b128_numbers`. */
  function Terminators(s: seq<byte>): (n: nat)
    ensures n <= |s|
  {
    if s == [] then 0 else (if s[0] < 128 then 1 else 0) + Terminators(s[1..])
  }

  /** `count_packed_elements`. */
  function CountPacked(typ: Type, s: seq<byte>): Option<nat> {
    if !Packable(typ) then None
    else if Width(typ) > 0 then
      if |s| % Width(typ) != 0 then None else Some(|s| / Width(typ))
    else if typ == Boolean then Some(|s|)
    else Some(Terminators(s))
  }

  // ----- laws -----

  /** Every value of every scalar type is read back from what is written, its payload is exact, and its
      length is the size computed for it. */
  lemma ScalarRoundTrip(typ: Type, v: Value)
    requires Packable(typ) && IsOf(typ, v)
    ensures Readable(typ, EncodeScalar(typ, v)) && DecodeScalar(typ, EncodeScalar(typ, v)) == v
    ensures |EncodeScalar(typ, v)| == ScalarSize(typ, v) <= MAX_VARINT
    ensures ScanPayload(WireType(typ), EncodeScalar(typ, v)) == Some(Extent(|EncodeScalar(typ, v)|, 0))
  {
    hide Encode, Number, Number64, Fixed, FixedValue, ParseUInt32, FirstEnd, UInt32Size, UInt64Size, Int32Size;
    var s := EncodeScalar(typ, v);
    if Width(typ) > 0 {
      WordBounds();
      FixedRoundTrip(if v.Word32? then v.w32 else v.w64, Width(typ));
    } else if typ == Boolean {
      BoolRoundTrip(v.b);
    } else {
      var n := VarintOf(typ, v);
      VarintRoundTrip(n, []);
      assert s + [] == s;
      SizesAreLengths(n);
      if v.Word32? {
        ZigzagRoundTrip32(v.w32);
        Int32RoundTrip(v.w32);
      } else {
        ZigzagRoundTrip64(v.w64);
      }
    }
  }

  lemma BoolRoundTrip(b: bool)
    ensures var s: seq<byte> := [if b then 1 else 0]; ParseBool(s) == b && ScanVarint(s) == 1
  {
    var s: seq<byte> := [if b then 1 else 0];
    assert Group(s[0]) == if b then 1 else 0;
  }

  /** The head of a packed run is found whatever follows it. */
  lemma ElementRoundTrip(typ: Type, v: Value, rest: seq<byte>)
    requires Packable(typ) && IsOf(typ, v)
    ensures ElementLength(typ, EncodeScalar(typ, v) + rest) == |EncodeScalar(typ, v)| > 0
  {
    hide EncodeScalar, DecodeScalar, FirstEnd;
    ScalarRoundTrip(typ, v);
    if Width(typ) == 0 {
      ScanIsStable(EncodeScalar(typ, v), rest, MAX_VARINT);
    }
  }

  /** A packed run read back is the list written, and the count made ahead of reading it is exact. */
  lemma {:induction false} PackedRoundTrip(typ: Type, vs: seq<Value>)
    requires Packable(typ) && AllOf(typ, vs)
    ensures PackedElements(typ, EncodeAll(typ, vs)) == vs
    ensures PackedParses(typ, EncodeAll(typ, vs))
    ensures CountPacked(typ, EncodeAll(typ, vs)) == Some(|vs|)
  {
    hide DecodeScalar, EncodeScalar, ElementLength;
    if vs == [] {
      assert ElementLength(typ, []) == 0;
    } else {
      hide CountPacked;
      var e, more := EncodeScalar(typ, vs[0]), EncodeAll(typ, vs[1..]);
      ElementRoundTrip(typ, vs[0], more);
      PackedRoundTrip(typ, vs[1..]);
      ElementHead(typ, vs[0], more);
      assert [vs[0]] + vs[1..] == vs;
      CountOne(typ, e, more);
    }
  }

  lemma ElementHead(typ: Type, v: Value, more: seq<byte>)
    requires Packable(typ) && IsOf(typ, v)
    ensures var e := EncodeScalar(typ, v);
      && (e + more)[..|e|] == e && (e + more)[|e|..] == more
      && Readable(typ, e) && DecodeScalar(typ, e) == v
      && (typ == Boolean ==> |e| == 1)
  {
    ScalarRoundTrip(typ, v);
  }

  /** Counting one element and the rest of a run. */
  lemma CountOne(typ: Type, e: seq<byte>, more: seq<byte>)
    requires Packable(typ) && e != [] && ElementLength(typ, e + more) == |e|
    ensures CountPacked(typ, more).Some? == CountPacked(typ, e + more).Some?
    ensures CountPacked(typ, more).Some? ==>
      CountPacked(typ, e + more).value == CountPacked(typ, more).value + if typ == Boolean then |e| else 1
  {
    if Width(typ) == 0 {
      var s := e + more;
      assert e == s[..|e|];
      OneTerminator(e);
      TerminatorsAppend(e, more);
    } else {
      WidthStep(|e|, |more|);
    }
  }

  lemma WidthStep(w: nat, n: nat)
    requires w == 4 || w == 8
    ensures (w + n) % w == n % w && (w + n) / w == n / w + 1
  {
  }

  lemma {:induction false} TerminatorsAppend(a: seq<byte>, b: seq<byte>)
    ensures Terminators(a + b) == Terminators(a) + Terminators(b)
  {
    if a == [] {
      assert a + b == b;
    } else {
      assert (a + b)[1..] == a[1..] + b;
      TerminatorsAppend(a[1..], b);
    }
  }

  lemma {:induction false} OneTerminator(e: seq<byte>)
    requires e != [] && e[|e| - 1] < 128 && forall i :: 0 <= i < |e| - 1 ==> e[i] >= 128
    ensures Terminators(e) == 1
  {
    if |e| == 1 {
    } else {
      OneTerminator(e[1..]);
    }
  }

  /** For any bytes, no more elements are stored than were counted; and when the run parses the two agree
      for every type but bool, whose elements may take several bytes each. */
  lemma {:induction false} StoresAtMostCount(typ: Type, s: seq<byte>)
    requires CountPacked(typ, s).Some?
    ensures |PackedElements(typ, s)| <= CountPacked(typ, s).value
    ensures PackedParses(typ, s) && typ != Boolean ==> |PackedElements(typ, s)| == CountPacked(typ, s).value
  {
    var n := ElementLength(typ, s);
    if n > 0 {
      hide DecodeScalar, CountPacked, ElementLength;
      var e, more := s[..n], s[n..];
      assert e + more == s;
      CountOne(typ, e, more);
      StoresAtMostCount(typ, more);
    } else if Width(typ) > 0 {
      SmallDividend(|s|, Width(typ));
    }
  }

  lemma SmallDividend(n: nat, w: nat)
    requires n < w
    ensures n / w == 0 && (n % w == 0 ==> n == 0)
  {
  }

  lemma OneMore(w: nat, n: nat)
    requires n > 0
    ensures w * n == w + w * (n - 1)
  {
  }

  /** A packed payload is at least the size guessed for it and at most ten times that. */
  lemma {:induction false} PayloadBounds(typ: Type, vs: seq<Value>)
    requires Packable(typ) && AllOf(typ, vs)
    ensures MinSize(typ) * |vs| <= |EncodeAll(typ, vs)| <= 10 * (MinSize(typ) * |vs|)
  {
    hide EncodeScalar, ScalarSize;
    if vs == [] {
    } else {
      PayloadBounds(typ, vs[1..]);
      ScalarRoundTrip(typ, vs[0]);
      OneMore(MinSize(typ), |vs|);
    }
  }

  /** So the length prefix of the payload needs at most one byte more than the prefix of the guess. */
  lemma PrefixGuess(guess: uint32, payload: uint32)
    requires guess <= payload <= 10 * guess
    ensures UInt32Size(guess) <= UInt32Size(payload) <= UInt32Size(guess) + 1
  {
  }

  lemma {:induction false} EncodeAllAppend(typ: Type, a: seq<Value>, b: seq<Value>)
    requires Packable(typ) && AllOf(typ, a) && AllOf(typ, b)
    ensures AllOf(typ, a + b) && EncodeAll(typ, a + b) == EncodeAll(typ, a) + EncodeAll(typ, b)
  {
    hide EncodeScalar, IsOf;
    if a == [] {
      assert a + b == b;
    } else {
      assert (a + b)[1..] == a[1..] + b && (a + b)[0] == a[0];
      EncodeAllAppend(typ, a[1..], b);
    }
  }
}
