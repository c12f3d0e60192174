/** Base-128 varints, zigzag numbers and fixed-width words, as protobuf-c reads and writes them.
    Machine words are non-negative integers below a power of two: `value | 0x80` stored in a byte is
    `128 + value % 128`, `value >> 7` is `value / 128`, and or-ing disjoint shifted groups is addition. */
module Varint {

  type byte = b: int | 0 <= b < 0x100
  type uint32 = n: int | 0 <= n < 0x1_0000_0000
  type uint64 = n: int | 0 <= n < 0x1_0000_0000_0000_0000

  const INT_MAX := 0x7fff_ffff
  const TWO_31 := 0x8000_0000
  const TWO_32 := 0x1_0000_0000
  const TWO_63 := 0x8000_0000_0000_0000
  const TWO_64 := 0x1_0000_0000_0000_0000

  /** The longest varint of a 64-bit number. */
  const MAX_VARINT := 10

  /** The payload bits `b & 0x7f` of one group. */
  function Group(b: byte): (g: nat)
    ensures g < 128
  {
    b % 128
  }

  // ----- the reference encoding: least significant group first, top bit set on all but the last -----

  function Encode(n: nat): (s: seq<byte>)
    ensures |s| >= 1
  {
    if n < 128 then [n] else [128 + n % 128] + Encode(n / 128)
  }

  /** The number written by a run of 7-bit groups. */
  function Number(s: seq<byte>): nat {
    if s == [] then 0 else Group(s[0]) + 128 * Number(s[1..])
  }

  /** Little-endian fixed-width words. */
  function Fixed(n: nat, width: nat): (s: seq<byte>)
    ensures |s| == width
  {
    if width == 0 then [] else [n % 256] + Fixed(n / 256, width - 1)
  }

  function FixedValue(s: seq<byte>): nat {
    if s == [] then 0 else s[0] + 256 * FixedValue(s[1..])
  }

  // ----- the sizes the code computes -----

  function UInt32Size(v: uint32): nat {
    if v < 0x80 then 1
    else if v < 0x4000 then 2
    else if v < 0x20_0000 then 3
    else if v < 0x1000_0000 then 4
    else 5
  }

  function UInt64Size(v: uint64): nat {
    var upper := v / TWO_32;
    if upper == 0 then UInt32Size(v)
    else if upper < 0x8 then 5
    else if upper < 0x400 then 6
    else if upper < 0x2_0000 then 7
    else if upper < 0x100_0000 then 8
    else if upper < 0x8000_0000 then 9
    else 10
  }

  /** The signed reading of a 32-bit word. */
  function Signed32(w: uint32): int {
    if w < TWO_31 then w else w - TWO_32
  }

  function Signed64(w: uint64): int {
    if w < TWO_63 then w else w - TWO_64
  }

  /** `int32_size`: a negative value is written as its 64-bit two's complement. */
  function Int32Size(w: uint32): nat {
    var v := Signed32(w);
    if v < 0 then 10
    else if v < 0x80 then 1
    else if v < 0x4000 then 2
    else if v < 0x20_0000 then 3
    else if v < 0x1000_0000 then 4
    else 5
  }

  /** The 64-bit word that stands for a signed 32-bit one. */
  function SignExtend(w: uint32): uint64 {
    if w < TWO_31 then w else w + (TWO_64 - TWO_32)
  }

  function TagSize(id: uint32): nat {
    if id < 0x10 then 1
    else if id < 0x800 then 2
    else if id < 0x4_0000 then 3
    else if id < 0x200_0000 then 4
    else 5
  }

  // ----- zigzag: xor with a mask of sign bits, which either keeps or complements every bit -----

  function Zigzag32(w: uint32): uint32 {
    var shifted := 2 * w % TWO_32;
    if Signed32(w) < 0 then TWO_32 - 1 - shifted else shifted
  }

  function Unzigzag32(w: uint32): uint32 {
    if w % 2 == 1 then TWO_32 - 1 - w / 2 else w / 2
  }

  function Zigzag64(w: uint64): uint64 {
    var shifted := 2 * w % TWO_64;
    if Signed64(w) < 0 then TWO_64 - 1 - shifted else shifted
  }

  function Unzigzag64(w: uint64): uint64 {
    if w % 2 == 1 then TWO_64 - 1 - w / 2 else w / 2
  }

  // ----- reading -----

  /** The length of the run of groups at the head of `s` that ends within `limit` bytes, or 0. */
  function FirstEnd(s: seq<byte>, limit: nat): (n: nat)
    ensures n <= |s| && n <= limit
    ensures n > 0 ==> s[n - 1] < 128 && forall i :: 0 <= i < n - 1 ==> s[i] >= 128
    ensures n == 0 ==> forall i :: 0 <= i < |s| && i < limit ==> s[i] >= 128
  {
    if s == [] || limit == 0 then 0
    else if s[0] < 128 then 1
    else
      var n := FirstEnd(s[1..], limit - 1);
      assert forall i :: 0 <= i < |s| - 1 ==> s[1..][i] == s[i + 1];
      assert forall i :: 0 < i < |s| ==> s[i] == s[1..][i - 1];
      if n == 0 then 0 else n + 1
  }

  /** `scan_varint`: the length of the varint at the head of `s`, or 0 when none ends within ten bytes. */
  function ScanVarint(s: seq<byte>): nat {
    FirstEnd(s, MAX_VARINT)
  }

  /** `parse_uint32`: at most five groups, the fifth unmasked and shifted out of the word. */
  function ParseUInt32(s: seq<byte>): uint32
    requires |s| >= 1
  {
    var r0 := Group(s[0]);
    if |s| == 1 then r0 else
    var r1 := r0 + Group(s[1]) * 0x80;
    if |s| == 2 then r1 else
    var r2 := r1 + Group(s[2]) * 0x4000;
    if |s| == 3 then r2 else
    var r3 := r2 + Group(s[3]) * 0x20_0000;
    if |s| == 4 then r3 else
    r3 + (s[4] as int) * 0x1000_0000 % TWO_32
  }

  /** `parse_uint64`, whose loop `ParseUInt64` below runs. */
  function Number64(s: seq<byte>): uint64 {
    Number(s) % TWO_64
  }

  /** `parse_boolean`: any group bit set. */
  predicate ParseBool(s: seq<byte>) {
    exists i :: 0 <= i < |s| && Group(s[i]) != 0
  }

  // ----- laws -----

  /** The sizes computed ahead of writing are the lengths written, for every word. */
  lemma SizesAreLengths(v: uint64)
    ensures |Encode(v)| == UInt64Size(v)
    ensures v < TWO_32 ==> |Encode(v)| == UInt32Size(v)
    ensures |Encode(v)| <= MAX_VARINT
  {
    EncodeLength(v);
  }

  /** The length of an encoding counts the 7-bit groups of the number. */
  lemma EncodeLength(v: uint64)
    ensures |Encode(v)| ==
      if v < 0x80 then 1
      else if v < 0x4000 then 2
      else if v < 0x20_0000 then 3
      else if v < 0x1000_0000 then 4
      else if v < 0x8_0000_0000 then 5
      else if v < 0x400_0000_0000 then 6
      else if v < 0x2_0000_0000_0000 then 7
      else if v < 0x100_0000_0000_0000 then 8
      else if v < 0x8000_0000_0000_0000 then 9
      else 10
  {
    if v >= 128 {
      EncodeLength(v / 128);
    }
  }

  lemma {:induction false} EncodeShape(n: nat)
    ensures Encode(n)[|Encode(n)| - 1] < 128
    ensures forall i :: 0 <= i < |Encode(n)| - 1 ==> Encode(n)[i] >= 128
    ensures Number(Encode(n)) == n
  {
    hide Group;
    if n < 128 {
      assert Number([n]) == Group(n) + 128 * Number([]);
      GroupOf(n);
    } else {
      var low, more := n % 128, Encode(n / 128);
      EncodeShape(n / 128);
      assert Encode(n) == [128 + low] + more && Encode(n)[1..] == more;
      GroupOf(low);
    }
  }

  lemma GroupOf(low: nat)
    requires low < 128
    ensures Group(low) == Group(128 + low) == low
  {
  }

  /** A varint read back is the number written, and the scan stops at its end whatever follows. */
  lemma VarintRoundTrip(v: uint64, rest: seq<byte>)
    ensures ScanVarint(Encode(v) + rest) == |Encode(v)|
    ensures Number64(Encode(v)) == v
    ensures v < TWO_32 ==> ParseUInt32(Encode(v)) == v
  {
    hide Encode, Number, ParseUInt32, FirstEnd;
    EncodeShape(v);
    SizesAreLengths(v);
    ScanStopsAt(Encode(v), rest, MAX_VARINT);
    ParseUInt32IsValue(Encode(v));
  }

  /** Bytes with the continuation bit up to a last one without it are scanned as one run. */
  lemma ScanStopsAt(s: seq<byte>, rest: seq<byte>, limit: nat)
    requires 1 <= |s| <= limit
    requires s[|s| - 1] < 128 && forall i :: 0 <= i < |s| - 1 ==> s[i] >= 128
    ensures FirstEnd(s + rest, limit) == |s|
  {
    var t := s + rest;
    assert forall i :: 0 <= i < |s| ==> t[i] == s[i];
  }

  /** A run once found is found whatever follows it. */
  lemma ScanIsStable(s: seq<byte>, rest: seq<byte>, limit: nat)
    requires FirstEnd(s, limit) > 0
    ensures FirstEnd(s + rest, limit) == FirstEnd(s, limit)
  {
    var n := FirstEnd(s, limit);
    assert s + rest == s[..n] + (s[n..] + rest);
    ScanStopsAt(s[..n], s[n..] + rest, limit);
  }

  /** The unrolled 32-bit reader keeps exactly the low 32 bits of the number, for any run of groups. */
  lemma ParseUInt32IsValue(s: seq<byte>)
    requires |s| >= 1
    ensures ParseUInt32(s) == Number(s) % TWO_32
  {
    ValueUnrolled(s);
    hide Number;
    if |s| <= 4 {
      ShortValue(s);
    } else {
      FifthGroup(Group(s[0]) + Group(s[1]) * 0x80 + Group(s[2]) * 0x4000 + Group(s[3]) * 0x20_0000, s[4], Number(s[5..]));
    }
  }

  lemma ValueUnrolled(s: seq<byte>)
    requires |s| >= 1
    ensures Number(s) ==
      Group(s[0]) + (if |s| == 1 then 0 else
      Group(s[1]) * 0x80 + (if |s| == 2 then 0 else
      Group(s[2]) * 0x4000 + (if |s| == 3 then 0 else
      Group(s[3]) * 0x20_0000 + (if |s| == 4 then 0 else
      Group(s[4]) * 0x1000_0000 + 0x8_0000_0000 * Number(s[5..])))))
  {
    hide Group;
    assert Number(s) == Group(s[0]) + 128 * Number(s[1..]);
    ValueStep(s, 1);
    ValueStep(s, 2);
    ValueStep(s, 3);
    ValueStep(s, 4);
  }

  lemma ValueStep(s: seq<byte>, i: nat)
    ensures i < |s| ==> Number(s[i..]) == Group(s[i]) + 128 * Number(s[i + 1..])
    ensures i == |s| ==> Number(s[i..]) == 0
  {
    if i < |s| {
      assert s[i..][1..] == s[i + 1..];
    }
  }

  lemma FifthGroup(low: nat, b: byte, more: nat)
    requires low < 0x1000_0000
    ensures low + (b as int) * 0x1000_0000 % TWO_32 == (low + 0x1000_0000 * Group(b) + 0x8_0000_0000 * more) % TWO_32
  {
    var r, q, g := b % 16, b / 16, Group(b);
    assert b == r + 16 * q;
    ModIs((b as int) * 0x1000_0000, r * 0x1000_0000, q);
    GroupMod16(b);
    ModIs(low + 0x1000_0000 * g + 0x8_0000_0000 * more, low + 0x1000_0000 * r, g / 16 + 8 * more);
  }

  lemma GroupMod16(b: byte)
    ensures Group(b) == b % 16 + 16 * (Group(b) / 16)
  {
  }

  lemma ModIs(x: int, low: nat, k: int)
    requires low < TWO_32 && x == low + TWO_32 * k
    ensures x % TWO_32 == low
  {
  }

  /** Every signed 32-bit value survives `int32_pack` and `parse_int32`. */
  lemma Int32RoundTrip(w: uint32)
    ensures |Encode(SignExtend(w))| == Int32Size(w)
    ensures ParseUInt32(Encode(SignExtend(w))) == w
  {
    hide Encode, Number, ParseUInt32;
    var v := SignExtend(w);
    EncodeShape(v);
    EncodeLength(v);
    ParseUInt32IsValue(Encode(v));
    ModIs(v, w, if w < TWO_31 then 0 else TWO_32 - 1);
  }

  /** Zigzag is a bijection on words and orders numbers by magnitude: 0, -1, 1, -2, 2, ... */
  lemma ZigzagRoundTrip32(w: uint32)
    ensures Unzigzag32(Zigzag32(w)) == w && Zigzag32(Unzigzag32(w)) == w
    ensures Zigzag32(w) == if Signed32(w) >= 0 then 2 * Signed32(w) else -2 * Signed32(w) - 1
  {
  }

  lemma ZigzagRoundTrip64(w: uint64)
    ensures Unzigzag64(Zigzag64(w)) == w && Zigzag64(Unzigzag64(w)) == w
    ensures Zigzag64(w) == if Signed64(w) >= 0 then 2 * Signed64(w) else -2 * Signed64(w) - 1
  {
  }

  lemma {:induction false} FixedRoundTrip(n: nat, width: nat)
    requires n < Pow256(width)
    ensures FixedValue(Fixed(n, width)) == n
  {
    if width == 0 {
    } else {
      FixedRoundTrip(n / 256, width - 1);
      assert Fixed(n, width)[1..] == Fixed(n / 256, width - 1);
    }
  }

  function Pow256(k: nat): nat {
    if k == 0 then 1 else 256 * Pow256(k - 1)
  }

  lemma {:induction false} FixedValueBound(s: seq<byte>)
    ensures FixedValue(s) < Pow256(|s|)
  {
    if s == [] {
    } else {
      FixedValueBound(s[1..]);
    }
  }

  lemma WordBounds()
    ensures Pow256(4) == TWO_32 && Pow256(8) == TWO_64
  {
    assert Pow256(4) == 256 * Pow256(3) == 256 * (256 * Pow256(2)) == 256 * (256 * (256 * Pow256(1)));
    assert Pow256(8) == 256 * Pow256(7) == 256 * (256 * Pow256(6)) == 256 * (256 * (256 * Pow256(5)));
  }

  /** One group more: the number so far plus the new group at its weight. */
  lemma {:induction false} ValueSnoc(s: seq<byte>, b: byte)
    ensures Number(s + [b]) == Number(s) + Pow128(|s|) * Group(b)
  {
    hide Group;
    var t := s + [b];
    assert Number(t) == Group(t[0]) + 128 * Number(t[1..]);
    if s == [] {
      assert t[1..] == [];
    } else {
      ValueSnoc(s[1..], b);
      assert t[1..] == s[1..] + [b];
      TimesScaled(Pow128(|s| - 1), Group(b));
    }
  }

  lemma TimesScaled(p: nat, g: nat)
    ensures 128 * (p * g) == 128 * p * g
  {
  }

  function Pow128(k: nat): (p: nat)
    ensures p >= 1
  {
    if k == 0 then 1 else 128 * Pow128(k - 1)
  }

  /** `parse_uint64`: short varints go through the 32-bit reader, longer ones or each shifted group in. The scan passes on ten
      bytes at most; beyond those the shift of the code would be wider than the word, and is not defined in C. */
  method ParseUInt64(data: seq<byte>) returns (rv: uint64)
    requires 1 <= |data|
    ensures rv == Number64(data)
  {
    hide Number, Number64, Pow128, ParseUInt32;
    if |data| < 5 {
      rv := ParseUInt32(data);
      ShortParse(data);
      return;
    }
    rv := Group(data[0]) + Group(data[1]) * 0x80 + Group(data[2]) * 0x4000 + Group(data[3]) * 0x20_0000;
    var weight: nat := 0x1000_0000;
    FirstFour(data);
    var i := 4;
    while i < |data|
      invariant 4 <= i <= |data|
      invariant weight == Pow128(i)
      invariant rv == Number64(data[..i])
    {
      OneMoreGroup(data, i);
      rv := (rv + weight * Group(data[i])) % TWO_64;
      weight := weight * 128;
      i := i + 1;
    }
    assert data[..|data|] == data;
  }

  lemma ShortParse(data: seq<byte>)
    requires 1 <= |data| < 5
    ensures ParseUInt32(data) == Number64(data)
  {
    ParseUInt32IsValue(data);
    ShortValue(data);
  }

  lemma OneMoreGroup(data: seq<byte>, i: nat)
    requires i < |data|
    ensures (Number64(data[..i]) + Pow128(i) * Group(data[i])) % TWO_64 == Number64(data[..i + 1])
    ensures Pow128(i) * 128 == Pow128(i + 1)
  {
    ValueSnoc(data[..i], data[i]);
    assert data[..i] + [data[i]] == data[..i + 1];
    ModAdd(Number(data[..i]), Pow128(i) * Group(data[i]));
  }

  lemma ModAdd(v: nat, g: nat)
    ensures (v % TWO_64 + g) % TWO_64 == (v + g) % TWO_64
  {
  }

  lemma ShortValue(s: seq<byte>)
    requires 1 <= |s| < 5
    ensures Number(s) < TWO_32
  {
    EncodeBound(s);
    assert Pow128(4) == 128 * Pow128(3) == 128 * (128 * Pow128(2));
  }

  lemma {:induction false} EncodeBound(s: seq<byte>)
    ensures Number(s) < Pow128(|s|)
  {
    if s == [] {
    } else {
      EncodeBound(s[1..]);
    }
  }

  lemma FirstFour(s: seq<byte>)
    requires |s| >= 4
    ensures Number64(s[..4]) == Group(s[0]) + Group(s[1]) * 0x80 + Group(s[2]) * 0x4000 + Group(s[3]) * 0x20_0000
    ensures Pow128(4) == 0x1000_0000
  {
    hide Group;
    var t := s[..4];
    ValueUnrolled(t);
    ShortValue(t);
    assert t[0] == s[0] && t[1] == s[1] && t[2] == s[2] && t[3] == s[3];
    assert Pow128(4) == 128 * Pow128(3) == 128 * (128 * Pow128(2)) == 128 * (128 * (128 * Pow128(1)));
  }
}
