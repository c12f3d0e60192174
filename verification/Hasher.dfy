/** The streaming hasher, against SipHash-2-4 of "SipHash: a fast short-input PRF" by Aumasson and Bernstein. */
module Hasher {
  import opened Arithmetic

  type Word = bv64

  // ----- the reference -----

  datatype State = State(v0: Word, v1: Word, v2: Word, v3: Word)

  // The operations on words are functions, so that proofs can treat them as symbols.

  function Plus(x: Word, y: Word): Word {
    x + y
  }

  function Xor(x: Word, y: Word): Word {
    x ^ y
  }

  function Or(x: Word, y: Word): Word {
    x | y
  }

  function RotateLeft(x: Word, b: bv7): Word
    requires b <= 64
  {
    (x << b) | (x >> (64 - b))
  }

  /** One SipRound (section 2.2 of the paper). */
  function Round(s: State): State {
    var a := Plus(s.v0, s.v1);
    var b := Xor(RotateLeft(s.v1, 13), a);
    var c := Plus(s.v2, s.v3);
    var d := Xor(RotateLeft(s.v3, 16), c);
    var e := Plus(RotateLeft(a, 32), d);
    var f := Plus(c, b);
    State(e, Xor(RotateLeft(b, 17), f), RotateLeft(f, 32), Xor(RotateLeft(d, 21), e))
  }

  /** Two rounds for each word of the message. */
  function Absorb(s: State, m: Word): State {
    var t := Round(Round(s.(v3 := Xor(s.v3, m))));
    t.(v0 := Xor(t.v0, m))
  }

  function Start(k0: Word, k1: Word): State {
    State(Xor(k0, 0x736f6d6570736575), Xor(k1, 0x646f72616e646f6d), Xor(k0, 0x6c7967656e657261), Xor(k1, 0x7465646279746573))
  }

  // ----- words -----

  /** Moved up by a byte. */
  function Up(x: Word): Word {
    x << 8
  }

  /** Moved up by `n` bytes. */
  function Raise(x: Word, n: nat): Word {
    if n == 0 then x else Up(Raise(x, n - 1))
  }

  /** The little-endian word of up to eight bytes. */
  function LeWord(bs: seq<bv8>): Word
    requires |bs| <= 8
  {
    if bs == [] then 0 else Or(bs[0] as Word, Up(LeWord(bs[1..])))
  }

  /** Eight bytes at a time. */
  function AbsorbWords(s: State, bs: seq<bv8>): State
    decreases |bs|
  {
    if |bs| < 8 then s else AbsorbWords(Absorb(s, LeWord(bs[..8])), bs[8..])
  }

  function Zeros(n: nat): seq<bv8> {
    seq(n, _ => 0)
  }

  function LengthByte(n: nat): bv8 {
    (n % 0x100) as bv8
  }

  /** Zeros up to the last byte of a word, and the length modulo 256 in that byte. */
  function Padded(m: seq<bv8>): seq<bv8> {
    m + Zeros(7 - |m| % 8) + [LengthByte(|m|)]
  }

  function Finalize(s: State): Word {
    var t := Round(Round(Round(Round(s.(v2 := Xor(s.v2, 0xff))))));
    Xor(Xor(Xor(t.v0, t.v1), t.v2), t.v3)
  }

  function SipHash24(k0: Word, k1: Word, m: seq<bv8>): Word {
    Finalize(AbsorbWords(Start(k0, k1), Padded(m)))
  }

  // ----- streaming, one byte at a time -----

  const LENGTH_LIMIT: nat := 0x1_0000_0000_0000_0000

  /** What a hasher keeps: the state, the bytes of an unfinished word, how many they are, and the length modulo 2^64. */
  datatype Fields = Fields(s: State, tail: Word, nTail: nat, len: nat)

  predicate Sane(h: Fields) {
    h.nTail < 8 && (h.nTail == 0 ==> h.tail == 0) && h.len < LENGTH_LIMIT
  }

  function Fresh(k0: Word, k1: Word): Fields {
    Fields(Start(k0, k1), 0, 0, 0)
  }

  /** One more byte: it goes to its place in the unfinished word, which is absorbed when it is full. */
  function Push(h: Fields, b: bv8): (r: Fields)
    requires Sane(h)
    ensures r.nTail == (if h.nTail == 7 then 0 else h.nTail + 1) && r.len == (h.len + 1) % LENGTH_LIMIT
    ensures Sane(r)
  {
    var tail := Or(h.tail, Raise(b as Word, h.nTail));
    var len := (h.len + 1) % LENGTH_LIMIT;
    if h.nTail == 7 then Fields(Absorb(h.s, tail), 0, 0, len) else Fields(h.s, tail, h.nTail + 1, len)
  }

  function PushAll(h: Fields, bs: seq<bv8>): (r: Fields)
    requires Sane(h)
    ensures Sane(r)
    decreases |bs|
  {
    if bs == [] then h else PushAll(Push(h, bs[0]), bs[1..])
  }

  lemma {:induction false} PushCounts(h: Fields, bs: seq<bv8>)
    requires Sane(h)
    ensures PushAll(h, bs).nTail == (h.nTail + |bs|) % 8 && PushAll(h, bs).len == (h.len + |bs|) % LENGTH_LIMIT
    decreases |bs|
  {
    hide Push;
    if bs == [] {
    } else {
      PushCounts(Push(h, bs[0]), bs[1..]);
      NextTail(h.nTail, |bs|);
      ModStep(h.len, |bs| - 1, LENGTH_LIMIT);
    }
  }

  lemma NextTail(n: nat, count: nat)
    requires n < 8 && count > 0
    ensures ((if n == 7 then 0 else n + 1) + (count - 1)) % 8 == (n + count) % 8
  {
    ModStep(n, count - 1, 8);
  }

  lemma ModStep(a: nat, b: nat, limit: nat)
    requires a < limit
    ensures ((a + 1) % limit + b) % limit == (a + (b + 1)) % limit
  {
    if a + 1 == limit {
      assert a + (b + 1) == b + limit;
      assert (b + limit) % limit == b % limit by {
        assert b == limit * (b / limit) + b % limit;
        assert b + limit == limit * (b / limit + 1) + b % limit;
        Quotient(b + limit, limit, b / limit + 1, b % limit);
      }
      assert (a + 1) % limit == 0;
    } else {
      assert (a + 1) % limit == a + 1;
    }
  }

  /** Splitting the bytes into writes makes no difference. */
  lemma {:induction false} PushInParts(h: Fields, a: seq<bv8>, b: seq<bv8>)
    requires Sane(h)
    ensures PushAll(h, a + b) == PushAll(PushAll(h, a), b)
    decreases |a|
  {
    hide Push, Sane;
    if a == [] {
      assert a + b == b;
    } else {
      assert (a + b)[0] == a[0] && (a + b)[1..] == a[1..] + b;
      PushInParts(Push(h, a[0]), a[1..], b);
    }
  }

  function Writes(h: Fields, chunks: seq<seq<bv8>>): Fields
    requires Sane(h)
    decreases |chunks|
  {
    if chunks == [] then h else Writes(PushAll(h, chunks[0]), chunks[1..])
  }

  function Joined(chunks: seq<seq<bv8>>): seq<bv8> {
    if chunks == [] then [] else chunks[0] + Joined(chunks[1..])
  }

  /** Any sequence of writes, with empty ones, leaves what one write of the whole leaves. */
  lemma {:induction false} ChunksMakeNoDifference(h: Fields, chunks: seq<seq<bv8>>)
    requires Sane(h)
    ensures Writes(h, chunks) == PushAll(h, Joined(chunks))
    decreases |chunks|
  {
    if chunks == [] {
    } else {
      ChunksMakeNoDifference(PushAll(h, chunks[0]), chunks[1..]);
      PushInParts(h, chunks[0], Joined(chunks[1..]));
    }
  }

  // ----- bytes taken together -----

  lemma OrAssociates(x: Word, y: Word, z: Word)
    ensures Or(Or(x, y), z) == Or(x, Or(y, z))
  {
  }

  lemma OrZero(x: Word)
    ensures Or(x, 0) == x && Or(0, x) == x && Up(0) == 0
  {
  }

  lemma UpOr(x: Word, y: Word)
    ensures Up(Or(x, y)) == Or(Up(x), Up(y))
  {
  }

  lemma {:induction false} RaiseOr(x: Word, y: Word, n: nat)
    ensures Raise(Or(x, y), n) == Or(Raise(x, n), Raise(y, n))
  {
    hide Or, Up;
    if n == 0 {
    } else {
      RaiseOr(x, y, n - 1);
      UpOr(Raise(x, n - 1), Raise(y, n - 1));
    }
  }

  lemma {:induction false} RaiseUp(x: Word, n: nat)
    ensures Raise(Up(x), n) == Raise(x, n + 1)
  {
    hide Or, Up;
    if n == 0 {
    } else {
      RaiseUp(x, n - 1);
    }
  }

  lemma OneByte(b: bv8)
    ensures LeWord([b]) == b as Word
  {
    hide Or, Up;
    assert LeWord([b][1..]) == 0;
    OrZero(b as Word);
  }

  /** The first of several bytes, and then the others. */
  lemma WordStep(tail: Word, bs: seq<bv8>, n: nat)
    requires 1 < |bs| <= 8
    ensures Or(tail, Raise(LeWord(bs), n)) == Or(Or(tail, Raise(bs[0] as Word, n)), Raise(LeWord(bs[1..]), n + 1))
  {
    hide Or, Up, Raise;
    RaiseOr(bs[0] as Word, Up(LeWord(bs[1..])), n);
    RaiseUp(LeWord(bs[1..]), n);
    OrAssociates(tail, Raise(bs[0] as Word, n), Raise(LeWord(bs[1..]), n + 1));
  }

  /** Bytes that do not fill the word are or-ed into it at their place. */
  lemma {:induction false} PushBelowWord(h: Fields, bs: seq<bv8>)
    requires Sane(h) && bs != [] && h.nTail + |bs| < 8
    ensures PushAll(h, bs).s == h.s && PushAll(h, bs).tail == Or(h.tail, Raise(LeWord(bs), h.nTail))
    decreases |bs|
  {
    hide Absorb, Or, Up, Raise, LeWord;
    if |bs| == 1 {
      assert bs == [bs[0]];
      OneByte(bs[0]);
    } else {
      PushBelowWord(Push(h, bs[0]), bs[1..]);
      WordStep(h.tail, bs, h.nTail);
    }
  }

  /** Bytes that fill the word have it absorbed. */
  lemma {:induction false} PushToWord(h: Fields, bs: seq<bv8>)
    requires Sane(h) && bs != [] && h.nTail + |bs| == 8
    ensures PushAll(h, bs) == Fields(Absorb(h.s, Or(h.tail, Raise(LeWord(bs), h.nTail))), 0, 0, (h.len + |bs|) % LENGTH_LIMIT)
    decreases |bs|
  {
    hide Absorb, Or, Up, Raise, LeWord;
    PushCounts(h, bs);
    if |bs| == 1 {
      assert bs == [bs[0]];
      OneByte(bs[0]);
    } else {
      PushToWord(Push(h, bs[0]), bs[1..]);
      WordStep(h.tail, bs, h.nTail);
    }
  }

  // ----- the streaming form hashes what the reference hashes -----

  lemma {:induction false} LeAppend(a: seq<bv8>, b: seq<bv8>)
    requires |a| + |b| <= 8
    ensures LeWord(a + b) == Or(LeWord(a), Raise(LeWord(b), |a|))
    decreases |a|
  {
    hide Or, Up;
    if a == [] {
      assert a + b == b;
      OrZero(LeWord(b));
    } else {
      var x, y := LeWord(a[1..]), Raise(LeWord(b), |a| - 1);
      assert (a + b)[0] == a[0] && (a + b)[1..] == a[1..] + b;
      LeAppend(a[1..], b);
      UpOr(x, y);
      OrAssociates(a[0] as Word, Up(x), Up(y));
    }
  }

  lemma {:induction false} ZerosAreZero(n: nat)
    requires n <= 8
    ensures LeWord(Zeros(n)) == 0
  {
    hide Or, Up;
    OrZero(0);
    if n == 0 {
    } else {
      ZerosAreZero(n - 1);
      assert Zeros(n)[1..] == Zeros(n - 1);
    }
  }

  lemma OrCommutes(x: Word, y: Word)
    ensures Or(x, y) == Or(y, x)
  {
  }

  /** The last word: what is left of the message, and the length byte on top. */
  lemma LastWord(m: seq<bv8>, l: bv8)
    requires |m| < 8
    ensures LeWord(m + Zeros(7 - |m|) + [l]) == Or(Raise(l as Word, 7), LeWord(m))
  {
    hide Or, Up, Raise, LeWord;
    var z := Zeros(7 - |m|);
    LeAppend(m + z, [l]);
    OneByte(l);
    LeAppend(m, z);
    ZerosAreZero(7 - |m|);
    RaiseZero(|m|);
    OrZero(LeWord(m));
    OrCommutes(LeWord(m), Raise(l as Word, 7));
  }

  lemma {:induction false} RaiseZero(n: nat)
    ensures Raise(0, n) == 0
  {
    hide Up;
    OrZero(0);
    if n == 0 {
    } else {
      RaiseZero(n - 1);
    }
  }

  /** From an empty tail, pushing the bytes and absorbing the last word is absorbing the padded words. */
  lemma {:induction false} PushIsAbsorb(h: Fields, m: seq<bv8>, l: bv8)
    requires Sane(h) && h.nTail == 0
    ensures var r := PushAll(h, m);
      Absorb(r.s, Or(Raise(l as Word, 7), r.tail)) == AbsorbWords(h.s, m + Zeros(7 - |m| % 8) + [l])
    decreases |m|
  {
    hide Absorb, Or, Up, Raise, LeWord, Push, PushAll, AbsorbWords, Zeros;
    if |m| >= 8 {
      var first, rest := m[..8], m[8..];
      assert m == first + rest;
      assert |rest| % 8 == |m| % 8;
      PushInParts(h, first, rest);
      PushWord(h, first);
      AbsorbFirst(h.s, m, Zeros(7 - |m| % 8) + [l]);
      assert m + (Zeros(7 - |m| % 8) + [l]) == m + Zeros(7 - |m| % 8) + [l];
      assert rest + (Zeros(7 - |m| % 8) + [l]) == rest + Zeros(7 - |m| % 8) + [l];
      PushIsAbsorb(PushAll(h, first), rest, l);
    } else {
      PushLastIsAbsorb(h, m, l);
    }
  }

  lemma AbsorbFirst(s: State, m: seq<bv8>, end: seq<bv8>)
    requires |m| >= 8
    ensures AbsorbWords(s, m + end) == AbsorbWords(Absorb(s, LeWord(m[..8])), m[8..] + end)
  {
    hide Absorb, LeWord;
    assert (m + end)[..8] == m[..8] && (m + end)[8..] == m[8..] + end;
  }

  lemma PushWord(h: Fields, bs: seq<bv8>)
    requires Sane(h) && h.nTail == 0 && |bs| == 8
    ensures PushAll(h, bs) == Fields(Absorb(h.s, LeWord(bs)), 0, 0, (h.len + 8) % LENGTH_LIMIT)
  {
    hide Absorb, Or, Up, LeWord, Push, PushAll;
    PushToWord(h, bs);
    OrZero(LeWord(bs));
  }

  lemma PushLastIsAbsorb(h: Fields, m: seq<bv8>, l: bv8)
    requires Sane(h) && h.nTail == 0 && |m| < 8
    ensures var r := PushAll(h, m);
      Absorb(r.s, Or(Raise(l as Word, 7), r.tail)) == AbsorbWords(h.s, m + Zeros(7 - |m|) + [l])
  {
    hide Absorb, Or, Up, LeWord, Push;
    var padded := m + Zeros(7 - |m|) + [l];
    LastWord(m, l);
    assert padded[..8] == padded && padded[8..] == [];
    if m == [] {
      EmptyWord();
    } else {
      PushBelowWord(h, m);
      OrZero(LeWord(m));
    }
  }

  lemma EmptyWord()
    ensures LeWord([]) == 0
  {
  }

  /** `cb_hasher_finish`, on the fields. */
  function Digest(h: Fields): Word {
    Finalize(Absorb(h.s, Or(Raise(LengthByte(h.len) as Word, 7), h.tail)))
  }

  lemma LowByteWraps(n: nat)
    ensures (n % LENGTH_LIMIT) % 0x100 == n % 0x100
  {
    var q, r := n / LENGTH_LIMIT, n % LENGTH_LIMIT;
    assert n == 0x100 * (0x100_0000_0000_0000 * q + r / 0x100) + r % 0x100;
    Quotient(n, 0x100, 0x100_0000_0000_0000 * q + r / 0x100, r % 0x100);
  }

  lemma LengthByteWraps(n: nat)
    ensures LengthByte(n % LENGTH_LIMIT) == LengthByte(n)
  {
    LowByteWraps(n);
  }

  /** The hash of what was written is SipHash-2-4 of it. */
  lemma DigestIsSipHash(k0: Word, k1: Word, m: seq<bv8>)
    ensures Digest(PushAll(Fresh(k0, k1), m)) == SipHash24(k0, k1, m)
  {
    hide Absorb, Or, Raise, LengthByte, Push, PushAll, Finalize, Start, AbsorbWords, Zeros;
    PushCounts(Fresh(k0, k1), m);
    LengthByteWraps(|m|);
    PushIsAbsorb(Fresh(k0, k1), m, LengthByte(|m|));
  }

  /** However the bytes are split into writes, the hash is SipHash-2-4 of the whole under the same key. */
  lemma WritesHashTheWhole(k0: Word, k1: Word, chunks: seq<seq<bv8>>)
    ensures Digest(Writes(Fresh(k0, k1), chunks)) == SipHash24(k0, k1, Joined(chunks))
  {
    hide Digest, SipHash24, Writes, PushAll, Joined;
    ChunksMakeNoDifference(Fresh(k0, k1), chunks);
    DigestIsSipHash(k0, k1, Joined(chunks));
  }

  // ----- the hasher -----

  /** `U8TO16_LE`, `U8TO32_LE` and `U8TO64_LE`. */
  function U8To16Le(p: seq<bv8>, start: nat): Word
    requires start + 2 <= |p|
  {
    Or(p[start] as Word, Raise(p[start + 1] as Word, 1))
  }

  function U8To32Le(p: seq<bv8>, start: nat): Word
    requires start + 4 <= |p|
  {
    Or(U8To16Le(p, start), Raise(U8To16Le(p, start + 2), 2))
  }

  function U8To64Le(p: seq<bv8>, start: nat): Word
    requires start + 8 <= |p|
  {
    Or(U8To32Le(p, start), Raise(U8To32Le(p, start + 4), 4))
  }

  lemma TwoBytes(p: seq<bv8>, start: nat)
    requires start + 2 <= |p|
    ensures U8To16Le(p, start) == LeWord(p[start..start + 2])
  {
    hide Or, Up, Raise, LeWord;
    var a, b := p[start..start + 1], p[start + 1..start + 2];
    assert p[start..start + 2] == a + b && a == [p[start]] && b == [p[start + 1]];
    LeAppend(a, b);
    OneByte(p[start]);
    OneByte(p[start + 1]);
  }

  lemma FourBytes(p: seq<bv8>, start: nat)
    requires start + 4 <= |p|
    ensures U8To32Le(p, start) == LeWord(p[start..start + 4])
  {
    hide Or, Up, Raise, LeWord, U8To16Le;
    var a, b := p[start..start + 2], p[start + 2..start + 4];
    assert p[start..start + 4] == a + b;
    LeAppend(a, b);
    TwoBytes(p, start);
    TwoBytes(p, start + 2);
  }

  lemma EightBytes(p: seq<bv8>, start: nat)
    requires start + 8 <= |p|
    ensures U8To64Le(p, start) == LeWord(p[start..start + 8])
  {
    hide Or, Up, Raise, LeWord, U8To32Le;
    var a, b := p[start..start + 4], p[start + 4..start + 8];
    assert p[start..start + 8] == a + b;
    LeAppend(a, b);
    FourBytes(p, start);
    FourBytes(p, start + 4);
  }

  /** `u8to64_le`: four bytes, then two, then one, as the length has them. */
  method U8To64LePart(buf: seq<bv8>, start: nat, len: nat) returns (out: Word)
    requires start + len <= |buf| && len < 8
    ensures out == LeWord(buf[start..start + len])
  {
    hide Or, Up, Raise, LeWord, U8To32Le, U8To16Le;
    var i := 0;
    out := 0;
    EmptyWord();
    assert buf[start..start + i] == [];
    if i + 3 < len {
      out := U8To32Le(buf, start + i);
      FourBytes(buf, start);
      i := i + 4;
    }
    if i + 1 < len {
      TwoBytes(buf, start + i);
      PartStep(buf, start, i, 2);
      out := Or(out, Raise(U8To16Le(buf, start + i), i));
      i := i + 2;
    }
    if i < len {
      OneByte(buf[start + i]);
      assert buf[start + i..start + i + 1] == [buf[start + i]];
      PartStep(buf, start, i, 1);
      out := Or(out, Raise(buf[start + i] as Word, i));
      i := i + 1;
    }
    assert i == len;
  }

  lemma PartStep(buf: seq<bv8>, start: nat, i: nat, n: nat)
    requires start + i + n <= |buf| && i + n <= 8
    ensures LeWord(buf[start..start + (i + n)]) == Or(LeWord(buf[start..start + i]), Raise(LeWord(buf[start + i..start + i + n]), i))
  {
    assert buf[start..start + (i + n)] == buf[start..start + i] + buf[start + i..start + i + n];
    LeAppend(buf[start..start + i], buf[start + i..start + i + n]);
  }

  class CbHasher {
    const k0: Word
    const k1: Word
    var v0: Word
    var v1: Word
    var v2: Word
    var v3: Word
    var tail: Word
    var nTail: nat
    var len: nat

    ghost function Value(): Fields
      reads this
    {
      Fields(State(v0, v1, v2, v3), tail, nTail, len)
    }

    ghost predicate Valid()
      reads this
    {
      Sane(Value())
    }

    /** `cb_hasher_init`. */
    constructor (k0: Word, k1: Word)
      ensures Valid() && this.k0 == k0 && this.k1 == k1 && Value() == Fresh(k0, k1)
    {
      this.k0, this.k1 := k0, k1;
      len, tail, nTail := 0, 0, 0;
      v0, v1, v2, v3 := 0, 0, 0, 0;
      new;
      Reset();
    }

    /** `cb_hasher_reset`. */
    method Reset()
      modifies this
      ensures Valid() && Value() == Fresh(k0, k1)
    {
      len := 0;
      tail, nTail := 0, 0;
      v0 := Xor(k0, 0x736f6d6570736575);
      v1 := Xor(k1, 0x646f72616e646f6d);
      v2 := Xor(k0, 0x6c7967656e657261);
      v3 := Xor(k1, 0x7465646279746573);
    }

    /** `compress`: one round in place. */
    method Compress()
      modifies this`v0, this`v1, this`v2, this`v3
      ensures Value() == old(Value()).(s := Round(old(Value().s)))
    {
      hide Plus, Xor, RotateLeft;
      var w0, w1, w2, w3 := v0, v1, v2, v3;
      w0 := Plus(w0, w1);
      w1 := RotateLeft(w1, 13);
      w1 := Xor(w1, w0);
      w0 := RotateLeft(w0, 32);
      w2 := Plus(w2, w3);
      w3 := RotateLeft(w3, 16);
      w3 := Xor(w3, w2);
      w0 := Plus(w0, w3);
      w3 := RotateLeft(w3, 21);
      w3 := Xor(w3, w0);
      w2 := Plus(w2, w1);
      w1 := RotateLeft(w1, 17);
      w1 := Xor(w1, w2);
      w2 := RotateLeft(w2, 32);
      v0, v1, v2, v3 := w0, w1, w2, w3;
    }

    /** A word goes in: the fields around the two rounds of `sip24_compress`. */
    method AbsorbWord(m: Word)
      modifies this`v0, this`v1, this`v2, this`v3
      ensures Value() == old(Value()).(s := Absorb(old(Value().s), m))
    {
      hide Round, Xor;
      v3 := Xor(v3, m);
      Compress();
      Compress();
      v0 := Xor(v0, m);
    }

    /** The words of the input, from `needed` on: the bound of the loop is short by `needed`, which is less than a word. */
    method AbsorbAll(bytes: seq<bv8>, needed: nat) returns (i: nat)
      requires needed <= |bytes| && needed < 8
      modifies this`v0, this`v1, this`v2, this`v3
      ensures i == |bytes| - (|bytes| - needed) % 8 && needed <= i
      ensures Value() == old(Value()).(s := AbsorbWords(old(Value().s), bytes[needed..i]))
    {
      hide Absorb, LeWord, U8To64Le;
      var length := |bytes| - needed;
      var left := length % 8;
      i := needed;
      assert bytes[needed..i] == [];
      while i < length - left
        invariant needed <= i <= needed + (length - left) && (i - needed) % 8 == 0
        invariant Value() == old(Value()).(s := AbsorbWords(old(Value().s), bytes[needed..i]))
      {
        EightBytes(bytes, i);
        var mi := U8To64Le(bytes, i);
        AbsorbLast(old(Value().s), bytes[needed..i], bytes[i..i + 8]);
        assert bytes[needed..i] + bytes[i..i + 8] == bytes[needed..i + 8];
        AbsorbWord(mi);
        i := i + 8;
      }
    }

    /** The waiting tail is filled up, and absorbed when the input has the bytes it needs. */
    method FillTail(bytes: seq<bv8>, ghost h: Fields) returns (needed: nat)
      requires Sane(h) && Value() == h.(len := len) && nTail != 0
      modifies this`v0, this`v1, this`v2, this`v3, this`tail, this`nTail
      ensures needed == 8 - h.nTail
      ensures |bytes| < needed ==> Value() == PushAll(h, bytes).(len := len)
      ensures needed <= |bytes| ==> nTail == 0 && PushAll(h, bytes[..needed]).nTail == 0 && Value().s == PushAll(h, bytes[..needed]).s
    {
      hide Absorb, Or, Up, Raise, LeWord, Push, PushAll;
      needed := 8 - nTail;
      var taken := if |bytes| < needed then |bytes| else needed;
      var first := U8To64LePart(bytes, 0, taken);
      assert bytes[0..taken] == bytes[..taken];
      tail := Or(tail, Raise(first, nTail));
      if |bytes| < needed {
        assert bytes[..taken] == bytes;
        PushPart(h, bytes);
        nTail := nTail + |bytes|;
      } else {
        PushToWord(h, bytes[..needed]);
        AbsorbWord(tail);
        nTail := 0;
      }
    }

    /** The words of the input after the tail, and a new tail of what is left over. */
    method WriteWords(bytes: seq<bv8>, needed: nat, ghost h: Fields)
      requires Sane(h) && needed < 8 && needed <= |bytes| && nTail == 0
      requires PushAll(h, bytes[..needed]).nTail == 0 && Value().s == PushAll(h, bytes[..needed]).s
      modifies this`v0, this`v1, this`v2, this`v3, this`tail, this`nTail
      ensures Value() == PushAll(h, bytes).(len := len)
    {
      hide Absorb, AbsorbWords, LeWord, Push, PushAll;
      ghost var flushed := PushAll(h, bytes[..needed]);
      var i := AbsorbAll(bytes, needed);
      var left := |bytes| - i;
      assert bytes[i..i + left] == bytes[i..];
      tail := U8To64LePart(bytes, i, left);
      nTail := left;
      PushWordsAndRest(flushed, bytes[needed..i], bytes[i..]);
      assert bytes[needed..i] + bytes[i..] == bytes[needed..];
      PushInParts(h, bytes[..needed], bytes[needed..]);
      assert bytes[..needed] + bytes[needed..] == bytes;
    }

    /** `cb_hasher_write`. */
    method Write(bytes: seq<bv8>)
      requires Valid()
      modifies this
      ensures Valid() && Value() == PushAll(old(Value()), bytes)
    {
      hide Absorb, PushAll;
      ghost var h := Value();
      var needed := 0;
      PushCounts(h, bytes);
      len := (len + |bytes|) % LENGTH_LIMIT;
      if nTail != 0 {
        needed := FillTail(bytes, h);
        if |bytes| < needed {
          return;
        }
      } else {
        PushNothing(h);
        assert bytes[..needed] == [];
      }
      WriteWords(bytes, needed, h);
    }

    /** `cb_hasher_finish`. */
    method Finish() returns (hash: Word)
      requires Valid()
      modifies this`v0, this`v1, this`v2, this`v3
      ensures hash == Digest(old(Value()))
    {
      hide Absorb, Round, Xor, Or, Raise;
      var b := Or(Raise(LengthByte(len) as Word, 7), tail);
      AbsorbWord(b);
      v2 := Xor(v2, 0xff);
      Compress();
      Compress();
      Compress();
      Compress();
      hash := Xor(Xor(Xor(v0, v1), v2), v3);
    }
  }

  lemma PushNothing(h: Fields)
    requires Sane(h)
    ensures PushAll(h, []) == h
  {
  }

  lemma {:induction false} AbsorbLast(s: State, a: seq<bv8>, b: seq<bv8>)
    requires |a| % 8 == 0 && |b| == 8
    ensures AbsorbWords(s, a + b) == Absorb(AbsorbWords(s, a), LeWord(b))
    decreases |a|
  {
    hide Absorb, LeWord;
    if a == [] {
      assert a + b == b && b[..8] == b && b[8..] == [];
    } else {
      AbsorbFirst(s, a, b);
      AbsorbLast(Absorb(s, LeWord(a[..8])), a[8..], b);
    }
  }

  /** Whole words, and then less than a word. */
  lemma {:induction false} PushWordsAndRest(h: Fields, words: seq<bv8>, rest: seq<bv8>)
    requires Sane(h) && h.nTail == 0 && |words| % 8 == 0 && |rest| < 8
    ensures PushAll(h, words + rest) == Fields(AbsorbWords(h.s, words), LeWord(rest), |rest|, (h.len + |words| + |rest|) % LENGTH_LIMIT)
    decreases |words|
  {
    hide Absorb, LeWord, Push, Or, Up, Raise, PushAll;
    if words == [] {
      assert words + rest == rest;
      PushRest(h, rest);
    } else {
      var first, more := words[..8], words[8..];
      assert words + rest == first + (more + rest);
      PushInParts(h, first, more + rest);
      PushWord(h, first);
      PushWordsAndRest(PushAll(h, first), more, rest);
      PushCounts(h, words + rest);
    }
  }

  lemma PushRest(h: Fields, rest: seq<bv8>)
    requires Sane(h) && h.nTail == 0 && |rest| < 8
    ensures PushAll(h, rest) == Fields(h.s, LeWord(rest), |rest|, (h.len + |rest|) % LENGTH_LIMIT)
  {
    hide Push, Or, Up, LeWord;
    PushCounts(h, rest);
    if rest == [] {
      EmptyWord();
      PushNothing(h);
    } else {
      PushBelowWord(h, rest);
      OrZero(LeWord(rest));
    }
  }

  lemma PushPart(h: Fields, bs: seq<bv8>)
    requires Sane(h) && h.nTail != 0 && h.nTail + |bs| < 8
    ensures PushAll(h, bs) == Fields(h.s, Or(h.tail, Raise(LeWord(bs), h.nTail)), h.nTail + |bs|, (h.len + |bs|) % LENGTH_LIMIT)
  {
    hide Or, Up, Push;
    PushCounts(h, bs);
    if bs == [] {
      RaiseZero(h.nTail);
      OrZero(h.tail);
    } else {
      PushBelowWord(h, bs);
    }
  }
}
