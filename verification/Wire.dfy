/** Tags, length prefixes and records: the framing of the protobuf wire format. */
module Wire {
  import opened Options
  import opened Varint

  const WIRE_VARINT := 0
  const WIRE_64BIT := 1
  const WIRE_LENGTH_PREFIXED := 2
  const WIRE_32BIT := 5

  /** A tag, a wire type and the payload bytes, length prefix included: what the scan keeps of each
      member and what an unknown field retains. */
  datatype Record = Record(tag: uint32, wireType: nat, data: seq<byte>)

  datatype Tag = Tag(id: uint32, wireType: nat, used: nat)

  /** How far a payload reaches and how much of it is length prefix. */
  datatype Extent = Extent(len: nat, prefix: nat)

  // ----- writing -----

  function TagBytes(id: uint32, wireType: nat): seq<byte>
    requires wireType < 8
  {
    Encode(8 * id + wireType)
  }

  /** A length-delimited payload; the length is truncated to 32 bits as `uint32_pack` takes it. */
  function Delimited(s: seq<byte>): seq<byte> {
    Encode(|s| % TWO_32) + s
  }

  function RecordBytes(r: Record): (s: seq<byte>)
    requires r.wireType < 8
    ensures |s| > |r.data|
  {
    TagBytes(r.tag, r.wireType) + r.data
  }

  ghost predicate Tagged(rs: seq<Record>) {
    forall r <- rs :: r.wireType < 8
  }

  function Serialize(rs: seq<Record>): seq<byte>
    requires Tagged(rs)
  {
    if rs == [] then [] else RecordBytes(rs[0]) + Serialize(rs[1..])
  }

  // ----- reading -----

  /** `parse_tag_and_wiretype`: at most five groups, and no tag whose first byte has nothing above the
      wire type. */
  function ParseTag(s: seq<byte>): (r: Option<Tag>)
    requires |s| > 0
    ensures r.Some? ==> 0 < r.value.used <= |s| && r.value.wireType < 8
  {
    var n := FirstEnd(s, 5);
    if s[0] < 8 || n == 0 then None
    else
      FiveGroups(s[..n]);
      Some(Tag(Number(s[..n]) / 8, s[0] % 8, n))
  }

  lemma FiveGroups(s: seq<byte>)
    requires |s| <= 5
    ensures Number(s) < 0x8_0000_0000
  {
    EncodeBound(s);
    PowersOf128();
    Pow128Monotone(|s|, 5);
  }

  lemma PowersOf128()
    ensures Pow128(4) == 0x1000_0000 && Pow128(5) == 0x8_0000_0000
  {
    assert Pow128(5) == 128 * Pow128(4) == 128 * (128 * Pow128(3)) == 128 * (128 * (128 * Pow128(2)));
  }

  lemma {:induction false} Pow128Monotone(j: nat, k: nat)
    requires j <= k
    ensures Pow128(j) <= Pow128(k)
  {
    if j == k {
    } else {
      Pow128Monotone(j, k - 1);
    }
  }

  /** `scan_length_prefixed_data`: a prefix of at most five groups, a length of at most INT_MAX, and
      that many bytes present. */
  function ScanDelimited(s: seq<byte>): (r: Option<Extent>)
    ensures r.Some? ==> 0 < r.value.prefix <= r.value.len <= |s|
  {
    var n := FirstEnd(s, 5);
    if n == 0 then None
    else
      var v := Number(s[..n]);
      if v > INT_MAX || n + v > |s| then None else Some(Extent(n + v, n))
  }

  /** The extent of the payload that a wire type announces at the head of `s`. */
  function ScanPayload(wireType: nat, s: seq<byte>): (r: Option<Extent>)
    ensures r.Some? ==> 0 < r.value.len <= |s| && r.value.prefix <= r.value.len
    ensures r.Some? && wireType == WIRE_LENGTH_PREFIXED ==> r.value.prefix > 0
    ensures r.Some? && wireType == WIRE_VARINT ==> r.value.len <= MAX_VARINT
    ensures r.Some? ==> wireType in {WIRE_VARINT, WIRE_64BIT, WIRE_LENGTH_PREFIXED, WIRE_32BIT}
  {
    if wireType == WIRE_VARINT then
      var n := ScanVarint(s);
      if n == 0 then None else Some(Extent(n, 0))
    else if wireType == WIRE_64BIT then
      if |s| < 8 then None else Some(Extent(8, 0))
    else if wireType == WIRE_LENGTH_PREFIXED then ScanDelimited(s)
    else if wireType == WIRE_32BIT then
      if |s| < 4 then None else Some(Extent(4, 0))
    else None
  }

  /** One turn of the scan loop: the record at the head of `s` and the bytes it takes. */
  function ScanOne(s: seq<byte>): (r: Option<(Record, nat)>)
    requires |s| > 0
    ensures r.Some? ==> |r.value.0.data| < r.value.1 <= |s| && r.value.0.wireType < 8
  {
    match ParseTag(s)
    case None => None
    case Some(tag) =>
      var body := s[tag.used..];
      match ScanPayload(tag.wireType, body)
      case None => None
      case Some(e) => Some((Record(tag.id, tag.wireType, body[..e.len]), tag.used + e.len))
  }

  /** What records take on the wire at the least; the decoder's recursion goes down in it. */
  function Weight(rs: seq<Record>): nat {
    if rs == [] then 0 else |rs[0].data| + 1 + Weight(rs[1..])
  }

  /** The whole scan, or failure at the first record that does not parse. */
  function Scan(s: seq<byte>): (r: Option<seq<Record>>)
    ensures r.Some? ==> Weight(r.value) <= |s|
  {
    if s == [] then Some([])
    else
      match ScanOne(s)
      case None => None
      case Some((head, used)) =>
        var rest := Scan(s[used..]);
        assert rest.Some? ==> ([head] + rest.value)[1..] == rest.value;
        Joined(Some([head]), rest)
  }

  /** What scanning `a` and then `b` yields. */
  function Joined(a: Option<seq<Record>>, b: Option<seq<Record>>): Option<seq<Record>> {
    if a.Some? && b.Some? then Some(a.value + b.value) else None
  }

  lemma JoinedAssociates(a: Option<seq<Record>>, b: Option<seq<Record>>, c: Option<seq<Record>>)
    ensures Joined(a, Joined(b, c)) == Joined(Joined(a, b), c)
  {
    if a.Some? && b.Some? && c.Some? {
      assert a.value + (b.value + c.value) == (a.value + b.value) + c.value;
    }
  }

  // ----- what a record must be for the scan to find it again -----

  /** The payload is exactly what its wire type announces. */
  predicate Exact(r: Record) {
    ScanPayload(r.wireType, r.data).Some? && ScanPayload(r.wireType, r.data).value.len == |r.data|
  }

  predicate Scannable(r: Record) {
    r.tag >= 1 && Exact(r)
  }

  ghost predicate AllScannable(rs: seq<Record>) {
    forall r <- rs :: Scannable(r)
  }

  /** The length prefix of an exact length-delimited payload. */
  function PrefixLength(r: Record): (n: nat)
    requires Exact(r)
    ensures n <= |r.data|
    ensures r.wireType == WIRE_LENGTH_PREFIXED ==> n > 0
  {
    ScanPayload(r.wireType, r.data).value.prefix
  }

  // ----- laws -----

  /** A tag of any id from 1 to 2^32 - 1 and any wire type is read back whatever follows, and its
      length is the size computed for it. */
  lemma TagRoundTrip(id: uint32, wireType: nat, rest: seq<byte>)
    requires id >= 1 && wireType < 8
    ensures ParseTag(TagBytes(id, wireType) + rest) == Some(Tag(id, wireType, TagSize(id)))
    ensures |TagBytes(id, wireType)| == TagSize(id)
  {
    hide Number, Encode, FirstEnd;
    var n := 8 * id + wireType;
    var e := Encode(n);
    EncodeShape(n);
    EncodeLength(n);
    FirstByte(n);
    ScanStopsAt(e, rest, 5);
    assert (e + rest)[..|e|] == e;
  }

  lemma FirstByte(n: nat)
    ensures Encode(n)[0] % 8 == n % 8
    ensures n >= 8 ==> Encode(n)[0] >= 8
  {
  }

  /** A payload found is found whatever follows it. */
  lemma PayloadIsStable(wireType: nat, s: seq<byte>, rest: seq<byte>)
    requires ScanPayload(wireType, s).Some?
    ensures ScanPayload(wireType, s + rest) == ScanPayload(wireType, s)
  {
    hide Number, FirstEnd;
    if wireType == WIRE_VARINT {
      ScanIsStable(s, rest, MAX_VARINT);
    } else if wireType == WIRE_LENGTH_PREFIXED {
      ScanIsStable(s, rest, 5);
      var n := FirstEnd(s, 5);
      assert (s + rest)[..n] == s[..n];
    }
  }

  /** What was found stays found when the bytes after it are cut off. */
  lemma PayloadIsExact(wireType: nat, s: seq<byte>)
    requires ScanPayload(wireType, s).Some?
    ensures ScanPayload(wireType, s[..ScanPayload(wireType, s).value.len]) == ScanPayload(wireType, s)
  {
    hide Number, FirstEnd;
    var e := ScanPayload(wireType, s).value;
    var t := s[..e.len];
    if wireType == WIRE_VARINT {
      ScanStopsAt(t, [], MAX_VARINT);
      assert t + [] == t;
    } else if wireType == WIRE_LENGTH_PREFIXED {
      var n := e.prefix;
      ScanStopsAt(t[..n], t[n..], 5);
      assert t[..n] + t[n..] == t && t[..n] == s[..n];
    }
  }

  /** A record written is scanned back, and the scan stops at its end whatever follows. */
  lemma RecordRoundTrip(r: Record, rest: seq<byte>)
    requires Scannable(r)
    ensures r.wireType < 8
    ensures ScanOne(RecordBytes(r) + rest) == Some((r, |RecordBytes(r)|))
  {
    hide TagBytes, ParseTag, ScanPayload;
    var t := TagBytes(r.tag, r.wireType);
    TagRoundTrip(r.tag, r.wireType, r.data + rest);
    var s := RecordBytes(r) + rest;
    assert s == t + (r.data + rest);
    assert s[|t|..] == r.data + rest;
    PayloadIsStable(r.wireType, r.data, rest);
    assert (r.data + rest)[..|r.data|] == r.data;
  }

  /** Scanning the bytes of records gives those records back. */
  lemma {:induction false} ScanSerialized(rs: seq<Record>)
    requires AllScannable(rs)
    ensures Tagged(rs) && Scan(Serialize(rs)) == Some(rs)
  {
    hide RecordBytes, ScanOne, ScanPayload;
    assert forall r <- rs :: Scannable(r) ==> r.wireType < 8;
    if rs == [] {
    } else {
      ScanSerialized(rs[1..]);
      RecordRoundTrip(rs[0], Serialize(rs[1..]));
      var s := Serialize(rs);
      assert s[|RecordBytes(rs[0])|..] == Serialize(rs[1..]);
      assert [rs[0]] + rs[1..] == rs;
    }
  }

  lemma SerializeNone()
    ensures Serialize([]) == []
  {
  }

  lemma SerializeOne(r: Record)
    requires r.wireType < 8
    ensures Serialize([r]) == RecordBytes(r) == TagBytes(r.tag, r.wireType) + r.data
  {
    hide TagBytes;
    assert [r][1..] == [];
    assert RecordBytes(r) + [] == RecordBytes(r);
  }

  lemma {:induction false} SerializeAppend(a: seq<Record>, b: seq<Record>)
    requires Tagged(a) && Tagged(b)
    ensures Tagged(a + b) && Serialize(a + b) == Serialize(a) + Serialize(b)
  {
    hide RecordBytes;
    if a == [] {
      assert a + b == b;
    } else {
      assert (a + b)[1..] == a[1..] + b && (a + b)[0] == a[0];
      SerializeAppend(a[1..], b);
    }
  }

  /** Every record a scan yields is one that a scan would find again, whatever the input was. */
  lemma {:induction false} ScannedAreExact(s: seq<byte>)
    requires Scan(s).Some?
    ensures forall r <- Scan(s).value :: Exact(r) && r.wireType < 8
  {
    if s == [] {
    } else {
      var (head, used) := ScanOne(s).value;
      PayloadIsExact(head.wireType, s[ParseTag(s).value.used..]);
      ScannedAreExact(s[used..]);
    }
  }

  /** Scanning two inputs one after the other yields the records of both in order, provided the first
      scans by itself. */
  lemma {:induction false} ScanAppend(x: seq<byte>, y: seq<byte>)
    requires Scan(x).Some?
    ensures Scan(x + y) == Joined(Scan(x), Scan(y))
  {
    hide ScanOne;
    if x == [] {
      ScanNothing(y);
      assert x + y == y;
    } else {
      var (head, used) := ScanOne(x).value;
      ScanAppend(x[used..], y);
      ScanOneIsStable(x, y);
      assert (x + y)[used..] == x[used..] + y;
      JoinedAssociates(Some([head]), Scan(x[used..]), Scan(y));
    }
  }

  lemma ScanNothing(y: seq<byte>)
    ensures Scan(y) == Joined(Scan([]), Scan(y))
  {
    if Scan(y).Some? {
      assert [] + Scan(y).value == Scan(y).value;
    }
  }

  lemma ScanOneIsStable(s: seq<byte>, rest: seq<byte>)
    requires |s| > 0 && ScanOne(s).Some?
    ensures ScanOne(s + rest) == ScanOne(s)
  {
    hide ParseTag, ScanPayload;
    TagIsStable(s, rest);
    var tag := ParseTag(s).value;
    var body := s[tag.used..];
    assert (s + rest)[tag.used..] == body + rest;
    PayloadIsStable(tag.wireType, body, rest);
    var len := ScanPayload(tag.wireType, body).value.len;
    assert (body + rest)[..len] == body[..len];
  }

  lemma TagIsStable(s: seq<byte>, rest: seq<byte>)
    requires |s| > 0 && ParseTag(s).Some?
    ensures ParseTag(s + rest) == ParseTag(s)
  {
    hide Number, FirstEnd;
    ScanIsStable(s, rest, 5);
    var n := FirstEnd(s, 5);
    assert (s + rest)[..n] == s[..n];
  }

  /** The accepted records tile the input: tag bytes, payload, tag bytes, payload, to the last byte. */
  lemma {:induction false} ScanTiles(s: seq<byte>) returns (tags: seq<seq<byte>>)
    requires Scan(s).Some?
    ensures |tags| == |Scan(s).value| && Tiles(tags, Scan(s).value) == s
    ensures forall i :: 0 <= i < |tags| ==> TagOf(tags[i], Scan(s).value[i])
  {
    hide ScanOne, TagOf;
    if s == [] {
      tags := [];
    } else {
      var (head, used) := ScanOne(s).value;
      var tag := TileHead(s);
      var more := ScanTiles(s[used..]);
      tags := [tag] + more;
      assert tags[1..] == more && Scan(s).value[1..] == Scan(s[used..]).value;
      assert s == s[..used] + s[used..];
    }
  }

  /** The bytes of `tag` are a whole tag, and it is the one of `r`. */
  predicate TagOf(tag: seq<byte>, r: Record) {
    tag != [] && ParseTag(tag) == Some(Tag(r.tag, r.wireType, |tag|))
  }

  lemma TileHead(s: seq<byte>) returns (tag: seq<byte>)
    requires s != [] && ScanOne(s).Some?
    ensures var (head, used) := ScanOne(s).value; TagOf(tag, head) && s[..used] == tag + head.data
  {
    hide Number, ScanPayload;
    var n := ParseTag(s).value.used;
    tag := s[..n];
    ScanStopsAt(tag, [], 5);
    assert tag + [] == tag && tag[..n] == tag;
  }

  function Tiles(tags: seq<seq<byte>>, rs: seq<Record>): seq<byte>
    requires |tags| == |rs|
  {
    if rs == [] then [] else tags[0] + rs[0].data + Tiles(tags[1..], rs[1..])
  }

  lemma ShortPrefix(n: nat, rest: seq<byte>)
    requires n <= INT_MAX
    ensures FirstEnd(Encode(n) + rest, 5) == |Encode(n)| && Number(Encode(n)) == n
  {
    EncodeShape(n);
    EncodeLength(n);
    ScanStopsAt(Encode(n), rest, 5);
  }

  /** A delimited payload of at most INT_MAX bytes is exact, and its prefix is the rest. */
  lemma DelimitedIsExact(s: seq<byte>)
    requires |s| <= INT_MAX
    ensures ScanPayload(WIRE_LENGTH_PREFIXED, Delimited(s)) == Some(Extent(|Delimited(s)|, |Encode(|s|)|))
    ensures Delimited(s)[|Encode(|s|)|..] == s
  {
    var e := Encode(|s|);
    ShortPrefix(|s|, s);
    assert |s| % TWO_32 == |s|;
    assert (e + s)[..|e|] == e;
  }
}
