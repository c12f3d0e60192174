/** `protobuf_c_message_unpack` on values: scan, check, then store record after record; and the merge it
    applies to repeated occurrences of a sub-message. */
module Decoder {
  import opened Options
  import opened Varint
  import opened Wire
  import opened Schema
  import opened Scalars

  /** What the slabs hold together: 16, 32, ... up to the largest of 23. */
  const SLAB_CAPACITY := 0x10 * 0x7f_ffff

  // ----- the merge of an earlier message into a latter one -----

  /** Whether the union that `f` belongs to has a member set. */
  predicate Chosen(fields: seq<Field>, slots: seq<Slot>, f: Field) {
    exists j :: 0 <= j < |fields| && j < |slots| && Siblings(fields[j], f) && slots[j].Present?
  }

  /** A byte string without data: its pointer is NULL whether or not the field is set. */
  predicate NoData(slot: Slot) {
    slot.Absent? || slot == Present(Blob([]))
  }

  /** `merge_messages` at a field outside any union. Required fields are passed over. */
  function MergeField(S: Schema, f: Field, earlier: Slot, latter: Slot): Option<Slot>
    decreases earlier, 0
  {
    if f.kind == Repeated then
      Some(if earlier.Many? && latter.Many? then Many(earlier.vs + latter.vs) else latter)
    else if f.kind == Required then Some(latter)
    else if f.typ == Bytes then Some(if !NoData(earlier) && NoData(latter) then earlier else latter)
    else if f.typ == Nested && HoldsMessage(earlier) && HoldsMessage(latter) then
      match Merge(S, f.sub, earlier.v.m, latter.v.m)
      case None => None
      case Some(m) => Some(Present(Sub(m)))
    else Some(if latter.Absent? then earlier else latter)
  }

  predicate HoldsMessage(slot: Slot) {
    slot.Present? && slot.v.Sub?
  }

  /** `merge_messages` at field `i`. A union that is set in neither message makes the range lookup fail,
      and with it the merge. */
  function MergeSlot(S: Schema, t: nat, a: Message, b: Message, i: nat): Option<Slot>
    requires t < |S| && i < |S[t].fields| == |a.slots| == |b.slots|
    decreases a, 0
  {
    var f := S[t].fields[i];
    if !InOneof(f) then MergeField(S, f, a.slots[i], b.slots[i])
    else if Chosen(S[t].fields, b.slots, f) then Some(b.slots[i])
    else if !Chosen(S[t].fields, a.slots, f) then None
    else Some(if NoData(a.slots[i]) then b.slots[i] else a.slots[i])
  }

  function MergeSlots(S: Schema, t: nat, a: Message, b: Message, i: nat): (r: Option<seq<Slot>>)
    requires t < |S| && i <= |S[t].fields| == |a.slots| == |b.slots|
    ensures r.Some? ==> |r.value| == |S[t].fields| - i
    decreases a, 1, |S[t].fields| - i
  {
    if i == |S[t].fields| then Some([])
    else
      match (MergeSlot(S, t, a, b, i), MergeSlots(S, t, a, b, i + 1))
      case (Some(slot), Some(rest)) => Some([slot] + rest)
      case _ => None
  }

  /** The latter message's unknown fields are kept, the earlier one's are not carried over. */
  function Merge(S: Schema, t: nat, a: Message, b: Message): Option<Message>
    decreases a, 2
  {
    if t >= |S| || |a.slots| != |S[t].fields| || |b.slots| != |S[t].fields| then None
    else
      match MergeSlots(S, t, a, b, 0)
      case None => None
      case Some(slots) => Some(Message(slots, b.unknown))
  }

  // ----- decoding -----

  /** `message_init_generic` with no default values: zeroed memory. A required member counts as missing
      until a record is stored in it, since a message without one is never returned. */
  function InitSlot(f: Field): Slot {
    if f.kind == Repeated then Many([])
    else if f.kind != Unlabeled || InOneof(f) || f.typ == String || f.typ == Nested then Absent
    else Present(Zero(f.typ))
  }

  function Init(d: Descriptor): Message {
    Message(seq(|d.fields|, i requires 0 <= i < |d.fields| => InitSlot(d.fields[i])), [])
  }

  lemma InitLength(d: Descriptor)
    ensures |Init(d).slots| == |d.fields|
  {
  }

  /** Whether a record of a repeated field is a packed run. */
  predicate TakenAsPacked(f: Field, r: Record) {
    r.wireType == WIRE_LENGTH_PREFIXED && (f.packed || Packable(f.typ))
  }

  function Body(r: Record): seq<byte>
    requires Exact(r)
  {
    r.data[PrefixLength(r)..]
  }

  /** The counting pass accepts the record. */
  predicate Countable(d: Descriptor, r: Record)
    requires Exact(r)
  {
    var i := Lookup(d.fields, r.tag);
    i.Some? && d.fields[i.value].kind == Repeated && TakenAsPacked(d.fields[i.value], r) ==>
      CountPacked(d.fields[i.value].typ, Body(r)).Some?
  }

  predicate Seen(f: Field, rs: seq<Record>) {
    exists r <- rs :: r.tag == f.id
  }

  predicate AllRequiredSeen(d: Descriptor, rs: seq<Record>) {
    forall i :: 0 <= i < |d.fields| && d.fields[i].kind == Required ==> Seen(d.fields[i], rs)
  }

  ghost predicate AllExact(rs: seq<Record>) {
    forall r <- rs :: Exact(r)
  }

  /** What the scan loop and the allocation pass demand of the records before any is stored. */
  predicate Admissible(d: Descriptor, rs: seq<Record>)
    requires AllExact(rs)
  {
    |rs| <= SLAB_CAPACITY && (forall r <- rs :: Countable(d, r)) && AllRequiredSeen(d, rs)
  }

  /** `parse_required_member`: the value of a record, merged into the sub-message already there. */
  function ParseValue(S: Schema, f: Field, r: Record, there: Slot): Option<Value>
    requires ValidSchema(S) && ValidField(S, f) && Exact(r)
    decreases |r.data| + 1, 0
  {
    if f.typ == Boolean then Some(Flag(ParseBool(r.data)))
    else if r.wireType != WireType(f.typ) then None
    else if f.typ == String then Some(Text(Body(r)))
    else if f.typ == Bytes then Some(Blob(Body(r)))
    else if f.typ == Nested then
      match Decode(S, f.sub, Body(r))
      case None => None
      case Some(m) => MergeInto(S, f, there, m)
    else Some(DecodeScalar(f.typ, r.data))
  }

  function MergeInto(S: Schema, f: Field, there: Slot, m: Message): Option<Value> {
    if HoldsMessage(there) then
      match Merge(S, f.sub, there.v.m, m)
      case None => None
      case Some(merged) => Some(Sub(merged))
    else Some(Sub(m))
  }

  /** A union with no member set. */
  function Cleared(fields: seq<Field>, slots: seq<Slot>, f: Field): (r: seq<Slot>)
    requires |slots| == |fields|
    ensures |r| == |slots|
  {
    seq(|slots|, j requires 0 <= j < |slots| => if Siblings(fields[j], f) then Absent else slots[j])
  }

  /** `parse_member`. */
  function StoreRecord(S: Schema, t: nat, r: Record, m: Message): (res: Option<Message>)
    requires ValidSchema(S) && t < |S| && |m.slots| == |S[t].fields| && Exact(r)
    ensures res.Some? ==> |res.value.slots| == |m.slots|
    decreases |r.data| + 1, 2
  {
    var fields := S[t].fields;
    match Lookup(fields, r.tag)
    case None => Some(m.(unknown := m.unknown + [r]))
    case Some(i) =>
      var f := fields[i];
      if f.kind == Repeated then
        match ParseElements(S, f, r)
        case None => None
        case Some(vs) => Some(m.(slots := m.slots[i := Appended(m.slots[i], vs)]))
      else
        match ParseValue(S, f, r, if InOneof(f) then Absent else m.slots[i])
        case None => None
        case Some(v) =>
          var slots := if InOneof(f) then Cleared(fields, m.slots, f) else m.slots;
          Some(m.(slots := slots[i := Present(v)]))
  }

  function Appended(slot: Slot, vs: seq<Value>): Slot {
    Many(if slot.Many? then slot.vs + vs else vs)
  }

  /** `parse_packed_repeated_member` or `parse_repeated_member`. */
  function ParseElements(S: Schema, f: Field, r: Record): Option<seq<Value>>
    requires ValidSchema(S) && ValidField(S, f) && Exact(r)
    decreases |r.data| + 1, 1
  {
    if TakenAsPacked(f, r) then
      if PackedParses(f.typ, Body(r)) then Some(PackedElements(f.typ, Body(r))) else None
    else
      match ParseValue(S, f, r, Absent)
      case None => None
      case Some(v) => Some([v])
  }

  function StoreAll(S: Schema, t: nat, rs: seq<Record>, m: Message): (res: Option<Message>)
    requires ValidSchema(S) && t < |S| && |m.slots| == |S[t].fields| && AllExact(rs)
    ensures res.Some? ==> |res.value.slots| == |m.slots|
    decreases Weight(rs), 3
  {
    if rs == [] then Some(m)
    else
      match StoreRecord(S, t, rs[0], m)
      case None => None
      case Some(m') => StoreAll(S, t, rs[1..], m')
  }

  /** The message that records make, or failure. */
  function Build(S: Schema, t: nat, rs: seq<Record>): (res: Option<Message>)
    requires ValidSchema(S) && t < |S| && AllExact(rs)
    ensures res.Some? ==> |res.value.slots| == |S[t].fields|
    decreases Weight(rs), 4
  {
    if Admissible(S[t], rs) then StoreAll(S, t, rs, Init(S[t])) else None
  }

  function Decode(S: Schema, t: nat, s: seq<byte>): (res: Option<Message>)
    requires ValidSchema(S) && t < |S|
    ensures res.Some? ==> |res.value.slots| == |S[t].fields|
    decreases |s|, 5
  {
    match Scan(s)
    case None => None
    case Some(rs) =>
      ScannedAreExact(s);
      Build(S, t, rs)
  }
}
