# A verified model of Cebus

Cebus is a message bus in C. Its messages travel in the protocol buffers wire format; peers subscribe to message types with wildcard
binding keys; received messages are handed to handlers on worker queues. This project models the parts of it that are hard to get right
and proves what they are for:

- **The protobuf wire codec**: three encoders (`SizePass`, `Packer` in place with moved prefixes, `BufferPacker` through the doubling
  buffer) that all leave the bytes of one specification (`Encoder`, over `Varint`, `Wire`, `Scalars`); a two-pass decoder (`Readers`,
  `Unpacker`) that computes one specification (`Decoder`); the bytes in numbers (`WireBytes`), exactly what is decoded (`Acceptance`), and
  that packed and unpacked forms are both taken (`PackedForms`); the round trip between the two (`RoundTrip`), and what comes back of
  whatever was decoded (`DecodedShape`, `Reencoding`); merging and concatenation (`Concatenation`, `Regrouping`), and how far they keep the merge rule of
  the wire format (`WireRule`); agreement of the counting and the storing pass (`Counting`); the generated range tables and their search (`IntRanges`).
- **The peer subscription tree**: its nodes as values (`Trie`), what a lookup reaches (`Routing`), whole runs of adds and removes against a
  flat registry of subscriptions (`Subscriptions`), when the peers returned are those that want the message (`TrueAnswers`), in which
  version a peer is returned that has subscribed in several (`LookupOrder`), what goes wrong in further buckets (`Buckets`), and the same tree on heap nodes and
  buckets that are changed in place (`TreeNodes`).
- **The streaming hasher** against SipHash-2-4 (`Hasher`) and published hashes (`HashVectors`), **the calendar arithmetic** against the Gregorian calendar (`Calendar`), **the
  dispatch protocol** as interleaved steps (`Dispatch`) and as the code of each party (`Dispatcher`), and **binding keys** (`BindingKey`).

Code that the repository runs step by step on buffers, structs, nodes and queues is modelled by methods, classes and loops over the same
variables; each is proved against a function, and the properties are lemmas about the functions. Verify with
`dafny verify dfyconfig.toml`.

## Reading guide

- A schema is a list of message descriptors; fields refer to sub-messages by position. Messages are modelled by content. A union's case is
  the member slot that is present.
- Machine words are numbers with explicit bounds and remainders, where the code can reach the bound; only the hasher uses bit vectors.
- NULL, -1 and failure returns are `None`, and every error path of the modelled code is part of the model.
- Peer lists are idealised: insert or update by id, remove by id, and a count that starts at 0. The list of `src/peer.c` leaves its count
  unset and loses entries on removal; this project assumes the intended list.

## Where the code differs from its promises

These are results, each with the exact condition under which the code does what it promises.

- `merge_messages` is not the merge of the wire format (`WireRule.MergeKeepsWireJoin`): at the top and in every sub-message that gets
  merged, it drops the required members and the unknown fields of the earlier message and byte strings that are set but empty, and it
  fails on a union that neither side has set. Decoding merges repeated occurrences of a sub-message in this way, so it keeps the rule of
  the wire format only under the same condition on those (`WireRule.ConcatenationIsWireJoin`, `WireRule.NestedUnknownIsLost`); decoding a
  sub-message twice can fail where decoding it once succeeds (`Concatenation.UnsetUnionTwiceFails`), and the grouping of three occurrences
  can matter (`Regrouping.GroupingMatters`).
- `int_range_lookup` computes the end of the last run as an `int`, which wraps when an enum has the number 2147483647: the values of that
  run are not found (`IntRanges.LookupRightIff`, `IntRanges.IntMaxIsLost`).
- The second pass allocates arrays from counts that are read into `unsigned`. A field that is counted 2^32 times or more gets an array that
  is too small (`Counting.WrappingCountOverflows`); this takes an input of 4 GiB at least (`Counting.CountedBelowInput`).
- A string with a NUL is decoded whole and encoded up to the NUL, and an unknown field of id 0, which the scan takes in a longer form, is
  written in one that it refuses; so not every decoded message comes back from its encoding (`Reencoding.ReencodingIff`).
- A float or double without label that is -0.0 is not written, as if it were 0, and comes back as 0 (`WireBytes.WrittenUnlessZero`,
  `Acceptance.MinusZeroIsLost`); every other zero that is not written comes back, if it is the one that members are initialised with
  (`RoundTrip.MessageRoundTrip`).
- `cb_is_leap_year` takes every fourth year for a leap year (`Calendar.FromYmdIsDayNumber`, `Calendar.AcceptedDates`), and so the last day
  of such a century year and the next day get the same ticks, the only break of the order (`Calendar.OrderIsKeptIff`). The decomposition
  of ticks uses the right rule.
- A lookup tests the parent's own index for wildcards, so a query in which a wildcard comes before a literal fragment misses
  subscriptions (`Subscriptions.AnswersIffWildsLast`).
- A node with a `#` child offers its whole subtree, so a subscription can be offered that does not truly match
  (`Subscriptions.SharpOffersTooMuch`). When that happens to a subscription is exact in `Subscriptions.TrulyIffSharpsAlone`, when it makes a
  lookup return a peer that does not want the message in `TrueAnswers.LookupsAreTrueIff`, and what is returned in
  `Subscriptions.RunAnswers`. The query `#` counts as the empty key and returns every peer.
- Adding searches the last bucket of a node only. When the child for a literal fragment is in an earlier bucket, a second node is made,
  which no lookup comes to (`Subscriptions.AddingAgreesIff`, `Buckets.MissedInSecondBucket`).
- Taking the last child out of a second bucket drops the first bucket as well (`Buckets.SecondBucketTakesFirst`). Taking one out of a full
  bucket moves one slot more than there is, and emptying a later bucket leaves the tail pointer behind; these are not allowed in
  runs either (`Buckets.RemovalAllowedInLastBucket`), and `Subscriptions.PlainRunIsAllowed` says which runs are free of all this.
- A worker ends at the sentinel and leaves the rest of its batch behind, so what was enqueued after a stop and detached with the sentinel
  is lost, and its messages are never continued (`Dispatch.QueueKeepsOrder`, `Dispatch.DroppedNeverContinues`,
  `Dispatch.RestartDropsHandler`).
- A removal along a wildcard that the tree does not have dereferences a null child (`Subscriptions.RemovalAllowedIff`).
- A message with a handler on an unknown queue keeps a counter that never reaches zero (`Dispatch.UnknownQueueNeverContinues`).
- The header calls an empty binding key "`NULL` or `*`"; the code takes NULL and `#`, and so does the model.

## Model

| member | source | states |
|---|---|---|
| RoundTrip.MessageRoundTrip | cebus-protoc-gen/protobuf-c/protobuf-c.c:1478-1529 | For every valid schema and every well-formed message (nested messages, packed and unpacked repeated fields, fields of every label, unions, retained unknown fields), decoding the encoding succeeds and gives back the same message. |
| PackedForms.SameDecode | cebus-protoc-gen/protobuf-c/protobuf-c.c:2926-2940 | Two schemas that differ only in which repeated fields are declared packed decode every input alike: either form is taken for either declaration, at every depth. |
| PackedForms.ReadByOther | cebus-protoc-gen/protobuf-c/protobuf-c.c:3206-3228 | So every well-formed message comes back from its encoding to a reader whose schema has other packed declarations. |
| PackedForms.RunIsTaken | cebus-protoc-gen/protobuf-c/protobuf-c.c:2926-2934 | A run of any scalars in one length-delimited member is counted and read as its elements by every repeated scalar field, packed or not. |
| PackedForms.ElementIsTaken | cebus-protoc-gen/protobuf-c/protobuf-c.c:2935-2939 | A member with one element is read as that element by every repeated scalar field, packed or not. |
| PackedForms.NumbersWritten | cebus-protoc-gen/protobuf-c/protobuf-c.c:1361-1458 | The int32 numbers 1 and 2 in field 4 are written 22 02 01 02 where the field is packed, and 20 01 20 02 where it is not. |
| PackedForms.NumbersRead | cebus-protoc-gen/protobuf-c/protobuf-c.c:3206-3228 | Both byte strings are read as those numbers under both declarations. |
| WireBytes.MessageInOrder | cebus-protoc-gen/protobuf-c/protobuf-c.c:1500-1529 | An encoding is its fields in the order of the descriptor, each by itself, and behind them the unknown fields. |
| WireBytes.ScalarField | cebus-protoc-gen/protobuf-c/protobuf-c.c:1095-1131 | A single scalar field with an id up to 15 is the byte 8 * id plus 0, 1 or 5 by its type, and its payload in numbers: little-endian bytes of 4 or 8, or the varint of the value, 64-bit two's complement or zigzag. |
| WireBytes.DelimitedField | cebus-protoc-gen/protobuf-c/protobuf-c.c:1132-1141 | A string, byte string or sub-message shorter than 128 bytes is the byte 8 * id + 2, its length, and itself. |
| WireBytes.MissingRequired | cebus-protoc-gen/protobuf-c/protobuf-c.c:1000-1058 | A required string or sub-message that is missing is the byte 8 * id + 2 and a zero. |
| WireBytes.UnpackedField | cebus-protoc-gen/protobuf-c/protobuf-c.c:1451-1458 | An unpacked repeated scalar field is its elements in order, the tag before each. |
| WireBytes.PackedField | cebus-protoc-gen/protobuf-c/protobuf-c.c:1373-1450 | A packed one is the byte 8 * id + 2, the length, and the elements in order; nothing at all when it has none. |
| WireBytes.WrittenUnlessZero | cebus-protoc-gen/protobuf-c/protobuf-c.c:534-600 | A single value that is set is not written if and only if its field has no label and the value is 0, -0.0, false, an empty string or an empty byte string. |
| WireBytes.TagIsShort | cebus-protoc-gen/protobuf-c/protobuf-c.c:1074-1138 | Tags of ids up to 15 and up to 2047 as one and two bytes, with the wire types 0, 1, 2 and 5 of the types by name. |
| WireBytes.VarintDigits | cebus-protoc-gen/protobuf-c/protobuf-c.c:783-813 | Byte i of a varint is the digit of weight 128^i, with the top bit set on all but the last. |
| WireBytes.FixedPayload | cebus-protoc-gen/protobuf-c/protobuf-c.c:921-975 | Words and floats of fixed width are their 4 or 8 bytes, lowest first. |
| WireBytes.VarintPayload | cebus-protoc-gen/protobuf-c/protobuf-c.c:1101-1117 | The number that each varint type writes for each value, in arithmetic. |
| WireBytes.GuidBytes | src/bcl.proto:46-49 | A Guid with any two words is 09, the first word, 11, the second word, and those 18 bytes are read back. |
| WireBytes.MessageIdBytes | src/message_id.proto:5-7 | A message id is 0a 12 and the 18 bytes of its Guid, and is read back. |
| WireBytes.FixedFields | cebus-protoc-gen/protobuf-c/protobuf-c.c:1118-1128 | A message of a fixed64 field 1 and a fixed32 field 2, with any values: 09 and eight bytes, 15 and four bytes, and back. |
| Acceptance.AcceptedIff | cebus-protoc-gen/protobuf-c/protobuf-c.c:3030-3304 | For types without sub-messages, exactly which inputs are decoded: those that scan to at most 134217712 members, have every required field, and whose members fit their fields: the wire type of the type, any for bool, and runs of whole words or of whole varints of at most ten bytes for repeated scalars. |
| Acceptance.CutOff | cebus-protoc-gen/protobuf-c/protobuf-c.c:3093-3185 | An input that scans, cut off anywhere, still scans if and only if it is cut between two members. |
| Acceptance.CutOffIsRefused | cebus-protoc-gen/protobuf-c/protobuf-c.c:3093-3185 | So no type decodes an input that ends within a member. |
| Acceptance.TagRefusedIff | cebus-protoc-gen/protobuf-c/protobuf-c.c:2068-2099 | A tag is refused if and only if its first byte is below 8 or it does not end within five bytes. |
| Acceptance.PayloadRefusedIff | cebus-protoc-gen/protobuf-c/protobuf-c.c:3136-3184 | Varints that do not end within ten bytes, incomplete words of 8 or 4 bytes, and wire types other than 0, 1, 2 and 5 are refused, and nothing else of wire types other than 2. |
| Acceptance.LengthRefusedIff | cebus-protoc-gen/protobuf-c/protobuf-c.c:2115-2151 | A length is refused if and only if it does not end within five bytes, is above 2147483647, or is more than the bytes left. |
| Acceptance.RunAcceptedIff | cebus-protoc-gen/protobuf-c/protobuf-c.c:2361-2410 | Any bytes are counted and read as a packed run if and only if they are whole words of the type's width, or end with the last byte of a varint and have no ten continuation bytes in a row. |
| Acceptance.EmptyInput | cebus-protoc-gen/protobuf-c/protobuf-c.c:2948-2990 | The empty input is refused if and only if the type has a required field, and otherwise gives empty lists, absent members, and zeros of the scalars and byte strings without label. |
| Acceptance.BoolFromAnyType | cebus-protoc-gen/protobuf-c/protobuf-c.c:2491-2499 | A bool is read from a member of any wire type, as whether any payload byte has a bit below the top one. |
| Acceptance.MinusZeroIsLost | cebus-protoc-gen/protobuf-c/protobuf-c.c:534-575 | A concrete message with -0.0 in a float without label is encoded as nothing, and comes back with 0. |
| WireRule.MergeKeepsWireJoin | cebus-protoc-gen/protobuf-c/protobuf-c.c:2179-2351 | `merge_messages` gives what the wire format makes of one message followed by another (at every depth: last one set wins, elements appended, sub-messages joined in turn, unions by the later member, unknown fields added up) if and only if at every depth that gets merged: the earlier message has no unknown fields, every union is set in one of the two and not lost as an empty byte string, no empty byte string meets data or nothing, and required members of the earlier message add nothing. |
| WireRule.ConcatenationIsWireJoin | cebus-protoc-gen/protobuf-c/protobuf-c.c:3093-3297 | One byte string after another decodes to what the wire format makes of their two messages if and only if every pair of sub-messages that gets merged keeps that condition. (The slabs must hold the members, and the second string has a sub-message whose type may have unions once at most.) |
| WireRule.EncodingsAreWireJoined | cebus-protoc-gen/protobuf-c/protobuf-c.c:3093-3297 | The same, under the same condition, for the encodings of any two well-formed messages of any type with proto2 labels. |
| WireRule.NestedUnknownIsLost | cebus-protoc-gen/protobuf-c/protobuf-c.c:2601-2630 | The bytes 0a 02 28 01 and then 0a 00: the unknown field of the first sub-message is kept by the wire format and lost by the code, both in merging and in decoding. |
| Concatenation.Concatenation | cebus-protoc-gen/protobuf-c/protobuf-c.c:3093-3297 | If two byte strings each decode, one followed by the other decodes to their join, in which repeated fields are appended, other fields and unions are taken from the latter where it has them, unknown fields of the message itself add up, and sub-messages are merged as `merge_messages` does it, with what that loses; unless together they hold more members than the slabs or two sub-messages do not merge, and then it is refused. The second string has a sub-message whose type may have unions once at most, as every encoder writes it, and others as often as it likes. |
| Concatenation.ConcatenationOfEncodings | cebus-protoc-gen/protobuf-c/protobuf-c.c:3093-3297 | For any two well-formed messages of any type with proto2 labels, the encodings one after the other decode to that join, or are refused exactly when they are too many members or two of their sub-messages do not merge. |
| Concatenation.ConcatenationWithoutUnions | cebus-protoc-gen/protobuf-c/protobuf-c.c:3093-3297 | Where no type that gets merged has a union, any two byte strings that decode join in that way, however often they repeat their sub-messages. |
| Concatenation.JoinsUnlessStuck | cebus-protoc-gen/protobuf-c/protobuf-c.c:2240-2262 | Two messages join if and only if no two of their merged sub-messages are stuck on a union set in neither. |
| Concatenation.MergeKeepsJoin | cebus-protoc-gen/protobuf-c/protobuf-c.c:2179-2351 | At the top level: on any two messages that join, `merge_messages` agrees with the decoder's joining if and only if every union is set in one of the two and not lost as an empty byte string, no empty byte string meets data or nothing, required sub-messages of the earlier message add nothing, and the earlier message has no unknown fields of its own. |
| Concatenation.ConcatenationIsMerge | cebus-protoc-gen/protobuf-c/protobuf-c.c:2601-2630 | Decoding the concatenation is merging the two decoded messages exactly under the condition of `MergeKeepsJoin`, or when both fail. |
| Concatenation.MergeIsAssociative | cebus-protoc-gen/protobuf-c/protobuf-c.c:2179-2351 | On types without unions, merging any three messages in either grouping gives the same message, required, unknown and empty-string members included. |
| Concatenation.MergeIsTotal | cebus-protoc-gen/protobuf-c/protobuf-c.c:2240-2318 | On types without unions a merge always succeeds, keeps the shape of the type, and treats every field independently of the others. |
| Concatenation.MergeFailsWhenStuck | cebus-protoc-gen/protobuf-c/protobuf-c.c:2240-2262 | A merge fails if and only if a union is set in neither message, here or in a pair of optional sub-messages that are merged. |
| Concatenation.MergeIsLatter | cebus-protoc-gen/protobuf-c/protobuf-c.c:2263-2318 | The merge of any two messages is just the latter if and only if the earlier one adds nothing: no elements, no members that the latter lacks, no union that the latter leaves unset. |
| Concatenation.FurtherOccurrence | cebus-protoc-gen/protobuf-c/protobuf-c.c:2601-2630 | A further occurrence of a sub-message that decodes by itself is refused exactly when the merge with the one already there fails. |
| Concatenation.UnsetUnionTwiceFails | cebus-protoc-gen/protobuf-c/protobuf-c.c:2250-2261 | A concrete encoding decodes, but the same bytes twice are refused, because of a sub-message with an unset union. |
| Regrouping.AnyConcatenation | cebus-protoc-gen/protobuf-c/protobuf-c.c:3093-3297 | For any two byte strings that decode, however often they repeat sub-messages with unions: one after the other decodes if and only if the slabs hold the members and, for each field that gets merged, its occurrences in the second string merge one by one into what the first left; and then that field is the result, and every other field is joined. |
| Regrouping.JoinedIffGroupingAgrees | cebus-protoc-gen/protobuf-c/protobuf-c.c:2601-2630 | So the result is the join of the two messages if and only if, field by field, merging the occurrences one by one into the first message is merging what they make by themselves. |
| Regrouping.GroupingMatters | cebus-protoc-gen/protobuf-c/protobuf-c.c:2250-2261 | Concrete strings that decode and whose messages join, but that are refused one after the other, because the first two of three occurrences do not merge. |
| DecodedShape.DecodeIsShaped | cebus-protoc-gen/protobuf-c/protobuf-c.c:3030-3304 | Whatever the bytes, a decoded message has the shape of its type down through all sub-messages and elements: one that the encoders accept, with at most one member of each union and every required member set. |
| Reencoding.ReencodingIff | cebus-protoc-gen/protobuf-c/protobuf-c.c:1478-1529 | A message decoded from any bytes, whose encoding is below 4 GiB, decodes from that encoding to itself again if and only if it is well formed: no NUL in a string, no zero without label that is not the initial one, no unknown field of id 0, nothing written longer than INT_MAX, no more members than the slabs hold. |
| Reencoding.NulIsLost | cebus-protoc-gen/protobuf-c/protobuf-c.c:1000-1014 | A concrete string of one NUL is decoded, encoded as the empty string, and comes back different. |
| Counting.StoredIsCounted | cebus-protoc-gen/protobuf-c/protobuf-c.c:3206-3228 | Over all packed and unpacked occurrences, the elements stored into a repeated field are never more than those counted, and equally many unless the type is bool. |
| Counting.DecodedIsCounted | cebus-protoc-gen/protobuf-c/protobuf-c.c:2746-2876 | In every decoded message each repeated field holds exactly as many elements as the first pass counted for it, fewer only if it is of type bool. |
| Counting.NextRecordFits | cebus-protoc-gen/protobuf-c/protobuf-c.c:2712-2730 | At every point of the second pass, what the next member writes stays within the count of its field, and within the array allocated for it when that count is below 2^32, whether or not the member parses. |
| Counting.CountedBelowInput | cebus-protoc-gen/protobuf-c/protobuf-c.c:3206-3228 | No field is counted more elements than the input has bytes, so every input below 4 GiB keeps the 32-bit array sizes exact. |
| Counting.StoredFitIff | cebus-protoc-gen/protobuf-c/protobuf-c.c:3243-3255 | What is stored fits the allocated array if the count is below 2^32, and except for bools, of which fewer may be stored, only then. |
| Counting.WrappingCountOverflows | cebus-protoc-gen/protobuf-c/protobuf-c.c:3243-3255 | Three members with 2^32 bools together scan, count and store, but their array is allocated for 0 elements. |
| Unpacker.Unpack | cebus-protoc-gen/protobuf-c/protobuf-c.c:3030-3304 | The two-pass decoder (scan into growing slabs, count, allocate, replay the members into a struct changed in place) computes the specification `Decode` on every input whose counts stay below 2^32, and that is every input below 4 GiB. What `Decode` takes is exact in `Acceptance`, and that packed and unpacked forms are both taken in `PackedForms`. |
| Unpacker.ScanMembers | cebus-protoc-gen/protobuf-c/protobuf-c.c:3093-3232 | The scan loop ends; it accepts exactly the inputs that are whole members within the slabs with countable packed runs, keeps the members in order, and fails only where decoding fails. |
| Unpacker.ScanMember | cebus-protoc-gen/protobuf-c/protobuf-c.c:3096-3185 | One turn of the scan: the cached last field and the range search always pick the field the descriptor has for the tag, and the payload taken is the one the wire type announces. |
| Unpacker.FieldIndex | cebus-protoc-gen/protobuf-c/protobuf-c.c:3111-3114 | The bisection over the generated ranges finds the field of any 32-bit tag, also tags that are negative as an `int`. |
| Unpacker.PushMember | cebus-protoc-gen/protobuf-c/protobuf-c.c:3187-3204 | A scanned member is appended to the slabs in order; it is refused only when all slabs are full. |
| Unpacker.CheckRequired | cebus-protoc-gen/protobuf-c/protobuf-c.c:3262-3271 | The check passes if and only if every required field occurred. |
| Unpacker.ParseMember | cebus-protoc-gen/protobuf-c/protobuf-c.c:2887-2945 | Replaying a member changes the struct exactly as storing its record changes the message, and fails exactly when that does; room in the arrays is kept. |
| Unpacker.ParseRequiredMember | cebus-protoc-gen/protobuf-c/protobuf-c.c:2501-2633 | The value read from a member is the one the specification reads, sub-messages merged with the one already there. |
| Unpacker.ParseOneofMember | cebus-protoc-gen/protobuf-c/protobuf-c.c:2635-2695 | The union's member that was set before is cleared and the new one set, or the member is refused. |
| Unpacker.ParseElementsMember | cebus-protoc-gen/protobuf-c/protobuf-c.c:2712-2876 | Elements of a packed or single occurrence go behind the elements in use and nothing else changes. |
| Unpacker.MergeMessages | cebus-protoc-gen/protobuf-c/protobuf-c.c:2179-2351 | The in-place merge loop computes the specification `Merge` on every pair of messages, failing included. |
| Unpacker.OneofCase | cebus-protoc-gen/protobuf-c/protobuf-c.c:2243-2262 | The case of a union is 0 if and only if no member is set; otherwise it is the id of the member that is. |
| Unpacker.Allocate | cebus-protoc-gen/protobuf-c/protobuf-c.c:3235-3272 | The fresh struct has zeroed members and, for each repeated field, an array of the counted size modulo 2^32. |
| Readers.ParseTagAndWireType | cebus-protoc-gen/protobuf-c/protobuf-c.c:2068-2100 | The tag loop gives the id, wire type and length of the tag, or 0 exactly where there is none. |
| Readers.ScanLengthPrefixedData | cebus-protoc-gen/protobuf-c/protobuf-c.c:2115-2151 | The length prefix is accepted exactly when it ends, is at most INT_MAX, and its payload is all there. |
| Readers.CountPackedElements | cebus-protoc-gen/protobuf-c/protobuf-c.c:2361-2403 | The count of a packed run, for every type and any bytes. |
| Readers.ParsePackedRepeatedMember | cebus-protoc-gen/protobuf-c/protobuf-c.c:2746-2876 | Elements are appended in the array in order until the run ends or a varint is cut off, and the verdict is the specification's. |
| Wire.RecordRoundTrip | cebus-protoc-gen/protobuf-c/protobuf-c.c:3138-3185 | A written member is scanned back as itself, and the scan stops at its end whatever bytes follow. |
| Wire.ScanSerialized | cebus-protoc-gen/protobuf-c/protobuf-c.c:3093-3232 | Scanning the bytes of any list of members gives the list back. |
| Wire.ScanTiles | cebus-protoc-gen/protobuf-c/protobuf-c.c:3130-3231 | For every input that scans, the accepted members tile it: tag, payload, tag, payload, in order and to the last byte. |
| Wire.ScanAppend | cebus-protoc-gen/protobuf-c/protobuf-c.c:3093-3232 | After an input that scans by itself, the members of what follows are found as if it stood alone. |
| Wire.ScannedAreExact | cebus-protoc-gen/protobuf-c/protobuf-c.c:3138-3185 | Every member a scan yields, from any input, is one that would be found again by itself. |
| Wire.TagRoundTrip | cebus-protoc-gen/protobuf-c/protobuf-c.c:2068-2100 | A tag of any id from 1 to 2^32-1 with any wire type reads back whatever follows, in the length computed for it. |
| Varint.VarintRoundTrip | cebus-protoc-gen/protobuf-c/protobuf-c.c:865-897 | For all 64-bit values, and all 32-bit ones by the 32-bit reader, the varint written reads back, and a scan stops exactly at its end whatever follows. |
| Varint.SizesAreLengths | cebus-protoc-gen/protobuf-c/protobuf-c.c:269-381 | The size functions give the length of the varint for every 32- and 64-bit value. |
| Varint.Int32RoundTrip | cebus-protoc-gen/protobuf-c/protobuf-c.c:820-838 | Every signed 32-bit value, sign-extended to ten bytes when negative, reads back and has the computed size. |
| Varint.ZigzagRoundTrip32 | cebus-protoc-gen/protobuf-c/protobuf-c.c:321-329 | 32-bit zigzag is a bijection that interleaves negative and non-negative numbers by magnitude. |
| Varint.ZigzagRoundTrip64 | cebus-protoc-gen/protobuf-c/protobuf-c.c:385-392 | The same for 64 bits. |
| Varint.ParseUInt32IsValue | cebus-protoc-gen/protobuf-c/protobuf-c.c:2405-2422 | The unrolled 32-bit reader keeps exactly the low 32 bits of the number, for any run of bytes. |
| Varint.ParseUInt64 | cebus-protoc-gen/protobuf-c/protobuf-c.c:2451-2469 | The 64-bit reader loop computes the low 64 bits of the number, for any run of up to ten bytes, which is all that the scan passes on. |
| Scalars.ScalarRoundTrip | cebus-protoc-gen/protobuf-c/protobuf-c.c:1095-1151 | Every value of every scalar type reads back from what is written, in the size computed for it. |
| Scalars.PackedRoundTrip | cebus-protoc-gen/protobuf-c/protobuf-c.c:1818-1905 | A packed run reads back as the list written, and its count is the length of the list. |
| Scalars.StoresAtMostCount | cebus-protoc-gen/protobuf-c/protobuf-c.c:2361-2403 | For any bytes, a packed run yields no more elements than were counted, and equally many when it parses and is not of bools. |
| Scalars.PayloadBounds | cebus-protoc-gen/protobuf-c/protobuf-c.c:1381-1382 | A packed payload is between the size guessed from the smallest elements and ten times that. |
| Scalars.PrefixGuess | cebus-protoc-gen/protobuf-c/protobuf-c.c:1442-1449 | So its length prefix is at most one byte longer than the guess. |
| SizePass.MessageSize | cebus-protoc-gen/protobuf-c/protobuf-c.c:715-761 | The size pass gives the length of the encoding, for every message of every schema, unlabelled fields included, with fewer than 2^32 elements in each repeated field. |
| SizePass.RepeatedFieldSize | cebus-protoc-gen/protobuf-c/protobuf-c.c:617-694 | The size of a repeated field, packed or not, of fewer than 2^32 elements. |
| Packer.MessagePack | cebus-protoc-gen/protobuf-c/protobuf-c.c:1478-1529 | The in-place encoder leaves exactly the encoding in the buffer, touches nothing around it, and returns its length; `WireBytes` says what the encoding is in numbers. |
| Packer.PrefixedMessagePack | cebus-protoc-gen/protobuf-c/protobuf-c.c:1045-1058 | One byte of room, the sub-message, and a move when the prefix is longer give prefix and payload in place. |
| Packer.PackedFieldPack | cebus-protoc-gen/protobuf-c/protobuf-c.c:1361-1451 | The guessed prefix, the payload and the one-byte move give tag, length and payload in place; the internal assertion never fires. |
| Packer.BackPatch | cebus-protoc-gen/protobuf-c/protobuf-c.c:1442-1451 | A payload written after a gap ends up right behind its prefix, whatever the prefix needs beyond the gap. |
| Packer.UInt64Pack | cebus-protoc-gen/protobuf-c/protobuf-c.c:865-897 | The split 64-bit writer leaves the varint of the value. |
| Packer.Int32Pack | cebus-protoc-gen/protobuf-c/protobuf-c.c:820-838 | The ten-byte writer for negative numbers leaves the varint of the sign-extended value. |
| Packer.UInt32Pack | cebus-protoc-gen/protobuf-c/protobuf-c.c:783-806 | The unrolled 32-bit writer leaves the varint of the value. |
| Packer.TagPack | cebus-protoc-gen/protobuf-c/protobuf-c.c:1074-1081 | The tag writer leaves the varint of the shifted id, also when it takes 35 bits. |
| BufferPacker.MessageAppend | cebus-protoc-gen/protobuf-c/protobuf-c.c:1963-2016 | The append encoder adds to the buffer exactly the bytes the in-place encoder leaves, which `WireBytes` gives in numbers, and returns how many. |
| BufferPacker.PackedPayloadLength | cebus-protoc-gen/protobuf-c/protobuf-c.c:1748-1816 | The payload length announced for a packed field is the length of what is then appended, modulo 2^32. |
| BufferPacker.SimpleBuffer.Append | cebus-protoc-gen/protobuf-c/protobuf-c.c:195-224 | The doubling buffer appends the bytes and loses none, whether or not it grows. |
| IntRanges.WriteIntRanges | cebus-protoc-gen/protoc-c/c_helpers.cc:352-395 | The ranges written for any strictly increasing list cover it run by run, with maximal runs, and the announced number of them is right. |
| IntRanges.IntRangeLookup | cebus-protoc-gen/protobuf-c/protobuf-c.c:2027-2066 | Over ranges written for a list of 32-bit numbers, the bisection returns the position of a value in the list and nothing for values not in it, except that from the start of the last run on it finds nothing when the list ends at INT_MAX. |
| IntRanges.LookupRightIff | cebus-protoc-gen/protobuf-c/protobuf-c.c:2027-2066 | The bisection is right about every 32-bit number if and only if the list does not end at INT_MAX. |
| IntRanges.EnumLookupRightIff | cebus-protoc-gen/protobuf-c/protobuf-c.c:3586-3594 | Looking up a number in the table of an enum, aliases included, is right for every 32-bit number if and only if the enum does not have INT_MAX. |
| IntRanges.IntMaxIsLost | cebus-protoc-gen/protobuf-c/protobuf-c.c:2059-2062 | The table of the single number INT_MAX: the search misses it. |
| IntRanges.FinalIndices | cebus-protoc-gen/protoc-c/c_enum.cc:213-226 | Each entry of the sorted list with duplicates is annotated with the position of its value among the distinct ones. |
| IntRanges.EnumRanges | cebus-protoc-gen/protoc-c/c_enum.cc:242-277 | The ranges built for enum values are those of the list of distinct values. |
| Subscriptions.RunAnswers | src/peer_subscription_tree.c:513-528 | After every allowed run of adds and removes from the empty tree, however many buckets nodes have, a lookup whose wildcards, if any, come last returns each peer id once, and exactly the ids of the registered subscriptions with the empty key, a matching key, or a key below a prefix of the query that some live key extends with `#`. |
| Subscriptions.AnswersIffWildsLast | src/peer_subscription_tree.c:441-460 | A query is answered right after every run if and only if no wildcard of it is followed by a literal fragment; for every other query one subscription suffices for a wrong answer. |
| Subscriptions.RunAgrees | src/peer_subscription_tree.c:497-511 | After every run the tree stores at every key exactly the peers of the flat registry, in the same versions, and keeps its invariant. |
| Subscriptions.PlainRunIsAllowed | src/peer_subscription_tree.c:411-439 | A run is allowed, as far as the registry can tell, when at each step fewer than 32 different literals follow each prefix of the key in the live keys, and removals go along wildcards that subscriptions have. |
| Subscriptions.AddingAgreesIff | src/peer_subscription_tree.c:200-213 | After adding, the tree agrees with the registry if and only if the walk meets no child in an earlier bucket, or the very subscription was there already. |
| Subscriptions.TrueMatchesAreRouted | src/peer_subscription_tree.c:441-460 | No subscription that truly matches a query is ever missed. |
| Subscriptions.TrulyIffSharpsAlone | src/peer_subscription_tree.c:452-453 | Every subscription that a query is routed to truly matches it, for all queries and likewise for those without wildcards, if and only if wherever a live key has its first `#`, every live key that starts alike has `#` there too. |
| Subscriptions.SharpOffersTooMuch | src/peer_subscription_tree.c:452-453 | A subscription to `x.y` is returned for `x.z` as soon as some peer has `x.#`. |
| TrueAnswers.LookupsAreTrueIff | src/peer_subscription_tree.c:513-528 | After any allowed run, lookups without wildcards return only ids of peers that have the empty key or a key that truly matches, if and only if every peer with a key along the prefix before the first `#` of a live key has such a subscription for the queries of every length along that prefix, with a fragment that no key has wherever that key leaves the choice. |
| TrueAnswers.WantedAreReturned | src/peer_subscription_tree.c:513-528 | After any allowed run, a lookup without wildcards returns the id of every peer that has the empty key or a key that truly matches. |
| TrueAnswers.AloneIsTrue | src/peer_subscription_tree.c:452-453 | Where every subscription that is routed truly matches, every peer returned wants the message, for every query without wildcards. |
| TrueAnswers.TrueThoughNotAlone | src/peer_subscription_tree.c:452-453 | One peer with both `x.#` and `x.y`: every lookup is right about it although its subscription `x.y` does not match all that it is routed. |
| Subscriptions.EmptyLookupAnswers | src/peer_subscription_tree.c:520-523 | A lookup with an empty key returns every subscribed peer once. |
| Subscriptions.FreshSubscriptionUndone | src/peer_subscription_tree.c:411-439 | Adding a fresh subscription and removing it, where both are allowed, restores the tree, node by node and in order. |
| Subscriptions.RemovalAllowedIff | src/peer_subscription_tree.c:157-160 | A removal is safe if and only if every wildcard of the key that follows a prefix of some live key is itself part of one, and no child is taken out of a full bucket or as the last of a later bucket. |
| Subscriptions.LiveRemovalIsAllowed | src/peer_subscription_tree.c:505-511 | Removing with a key that some peer is subscribed with is safe if and only if it spares the buckets in that way. |
| Subscriptions.UnknownWildcardRemoval | src/peer_subscription_tree.c:157-160 | Removing the key `*` from the empty tree is not safe. |
| Buckets.MissedInSecondBucket | src/peer_subscription_tree.c:200-213 | Once 32 different literals fill the bucket of the root, another peer's subscription to one of them is stored in a second node for it and never found, though it matches. |
| Buckets.MissedUnderNames | src/peer_subscription_tree.c:200-213 | The same on a concrete run, with the names `a`, `aa` and so on. |
| Buckets.SecondBucketTakesFirst | src/peer_subscription_tree.c:223-244 | With 33 of them, removing the last empties the second bucket and drops the first with it: a registered, matching subscription is lost. |
| Buckets.RemovalAllowedInLastBucket | src/peer_subscription_tree.c:292-300 | After a run that gives the root any number of children, removing one is safe if and only if it is in the last bucket, that bucket is not full, and it is not alone there unless there is no other bucket. |
| Buckets.FullAndLaterBuckets | src/peer_subscription_tree.c:292-300 | Concretely: none of 32 names may be removed, nor the 65th of 65. |
| Routing.LeadsIsRoutes | src/peer_subscription_tree.c:441-460 | On live keys, being reached by the lookup on the tree is being routed by the set of live keys. |
| Trie.AddStores | src/peer_subscription_tree.c:185-221 | Adding inserts or updates the peer at its key and changes nothing at any other key; if the walk meets a child in an earlier bucket, it changes nothing that a lookup comes to. |
| Trie.AddIsHealthy | src/peer_subscription_tree.c:411-439 | Adding keeps the invariant (no dead nodes, distinct sibling literals, fragment index one less than depth) if and only if the walk meets no child in an earlier bucket. |
| Trie.RemoveStores | src/peer_subscription_tree.c:411-439 | Removing, where it spares the buckets, deletes the peer at its key and changes nothing at any other key, though dead nodes are cut off. |
| Trie.RemoveIsHealthy | src/peer_subscription_tree.c:260-308 | Removing keeps the invariant. |
| Trie.LiveStoresSomething | src/peer_subscription_tree.c:330-353 | A node with a positive count stores some peer at some key below it. |
| TreeNodes.UpdateNode | src/peer_subscription_tree.c:411-439 | The in-place recursion on heap nodes with any number of buckets, with child slots filled, cleared and closed up, does to the tree what adding or removing does to its value, and touches no other object; adding also where it makes a second node for a fragment. |
| TreeNodes.GetOrAddChildNode | src/peer_subscription_tree.c:185-221 | The slot returned holds the child for the fragment, found in the last bucket only or made, in a new bucket when the last is full; bucket slots beyond the depth stay NULL. |
| TreeNodes.RemoveNode | src/peer_subscription_tree.c:260-308 | Taking out a child clears its wildcard slot, or closes the last bucket up behind it and drops the bucket when it was the only child. |
| TreeNodes.GetChildNode | src/peer_subscription_tree.c:152-183 | The search tests the given index for wildcards and compares literal children at their own index. |
| TreeNodes.Collect | src/peer_subscription_tree.c:441-460 | The collector gets exactly what the specification of the lookup offers, in its order. |
| TreeNodes.CollectAll | src/peer_subscription_tree.c:57-78 | The collector gets the whole subtree. |
| TreeNodes.NodeCount | src/peer_subscription_tree.c:330-353 | The recursive count over buckets and wildcard children. |
| TreeNodes.PeerSubscriptionTree.AddPeer | src/peer_subscription_tree.c:497-503 | The tree object adds in place and stays in step with the registry. |
| TreeNodes.PeerSubscriptionTree.RemovePeer | src/peer_subscription_tree.c:505-511 | The tree object removes in place and stays in step with the registry. |
| TreeNodes.PeerSubscriptionTree.GetPeers | src/peer_subscription_tree.c:513-528 | The tree object answers from its nodes what the registry says, for every query whose wildcards come last and for the empty one; the list it returns is `Lookup`, whose versions `LookupOrder.RunIsLatest` gives. |
| LookupOrder.RunIsLatest | src/peer_subscription_tree.c:513-528 | After every run and for every query, a peer is returned in the version under the last visited key that it has subscribed to, the empty key being visited first. |
| LookupOrder.VisitedAreRouted | src/peer_subscription_tree.c:441-460 | The keys visited for a query whose wildcards come last are exactly the routed ones. |
| LookupOrder.MostSpecificWins | src/peer_subscription_tree.c:441-460 | In terms of the registry alone: for a query without wildcards, the version under a matching key is returned, whatever the order of subscribing, unless the peer has another routed key that is literal where that one has the first `*` they do not share. |
| LookupOrder.LastOfAllWins | src/peer_subscription_tree.c:57-75 | For the empty key, the version under the subscription that no other of the peer is later than: extensions come later than the key, `*` than `#`, and literal fragments than both. |
| LookupOrder.LiteralOverStar | src/peer_subscription_tree.c:454-459 | A peer that subscribes to `*` under tcp://old and then to `a` under tcp://new is returned for `a` with tcp://new. |
| PeerList.OfferHas | src/peer_subscription_tree.c:46-55 | What was offered to the collector is in it, each id once, and nothing else is. |
| PeerList.OfferLatest | src/peer_subscription_tree.c:46-55 | Of several versions of a peer that are offered, the last one stays in the collector. |
| PeerList.OfferKeeps | src/peer_subscription_tree.c:46-55 | Ids that are not offered keep the entry they had. |
| PeerList.InsertKeepsOrder | src/peer_subscription_tree.c:21-44 | A known id stays in its place in the list, and a new one comes last. |
| PeerList.InsertPeer | src/peer_subscription_tree.c:21-44 | The loop updates the entry of a known id in place and appends an unknown one. |
| Hasher.WritesHashTheWhole | src/hasher.c:105-145 | However a byte string is split into writes, empty ones included, the hash is SipHash-2-4 of the whole under the same key. |
| Hasher.DigestIsSipHash | src/hasher.c:187-199 | Finishing after any bytes gives SipHash-2-4 of them (section 2 of the SipHash paper), also when the length wraps at 2^64; `HashVectors` has published hashes. |
| HashVectors.HashOfFifteen | tests/hasher_test.c:21 | The reference gives the published hash a129ca6149be45e5 of the bytes 0 to 14 under the key 0 to 15 (appendix A of the paper). |
| HashVectors.HashOfNothing | tests/hasher_test.c:6 | And the published hash 726fdb47dd0e0e31 of the empty input. |
| HashVectors.FifteenInWrites | tests/hasher_test.c:85-93 | A hasher gives that hash however the fifteen bytes are split into writes. |
| HashVectors.LittleEndian | src/hasher.c:13-20 | Any eight bytes make the word in which byte i is shifted up by 8 * i bits. |
| Hasher.ChunksMakeNoDifference | src/hasher.c:105-145 | Any sequence of writes leaves the fields that one write of the whole leaves. |
| Hasher.CbHasher.Write | src/hasher.c:105-145 | One write, with its tail handling and its loop bound, does to the fields what pushing the bytes one at a time does. |
| Hasher.CbHasher.AbsorbAll | src/hasher.c:128-140 | The loop that starts at `needed` but is bounded by `length - left` consumes exactly the whole words after the tail. |
| Hasher.U8To64LePart | src/hasher.c:67-89 | The 4-2-1 decomposition gives the little-endian word of up to seven bytes. |
| Hasher.CbHasher.Finish | src/hasher.c:187-199 | The last word, the finalization and the result, on the fields. |
| Hasher.CbHasher.Compress | src/hasher.c:25-51 | The in-place round is one SipRound. |
| Hasher.CbHasher.Reset | src/hasher.c:201-210 | The fields are those of a fresh hasher under the same key. |
| Calendar.Ymd | src/time.c:123-170 | For every 64-bit tick count the result is the valid proleptic Gregorian date whose day, of 24 * 60 * 60 * 10000000 ticks, the count falls on. |
| Calendar.DayNumberIsUnique | src/time.c:123-170 | That date is the only one. |
| Calendar.OnTheDayOfTheEpoch | include/cebus/utils/time_internal.h:53-57 | A tick count has the date 1 January 1970 if and only if it is among the 864000000000 ticks from 621355968000000000 on. |
| Calendar.GetDatePart | src/time.c:68-121 | The part-by-part getter agrees with that date on day, day of year, month and year. |
| Calendar.DaysOfTheYear | src/time.c:95-105 | Days of the year go up by one from 1 on 1 January to 365 or 366 on 31 December. |
| Calendar.FindMonth | src/time.c:109-115 | The month estimate is never late, and the search ends within the year at the month of the day. |
| Calendar.FromYmdIsDayNumber | src/time.c:49-60 | For every valid date in years 1 to 9999 the ticks are the start of its day, one day late exactly from March of century years not divisible by 400. |
| Calendar.EpochTicks | include/cebus/utils/time_internal.h:53-57 | The ticks of 1 January 1970 are 621355968000000000. |
| Calendar.DaysApart | include/cebus/utils/time_internal.h:33-45 | The ticks of a date and of the next are 24 * 60 * 60 * 10000000 apart, twice that into March of a miscounted year, and the same at its end. |
| Calendar.AcceptedDates | src/time.c:192-203 | A date is accepted if and only if it is valid in the calendar in which every fourth year is leap. |
| Calendar.DateRoundTrip | src/time.c:192-203 | A valid date in years 1 to 9999 comes back from its ticks if and only if it is not from March on in such a century year. |
| Calendar.TicksRoundTrip | src/time.c:123-203 | For every tick count, rebuilding from its decomposition gives the start of the day if and only if the year is at most 9999 and the date is not from March on in a century year that 400 does not divide. |
| Calendar.OrderIsKeptIff | src/time.c:192-203 | For any two valid dates in years 1 to 9999, the earlier has fewer ticks if and only if they are not 31 December of a miscounted century year and the following 1 January; it never has more. |
| Calendar.MiscountedYearEndCollides | src/time.c:29-38 | In each such year 31 December gets the ticks of the following 1 January. |
| Dispatch.ContinuationRunsOnce | src/message_dispatch.c:34-42 | In every state of every interleaving of dispatchers and workers, a message's continuation has run at most once; it has run if and only if the message was dispatched, every handler has a queue and every entry was processed; and then every handler has returned. |
| Dispatch.UnknownQueueNeverContinues | src/message_dispatcher.c:124-137 | A message with a handler on an unknown queue is never continued. |
| Dispatch.QueueKeepsOrder | src/dispatch_queue.c:40-100 | In every state of every interleaving, with any starts and stops: what is gone from a queue, the detached batch and the shared list are the enqueue history in order; what was handled is what is gone and was not dropped; what is dropped is a stop sentinel or what its batch had behind it; and nothing is missing if and only if nothing was dropped. |
| Dispatch.QueueIsFifo | src/dispatch_queue.c:40-100 | For a queue that is started once at most, in every state of every interleaving: handled entries, detached batch and shared list are the enqueue history in order; what was handled comes before the first stop sentinel, and is all of that once the worker has stopped. |
| Dispatch.DroppedNeverContinues | src/dispatch_queue.c:56-61 | A message with a handler whose entry was dropped is never continued. |
| Dispatch.RestartDropsHandler | src/dispatch_queue.c:115-132 | A concrete run: a message is dispatched to a stopped queue before its worker has seen the sentinel, and when the queue is started again the entry is dropped. |
| Dispatch.StepKeepsInvariant | src/dispatch_queue.c:54-68 | Every step of every party keeps the invariant: conservation, each handler enqueued once on its queue, a counter that counts the handlers not yet done, at most one worker about to continue a message. |
| Dispatch.DecrementIsSafe | src/message_dispatch.c:36-36 | The atomic decrement never wraps: whoever decrements is still counted. |
| Dispatch.DispatchAlone | src/message_dispatcher.c:147-157 | One dispatcher that is not interrupted takes its steps to the end of the invokers, and each queue gets the entries of its name in order. |
| Dispatcher.DispatchAll | src/message_dispatcher.c:139-158 | The counter is set before anything is enqueued, and each queue gets the invokers of its name in order; without invokers the continuation runs and no queue changes. |
| Dispatcher.RoutedOnce | src/message_dispatcher.c:124-137 | Each invoker is on exactly the first queue of its name, once and in order. |
| Dispatcher.RunBatch | src/dispatch_queue.c:54-68 | The worker's inner loop handles a detached list in order up to a sentinel, and each message's counter is decremented once for each entry. |
| Dispatcher.HandledRunsAtZero | src/message_dispatch.c:34-42 | Of n counted handlers the n-th runs the continuation, and none before. |
| Dispatcher.DispatchQueue.EnqueueEntry | src/dispatch_queue.c:84-100 | The linked list gets the entry at its end. |
| Dispatcher.DispatchQueue.Detach | src/dispatch_queue.c:48-52 | The whole list is taken in one step and the queue is empty. |
| Dispatcher.MessageDispatch.SetHandled | src/message_dispatch.c:34-42 | The counter goes down by one modulo 2^64, and at zero the continuation runs. |
| BindingKey.JoinOfSplit | src/binding_key.c:279-318 | Printing the parts of any string gives that string back. |
| BindingKey.SplitOfJoin | src/binding_key.c:116-149 | Parsing the print of any non-empty list of dot-free parts gives the parts back. |
| BindingKey.SplitAtDot | src/binding_key.c:279-313 | A string is cut at its first dot into the part before it and the parts of the rest; empty parts are kept. |
| BindingKey.SplitExample | src/binding_key.c:279-313 | The parts of a.b are a and b, and the other way around. |
| BindingKey.FromStr | src/binding_key.c:279-318 | The parser gives the parts between the dots; the builder of the counted capacity refuses none. |
| BindingKey.Print | src/binding_key.c:116-149 | The printer fills the buffer whose size it computed exactly, final NUL included. |
| BindingKey.Str | src/binding_key.c:116-149 | The string printed is the joined parts, and `#` for a key without parts. |
| BindingKey.StrSep | src/binding_key.c:298-309 | A part ends at the first dot, and what follows the dot is left. |
| BindingKey.Builder.AddStr | src/binding_key.c:430-439 | A part is appended, or refused exactly when the capacity is used up. |

## Left out

- ZeroMQ sockets and transport, bus wiring, the peer directory, logging, random bytes and clock reads: input, output and foreign calls.
- `src/hash_map.c`: its probe does not wrap and it reads a freed bucket after growth, so a correct map would be a different program.
- Removal in `src/peer.c` and `src/array.c`: replaced by the idealised list and by sequences.
- Allocation failures, freeing, and custom allocators.
- Unpacker.MergeMessages: messages as pointers; default values are NULL and members are compared by content, so sharing of strings
  and sub-messages is not captured. In `merge_messages` the moves between the two structs are modelled as a new message.
- The slabs, counts and required-field bitmap of the decoder are sequences of a local record, not stack memory.
- Big-endian hosts and the byte-order branches of the fixed-width copies.
- Packer.MessagePack: requires an encoding below 4 GiB, beyond which the 32-bit length prefixes wrap.
- BufferPacker.MessageAppend: the same bound.
- RoundTrip.MessageRoundTrip: default values of fields, which the decoder would initialise members with; they are NULL in the model, so an
  empty string without label counts as lost (it comes back as NULL).
- Concatenation.Concatenation: a second string that repeats a sub-message whose type may have unions, on which `Regrouping` says what it
  gives; and types with fields without label (proto3), whose zeros are not told from missing. `RoundTrip`, `Reencoding`, `Acceptance` and
  the encoders cover those.
- Acceptance.AcceptedIff: types with sub-messages, which can also be refused inside one or when two of them do not merge; on that see
  `Concatenation.FurtherOccurrence` and `Regrouping.AnyConcatenation`.
- Floats and doubles are their 32- and 64-bit patterns.
- Services, enum values by name and `protobuf_c_message_check`.
- The rest of the code generators, which print text.
- TreeNodes.RemoveNode: takes no child out of a full bucket, where the code reads past the slots, and empties no bucket but the only one;
  what memory holds after such a removal is not modelled.
- TreeNodes.TreeNode: the list of buckets is a sequence from head to tail; the `next` and `tail` pointers themselves are not modelled.
- Concatenation.MergeIsAssociative: types without unions; with them a grouping can fail where the other does not.
- WireRule.ConcatenationIsWireJoin: strings that repeat such a sub-message, and types with fields without label.
- SizePass.MessageSize: repeated fields of 2^32 elements and more, whose count the loop index of the code, an `unsigned`, never reaches.
- SizePass.RepeatedFieldSize: the same bound.
- TrueAnswers.LookupsAreTrueIff: queries with wildcards, of which `Subscriptions.RunAnswers` says what is returned.
- Reencoding.ReencodingIff: encodings of 4 GiB and more, whose length prefixes wrap.
- Varint.ParseUInt64: runs of more than ten bytes, on which the shift of the code is undefined in C.
- Subscriptions.RunAnswers: keys with parts have at least one part, since the code recurses without end on an empty list of parts.
- Dispatch.QueueKeepsOrder: a queue is started again only when its worker has ended; a start while another thread is still waiting in
  stop would spawn a second worker beside the first. The sentinel is modelled as intended, although the code reads the invoker of the
  sentinel it creates without one.
- Dispatch.ContinuationRunsOnce: safety only; the waits have no predicate, so wake-ups can be lost and no progress is claimed.
- Dispatcher.DispatchAll: one thread alone; the interleavings are the subject of `Dispatch`.
- The hasher's random keys and the typed `write` wrappers, which copy the bytes of a number.
- `cb_date_time_from_ymd_hms`, which does not validate month and year before indexing its tables, and the clock part of a date-time.
- BindingKey.FromStr: the string after `printf` formatting; the formatted builder functions, which cut a part at 31 characters, and
  `from_message`, `copy`, `from_proto` are not modelled.
- Strings contain no NUL, as C strings do not.
