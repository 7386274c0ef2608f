# Match client: wire codec, match state and debugger trace

Three parts of an Unreal Engine multiplayer client, modelled in Dafny and proved against independent
specifications.

**The wire.** The client exchanges Protocol Buffers messages in frames of a 16-bit size, a 16-bit id and a payload.
`Wire` has the record layer: varints, words, length prefixes and groups. `Messages` says once, over a schema, what the
generated code of every message type does: default, merge, canonical bytes, parse. Floats are 32-bit patterns, strings
are bytes with a UTF-8 predicate (sections 3 and 4 of RFC 3629), and int32, uint32 and uint64 wrap as in the runtime.
The theorems about these functions are in `RoundTrip` (parsing canonical bytes is merging), `Merging` (merge is a
monoid), `Order` (field order), `Stability`, `SizeBound` and `Outgrown` (normal forms) and `GroupFree` (the round trip in
a sender's terms). The generated code itself is imperative and so is its model: `VarintParse` has the runtime's wrapping
decoders, `ParseLoop`, `Sizes`, `Writer`, `Fields` and `Repeated` the loops, and `StructLeaves`, `StructNodes`, `RosterEntry`,
`MatchInfos` and `MatchPrepares` the message classes with their fields, owned submessages, cached sizes and methods.
Each method is specified by the functions of `Messages` on the abstract value of its object. `Frames`, `Receiving` and
`Sessions` carry messages through framing, the socket reader, the queue and the dispatch table to the handlers;
`Unicode` has the conversion of strings, `Registration` the largest client request that is checked, and `Chat` one that
is not. `Layout` says which field of which object stands where in the bytes.

**The match.** `MatchModel` is what the client remembers of rooms and matches as a function of the packets it handled,
and the declarative reading of that history. `MatchGame` has the game instance and the actors as classes, one method per
handler. The class invariant says that the fields are that function of the history, that no actor stands for two players
and that every valid actor shows its player's state whenever no match is just being prepared. Spawning, destruction of
actors, the local pawn, the world and the connection are up to the environment. `Run` executes any script of packets and
engine events; the new history is what the script tells of, and the fields and the guard of the mirror are functions of
the script.

**The debugger trace.** `TraceModel` is the list of running blueprints with their node stacks as a value, with what
well-nested runs of script contexts do to it. `DebuggerHelper` is the module itself: nested lists of shared objects,
thinned out in place while they are walked.

Six properties need a condition, which is stated exactly, with an input that fails it:

- The round trip holds if and only if the message is sendable (`RoundTrip.RoundTripExactly`): the serialiser writes
  invalid strings and over-long or over-deep messages that no parser takes back (`GroupFree.InvalidNicknameIsLost`).
- Parsing, serialising and parsing again gives the same message if and only if every nested message of the result fits
  its length prefix (`Stability.NormalFormExactly`): parsing can make a nested message longer than the parser allows
  (`Outgrown.NormalFormLost`).
- A frame is right if and only if the message has at most 65531 bytes (`Frames.MakeSendBuffer`, `Chat.ChatFits`): the
  source does not check, and its 16-bit sizes wrap (`Chat.ChatOverflows`).
- The receive worker delivers the packets of the stream, complete and in order, if and only if every failing call finds
  no header pending or reads none of it (`Receiving.ReceivedExactly`): only such a call uses up no bytes
  (`Receiving.LosesNothing`). A call that finds no payload pending right after a header loses it
  (`Receiving.HeaderLost`).
- After a match packet, before its players are spawned, the actors mirror the states if and only if the packet lists
  every player that has an actor and every valid actor shows the last state listed for it
  (`MatchGame.GameInstance.HandlePrepareMatch`; `MatchGame.MirrorGap`).
- The debugger's lists are empty after a well-nested run if and only if no stop happened outside a script context
  (`TraceModel.LeakFree`, and `TraceModel.FrameLeak` for the frames): the exception callback does not ask whether a
  context is open (`TraceModel.LeftBehind`).

Also, parsing on top of a message is a merge for canonical bytes, and need not be one for other bytes
(`Merging.ExplicitZeroOverwrites`).

`dafny verify dfyconfig.toml` checks the project.

## Model

| member | source | states |
|---|---|---|
| Wire.RawVarintOfEncoded | Source/ProtobufCore/Include/google/protobuf/parse_context.h:537-552 | decoding a canonical varint gives the number back with its length, wherever it stands, and fails exactly when it is longer than allowed |
| Wire.RawVarintLocal | Source/ProtobufCore/Include/google/protobuf/parse_context.h:537-552 | a decoded varint depends on the bytes it spans only |
| Wire.VarintLength | Source/ProtobufCore/Include/google/protobuf/io/coded_stream.h:899-922 | a varint has at most k bytes if and only if the number is below 128^k |
| Wire.VarintBytes | Source/ProtobufCore/Include/google/protobuf/io/coded_stream.h:899-922 | byte i of a canonical varint is the i-th group of seven bits, lowest first, marked unless it is the last |
| Wire.BytesAt | Source/ProtobufCore/Include/google/protobuf/io/coded_stream.h:1674-1686 | words are written low byte first: byte i is digit i to the base 256 |
| Wire.WordAt | Source/ProtobufCore/Include/google/protobuf/parse_context.h:881-925 | and read so: digit i of the word is byte i |
| Wire.WordOfFour | Source/S1/Network/Struct.pb.cc:1099-1106 | a float's 32 bits from its four bytes |
| Wire.ReadItemOfEncoded | Source/ProtobufCore/Include/google/protobuf/parse_context.h:881-925 | reading an encoded record gives that record and its length if it is readable at this depth, and nothing otherwise; groups included |
| Wire.ReadGroupOfEncoded | Source/ProtobufCore/Include/google/protobuf/unknown_field_set.cc:318-321 | the same for the records of a group up to its end tag |
| Wire.ReadItemYields | Source/ProtobufCore/Include/google/protobuf/parse_context.h:881-925 | every record the reader delivers is in range and readable again |
| Wire.ReadItemLocal | Source/ProtobufCore/Include/google/protobuf/parse_context.h:881-925 | a record depends on the bytes it spans only |
| VarintParse.ParseTag | Source/ProtobufCore/Include/google/protobuf/parse_context.h:561-579 | ReadTag with its fallback, subtracting one per byte in wrapping 32-bit arithmetic, computes the plain decoding of at most five bytes modulo 2^32 |
| VarintParse.ParseVarint64 | Source/ProtobufCore/Include/google/protobuf/parse_context.h:537-552 | the 64-bit fast path computes the plain decoding of at most ten bytes modulo 2^64 |
| VarintParse.ParseVarint64Slow | Source/ProtobufCore/Include/google/protobuf/parse_context.cc:326-337 | the same from the third byte on, in 64 bits |
| VarintParse.ParseVarint32 | Source/ProtobufCore/Include/google/protobuf/parse_context.cc:308-324 | the 32-bit decoder, which stops adding after five bytes, still computes the plain decoding modulo 2^32 |
| VarintParse.ParseSize | Source/ProtobufCore/Include/google/protobuf/parse_context.h:705-717 | a length prefix: the plain decoding if it is at most INT_MAX minus 16, else a failure |
| VarintParse.ParseLastSizeByte | Source/ProtobufCore/Include/google/protobuf/parse_context.cc:358-369 | the fifth byte of a length: refused from eight on, and the overflow check after it |
| VarintParse.Beyond32 | Source/ProtobufCore/Include/google/protobuf/parse_context.cc:317-322 | bytes six to ten cannot change the low 32 bits |
| RoundTrip.ParseSerialized | Source/S1/Network/Struct.pb.cc:2289-2355 | parsing the canonical bytes of c on top of any message m, with any bytes behind them, is continuing with MergeFrom(m, c) if c is sendable, and failing if it is not |
| RoundTrip.RoundTripExactly | Source/S1/Network/Struct.pb.cc:1969-2106 | serialise then parse gives exactly the message if and only if it is sendable: valid and short enough strings, short enough nested messages, not too deep |
| RoundTrip.MergeIntoDefault | Source/S1/Network/Struct.pb.cc:1326-1331 | merging into a cleared message gives the source although default fields are skipped |
| RoundTrip.ParseEncoded | Source/S1/Network/Struct.pb.cc:1093-1161 | parsing encoded records is storing them one by one |
| GroupFree.PlainIsSendable | Source/S1/Network/Struct.pb.cc:1446-1536 | valid strings, no groups and a total length within the parser's limit make a message sendable at every level |
| GroupFree.PlainRoundTrip | Source/S1/Network/Struct.pb.cc:1712-1800 | so every such message of a type shallower than the recursion limit comes back exactly |
| GroupFree.MatchInfoRoundTrip | Source/S1/Network/Struct.pb.cc:1967-2106 | the same for every MatchInfo, down to positions and states |
| GroupFree.RoomInfoRoundTrip | Source/S1/Network/Struct.pb.cc:763-903 | the same for every RoomInfo |
| GroupFree.InvalidNicknameIsLost | Source/S1/Network/Struct.pb.cc:1468-1477 | a message with an invalid string is written but cannot be read back: the round trip needs its condition |
| Merging.MergeAssociative | Source/S1/Network/Struct.pb.cc:2160-2183 | MergeFrom is associative on every message type, through submessages, lists and unknown fields |
| Merging.MergeDefaultInto | Source/S1/Network/Struct.pb.cc:1575-1594 | the default message is a right identity of MergeFrom |
| Merging.ExplicitZeroOverwrites | Source/S1/Network/Struct.pb.cc:2294-2299 | for bytes that are not canonical parsing need not be a merge: an explicit zero clears hp |
| Order.ParseIsRun | Source/S1/Network/Struct.pb.cc:1969-2046 | a parse depends on the records of its input only, not on how they are spelt |
| Order.ItemsFail | Source/S1/Network/Struct.pb.cc:1969-2046 | bytes that do not split into records are refused by every message type |
| Order.RunPerField | Source/S1/Network/Struct.pb.cc:1969-2046 | a run of records succeeds if and only if it succeeds field by field, and then every field is what its own records make of it and strangers are kept in order |
| Order.OrderInsensitive | Source/S1/Network/Struct.pb.cc:1969-2046 | inputs with the same records per field and the same unknown records in order parse alike |
| Order.SwapNeighbours | Source/S1/Network/Struct.pb.cc:1969-2046 | swapping two neighbouring records of different fields, at most one of them unknown, changes nothing |
| Order.ParseConcat | Source/S1/Network/Struct.pb.cc:1969-2046 | parsing a concatenation is parsing the second part on top of the first |
| Stability.ParseClean | Source/S1/Network/Struct.pb.cc:763-846 | a parse leaves valid strings, readable unknown fields and allowed depth at every level |
| Stability.NormalFormExactly | Source/S1/Network/Struct.pb.cc:763-903 | normal form: for every byte string the parser accepts, the canonical bytes of the result are parsed to that result again if and only if every nested message in it fits its length prefix, and are refused otherwise |
| Stability.NormalFormStable | Source/S1/Network/Struct.pb.cc:763-903 | in particular parse(serialise(parse(b))) = parse(b) whenever the canonical form is within the parser's length limit as a whole |
| SizeBound.CanonicalItem | Source/ProtobufCore/Include/google/protobuf/parse_context.h:881-925 | the canonical form of a record is never longer than the bytes it was read from |
| SizeBound.ParseGrowth | Source/S1/Network/Struct.pb.cc:763-903 | the canonical form of what was parsed exceeds that of the starting message by at most twice the input length |
| SizeBound.NormalForm | Source/S1/Network/Struct.pb.cc:763-903 | so every accepted input of up to half the length limit meets that condition and has a stable normal form |
| Outgrown.NormalFormLost | Source/S1/Network/Struct.pb.cc:763-903 | an input that fails the condition: accepted bytes of a match state packet whose result serialises within 2 GiB to bytes that are refused |
| ParseLoop.ReadAcrossLimit | Source/ProtobufCore/Include/google/protobuf/parse_context.h:215-229 | reading beyond the limit and checking afterwards finds the same records as reading within it |
| ParseLoop.Turn | Source/S1/Network/Struct.pb.cc:1093-1161 | one turn of a generated loop keeps the invariant that ties it to the parse of the bytes up to the limit |
| ParseLoop.TurnFails | Source/S1/Network/Struct.pb.cc:1153-1157 | a turn that finds no record, or one that crosses the limit, fails exactly when the parse does |
| ParseLoop.TakeTag | Source/S1/Network/Struct.pb.cc:1096-1098 | the tag at the position, or a failed parse |
| ParseLoop.TakeVarint | Source/ProtobufCore/Include/google/protobuf/parse_context.h:722-726 | ReadVarint64 yields the record's value and end, or the parse fails |
| ParseLoop.TakeVarint32 | Source/ProtobufCore/Include/google/protobuf/parse_context.h:728-732 | ReadVarint32 yields that value modulo 2^32 |
| ParseLoop.TakeLength | Source/ProtobufCore/Include/google/protobuf/parse_context.cc:267-277 | a length prefix yields the record's bytes, or the parse fails |
| ParseLoop.TakeFloat | Source/S1/Network/Struct.pb.cc:1099-1106 | a float field is set to its 32 bits |
| ParseLoop.TakeEnum | Source/S1/Network/Struct.pb.cc:1131-1139 | an enum field is set to the low 32 bits, signed |
| ParseLoop.TakeInt32 | Source/S1/Network/Struct.pb.cc:2294-2301 | an int32 field is set to the low 32 bits, signed |
| ParseLoop.TakeUInt32 | Source/S1/Network/Struct.pb.cc:2318-2325 | a uint32 field is set to the low 32 bits |
| ParseLoop.TakeUInt64 | Source/S1/Network/Struct.pb.cc:1452-1459 | a uint64 field is set |
| ParseLoop.TakeBool | Source/S1/Network/Struct.pb.cc:2310-2317 | a bool field is set to whether the 64-bit value is not zero |
| ParseLoop.TakeString | Source/S1/Network/Struct.pb.cc:1468-1477 | a string field is set to its bytes, and the parse fails if they are not valid UTF-8 |
| ParseLoop.SubmessageTurn | Source/ProtobufCore/Include/google/protobuf/parse_context.cc:279-286 | ParseMessage into an existing or new submessage, one level deeper, succeeds exactly when the nested bytes parse |
| ParseLoop.ElementTurn | Source/S1/Network/Struct.pb.cc:2005-2016 | the same for a new element of a repeated field |
| ParseLoop.TakeUnknown | Source/S1/Network/Struct.pb.cc:1146-1157 | any other record is kept; tag zero, end-group tags and number zero fail |
| Repeated.ParseInfos | Source/S1/Network/Struct.pb.cc:2005-2017 | the tight loop over adjacent elements: list and end position are those of reading one tag per element up to the first position that is at the limit or does not hold the tag byte, and the loop invariant of the message parse is kept, also at an over-long tag |
| Repeated.ParseInfo | Source/S1/Network/Struct.pb.cc:2010-2012 | one element: added, then parsed from the announced bytes |
| Repeated.ParseStates | Source/S1/Network/Struct.pb.cc:2018-2030 | the same for the tight loop over player states |
| Repeated.ParseState | Source/S1/Network/Struct.pb.cc:2023-2025 | one player state |
| Repeated.InfosSize | Source/S1/Network/Struct.pb.cc:2116-2121 | the size loop over the roster caches every element's size and adds tags, prefixes and bodies |
| Repeated.StatesSize | Source/S1/Network/Struct.pb.cc:2123-2128 | the size loop over the states |
| Repeated.WriteInfos | Source/S1/Network/Struct.pb.cc:2084-2090 | the write loop over the roster trusts the cached sizes and writes exactly the elements' records |
| Repeated.WriteStates | Source/S1/Network/Struct.pb.cc:2092-2098 | the write loop over the states |
| Repeated.MergeInfos | Source/ProtobufCore/Include/google/protobuf/repeated_ptr_field.h:678-705 | merging lists appends a merged copy of every element and changes no old one |
| Repeated.MergeStates | Source/S1/Network/Struct.pb.cc:2169-2169 | the same for player states |
| Writer.VarintSizeExact | Source/ProtobufCore/Include/google/protobuf/io/coded_stream.h:1728-1758 | the size formula with 9/64 per bit is exact for every 64-bit number |
| Writer.WriteVarint | Source/ProtobufCore/Include/google/protobuf/io/coded_stream.h:899-922 | the varint writer puts the canonical varint at the position and nothing anywhere else |
| Writer.WriteVarintField | Source/S1/Network/Struct.pb.cc:2060-2070 | tag and varint of a field |
| Writer.WriteFixed32Field | Source/S1/Network/Struct.pb.cc:1169-1178 | tag and four bytes of a float |
| Writer.WriteLengthHeader | Source/ProtobufCore/Include/google/protobuf/wire_format_lite.cc:542-551 | tag and cached size in front of a nested message |
| Writer.WriteString | Source/S1/Network/Struct.pb.cc:1521-1528 | tag, length and bytes of a string |
| Writer.WriteUnknown | Source/ProtobufCore/Include/google/protobuf/wire_format.cc:192-228 | unknown fields are written in order and in canonical form |
| Writer.WriteGroup | Source/ProtobufCore/Include/google/protobuf/wire_format.cc:216-224 | a group between its two tags, recursively |
| Sizes.LongSizeExact | Source/S1/Network/Struct.pb.cc:2108-2151 | ByteSizeLong is the length of the written bytes whenever either is below 4 GiB, although length prefixes are counted from the low 32 bits of a length; otherwise both are at least 4 GiB |
| Sizes.FieldSizeExact | Source/ProtobufCore/Include/google/protobuf/wire_format_lite.h:1759-1820 | the same for what one field adds, of every kind |
| Sizes.ElementSizesExact | Source/S1/Network/Struct.pb.cc:2116-2121 | the same for the elements of a repeated field with their tags |
| Sizes.RecsSizeExact | Source/ProtobufCore/Include/google/protobuf/wire_format.cc:266-306 | the same for ComputeUnknownFieldsSize, groups included |
| Sizes.CachedLength | Source/ProtobufCore/Include/google/protobuf/wire_format_lite.cc:542-551 | the cached 32-bit size is the length of every message that can be written |
| Fields.NestedWritten | Source/ProtobufCore/Include/google/protobuf/wire_format_lite.cc:542-551 | header and body of a nested message make up its field when the cached size is its length |
| Fields.ElementWritten | Source/ProtobufCore/Include/google/protobuf/wire_format_lite.cc:542-551 | the same for one more element of a list |
| Layout.PositionRecords | Source/S1/Network/Struct.pb.cc:1163-1222 | a position object is written as the records of x, y, z, yaw and state, with the numbers 1 to 5 and without those that are zero |
| Layout.PlayerStateRecords | Source/S1/Network/Struct.pb.cc:2357-2399 | a player state as those of hp, max_hp, is_alive, kill_count and death_count, with the numbers 1 to 5 |
| Layout.PlayerRecords | Source/S1/Network/Struct.pb.cc:1501-1536 | a player as object_id, the bytes of its position, and nickname, with the numbers 1 to 3 |
| Layout.RosterRecords | Source/S1/Network/Struct.pb.cc:1767-1800 | a roster entry as the bytes of its player, player_type and team |
| Layout.MatchRecords | Source/S1/Network/Struct.pb.cc:2054-2106 | a match as match_id, duration, red and blue score, one record per roster entry and one per state, with the numbers 1 to 6 |
| Layout.PacketRecords | Source/S1/Network/Protocol.pb.cc:4222-4241 | the packet as the bytes of its match |
| Layout.PositionBytes | Source/S1/Network/Struct.pb.cc:1169-1178 | the bytes of a position with x = 1.0: 13, 0, 0, 0x80, 0x3F |
| Layout.PlayerStateBytes | Source/S1/Network/Struct.pb.cc:2357-2399 | the ten bytes of a player state with 80 of 100 hit points, three kills and one death |
| StructLeaves.MoveInfo.Clear | Source/S1/Network/Struct.pb.cc:1081-1091 | leaves the default message |
| StructLeaves.MoveInfo.InternalParse | Source/S1/Network/Struct.pb.cc:1093-1161 | succeeds exactly when the bytes up to the limit parse, and then ends at the limit with that message; what stands behind the limit has no influence |
| StructLeaves.MoveInfo.ByteSizeLong | Source/S1/Network/Struct.pb.cc:1224-1275 | returns the sum of the sizes of its fields and unknown fields, which is the length of the written bytes below 4 GiB, and caches it here and in everything nested; without any bound on the message |
| StructLeaves.MoveInfo.InternalSerialize | Source/S1/Network/Struct.pb.cc:1163-1222 | writes exactly those bytes, nothing before and nothing after, trusting the caches |
| StructLeaves.MoveInfo.MergeFrom | Source/S1/Network/Struct.pb.cc:1284-1324 | makes this message the merge of the two |
| StructLeaves.MoveInfo.CopyFrom | Source/S1/Network/Struct.pb.cc:1326-1331 | makes this message equal to the source |
| StructLeaves.MatchPlayerState.Clear | Source/S1/Network/Struct.pb.cc:2276-2286 | leaves the default message |
| StructLeaves.MatchPlayerState.InternalParse | Source/S1/Network/Struct.pb.cc:2288-2355 | succeeds exactly when the bytes up to the limit parse, and then ends at the limit with that message; negative hp are read from ten bytes |
| StructLeaves.MatchPlayerState.ByteSizeLong | Source/S1/Network/Struct.pb.cc:2401-2435 | returns the sum of the sizes of its fields and unknown fields, which is the length of the written bytes below 4 GiB, and caches it here and in everything nested; without any bound on the message |
| StructLeaves.MatchPlayerState.InternalSerialize | Source/S1/Network/Struct.pb.cc:2357-2399 | writes exactly those bytes, nothing before and nothing after, trusting the caches |
| StructLeaves.MatchPlayerState.MergeFrom | Source/S1/Network/Struct.pb.cc:2444-2468 | makes this message the merge of the two |
| StructLeaves.MatchPlayerState.CopyFrom | Source/S1/Network/Struct.pb.cc:2470-2475 | makes this message equal to the source |
| StructNodes.PlayerInfo.Clear | Source/S1/Network/Struct.pb.cc:1431-1444 | leaves the default message |
| StructNodes.PlayerInfo.InternalParse | Source/S1/Network/Struct.pb.cc:1446-1499 | succeeds exactly when the bytes up to the limit parse, and then ends at the limit with that message; a second move_info merges into the first |
| StructNodes.PlayerInfo.ByteSizeLong | Source/S1/Network/Struct.pb.cc:1538-1566 | returns the sum of the sizes of its fields and unknown fields, which is the length of the written bytes below 4 GiB, and caches it here and in everything nested; without any bound on the message |
| StructNodes.PlayerInfo.InternalSerialize | Source/S1/Network/Struct.pb.cc:1501-1536 | writes exactly those bytes, nothing before and nothing after, trusting the caches |
| StructNodes.PlayerInfo.MergeFrom | Source/S1/Network/Struct.pb.cc:1575-1594 | makes this message the merge of the two |
| StructNodes.PlayerInfo.CopyFrom | Source/S1/Network/Struct.pb.cc:1596-1601 | makes this message equal to the source |
| StructNodes.PlayerInfo.ParseMoveInfo | Source/ProtobufCore/Include/google/protobuf/parse_context.cc:279-286 | the nested position, created on demand and parsed in place |
| RosterEntry.MatchPlayerInfo.Clear | Source/S1/Network/Struct.pb.cc:1696-1710 | leaves the default message |
| RosterEntry.MatchPlayerInfo.InternalParse | Source/S1/Network/Struct.pb.cc:1712-1765 | succeeds exactly when the bytes up to the limit parse, and then ends at the limit with that message; a second player_info merges into the first |
| RosterEntry.MatchPlayerInfo.ByteSizeLong | Source/S1/Network/Struct.pb.cc:1802-1830 | returns the sum of the sizes of its fields and unknown fields, which is the length of the written bytes below 4 GiB, and caches it here and in everything nested; without any bound on the message |
| RosterEntry.MatchPlayerInfo.InternalSerialize | Source/S1/Network/Struct.pb.cc:1767-1800 | writes exactly those bytes, nothing before and nothing after, trusting the caches |
| RosterEntry.MatchPlayerInfo.MergeFrom | Source/S1/Network/Struct.pb.cc:1839-1858 | makes this message the merge of the two |
| RosterEntry.MatchPlayerInfo.CopyFrom | Source/S1/Network/Struct.pb.cc:1860-1865 | makes this message equal to the source |
| RosterEntry.MatchPlayerInfo.ParsePlayerInfo | Source/ProtobufCore/Include/google/protobuf/parse_context.cc:279-286 | the nested player, created on demand and parsed in place |
| MatchInfos.MatchInfo.Clear | Source/S1/Network/Struct.pb.cc:1953-1965 | leaves the default message |
| MatchInfos.MatchInfo.InternalParse | Source/S1/Network/Struct.pb.cc:1967-2052 | succeeds exactly when the bytes up to the limit parse, and then ends at the limit with that message; both tight loops included |
| MatchInfos.MatchInfo.ByteSizeLong | Source/S1/Network/Struct.pb.cc:2108-2151 | returns the sum of the sizes of its fields and unknown fields, which is the length of the written bytes below 4 GiB, and caches it here and in everything nested; without any bound on the message |
| MatchInfos.MatchInfo.InternalSerialize | Source/S1/Network/Struct.pb.cc:2054-2106 | writes exactly those bytes, nothing before and nothing after, trusting the caches |
| MatchInfos.MatchInfo.MergeFrom | Source/S1/Network/Struct.pb.cc:2160-2183 | makes this message the merge of the two |
| MatchInfos.MatchInfo.CopyFrom | Source/S1/Network/Struct.pb.cc:2185-2190 | makes this message equal to the source |
| MatchPrepares.MatchPrepare.Clear | Source/S1/Network/Protocol.pb.cc:4172-4183 | leaves the default packet |
| MatchPrepares.MatchPrepare.InternalParse | Source/S1/Network/Protocol.pb.cc:4185-4220 | succeeds exactly when the bytes up to the limit parse, and then ends at the limit with that packet |
| MatchPrepares.MatchPrepare.ByteSizeLong | Source/S1/Network/Protocol.pb.cc:4243-4259 | the same through all five levels |
| MatchPrepares.MatchPrepare.AddUnknownSize | Source/ProtobufCore/Include/google/protobuf/message.cc:199-206 | unknown fields are added and the result is cached |
| MatchPrepares.MatchPrepare.InternalSerialize | Source/S1/Network/Protocol.pb.cc:4222-4241 | writes exactly those bytes |
| MatchPrepares.MatchPrepare.MergeFrom | Source/S1/Network/Protocol.pb.cc:4268-4281 | makes this packet the merge of the two |
| MatchPrepares.MatchPrepare.CopyFrom | Source/S1/Network/Protocol.pb.cc:4283-4288 | makes this packet equal to the source |
| MatchPrepares.MatchPrepare.ParseFromArray | Source/ProtobufCore/Include/google/protobuf/message_lite.cc:138-150 | clear and parse: success and contents are those of the array, whatever stands behind it in memory |
| MatchPrepares.MatchPrepare.SerializeToArray | Source/ProtobufCore/Include/google/protobuf/message_lite.cc:476-487 | writes the packet, of whatever length, if and only if it fits the space and an int; otherwise nothing is touched |
| Packets.ServerSchemaValid | Source/S1/ServerPacketHandler.h:82-99 | each of the 18 server packets is a well-formed message type far below the recursion limit |
| Packets.LobbyTags | Source/S1/Network/Protocol.pb.cc:1237-1307 | the tags of the lobby packets are those their generated parsers switch on |
| Packets.MatchTags | Source/S1/Network/Protocol.pb.cc:4185-4220 | the same for the packets of a match |
| Packets.StructTags | Source/S1/Network/Struct.pb.cc:442-513 | the same for the messages nested in them |
| Frames.SerializeToArray | Source/ProtobufCore/Include/google/protobuf/message_lite.cc:476-487 | the same for a message of any type |
| Frames.MakeSendBuffer | Source/S1/ServerPacketHandler.h:135-156 | both 16-bit sizes are those of the message cut to 16 bits; up to 65531 bytes the buffer is header and payload, beyond it is too short for the message; the header's size always is the buffer's length |
| Frames.FrameHeader | Source/S1/ServerPacketHandler.h:147-151 | a frame carries its own length and id and is the first packet of any stream that starts with it |
| Frames.FrameBytes | Source/S1/ServerPacketHandler.h:147-151 | the four header bytes are length and id, each low byte first, and the payload follows |
| Frames.SplitFrames | Source/S1/Network/NetworkWorker.h:11-30 | a stream of frames splits into exactly those frames in order; an incomplete last one stays |
| Frames.SplitIncremental | Source/S1/Network/NetworkWorker.h:11-30 | splitting bytes as they arrive is splitting them all at once |
| Frames.SendAll | Source/S1/ServerPacketHandler.h:107-156 | a list of messages of any valid types that fit a frame, each framed by MakeSendBuffer, gives the stream of their frames, from which one packet per message is cut, in order; it has the message's id, and parses back to the message if that is sendable and not at all if it is not |
| Frames.Delivered | Source/S1/ServerPacketHandler.h:124-156 | the same for the stream of the frames, also in front of an incomplete packet |
| Chat.ChatFits | Source/S1/S1GameInstance.cpp:494-509 | a chat message, whose length the client does not check, fits a frame if and only if its text has at most 65527 bytes |
| Chat.ChatOverflows | Source/S1/S1GameInstance.cpp:494-509 | two texts that do not: with 65536 letters the sizes wrap to 4 and 8, with 65528 the buffer has no room for the header |
| Receiving.RecvWorker.ReceiveDesiredBytes | Source/S1/Network/NetworkWorker.h:45-46 | succeeds exactly when data is pending and the reads add up to the size, and then the buffer holds exactly the next bytes of the stream; a failure has used up exactly the bytes that were read |
| Receiving.RecvWorker.ReceivePacket | Source/S1/Network/NetworkWorker.h:45-45 | for every answer of the socket: the first packet of the stream, or a failure with the bytes it used up |
| Receiving.RecvWorker.Run | Source/S1/Network/NetworkWorker.h:39-39 | for every sequence of answers of the socket: the queue and the rest of the stream; the queue is the beginning of the stream's packets, complete and in order, if and only if every failing call found no header pending or read none of it |
| Receiving.ReceivedExactly | Source/S1/Network/NetworkWorker.h:32-53 | received packets and those of the rest together are the packets of the stream if and only if every failing call found no header pending or read none of it |
| Receiving.EverythingReceived | Source/S1/Network/NetworkWorker.h:32-53 | calls that get whatever they ask for deliver every packet of any stream, and leave what is no packet |
| Receiving.LosesNothing | Source/S1/Network/NetworkWorker.h:45-46 | a failing call uses up no bytes if and only if no header is pending or its first read returns nothing |
| Receiving.HeaderLost | Source/S1/Network/NetworkWorker.h:45-46 | two complete packets of which neither is left after one call that finds no payload pending behind the first header |
| Sessions.PacketSession.Init | Source/S1/ServerPacketHandler.h:78-100 | every entry of the table is the handler of its id, invalid where there is none |
| Sessions.PacketSession.HandlePacket | Source/S1/ServerPacketHandler.h:102-106 | one packet goes to the handler of its id with its payload parsed |
| Sessions.DispatchIs | Source/S1/ServerPacketHandler.h:102-133 | what becomes of every packet: off the table, invalid, unparsed, or handed over with its payload parsed as the type of its id |
| Sessions.PacketSession.HandleRecvPackets | Source/S1/Network/PacketSession.cpp:28-39 | the drain loop handles everything queued, and what arrives before each dequeue, in order, and ends with an empty queue exactly at the first dequeue that finds none left |
| Sessions.Handed | Source/S1/ServerPacketHandler.h:124-133 | of messages of the server's types that fit a frame, the handlers get exactly the sendable ones, in order, and each other one is a packet that does not parse |
| Registration.RequestRegister | Source/S1/S1GameInstance.cpp:22-61 | a packet is built if and only if the connection, the three lengths and the characters of the id are right |
| Registration.TrimIs | Source/S1/S1GameInstance.cpp:27-32 | the trimmed string is the part between the first and the last character that is not white space |
| Registration.Alphanumerics | Source/S1/S1GameInstance.cpp:40-47 | which characters a login id may have |
| Registration.RegisterCarries | Source/S1/S1GameInstance.cpp:49-58 | the bytes sent are records with the numbers 1, 2 and 3 and parse back to a message whose first field is the login id letter by letter and whose other fields decode to the password and the nickname |
| Unicode.Utf8Length | Source/S1/S1GameInstance.cpp:49-51 | a UTF-16 unit takes at most three bytes |
| Unicode.Utf8Valid | Source/S1/S1GameInstance.cpp:49-51 | the converted strings are valid UTF-8 for every input, lone surrogates included |
| Unicode.Utf8Decodes | Source/S1/S1GameInstance.cpp:49-51 | a decoder by section 3 of RFC 3629 gives every string back that has no zero and no lone surrogate |
| Unicode.ZeroEnds | Source/S1/S1GameInstance.cpp:49-51 | a zero ends the string |
| Unicode.ValidExactly | Source/ProtobufCore/Include/google/protobuf/wire_format_lite.cc:621-638 | the check of string fields accepts exactly the encodings of sequences of characters, without overlong forms and surrogates |
| Registration.RegisterFits | Source/S1/Network/Protocol.pb.cc:1672-1702 | every accepted registration has at most 503 bytes, its frame at most 507, and it parses back |
| Registration.RegisterLength | Source/S1/Network/Protocol.pb.cc:1672-1702 | its exact length from the lengths of the three strings |
| Registration.BoundAttained | Source/S1/Network/Protocol.pb.cc:1672-1702 | the bound is reached |
| MatchModel.KeysAreRoster | Source/S1/S1GameInstance.cpp:638-662 | in every run the ids with a state are the ids of the roster |
| MatchModel.StateHistory | Source/S1/S1GameInstance.cpp:889-927 | a player's state is that of the last state event since the last match packet, else that at the last position with its id; mismatched lists and the return to the room leave nobody a state |
| MatchModel.NoMatchNoState | Source/S1/S1GameInstance.cpp:889-896 | before the first match nobody has a state |
| MatchModel.LastLoginWins | Source/S1/S1GameInstance.cpp:157-217 | account id, player id and name are those of the last login that was taken over |
| MatchModel.NoLoginYet | Source/S1/S1GameInstance.cpp:157-217 | before the first they are zero and empty |
| MatchModel.RefusedLogin | Source/S1/S1GameInstance.cpp:161-203 | any other login changes none of them and broadcasts the reason of its code |
| MatchModel.LastMatchWins | Source/S1/S1GameInstance.cpp:643-643 | the present match is that of the last match packet |
| MatchModel.LastRosterWins | Source/S1/S1GameInstance.cpp:638-662 | the roster is that of the last event that replaced it, and empty after mismatched lists or the return to a room |
| MatchModel.LastRoomWins | Source/S1/S1GameInstance.cpp:277-310 | the room has, field by field, the contents of the last packet that replaced it, or is empty after a leave |
| MatchModel.ShowsRoomIs | Source/S1/S1GameInstance.cpp:277-310 | room id, host, player limit and players with id, name, readiness and team determine the room |
| MatchModel.StepAnnounces | Source/S1/S1GameInstance.cpp:157-967 | each event adds exactly the broadcasts that announce it, with the numbers, the winner and the reason of its packet, and takes none back |
| MatchModel.LogGrows | Source/S1/S1GameInstance.cpp:157-967 | the broadcasts of a run begin with those of each of its beginnings |
| MatchModel.CastsKeepBits | Source/S1/S1GameInstance.cpp:279-283 | the casts between signed and unsigned keep the low bits and every value both types have |
| MatchModel.DigitsAre | Source/S1/S1GameInstance.cpp:547-550 | the number in Player_ and the number is the decimal numeral of the id, without leading zeros |
| MatchModel.LastBoardWins | Source/S1/S1GameInstance.cpp:591-606 | remaining time and scores are those of the last event that set them: a match packet, an accepted state, or a match end with a world |
| MatchModel.StaleFiltered | Source/S1/S1GameInstance.cpp:583-596 | dropping all match starts and match states of another match on arrival changes neither the final state nor the broadcasts |
| MatchModel.StepQuiet | Source/S1/S1GameInstance.cpp:157-967 | apart from the broadcasts, what an event does depends neither on actors nor on earlier broadcasts |
| MatchGame.SettledErased | Source/S1/S1GameInstance.cpp:568-662 | whether the mirror has to hold does not depend on actors |
| MatchModel.RoomCount | Source/S1/S1GameInstance.cpp:277-283 | the player count of the room is always the length of its list |
| MatchModel.RoomAlwaysShown | Source/S1/S1GameInstance.cpp:277-310 | the room always has, field by field, the contents of a packet of the run, or is empty |
| MatchModel.Int64RoundTrip | Source/S1/S1GameInstance.cpp:539-539 | an id stored signed and compared unsigned matches exactly itself, also from 2^63 on |
| MatchModel.RoomNameIsFirst | Source/S1/S1GameInstance.cpp:534-545 | the lobby name is that of the first entry with the sender's 64-bit id |
| MatchModel.ChatNameOrder | Source/S1/S1GameInstance.cpp:511-550 | the chat name is the first non-empty of local name, valid actor's name, first room entry's name and Player_id, and never empty |
| MatchGame.ArrivingIs | Source/S1/S1GameInstance.cpp:568-576 | an id enters the world exactly when one of its roster entries is offered an actor |
| MatchGame.LastOfferIs | Source/S1/S1GameInstance.cpp:694-708 | which entry that is: the one behind which no entry of the player is offered an actor; there is one exactly for the ids that arrive |
| MatchGame.S1Player.UpdateMatchState | Source/S1/Game/S1Player.cpp:134-143 | the actor shows hit points, life, kills and deaths of the state, and broadcasts them |
| MatchGame.S1Player.SetMoveState | Source/S1/Game/S1Player.cpp:124-132 | only the move state of the position changes |
| MatchGame.S1Player.SetMoveInfo | Source/S1/Game/S1Player.cpp:145-151 | the position is replaced and the actor moved there |
| MatchGame.S1Player.SetDestInfo | Source/S1/Game/S1Player.cpp:153-160 | the destination is replaced and its move state applied |
| MatchGame.GameInstance.UpdateCurrentRoom | Source/S1/S1GameInstance.cpp:277-310 | the loop over the players yields the room of the packet |
| MatchGame.GameInstance.HandleLogin | Source/S1/S1GameInstance.cpp:157-217 | success, result code, account id and player id decide: the local ids and name are the packet's, or the failure of that code is broadcast; the fields stay the function of the history and the whole invariant holds |
| MatchGame.GameInstance.HandleEnterRoom | Source/S1/S1GameInstance.cpp:264-275 | the room of a successful answer becomes the current room and the result is broadcast; fields follow the history, invariant kept |
| MatchGame.GameInstance.HandleCreateRoom | Source/S1/S1GameInstance.cpp:459-470 | the same for a created room |
| MatchGame.GameInstance.HandleRoomState | Source/S1/S1GameInstance.cpp:312-320 | a room update replaces the current room and is announced, a packet without a room does nothing; invariant kept |
| MatchGame.GameInstance.HandleLeaveRoom | Source/S1/S1GameInstance.cpp:484-492 | a successful leave empties the room and is announced; invariant kept |
| MatchGame.GameInstance.HandleReturnRoom | Source/S1/S1GameInstance.cpp:620-636 | with a room, the match data and the actors are gone and the mirror holds again; without one nothing changes |
| MatchGame.GameInstance.HandlePrepareMatch | Source/S1/S1GameInstance.cpp:638-662 | roster and states become those of the packet, or empty if its lists differ in length; the actors mirror the states afterwards if and only if the packet lists every player that has an actor and every valid actor shows the last state listed for it |
| MatchGame.GameInstance.PrepareMatch | Source/S1/S1GameInstance.cpp:568-581 | afterwards exactly the offered ids are in the world, each with its own actor, valid unless it is the pawn, placed and named by the last of its roster entries that was offered one; every valid actor shows its player's state, and the local actor is the pawn |
| MatchGame.GameInstance.HandleSpawn | Source/S1/S1GameInstance.cpp:664-711 | one roster entry: the pawn or a new actor, placed, named and showing its state |
| MatchGame.GameInstance.HandleMatchStart | Source/S1/S1GameInstance.cpp:583-589 | announced only for the present match; fields follow the history, invariant kept |
| MatchGame.GameInstance.HandleMatchState | Source/S1/S1GameInstance.cpp:591-606 | time and scores are taken over only for the present match; invariant kept |
| MatchGame.GameInstance.HandleMatchEnd | Source/S1/S1GameInstance.cpp:929-967 | final scores and winner are taken over and broadcast, nothing happens without a world; invariant kept |
| MatchGame.GameInstance.HandlePlayerState | Source/S1/S1GameInstance.cpp:889-927 | the state is stored for known players, the valid actor shows it field by field, the score broadcast has its counts, and the mirror of everyone else stays |
| MatchGame.GameInstance.HandleDespawn | Source/S1/S1GameInstance.cpp:713-744 | with a connection and a world, a valid actor becomes invisible and loses collision, ticks, movement and, if it is the player's own, input; otherwise nothing changes; invariant kept |
| MatchGame.GameInstance.HandleRespawn | Source/S1/S1GameInstance.cpp:746-777 | with a connection, a valid actor gets all of that back at its new place, walking; otherwise nothing changes; invariant kept |
| MatchGame.GameInstance.RequestHit | Source/S1/S1GameInstance.cpp:821-837 | in any iteration order exactly one hit is sent, for the one player the target stands for, or none |
| MatchGame.GameInstance.HandleChat | Source/S1/S1GameInstance.cpp:511-554 | exactly one line is broadcast, with the name of the cascade |
| MatchGame.GameInstance.NameOf | Source/S1/S1GameInstance.cpp:513-550 | the cascade step by step gives that name |
| MatchGame.GameInstance.ActorShowsState | Source/S1/S1GameInstance.cpp:889-908 | in every run, whenever the mirror has to hold, a valid actor has the hit points, the life, the kills and the deaths of the state that the history determines for its player |
| MatchGame.GameInstance.GetMatchPlayerScore | Source/S1/S1GameInstance.cpp:969-981 | the counts of the state the history determines, or nothing; they are those that the player's valid actor shows, whenever the mirror has to hold |
| MatchGame.GameInstance.Handle | Source/S1/ServerPacketHandler.h:55-72 | every packet adds exactly its own event to the history, with what its handling found out about actors, and only the return to a room takes actors away |
| MatchGame.GameInstance.Execute | Source/S1/ServerPacketHandler.h:66-66 | the events each command adds, a respawn being a respawn of the actor and then a player state; the outline it leaves; what becomes of the actor it is about; what it sends; and the invariant |
| MatchGame.GameInstance.Run | Source/S1/S1GameInstance.cpp:568-927 | over every run: fields follow the history, no actor stands for two players, the local actor is among them, and valid actors mirror the states unless a match is just being prepared; the new history is what the script tells of, command by command, but for what was found out about actors, and so the script decides whether the mirror holds, every field but the broadcasts, the connection and the set of players with an actor |
| MatchGame.LastSettles | Source/S1/S1GameInstance.cpp:568-662 | after a script with a match packet, a spawning or a return to a room, the mirror has to hold exactly if the last of these is not a match packet |
| MatchGame.OutlineIsTold | Source/S1/S1GameInstance.cpp:568-927 | the fields after a script are those after the events it tells of, to which the theorems about histories apply |
| MatchGame.MirrorGap | Source/S1/S1GameInstance.cpp:638-662 | a reachable client that fails the condition of HandlePrepareMatch |
| TraceModel.KeepIsPrefix | Plugins/VisualStudioTools/Source/VisualStudioBlueprintDebuggerHelper/Private/VisualStudioBlueprintDebuggerHelperModule.cpp:127-133 | leaving the deepest context removes a suffix of a stack, exactly its nodes of that context |
| TraceModel.ExitKeepsGood | Plugins/VisualStudioTools/Source/VisualStudioBlueprintDebuggerHelper/Private/VisualStudioBlueprintDebuggerHelperModule.cpp:124-139 | after an exit every stack is a non-empty prefix of an old one with smaller tags, and keys stay unique |
| TraceModel.SetPinsValue | Plugins/VisualStudioTools/Source/VisualStudioBlueprintDebuggerHelper/Private/VisualStudioBlueprintDebuggerHelperModule.cpp:224-246 | after a stop every pin has the last valid value the stop gave, or else its old one |
| TraceModel.LastValueIs | Plugins/VisualStudioTools/Source/VisualStudioBlueprintDebuggerHelper/Private/VisualStudioBlueprintDebuggerHelperModule.cpp:224-246 | which value is the last valid one |
| TraceModel.StopIs | Plugins/VisualStudioTools/Source/VisualStudioBlueprintDebuggerHelper/Private/VisualStudioBlueprintDebuggerHelperModule.cpp:156-193 | an exception is a stop exactly if it is a trace or break point and function, class, blueprint and node are known; what the stop says |
| TraceModel.StopShows | Plugins/VisualStudioTools/Source/VisualStudioBlueprintDebuggerHelper/Private/VisualStudioBlueprintDebuggerHelperModule.cpp:195-246 | a stop puts its node, with name, context and pins, on top of the stack of its blueprint, or refreshes the pins of the top if the node is there; nothing else changes, and a new blueprint comes last |
| TraceModel.StopsAreListed | Plugins/VisualStudioTools/Source/VisualStudioBlueprintDebuggerHelper/Private/VisualStudioBlueprintDebuggerHelperModule.cpp:195-222 | as long as no context is entered or left, a blueprint's stack grows by the nodes of its stops without adjacent repetitions |
| TraceModel.NestedRun | Plugins/VisualStudioTools/Source/VisualStudioBlueprintDebuggerHelper/Private/VisualStudioBlueprintDebuggerHelperModule.cpp:104-154 | in every well-nested run the counter is the depth, keys are unique, no stack is empty, tags lie between one and the depth and ascend; stops outside contexts add tag zero |
| TraceModel.BalancedBlock | Plugins/VisualStudioTools/Source/VisualStudioBlueprintDebuggerHelper/Private/VisualStudioBlueprintDebuggerHelperModule.cpp:104-154 | a balanced block of deeper contexts leaves blueprints, nodes and tags exactly as it found them |
| TraceModel.LeakFree | Plugins/VisualStudioTools/Source/VisualStudioBlueprintDebuggerHelper/Private/VisualStudioBlueprintDebuggerHelperModule.cpp:194-222 | when all contexts are left the list of blueprints is empty if and only if no stop happened outside a context |
| TraceModel.FrameHistory | Plugins/VisualStudioTools/Source/VisualStudioBlueprintDebuggerHelper/Private/VisualStudioBlueprintDebuggerHelperModule.cpp:194-194 | a function's frame carries the depth of its last stop, as long as that context is open |
| TraceModel.FrameExactly | Plugins/VisualStudioTools/Source/VisualStudioBlueprintDebuggerHelper/Private/VisualStudioBlueprintDebuggerHelperModule.cpp:141-194 | in a well-nested run a function has a frame if and only if it had a stop and the depth has not fallen below that of its last stop since |
| TraceModel.FrameIs | Plugins/VisualStudioTools/Source/VisualStudioBlueprintDebuggerHelper/Private/VisualStudioBlueprintDebuggerHelperModule.cpp:141-194 | the frame then has the depth and the name of that stop |
| TraceModel.FrameLeak | Plugins/VisualStudioTools/Source/VisualStudioBlueprintDebuggerHelper/Private/VisualStudioBlueprintDebuggerHelperModule.cpp:141-151 | when all contexts are left a function has a frame if and only if its last stop was outside |
| TraceModel.LeftBehind | Plugins/VisualStudioTools/Source/VisualStudioBlueprintDebuggerHelper/Private/VisualStudioBlueprintDebuggerHelperModule.cpp:156-222 | a stop outside any context leaves its node and its frame behind, also after a later context |
| TraceModel.EmptyAgain | Plugins/VisualStudioTools/Source/VisualStudioBlueprintDebuggerHelper/Private/VisualStudioBlueprintDebuggerHelperModule.cpp:104-222 | a well-nested run that stops only inside contexts and leaves them all ends as it began |
| DebuggerHelper.DebuggerHelper.OnEnterScriptContext | Plugins/VisualStudioTools/Source/VisualStudioBlueprintDebuggerHelper/Private/VisualStudioBlueprintDebuggerHelperModule.cpp:104-115 | the module's lists stay the trace of the callbacks so far; only the game thread sets the counter |
| DebuggerHelper.DebuggerHelper.OnExitScriptContext | Plugins/VisualStudioTools/Source/VisualStudioBlueprintDebuggerHelper/Private/VisualStudioBlueprintDebuggerHelperModule.cpp:117-154 | the nested lists, thinned out in place, stay the trace of the callbacks so far; nothing happens off the game thread |
| DebuggerHelper.DebuggerHelper.Sweep | Plugins/VisualStudioTools/Source/VisualStudioBlueprintDebuggerHelper/Private/VisualStudioBlueprintDebuggerHelperModule.cpp:124-139 | the outer loop with removal during iteration is the filter on blueprints: in order, without the tag, without emptied ones |
| DebuggerHelper.NodesInfo.RemoveTagged | Plugins/VisualStudioTools/Source/VisualStudioBlueprintDebuggerHelper/Private/VisualStudioBlueprintDebuggerHelperModule.cpp:127-133 | the inner loop with removal during iteration is the filter on nodes |
| DebuggerHelper.DebuggerHelper.EraseFrames | Plugins/VisualStudioTools/Source/VisualStudioBlueprintDebuggerHelper/Private/VisualStudioBlueprintDebuggerHelperModule.cpp:141-151 | the frames without those of the context |
| DebuggerHelper.DebuggerHelper.OnScriptException | Plugins/VisualStudioTools/Source/VisualStudioBlueprintDebuggerHelper/Private/VisualStudioBlueprintDebuggerHelperModule.cpp:156-246 | the lists stay the trace of the callbacks so far; ignored unless it is a trace or break point with function, blueprint and node |
| DebuggerHelper.DebuggerHelper.FindOrAdd | Plugins/VisualStudioTools/Source/VisualStudioBlueprintDebuggerHelper/Private/VisualStudioBlueprintDebuggerHelperModule.cpp:195-208 | the first entry of the blueprint, or a new one at the end |
| DebuggerHelper.NodesInfo.Visit | Plugins/VisualStudioTools/Source/VisualStudioBlueprintDebuggerHelper/Private/VisualStudioBlueprintDebuggerHelperModule.cpp:210-222 | the node is pushed unless it is on top; no other node changes |
| DebuggerHelper.NodeData.SetProperties | Plugins/VisualStudioTools/Source/VisualStudioBlueprintDebuggerHelper/Private/VisualStudioBlueprintDebuggerHelperModule.cpp:224-246 | the loop over the pins is the update of the pins' values |
| DebuggerHelper.SetPinAt | Plugins/VisualStudioTools/Source/VisualStudioBlueprintDebuggerHelper/Private/VisualStudioBlueprintDebuggerHelperModule.cpp:233-245 | find, then add or overwrite in place |

## Left out

- ParseLoop.TakeTag: the input is one buffer with 16 bytes of slop behind it; the runtime's copying of chunk ends into a patch buffer is not modelled, nor is a tight loop that stops early at a chunk end.
- ParseLoop.TakeUnknown: an end-group tag or tag zero at message level fails at once; the runtime remembers it and fails at the end of the enclosing message, with the same result.
- MatchPrepares.MatchPrepare.ByteSizeLong: sizes are unbounded; that a size_t sum would wrap at 2^64 is not modelled, no memory holds such a message.
- GroupFree.RoomInfoRoundTrip: RoomInfo, RoomPlayerInfo, MatchStateInfo, MatchResult and the packets other than S_MATCH_PREPARE are modelled by their schemas; their generated classes repeat the patterns of the five that are classes here.
- Merging.MergeAssociative: arenas, swapping, reflection, descriptors and the reuse of cleared list elements are memory plumbing and not modelled.
- Frames.MakeSendBuffer: a buffer too small for its own header, after both sizes wrapped, is reported as missing; what the source then writes outside of it is not modelled.
- Receiving.RecvWorker.ReceivePacket: a header that announces fewer than four bytes is a failure that has used up the header; the source passes a negative count to AddZeroed.
- Receiving.RecvWorker.Run: threads, blocking, connecting and disconnecting are not modelled; what the socket answers is an input; the send queue is a plain append.
- Sessions.PacketSession.HandlePacket: id 65535 lies behind the table and is reported as such.
- Registration.RequestRegister: which characters are white space and what replaces a lone surrogate are parameters; login and the other requests are left out, they check less.
- MatchGame.GameInstance.Execute: HandleMove, HandleFire, Tick, projectiles and camera depend on engine physics and are left out; that an actor is valid, has a movement component and is controlled is up to the engine.
- MatchGame.GameInstance.PrepareMatch: the player controller exists, and the engine's answers to spawn requests are an input.
- MatchGame.GameInstance.HandleSpawn: only called by PrepareMatch, so it relies on the pawn standing for no other player.
- MatchGame.GameInstance.HandleChat: names and messages are taken as already converted from UTF-8; widgets, level travel and on-screen messages are left out, broadcasts are a log.
- DebuggerHelper.DebuggerHelper.OnScriptException: node lookup and watch values are inputs; the callbacks run one at a time.
- Buffer reader and writer, lobby list, asset helper, build files and report script: they would only add easy members.
