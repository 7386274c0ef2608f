/** The packets the server sends: their ids and message types. */
module Packets {
  import opened Options
  import opened Messages
  import opened Schemas
  import opened GroupFree

  type uint16 = i: int | 0 <= i < 0x1_0000

  const PKT_S_LOGIN: uint16 := 1001
  const PKT_S_REGISTER: uint16 := 1003
  const PKT_S_ROOM_LIST: uint16 := 1005
  const PKT_S_CREATE_ROOM: uint16 := 1007
  const PKT_S_ENTER_ROOM: uint16 := 1009
  const PKT_S_LEAVE_ROOM: uint16 := 1011
  const PKT_S_ROOM_STATE: uint16 := 1015
  const PKT_S_MATCH_PREPARE: uint16 := 1017
  const PKT_S_MATCH_START: uint16 := 1019
  const PKT_S_MATCH_STATE: uint16 := 1020
  const PKT_S_PLAYER_STATE: uint16 := 1021
  const PKT_S_PLAYER_RESPAWN: uint16 := 1022
  const PKT_S_MOVE: uint16 := 1024
  const PKT_S_FIRE: uint16 := 1026
  const PKT_S_PLAYER_DESPAWN: uint16 := 1028
  const PKT_S_MATCH_END: uint16 := 1029
  const PKT_S_RETURN_TO_ROOM: uint16 := 1031
  const PKT_S_CHAT: uint16 := 1033

  /** A packet that carries one nested message. */
  function Envelope(sub: Schema): Schema { Schema([Field(1, KMessage(sub))]) }

  /** The message type behind a packet id, for the packets that have a handler. */
  function ServerSchema(id: uint16): Option<Schema> {
    if id == PKT_S_LOGIN then
      Some(Schema([Field(1, KBool), Field(2, KUInt64), Field(3, KInt32), Field(4, KUInt64), Field(5, KString)]))
    else if id == PKT_S_REGISTER then Some(Schema([Field(1, KBool), Field(2, KInt32)]))
    else if id == PKT_S_ROOM_LIST then Some(Schema([Field(1, KRepeated(RoomInfoSchema()))]))
    else if id == PKT_S_CREATE_ROOM then Some(Schema([Field(1, KBool), Field(2, KMessage(RoomInfoSchema()))]))
    else if id == PKT_S_ENTER_ROOM then Some(Schema([Field(1, KBool), Field(2, KMessage(RoomInfoSchema()))]))
    else if id == PKT_S_LEAVE_ROOM then Some(Schema([Field(1, KBool)]))
    else if id == PKT_S_ROOM_STATE then Some(Envelope(RoomInfoSchema()))
    else if id == PKT_S_MATCH_PREPARE then Some(Envelope(MatchInfoSchema()))
    else if id == PKT_S_MATCH_START then Some(Schema([Field(1, KUInt64)]))
    else if id == PKT_S_MATCH_STATE then Some(Envelope(MatchStateInfoSchema()))
    else if id == PKT_S_PLAYER_STATE then
      Some(Schema([Field(1, KUInt64), Field(2, KMessage(MatchPlayerStateSchema()))]))
    else if id == PKT_S_PLAYER_RESPAWN then
      Some(Schema([Field(1, KMessage(PlayerInfoSchema())), Field(2, KMessage(MatchPlayerStateSchema()))]))
    else if id == PKT_S_MOVE then Some(Envelope(PlayerInfoSchema()))
    else if id == PKT_S_FIRE then
      Some(Schema([Field(1, KUInt64), Field(2, KFixed32), Field(3, KFixed32), Field(4, KFixed32), Field(5, KFixed32),
                   Field(6, KFixed32), Field(7, KFixed32)]))
    else if id == PKT_S_PLAYER_DESPAWN then Some(Schema([Field(1, KUInt64)]))
    else if id == PKT_S_MATCH_END then Some(Envelope(MatchResultSchema()))
    else if id == PKT_S_RETURN_TO_ROOM then Some(Envelope(RoomInfoSchema()))
    else if id == PKT_S_CHAT then Some(Schema([Field(1, KUInt64), Field(2, KString)]))
    else None
  }

  /** Every packet type is a valid schema and shallower than the recursion limit. */
  lemma {:induction false} ServerSchemaValid(id: uint16)
    requires ServerSchema(id).Some?
    ensures ValidSchema(ServerSchema(id).value) && Shallow(ServerSchema(id).value, RECURSION_LIMIT)
  {
    LeavesValid();
    NodesValid();
    MatchInfoValid();
    NestedShallow();
    hide ValidSchema, Shallow, MatchInfoSchema, RoomInfoSchema, MatchStateInfoSchema, MatchResultSchema,
         PlayerInfoSchema, MatchPlayerStateSchema;
    var S := ServerSchema(id).value;
    forall i | 0 <= i < |S.fields| ensures ValidKind(S.fields[i].kind) && ShallowKind(S.fields[i].kind, 100) {}
    ConsecutiveValid(S);
    NodeShallow(S, 100);
  }

  /** The tag bytes of the fields, in the order of the serialiser: number and wire type. */
  function Tags(S: Schema): (ts: seq<nat>)
    ensures |ts| == |S.fields|
  {
    seq(|S.fields|, i requires 0 <= i < |S.fields| => S.fields[i].num * 8 + WireType(S.fields[i].kind))
  }

  function WireType(k: Kind): nat {
    match k
    case KFixed32 => 5
    case KString => 2
    case KMessage(_) => 2
    case KRepeated(_) => 2
    case _ => 0
  }

  /** The tags that the generated parsers of the lobby packets switch on. */
  lemma {:induction false} LobbyTags()
    ensures Tags(ServerSchema(PKT_S_LOGIN).value) == [8, 16, 24, 32, 42]
    ensures Tags(ServerSchema(PKT_S_REGISTER).value) == [8, 16]
    ensures Tags(ServerSchema(PKT_S_ROOM_LIST).value) == [10]
    ensures Tags(ServerSchema(PKT_S_CREATE_ROOM).value) == [8, 18]
    ensures Tags(ServerSchema(PKT_S_ENTER_ROOM).value) == [8, 18]
    ensures Tags(ServerSchema(PKT_S_LEAVE_ROOM).value) == [8]
    ensures Tags(ServerSchema(PKT_S_ROOM_STATE).value) == [10]
    ensures Tags(ServerSchema(PKT_S_RETURN_TO_ROOM).value) == [10]
    ensures Tags(ServerSchema(PKT_S_CHAT).value) == [8, 18]
  {
    hide RoomInfoSchema, MatchInfoSchema, MatchStateInfoSchema, PlayerInfoSchema, MatchPlayerStateSchema,
         MatchResultSchema;
  }

  /** The same for the packets of a match. */
  lemma {:induction false} MatchTags()
    ensures Tags(ServerSchema(PKT_S_MATCH_PREPARE).value) == [10]
    ensures Tags(ServerSchema(PKT_S_MATCH_START).value) == [8]
    ensures Tags(ServerSchema(PKT_S_MATCH_STATE).value) == [10]
    ensures Tags(ServerSchema(PKT_S_PLAYER_STATE).value) == [8, 18]
    ensures Tags(ServerSchema(PKT_S_PLAYER_RESPAWN).value) == [10, 18]
    ensures Tags(ServerSchema(PKT_S_MOVE).value) == [10]
    ensures Tags(ServerSchema(PKT_S_FIRE).value) == [8, 21, 29, 37, 45, 53, 61]
    ensures Tags(ServerSchema(PKT_S_PLAYER_DESPAWN).value) == [8]
    ensures Tags(ServerSchema(PKT_S_MATCH_END).value) == [10]
  {
    hide RoomInfoSchema, MatchInfoSchema, MatchStateInfoSchema, PlayerInfoSchema, MatchPlayerStateSchema,
         MatchResultSchema;
  }

  /** The same for the messages inside the packets. */
  lemma {:induction false} StructTags()
    ensures Tags(RoomPlayerInfoSchema()) == [8, 16, 24, 32, 42]
    ensures Tags(RoomInfoSchema()) == [8, 18, 24, 32, 40, 50]
    ensures Tags(MoveInfoSchema()) == [13, 21, 29, 37, 40]
    ensures Tags(PlayerInfoSchema()) == [8, 18, 26]
    ensures Tags(MatchPlayerInfoSchema()) == [10, 16, 24]
    ensures Tags(MatchInfoSchema()) == [8, 16, 24, 32, 42, 50]
    ensures Tags(MatchPlayerStateSchema()) == [8, 16, 24, 32, 40]
    ensures Tags(MatchStateInfoSchema()) == [8, 16, 24, 32]
    ensures Tags(MatchResultSchema()) == [8, 16, 24, 32, 42]
  {}

  lemma {:induction false} NestedShallow()
    ensures Shallow(MatchInfoSchema(), 99) && Shallow(RoomInfoSchema(), 99) && Shallow(MatchStateInfoSchema(), 99)
    ensures Shallow(MatchResultSchema(), 99) && Shallow(PlayerInfoSchema(), 99) && Shallow(MatchPlayerStateSchema(), 99)
  {
    hide Shallow;
    ScalarsShallow(MoveInfoSchema(), 96);
    ScalarsShallow(MoveInfoSchema(), 98);
    ScalarsShallow(MatchPlayerStateSchema(), 98);
    ScalarsShallow(MatchPlayerStateSchema(), 99);
    ScalarsShallow(MatchStateInfoSchema(), 99);
    ScalarsShallow(RoomPlayerInfoSchema(), 98);
    NodeShallow(PlayerInfoSchema(), 97);
    NodeShallow(PlayerInfoSchema(), 99);
    NodeShallow(MatchPlayerInfoSchema(), 98);
    NodeShallow(MatchInfoSchema(), 99);
    NodeShallow(RoomInfoSchema(), 99);
    NodeShallow(MatchResultSchema(), 99);
  }
}
