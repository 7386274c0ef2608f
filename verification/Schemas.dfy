/** The message types of Struct.proto and of the packets built from them. */
module Schemas {
  import opened Messages

  function MoveInfoSchema(): Schema {
    Schema([Field(1, KFixed32), Field(2, KFixed32), Field(3, KFixed32), Field(4, KFixed32), Field(5, KInt32)])
  }

  function PlayerInfoSchema(): Schema {
    Schema([Field(1, KUInt64), Field(2, KMessage(MoveInfoSchema())), Field(3, KString)])
  }

  function MatchPlayerInfoSchema(): Schema {
    Schema([Field(1, KMessage(PlayerInfoSchema())), Field(2, KInt32), Field(3, KInt32)])
  }

  function MatchPlayerStateSchema(): Schema {
    Schema([Field(1, KInt32), Field(2, KInt32), Field(3, KBool), Field(4, KUInt32), Field(5, KUInt32)])
  }

  function MatchInfoSchema(): Schema {
    Schema([Field(1, KUInt64), Field(2, KUInt32), Field(3, KUInt32), Field(4, KUInt32),
            Field(5, KRepeated(MatchPlayerInfoSchema())), Field(6, KRepeated(MatchPlayerStateSchema()))])
  }

  function RoomPlayerInfoSchema(): Schema {
    Schema([Field(1, KUInt64), Field(2, KInt32), Field(3, KInt32), Field(4, KBool), Field(5, KString)])
  }

  function RoomInfoSchema(): Schema {
    Schema([Field(1, KUInt64), Field(2, KString), Field(3, KInt32), Field(4, KUInt64), Field(5, KUInt32),
            Field(6, KRepeated(RoomPlayerInfoSchema()))])
  }

  function MatchStateInfoSchema(): Schema {
    Schema([Field(1, KUInt64), Field(2, KUInt32), Field(3, KUInt32), Field(4, KUInt32)])
  }

  function MatchResultSchema(): Schema {
    Schema([Field(1, KUInt64), Field(2, KInt32), Field(3, KUInt32), Field(4, KUInt32),
            Field(5, KRepeated(MatchPlayerStateSchema()))])
  }

  function RegisterSchema(): Schema { Schema([Field(1, KString), Field(2, KString), Field(3, KString)]) }

  /** Every message type here numbers its fields 1, 2, 3 and so on. */
  predicate Consecutive(S: Schema) {
    |S.fields| <= 15 && forall i | 0 <= i < |S.fields| :: S.fields[i].num == i + 1
  }

  lemma {:induction false} ConsecutiveIndex(S: Schema, num: nat)
    requires Consecutive(S)
    ensures IndexOf(S.fields, num) == if 1 <= num <= |S.fields| then num - 1 else |S.fields|
  {
    var i := IndexOf(S.fields, num);
    if 1 <= num <= |S.fields| {
      assert S.fields[num - 1].num == num;
    }
  }

  lemma {:induction false} ConsecutiveValid(S: Schema)
    requires Consecutive(S) && forall i | 0 <= i < |S.fields| :: ValidKind(S.fields[i].kind)
    ensures ValidSchema(S)
  {}

  lemma {:induction false} LeavesValid()
    ensures ValidSchema(MoveInfoSchema()) && ValidSchema(MatchPlayerStateSchema())
    ensures ValidSchema(RoomPlayerInfoSchema()) && ValidSchema(RegisterSchema()) && ValidSchema(MatchStateInfoSchema())
  {
    hide ValidSchema;
    ConsecutiveValid(MoveInfoSchema());
    ConsecutiveValid(MatchPlayerStateSchema());
    ConsecutiveValid(RoomPlayerInfoSchema());
    ConsecutiveValid(RegisterSchema());
    ConsecutiveValid(MatchStateInfoSchema());
  }

  lemma {:induction false} NodesValid()
    ensures ValidSchema(PlayerInfoSchema()) && ValidSchema(MatchPlayerInfoSchema())
    ensures ValidSchema(RoomInfoSchema()) && ValidSchema(MatchResultSchema())
  {
    hide ValidSchema, MoveInfoSchema, RoomPlayerInfoSchema, MatchPlayerStateSchema;
    LeavesValid();
    ConsecutiveValid(PlayerInfoSchema());
    ConsecutiveValid(MatchPlayerInfoSchema());
    ConsecutiveValid(RoomInfoSchema());
    ConsecutiveValid(MatchResultSchema());
  }

  lemma {:induction false} MatchInfoValid()
    ensures ValidSchema(MatchInfoSchema())
  {
    hide ValidSchema, MatchPlayerInfoSchema, MatchPlayerStateSchema;
    LeavesValid();
    NodesValid();
    ConsecutiveValid(MatchInfoSchema());
  }
}
