/** The fields of the message objects on the wire: the records each object is written as, by field number, and the
    bytes of two small objects. */
module Layout {
  import opened Options
  import opened Wire
  import opened Messages
  import opened Schemas
  import opened Repeated
  import opened StructLeaves
  import opened StructNodes
  import opened RosterEntry
  import opened MatchInfos
  import opened MatchPrepares

  /** A float, by its bits. */
  function Float(num: nat, v: uint32): seq<Rec> { if v == 0 then [] else [Fixed32Rec(num, v)] }

  function Unsigned(num: nat, v: nat): seq<Rec> { if v == 0 then [] else [VarintRec(num, v)] }

  /** A negative number is written as the 64-bit number with the same low bits. */
  function Signed(num: nat, i: int32): seq<Rec> { Unsigned(num, i % TWO64) }

  function Text(num: nat, s: seq<byte>): seq<Rec> { if s == [] then [] else [LenRec(num, s)] }

  function Nested(num: nat, o: Option<seq<byte>>): seq<Rec> { if o.None? then [] else [LenRec(num, o.value)] }

  /** The records of one more field. */
  lemma {:induction false} KnownNext(S: Schema, m: Msg, n: nat)
    requires Conforms(S, m) && n < |S.fields|
    ensures ValConforms(S.fields[n].kind, m.vals[n])
    ensures KnownRecs(S, m, 0) == []
    ensures KnownRecs(S, m, n + 1) == KnownRecs(S, m, n) + FieldRecs(S.fields[n], m.vals[n])
  {}

  lemma {:induction false} PositionRecords(o: MoveInfo)
    requires o.Valid()
    ensures Records(MoveInfoSchema(), o.Model())
      == Float(1, o.x) + Float(2, o.y) + Float(3, o.z) + Float(4, o.yaw) + Signed(5, o.state) + o.unknown
  {
    hide Conforms, ValConforms, KnownRecs;
    var S, m := MoveInfoSchema(), o.Model();
    KnownNext(S, m, 0);
    KnownNext(S, m, 1);
    KnownNext(S, m, 2);
    KnownNext(S, m, 3);
    KnownNext(S, m, 4);
    assert KnownRecs(S, m, 1) == Float(1, o.x);
  }

  lemma {:induction false} PlayerStateRecords(o: MatchPlayerState)
    requires o.Valid()
    ensures Records(MatchPlayerStateSchema(), o.Model())
      == Signed(1, o.hp) + Signed(2, o.maxHp) + Unsigned(3, if o.isAlive then 1 else 0) + Unsigned(4, o.killCount)
         + Unsigned(5, o.deathCount) + o.unknown
  {
    hide Conforms, ValConforms, KnownRecs;
    var S, m := MatchPlayerStateSchema(), o.Model();
    KnownNext(S, m, 0);
    KnownNext(S, m, 1);
    KnownNext(S, m, 2);
    KnownNext(S, m, 3);
    KnownNext(S, m, 4);
    assert KnownRecs(S, m, 1) == Signed(1, o.hp);
  }

  lemma {:induction false} PlayerRecords(o: PlayerInfo)
    requires o.Valid()
    ensures o.moveInfo != null ==> Conforms(MoveInfoSchema(), o.moveInfo.Model())
    ensures Records(PlayerInfoSchema(), o.Model())
      == Unsigned(1, o.objectId)
         + Nested(2, if o.moveInfo == null then None else Some(Serialize(MoveInfoSchema(), o.moveInfo.Model())))
         + Text(3, o.nickname) + o.unknown
  {
    hide Conforms, ValConforms, KnownRecs, Serialize, MoveInfoSchema;
    var S, m := PlayerInfoSchema(), o.Model();
    KnownNext(S, m, 0);
    KnownNext(S, m, 1);
    KnownNext(S, m, 2);
    assert KnownRecs(S, m, 1) == Unsigned(1, o.objectId);
  }

  lemma {:induction false} RosterRecords(o: MatchPlayerInfo)
    requires o.Valid()
    ensures o.playerInfo != null ==> Conforms(PlayerInfoSchema(), o.playerInfo.Model())
    ensures Records(MatchPlayerInfoSchema(), o.Model())
      == Nested(1, if o.playerInfo == null then None else Some(Serialize(PlayerInfoSchema(), o.playerInfo.Model())))
         + Signed(2, o.playerType) + Signed(3, o.team) + o.unknown
  {
    hide Conforms, ValConforms, KnownRecs, Serialize, PlayerInfoSchema;
    var S, m := MatchPlayerInfoSchema(), o.Model();
    KnownNext(S, m, 0);
    KnownNext(S, m, 1);
    KnownNext(S, m, 2);
    assert KnownRecs(S, m, 1) == FieldRecs(S.fields[0], m.vals[0]);
  }

  lemma {:induction false} MatchRecords(o: MatchInfo)
    requires o.Valid()
    ensures Records(MatchInfoSchema(), o.Model())
      == Unsigned(1, o.matchId) + Unsigned(2, o.durationSeconds) + Unsigned(3, o.redScore) + Unsigned(4, o.blueScore)
         + ElementRecs(5, MatchPlayerInfoSchema(), InfoModels(o.matchPlayersInfo, o.Infos))
         + ElementRecs(6, MatchPlayerStateSchema(), StateModels(o.matchPlayersState, o.States)) + o.unknown
  {
    hide Conforms, ValConforms, KnownRecs, Serialize, ElementRecs, MatchPlayerInfoSchema, MatchPlayerStateSchema,
         InfosOwned, StatesOwned, InfoModels, StateModels;
    var S, m := MatchInfoSchema(), o.Model();
    KnownNext(S, m, 0);
    KnownNext(S, m, 1);
    KnownNext(S, m, 2);
    KnownNext(S, m, 3);
    KnownNext(S, m, 4);
    KnownNext(S, m, 5);
    assert KnownRecs(S, m, 1) == Unsigned(1, o.matchId);
  }

  lemma {:induction false} PacketRecords(o: MatchPrepare)
    requires o.Valid()
    ensures o.matchInfo != null ==> Conforms(MatchInfoSchema(), o.matchInfo.Model())
    ensures Records(MatchPrepareSchema(), o.Model())
      == Nested(1, if o.matchInfo == null then None else Some(Serialize(MatchInfoSchema(), o.matchInfo.Model())))
         + o.unknown
  {
    hide Conforms, ValConforms, KnownRecs, Serialize, MatchInfoSchema, MatchInfo.Model, MatchInfo.Owned;
    var S, m := MatchPrepareSchema(), o.Model();
    KnownNext(S, m, 0);
    assert KnownRecs(S, m, 1) == FieldRecs(S.fields[0], m.vals[0]);
  }

  /** A position one unit along the first axis: 1.0 as a float is 0x3F800000. */
  lemma {:induction false} PositionBytes()
    ensures var m := Msg([VInt(0x3F80_0000), VInt(0), VInt(0), VInt(0), VInt(0)], []);
      Conforms(MoveInfoSchema(), m) && Serialize(MoveInfoSchema(), m) == [13, 0, 0, 0x80, 0x3F]
  {
    var S := MoveInfoSchema();
    var m := Msg([VInt(0x3F80_0000), VInt(0), VInt(0), VInt(0), VInt(0)], []);
    assert Conforms(S, m);
    assert KnownRecs(S, m, 1) == [Fixed32Rec(1, 0x3F80_0000)];
    assert KnownRecs(S, m, 3) == [Fixed32Rec(1, 0x3F80_0000)];
    assert Records(S, m) == [Fixed32Rec(1, 0x3F80_0000)];
    OneRec(Fixed32Rec(1, 0x3F80_0000));
    FloatBytes(0x3F80_0000);
  }

  /** The four bytes of a float, low byte first. */
  lemma {:induction false} FloatBytes(v: uint32)
    ensures Bytes(v, 4) == [v % 256, v / 256 % 256, v / 0x1_0000 % 256, v / 0x100_0000]
  {
    assert Pow256(1) == 256 && Pow256(2) == 0x1_0000 && Pow256(3) == 0x100_0000;
    BytesAt(v, 4, 0);
    BytesAt(v, 4, 1);
    BytesAt(v, 4, 2);
    BytesAt(v, 4, 3);
  }

  /** A living player with 80 of 100 hit points, three kills and one death. */
  lemma {:induction false} PlayerStateBytes()
    ensures var m := Msg([VInt(80), VInt(100), VInt(1), VInt(3), VInt(1)], []);
      && Conforms(MatchPlayerStateSchema(), m)
      && Serialize(MatchPlayerStateSchema(), m) == [8, 80, 16, 100, 24, 1, 32, 3, 40, 1]
  {
    var S := MatchPlayerStateSchema();
    var m := Msg([VInt(80), VInt(100), VInt(1), VInt(3), VInt(1)], []);
    var rs := [VarintRec(1, 80), VarintRec(2, 100), VarintRec(3, 1), VarintRec(4, 3), VarintRec(5, 1)];
    SampleRecords(m, rs);
    hide Records, Conforms, EncodeRecs, Serialize;
    SmallRecs(rs);
    TenBytes(EncodeRecs(rs), rs);
    SerializeIs(S, m);
  }

  lemma {:induction false} SerializeIs(S: Schema, m: Msg)
    requires Conforms(S, m)
    ensures Serialize(S, m) == EncodeRecs(Records(S, m))
  {}

  lemma {:induction false} SampleRecords(m: Msg, rs: seq<Rec>)
    requires m == Msg([VInt(80), VInt(100), VInt(1), VInt(3), VInt(1)], [])
    requires rs == [VarintRec(1, 80), VarintRec(2, 100), VarintRec(3, 1), VarintRec(4, 3), VarintRec(5, 1)]
    ensures Conforms(MatchPlayerStateSchema(), m) && Records(MatchPlayerStateSchema(), m) == rs
  {
    var S := MatchPlayerStateSchema();
    SampleConforms(m);
    hide Conforms, ValConforms, KnownRecs, Serialize, ElementRecs;
    KnownNext(S, m, 0);
    KnownNext(S, m, 1);
    KnownNext(S, m, 2);
    KnownNext(S, m, 3);
    KnownNext(S, m, 4);
    assert KnownRecs(S, m, 1) == [rs[0]];
    assert KnownRecs(S, m, 2) == [rs[0], rs[1]];
    assert KnownRecs(S, m, 3) == [rs[0], rs[1], rs[2]];
    assert KnownRecs(S, m, 4) == [rs[0], rs[1], rs[2], rs[3]];
  }

  lemma {:induction false} SampleConforms(m: Msg)
    requires m == Msg([VInt(80), VInt(100), VInt(1), VInt(3), VInt(1)], [])
    ensures Conforms(MatchPlayerStateSchema(), m)
  {}

  lemma {:induction false} TenBytes(b: seq<byte>, rs: seq<Rec>)
    requires |rs| == 5 && |b| == 10 && forall i | 0 <= i < 5 :: rs[i].VarintRec? && 0 <= rs[i].v < 128 && rs[i].num < 16
    requires forall i | 0 <= i < 5 :: b[2 * i] == rs[i].num * 8 && b[2 * i + 1] == rs[i].v
    ensures b == [rs[0].num * 8, rs[0].v, rs[1].num * 8, rs[1].v, rs[2].num * 8, rs[2].v, rs[3].num * 8, rs[3].v,
                  rs[4].num * 8, rs[4].v]
  {
    assert b[2 * 0] == rs[0].num * 8 && b[2 * 0 + 1] == rs[0].v;
    assert b[2 * 1] == rs[1].num * 8 && b[2 * 1 + 1] == rs[1].v;
    assert b[2 * 2] == rs[2].num * 8 && b[2 * 2 + 1] == rs[2].v;
    assert b[2 * 3] == rs[3].num * 8 && b[2 * 3 + 1] == rs[3].v;
    assert b[2 * 4] == rs[4].num * 8 && b[2 * 4 + 1] == rs[4].v;
  }

  /** Small numbers under small field numbers take two bytes each. */
  lemma {:induction false} SmallRecs(rs: seq<Rec>)
    requires forall i | 0 <= i < |rs| :: rs[i].VarintRec? && rs[i].num <= 15 && rs[i].v < 128
    ensures |EncodeRecs(rs)| == 2 * |rs|
    ensures forall i | 0 <= i < |rs| :: EncodeRecs(rs)[2 * i] == rs[i].num * 8 && EncodeRecs(rs)[2 * i + 1] == rs[i].v
  {
    if rs != [] {
      var r, rest := rs[0], rs[1..];
      SmallRecs(rest);
      assert EncodeRec(r) == [r.num * 8, r.v];
      var e := EncodeRecs(rest);
      assert EncodeRecs(rs) == [r.num * 8, r.v] + e;
      forall i | 0 <= i < |rs|
        ensures EncodeRecs(rs)[2 * i] == rs[i].num * 8 && EncodeRecs(rs)[2 * i + 1] == rs[i].v
      {
        if i > 0 {
          assert rest[i - 1] == rs[i];
          assert EncodeRecs(rs)[2 * i] == e[2 * (i - 1)] && EncodeRecs(rs)[2 * i + 1] == e[2 * (i - 1) + 1];
        }
      }
    }
  }
}
