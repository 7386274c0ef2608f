/** The roster entry of Struct.pb.cc: one level above PlayerInfo. */
module RosterEntry {
  import opened Options
  import opened Wire
  import opened Messages
  import opened Schemas
  import opened ParseLoop
  import opened Writer
  import opened Sizes
  import opened Fields
  import opened RoundTrip
  import opened StructNodes

  /** A player together with the chosen character and the team. */
  class MatchPlayerInfo {
    var playerInfo: PlayerInfo?
    var playerType: int32
    var team: int32
    var unknown: seq<Rec>
    var cachedSize: int
    ghost var Repr: set<object>

    ghost predicate Owned()
      reads this`playerInfo, this`Repr, Repr - {this}
    {
      && this in Repr
      && (playerInfo != null ==>
        playerInfo in Repr && playerInfo.Repr <= Repr && this !in playerInfo.Repr && playerInfo.Valid())
    }

    ghost predicate Valid()
      reads this, Repr
    {
      Owned() && ValidSchema(MatchPlayerInfoSchema()) && Conforms(MatchPlayerInfoSchema(), Model())
    }

    ghost function Model(): Msg
      reads this, Repr
      requires Owned()
    {
      Msg([VOpt(Player()), VInt(playerType), VInt(team)], unknown)
    }

    ghost function Player(): (o: Option<Msg>)
      reads this`playerInfo, this`Repr, Repr - {this}
      requires Owned()
      ensures o.Some? ==> Conforms(PlayerInfoSchema(), o.value)
    {
      if playerInfo == null then None else Some(playerInfo.Model())
    }

    ghost predicate Sized()
      requires Valid()
      reads this, Repr
    {
      && cachedSize == Signed32(LongSize(MatchPlayerInfoSchema(), Model()))
      && (playerInfo != null ==> playerInfo.Sized())
    }

    constructor ()
      ensures Valid() && fresh(Repr) && Model() == Default(MatchPlayerInfoSchema())
    {
      playerInfo, playerType, team, unknown, cachedSize := null, 0, 0, [], 0;
      Repr := {this};
      new;
      NodesValid();
      DefaultIs(MatchPlayerInfoSchema(), Model());
    }

    method Clear()
      requires Valid()
      modifies this
      ensures Valid() && Repr == old(Repr) && Model() == Default(MatchPlayerInfoSchema())
    {
      hide ValidSchema, Conforms;
      playerInfo, playerType, team, unknown := null, 0, 0, [];
      DefaultIs(MatchPlayerInfoSchema(), Model());
    }

    method InternalParse(buf: seq<byte>, p0: nat, limit: nat, depth: nat) returns (end: Option<nat>)
      requires Valid() && p0 <= limit && limit + SLOP <= |buf|
      modifies Repr
      ensures Valid() && fresh(Repr - old(Repr))
      ensures match Whole(MatchPlayerInfoSchema(), old(Model()), buf, p0, limit, depth)
        case None => end == None
        case Some(m) => end == Some(limit) && Model() == m
    {
      hide PlayerInfoSchema, PlayerInfo.Model, Conforms, ValidSchema, Whole, InLoop, ReadItem, ReadTag;
      ghost var S, m0 := MatchPlayerInfoSchema(), Model();
      LoopStarts(S, m0, buf, p0, limit, depth);
      var p := p0;
      while p < limit
        invariant Owned() && fresh(Repr - old(Repr))
        invariant InLoop(S, m0, Model(), buf, p0, p, limit, depth)
        decreases |buf| - p
      {
        ghost var m := Model();
        var t, q := TakeTag(S, m0, m, buf, p0, p, limit, depth);
        if t.None? { return None; }
        var tag := t.value;
        if tag == 10 {
          var next := ParsePlayerInfo(S, m0, buf, p0, p, q, limit, depth);
          if next.None? { return None; }
          p := next.value;
        } else if tag == 16 {
          var v, next := TakeEnum(S, m0, m, buf, p0, p, q, limit, depth, 2);
          if v.None? { return None; }
          playerType, p := v.value, next;
          assert Model() == m.(vals := m.vals[1 := VInt(playerType)]);
        } else if tag == 24 {
          var v, next := TakeEnum(S, m0, m, buf, p0, p, q, limit, depth, 3);
          if v.None? { return None; }
          team, p := v.value, next;
          assert Model() == m.(vals := m.vals[2 := VInt(team)]);
        } else {
          var r, next := TakeUnknown(S, m0, m, buf, p0, p, q, limit, depth, tag);
          if r.None? { return None; }
          unknown, p := unknown + [r.value], next;
        }
      }
      LoopEnds(S, m0, Model(), buf, p0, p, limit, depth);
      if p == limit { return Some(p); }
      return None;
    }

    /** ParseMessage(mutable_player_info()). */
    method ParsePlayerInfo(ghost S: Schema, ghost m0: Msg, buf: seq<byte>, ghost p0: nat, p: nat, q: nat,
                           limit: nat, depth: nat) returns (end: Option<nat>)
      requires Valid() && S == MatchPlayerInfoSchema()
      requires InLoop(S, m0, Model(), buf, p0, p, limit, depth) && p < limit
      requires p <= q <= |buf| && ReadTag(buf[p..]) == Some((10, q - p))
      modifies Repr
      ensures Valid() && fresh(Repr - old(Repr))
      ensures match end
        case None => Whole(S, m0, buf, p0, limit, depth).None?
        case Some(next) => InLoop(S, m0, Model(), buf, p0, next, limit, depth) && p < next
    {
      hide PlayerInfoSchema, PlayerInfo.Model, Conforms, ValidSchema, Whole, InLoop, ReadItem, ReadTag;
      ghost var m := Model();
      if playerInfo == null {
        playerInfo := new PlayerInfo();
        Repr := Repr + playerInfo.Repr;
      }
      ghost var base := playerInfo.Model();
      SetSubmessage(S, m, 0, PlayerInfoSchema(), base);
      assert Model() == m.(vals := m.vals[0 := VOpt(Some(base))]);
      var start, next := TakeLength(S, m0, m, buf, p0, p, q, limit, depth, 10);
      if start.None? { return None; }
      SubmessageTurn(S, m0, m, buf, p0, p, start.value, next, limit, depth, 1, PlayerInfoSchema(), base);
      if depth == 0 { return None; }
      var e := playerInfo.InternalParse(buf, start.value, next, depth - 1);
      Repr := Repr + playerInfo.Repr;
      SetSubmessage(S, m, 0, PlayerInfoSchema(), playerInfo.Model());
      assert Model() == m.(vals := m.vals[0 := VOpt(Some(playerInfo.Model()))]);
      return if e.None? then None else Some(next);
    }

    method ByteSizeLong() returns (total: nat)
      requires Valid()
      modifies Repr
      ensures Valid() && Repr == old(Repr) && Sized() && Model() == old(Model())
      ensures total == LongSize(MatchPlayerInfoSchema(), Model())
      ensures Agree(total, |Serialize(MatchPlayerInfoSchema(), Model())|)
    {
      hide ValidSchema, Serialize, EncodeRecs, FieldSize, VarintSize, RecsSize, LongSize, SumSizes, Agree;
      ghost var S, m := MatchPlayerInfoSchema(), Model();
      MessageSize(S, m);
      LongSizeExact(S, m);
      total := 0;
      var n := PlayerInfoSize(S, m);
      total := total + n;
      ScalarSize(S.fields[1], m.vals[1]);
      if playerType != 0 { total := total + 1 + VarintSize(SignExtend(playerType)); }
      ScalarSize(S.fields[2], m.vals[2]);
      if team != 0 { total := total + 1 + VarintSize(SignExtend(team)); }
      SumOf3(S, m);
      n := UnknownSize(unknown);
      total := total + n;
      cachedSize := Signed32(total);
      assert Model() == m;
    }

    /** Tag, length and body of the nested message, if there is one. */
    method PlayerInfoSize(ghost S: Schema, ghost m: Msg) returns (total: nat)
      requires Valid() && S == MatchPlayerInfoSchema() && m == Model()
      modifies Repr - {this}
      ensures Owned() && Model() == m && total == FieldSize(S.fields[0], m.vals[0])
      ensures playerInfo != null ==> playerInfo.Sized()
    {
      hide ValidSchema, Serialize, FieldSize, VarintSize, Conforms, LongSize, PlayerInfoSchema;
      SubmessageSize(S.fields[0], m.vals[0]);
      total := 0;
      if playerInfo != null {
        var size := playerInfo.ByteSizeLong();
        total := total + 1 + VarintSize(size % TWO32) + size;
      }
    }

    method InternalSerialize(a: array<byte>, t: nat) returns (t': nat)
      requires Valid() && Sized() && |Serialize(MatchPlayerInfoSchema(), Model())| <= INT_MAX
      requires t + |Serialize(MatchPlayerInfoSchema(), Model())| <= a.Length
      modifies a
      ensures t' == t + |Serialize(MatchPlayerInfoSchema(), Model())|
      ensures Wrote(old(a[..]), a[..], t, Serialize(MatchPlayerInfoSchema(), Model()))
    {
      hide LongSize, Signed32, ValidSchema, Serialize, Conforms, Wrote, Progress, EncodeTag, EncodeVarint, EncodeRec;
      ghost var S, m, a0 := MatchPlayerInfoSchema(), Model(), a[..];
      ProgressStarts(S, m, a[..], t);
      t' := t;
      if playerInfo == null {
        AbsentWritten(S, m, 1, a0, a[..], t, t');
      } else {
        ghost var sub := Serialize(PlayerInfoSchema(), playerInfo.Model());
        PartBound(S, m, 0);
        CachedLength(PlayerInfoSchema(), playerInfo.Model(), playerInfo.cachedSize);
        ghost var b, t1 := a[..], t';
        NestedFits(S, m, 1, a0, b, t, t1, sub);
        t' := WriteLengthHeader(a, t', 1, playerInfo.cachedSize % TWO32);
        ghost var c := a[..];
        t' := playerInfo.InternalSerialize(a, t');
        NestedWritten(S, m, 1, a0, b, c, a[..], t, t1, sub);
      }
      t' := PutInt32(S, m, a0, a, t, t', 2, playerType);
      t' := PutInt32(S, m, a0, a, t, t', 3, team);
      t' := PutUnknown(S, m, a0, a, t, t', unknown);
    }

    method MergeFrom(from: MatchPlayerInfo)
      requires Valid() && from.Valid() && Repr !! from.Repr
      modifies Repr
      ensures Valid() && fresh(Repr - old(Repr))
      ensures Model() == Merge(MatchPlayerInfoSchema(), old(Model()), from.Model())
    {
      hide ValidSchema, Conforms, Merge, MergeOptional, MatchPlayerInfoSchema, PlayerInfoSchema, Player, Pick;
      ghost var x, y := Model(), from.Model();
      MergeRosterEntry(x, y);
      MergePlayer(from);
      MergeNumbers(from);
      unknown := unknown + from.unknown;
    }

    method MergeNumbers(from: MatchPlayerInfo)
      modifies this`playerType, this`team
      ensures playerType == Pick(old(playerType), from.playerType) && team == Pick(old(team), from.team)
    {
      if from.playerType != 0 { playerType := from.playerType; }
      if from.team != 0 { team := from.team; }
    }

    /** mutable_player_info()->MergeFrom, when the other side has one. */
    method MergePlayer(from: MatchPlayerInfo)
      requires Owned() && from.Owned() && Repr !! from.Repr
      modifies Repr
      ensures Owned() && fresh(Repr - old(Repr))
      ensures (playerType, team, unknown) == old((playerType, team, unknown))
      ensures Player() == MergeOptional(PlayerInfoSchema(), old(Player()), from.Player())
    {
      hide ValidSchema, Conforms, Merge, PlayerInfoSchema;
      if from.playerInfo != null {
        if playerInfo == null {
          playerInfo := new PlayerInfo();
          Repr := Repr + playerInfo.Repr;
        }
        playerInfo.MergeFrom(from.playerInfo);
        Repr := Repr + playerInfo.Repr;
      }
    }

    method CopyFrom(from: MatchPlayerInfo)
      requires Valid() && from.Valid() && (from == this || Repr !! from.Repr)
      modifies Repr
      ensures Valid() && fresh(Repr - old(Repr)) && Model() == old(from.Model())
    {
      if from == this { return; }
      hide Conforms, ValidSchema, Merge;
      Clear();
      MergeFrom(from);
      MergeIntoDefault(MatchPlayerInfoSchema(), from.Model());
    }
  }

  lemma {:induction false} MergeRosterEntry(a: Msg, b: Msg)
    requires Conforms(MatchPlayerInfoSchema(), a) && Conforms(MatchPlayerInfoSchema(), b)
    ensures a.vals[0].VOpt? && a.vals[1].VInt? && a.vals[2].VInt?
    ensures b.vals[0].VOpt? && b.vals[1].VInt? && b.vals[2].VInt?
    ensures a.vals[0].o.Some? ==> Conforms(PlayerInfoSchema(), a.vals[0].o.value)
    ensures b.vals[0].o.Some? ==> Conforms(PlayerInfoSchema(), b.vals[0].o.value)
    ensures Merge(MatchPlayerInfoSchema(), a, b)
         == Msg([VOpt(MergeOptional(PlayerInfoSchema(), a.vals[0].o, b.vals[0].o)),
                 VInt(Pick(a.vals[1].i, b.vals[1].i)), VInt(Pick(a.vals[2].i, b.vals[2].i))], a.unknown + b.unknown)
  {
    var S := MatchPlayerInfoSchema();
    var sub := PlayerInfoSchema();
    assert ValConforms(S.fields[0].kind, a.vals[0]) && ValConforms(S.fields[0].kind, b.vals[0]);
    assert ValConforms(S.fields[1].kind, a.vals[1]) && ValConforms(S.fields[1].kind, b.vals[1]);
    assert ValConforms(S.fields[2].kind, a.vals[2]) && ValConforms(S.fields[2].kind, b.vals[2]);
    hide Conforms, Merge, ValidSchema, PlayerInfoSchema;
    MergeIs(S, a, b, Msg([VOpt(MergeOptional(sub, a.vals[0].o, b.vals[0].o)), VInt(Pick(a.vals[1].i, b.vals[1].i)),
                          VInt(Pick(a.vals[2].i, b.vals[2].i))], a.unknown + b.unknown));
  }
}
