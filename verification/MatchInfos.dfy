/** The root of the match messages: scalars, the roster and the player states. */
module MatchInfos {
  import opened Options
  import opened Wire
  import opened Messages
  import opened Schemas
  import opened ParseLoop
  import opened Writer
  import opened Sizes
  import opened Fields
  import opened RoundTrip
  import opened StructLeaves
  import opened RosterEntry
  import opened Repeated

  class MatchInfo {
    var matchId: uint64
    var durationSeconds: uint32
    var redScore: uint32
    var blueScore: uint32
    var matchPlayersInfo: seq<MatchPlayerInfo>
    var matchPlayersState: seq<MatchPlayerState>
    var unknown: seq<Rec>
    var cachedSize: int
    ghost var Infos: set<object>
    ghost var States: set<object>

    ghost predicate Owned()
      reads this, Infos, States
    {
      && this !in Infos && this !in States && Infos !! States
      && InfosOwned(matchPlayersInfo, Infos) && StatesOwned(matchPlayersState, States)
    }

    ghost predicate Valid()
      reads this, Infos, States
    {
      Owned() && ValidSchema(MatchInfoSchema()) && Conforms(MatchInfoSchema(), Model())
    }

    ghost function Model(): Msg
      reads this, Infos, States
      requires Owned()
    {
      Msg([VInt(matchId), VInt(durationSeconds), VInt(redScore), VInt(blueScore),
           VRep(InfoModels(matchPlayersInfo, Infos)), VRep(StateModels(matchPlayersState, States))], unknown)
    }

    /** The bytes the message serialises to. */
    ghost function Encoded(): seq<byte>
      reads this, Infos, States
      requires Valid()
    {
      Serialize(MatchInfoSchema(), Model())
    }

    /** The cached sizes, down to the leaves, are those of the present contents. */
    ghost predicate Sized()
      requires Valid()
      reads this, Infos, States
    {
      && cachedSize == Signed32(LongSize(MatchInfoSchema(), Model()))
      && InfosSized(matchPlayersInfo, Infos) && StatesSized(matchPlayersState, States)
    }

    constructor ()
      ensures Valid() && fresh(Infos) && fresh(States) && Model() == Default(MatchInfoSchema())
    {
      matchId, durationSeconds, redScore, blueScore := 0, 0, 0, 0;
      matchPlayersInfo, matchPlayersState, unknown, cachedSize := [], [], [], 0;
      Infos, States := {}, {};
      new;
      MatchInfoValid();
      DefaultIs(MatchInfoSchema(), Model());
    }

    method Clear()
      requires Valid()
      modifies this
      ensures Valid() && (Infos, States) == old((Infos, States)) && Model() == Default(MatchInfoSchema())
    {
      hide ValidSchema, Conforms;
      matchPlayersInfo, matchPlayersState := [], [];
      matchId, durationSeconds, redScore, blueScore := 0, 0, 0, 0;
      unknown := [];
      DefaultIs(MatchInfoSchema(), Model());
    }

    method InternalParse(buf: seq<byte>, p0: nat, limit: nat, depth: nat) returns (end: Option<nat>)
      requires Valid() && p0 <= limit && limit + SLOP <= |buf|
      modifies this
      ensures Valid() && fresh(Infos - old(Infos)) && fresh(States - old(States))
      ensures match Whole(MatchInfoSchema(), old(Model()), buf, p0, limit, depth)
        case None => end == None
        case Some(m) => end == Some(limit) && Model() == m
    {
      hide Conforms, ValidSchema, Whole, InLoop, ReadItem, ReadTag, InfosOwned, StatesOwned, InfoModels, StateModels;
      ghost var S, m0 := MatchInfoSchema(), Model();
      LoopStarts(S, m0, buf, p0, limit, depth);
      var p := p0;
      while p < limit
        invariant Owned() && fresh(Infos - old(Infos)) && fresh(States - old(States))
        invariant InLoop(S, m0, Model(), buf, p0, p, limit, depth)
        decreases |buf| - p
      {
        ghost var m := Model();
        var t, q := TakeTag(S, m0, m, buf, p0, p, limit, depth);
        if t.None? { return None; }
        var tag := t.value;
        if tag == 8 {
          var next := ParseMatchId(S, m0, buf, p0, p, q, limit, depth);
          if next.None? { return None; }
          p := next.value;
        } else if tag == 16 || tag == 24 || tag == 32 {
          var next := ParseScore(S, m0, buf, p0, p, q, limit, depth, tag);
          if next.None? { return None; }
          p := next.value;
        } else if tag == 42 {
          var next := ParseRoster(S, m0, buf, p0, p, q, limit, depth);
          if next.None? { return None; }
          p := next.value;
        } else if tag == 50 {
          var next := ParsePlayerStates(S, m0, buf, p0, p, q, limit, depth);
          if next.None? { return None; }
          p := next.value;
        } else {
          var r, next := TakeUnknown(S, m0, m, buf, p0, p, q, limit, depth, tag);
          if r.None? { return None; }
          unknown, p := unknown + [r.value], next;
        }
      }
      LoopEnds(S, m0, Model(), buf, p0, p, limit, depth);
      if p == limit { return Some(p); }
      return None;
    }

    method ParseMatchId(ghost S: Schema, ghost m0: Msg, buf: seq<byte>, ghost p0: nat, p: nat, q: nat,
                        limit: nat, depth: nat) returns (end: Option<nat>)
      requires Valid() && S == MatchInfoSchema()
      requires InLoop(S, m0, Model(), buf, p0, p, limit, depth) && p < limit
      requires p <= q <= |buf| && ReadTag(buf[p..]) == Some((8, q - p))
      modifies this`matchId
      ensures Valid()
      ensures match end
        case None => Whole(S, m0, buf, p0, limit, depth).None?
        case Some(next) => InLoop(S, m0, Model(), buf, p0, next, limit, depth) && p < next
    {
      hide Conforms, ValidSchema, Whole, InLoop, ReadItem, ReadTag, InfosOwned, StatesOwned, InfoModels, StateModels;
      ghost var m := Model();
      var v, next := TakeUInt64(S, m0, m, buf, p0, p, q, limit, depth, 1);
      if v.None? { return None; }
      matchId := v.value;
      SetField(S, m, 0, VInt(v.value));
      assert Model() == m.(vals := m.vals[0 := VInt(v.value)]);
      return Some(next);
    }

    /** The cases of the three uint32 fields. */
    method ParseScore(ghost S: Schema, ghost m0: Msg, buf: seq<byte>, ghost p0: nat, p: nat, q: nat,
                      limit: nat, depth: nat, tag: nat) returns (end: Option<nat>)
      requires Valid() && S == MatchInfoSchema() && tag in {16, 24, 32}
      requires InLoop(S, m0, Model(), buf, p0, p, limit, depth) && p < limit
      requires p <= q <= |buf| && ReadTag(buf[p..]) == Some((tag, q - p))
      modifies this`durationSeconds, this`redScore, this`blueScore
      ensures Valid()
      ensures match end
        case None => Whole(S, m0, buf, p0, limit, depth).None?
        case Some(next) => InLoop(S, m0, Model(), buf, p0, next, limit, depth) && p < next
    {
      hide Conforms, ValidSchema, Whole, InLoop, ReadItem, ReadTag, InfosOwned, StatesOwned, InfoModels, StateModels;
      ghost var m := Model();
      var v, next := TakeUInt32(S, m0, m, buf, p0, p, q, limit, depth, tag / 8);
      if v.None? { return None; }
      if tag == 16 {
        durationSeconds := v.value;
      } else if tag == 24 {
        redScore := v.value;
      } else {
        blueScore := v.value;
      }
      SetField(S, m, tag / 8 - 1, VInt(v.value));
      assert Model() == m.(vals := m.vals[tag / 8 - 1 := VInt(v.value)]);
      return Some(next);
    }

    method ParseRoster(ghost S: Schema, ghost m0: Msg, buf: seq<byte>, ghost p0: nat, ghost p: nat, q: nat,
                       limit: nat, depth: nat) returns (end: Option<nat>)
      requires Valid() && S == MatchInfoSchema()
      requires InLoop(S, m0, Model(), buf, p0, p, limit, depth) && p < limit
      requires p < q <= |buf| && ReadTag(buf[p..]) == Some((42, q - p))
      modifies this`matchPlayersInfo, this`Infos
      ensures Valid() && fresh(Infos - old(Infos))
      ensures match end
        case None => Whole(S, m0, buf, p0, limit, depth).None?
        case Some(next) => InLoop(S, m0, Model(), buf, p0, next, limit, depth) && p < next
    {
      hide Conforms, ValidSchema, Whole, InLoop, ReadItem, ReadTag, InfosOwned, StatesOwned, InfoModels, StateModels;
      ghost var m := Model();
      ghost var turns;
      matchPlayersInfo, Infos, end, turns :=
        ParseInfos(matchPlayersInfo, Infos, S, m0, m, buf, p0, p, q, limit, depth, 5, 42);
      SetField(S, m, 4, VRep(InfoModels(matchPlayersInfo, Infos)));
      assert Model() == m.(vals := m.vals[4 := VRep(InfoModels(matchPlayersInfo, Infos))]);
    }

    method ParsePlayerStates(ghost S: Schema, ghost m0: Msg, buf: seq<byte>, ghost p0: nat, ghost p: nat, q: nat,
                             limit: nat, depth: nat) returns (end: Option<nat>)
      requires Valid() && S == MatchInfoSchema()
      requires InLoop(S, m0, Model(), buf, p0, p, limit, depth) && p < limit
      requires p < q <= |buf| && ReadTag(buf[p..]) == Some((50, q - p))
      modifies this`matchPlayersState, this`States
      ensures Valid() && fresh(States - old(States))
      ensures match end
        case None => Whole(S, m0, buf, p0, limit, depth).None?
        case Some(next) => InLoop(S, m0, Model(), buf, p0, next, limit, depth) && p < next
    {
      hide Conforms, ValidSchema, Whole, InLoop, ReadItem, ReadTag, InfosOwned, StatesOwned, InfoModels, StateModels;
      ghost var m := Model();
      ghost var turns;
      matchPlayersState, States, end, turns :=
        ParseStates(matchPlayersState, States, S, m0, m, buf, p0, p, q, limit, depth, 6, 50);
      SetField(S, m, 5, VRep(StateModels(matchPlayersState, States)));
      assert Model() == m.(vals := m.vals[5 := VRep(StateModels(matchPlayersState, States))]);
    }

    method ByteSizeLong() returns (total: nat)
      requires Valid()
      modifies this`cachedSize, Infos, States
      ensures Valid() && Sized() && Model() == old(Model())
      ensures total == LongSize(MatchInfoSchema(), Model()) && Agree(total, |Encoded()|)
    {
      hide ValidSchema, Serialize, EncodeRecs, FieldSize, VarintSize, InfosOwned, InfosSized, InfoModels, StatesOwned,
           StatesSized, StateModels, ElementSizes, MatchPlayerInfoSchema, MatchPlayerStateSchema, RecsSize, LongSize,
           SumSizes, Agree, Conforms;
      ghost var S, m := MatchInfoSchema(), Model();
      MessageSize(S, m);
      LongSizeExact(S, m);
      RepeatedSize(S.fields[4], MatchPlayerInfoSchema(), m.vals[4].ms);
      RepeatedSize(S.fields[5], MatchPlayerStateSchema(), m.vals[5].ms);
      total := InfosSize(matchPlayersInfo, Infos);
      var n := StatesSize(matchPlayersState, States);
      total := total + n;
      n := ScalarsSize(S, m);
      total := total + n;
      SumOf6(S, m);
      n := UnknownSize(unknown);
      total := total + n;
      cachedSize := Signed32(total);
      assert Model() == m;
    }

    method ScalarsSize(ghost S: Schema, ghost m: Msg) returns (total: nat)
      requires Owned() && S == MatchInfoSchema() && m == Model() && Conforms(S, m)
      ensures total == FieldSize(S.fields[0], m.vals[0]) + FieldSize(S.fields[1], m.vals[1])
        + FieldSize(S.fields[2], m.vals[2]) + FieldSize(S.fields[3], m.vals[3])
    {
      hide FieldSize, VarintSize, InfosOwned, InfoModels, StatesOwned, StateModels;
      total := 0;
      ScalarSize(S.fields[0], m.vals[0]);
      if matchId != 0 { total := total + 1 + VarintSize(matchId); }
      ScalarSize(S.fields[1], m.vals[1]);
      if durationSeconds != 0 { total := total + 1 + VarintSize(durationSeconds); }
      ScalarSize(S.fields[2], m.vals[2]);
      if redScore != 0 { total := total + 1 + VarintSize(redScore); }
      ScalarSize(S.fields[3], m.vals[3]);
      if blueScore != 0 { total := total + 1 + VarintSize(blueScore); }
    }

    method InternalSerialize(a: array<byte>, t: nat) returns (t': nat)
      requires Valid() && Sized() && a !in Infos && a !in States && |Encoded()| <= INT_MAX
      requires t + |Encoded()| <= a.Length
      modifies a
      ensures t' == t + |Encoded()|
      ensures Wrote(old(a[..]), a[..], t, Encoded())
    {
      hide ValidSchema, Serialize, Conforms, Wrote, Progress, InfosOwned, InfosSized, InfoModels, StatesOwned,
           StatesSized, StateModels, MatchPlayerInfoSchema, MatchPlayerStateSchema;
      ghost var S, m, a0 := MatchInfoSchema(), Model(), a[..];
      ProgressStarts(S, m, a[..], t);
      t' := PutScores(S, m, a0, a, t);
      t' := PutLists(S, m, a0, a, t, t');
      t' := PutUnknown(S, m, a0, a, t, t', unknown);
      assert Model() == m;
    }

    /** The two loops over the repeated fields. */
    method PutLists(ghost S: Schema, ghost m: Msg, ghost a0: seq<byte>, a: array<byte>, ghost t0: nat, t: nat)
      returns (t': nat)
      requires Valid() && Sized() && a !in Infos && a !in States && S == MatchInfoSchema() && m == Model()
      requires |Serialize(S, m)| <= INT_MAX && Progress(S, m, 4, a0, a[..], t0, t)
      modifies a
      ensures Progress(S, m, 6, a0, a[..], t0, t')
    {
      hide ValidSchema, Serialize, Conforms, Progress, InfosOwned, InfosSized, InfoModels, StatesOwned, StatesSized,
           StateModels, MatchPlayerInfoSchema, MatchPlayerStateSchema;
      PartBound(S, m, 4);
      PartBound(S, m, 5);
      t' := WriteInfos(S, m, a0, a, t0, t, 5, matchPlayersInfo, Infos);
      t' := WriteStates(S, m, a0, a, t0, t', 6, matchPlayersState, States);
    }

    /** The four scalar fields. */
    method PutScores(ghost S: Schema, ghost m: Msg, ghost a0: seq<byte>, a: array<byte>, t: nat) returns (t': nat)
      requires S == MatchInfoSchema() && |m.vals| == 6 && Progress(S, m, 0, a0, a[..], t, t)
      requires m.vals[..4] == [VInt(matchId), VInt(durationSeconds), VInt(redScore), VInt(blueScore)]
      modifies a
      ensures Progress(S, m, 4, a0, a[..], t, t')
    {
      hide Serialize, Conforms, Wrote, Progress, MatchPlayerInfoSchema, MatchPlayerStateSchema;
      assert forall i | 0 <= i < 4 :: m.vals[i] == m.vals[..4][i];
      t' := PutVarint(S, m, a0, a, t, t, 1, matchId);
      t' := PutVarint(S, m, a0, a, t, t', 2, durationSeconds);
      t' := PutVarint(S, m, a0, a, t, t', 3, redScore);
      t' := PutVarint(S, m, a0, a, t, t', 4, blueScore);
    }

    method MergeFrom(from: MatchInfo)
      requires Valid() && from.Valid() && from != this && this !in from.Infos && this !in from.States
      modifies this
      ensures Valid() && fresh(Infos - old(Infos)) && fresh(States - old(States))
      ensures Model() == Merge(MatchInfoSchema(), old(Model()), from.Model())
    {
      hide ValidSchema, Conforms, Merge, Pick, InfosOwned, InfoModels, StatesOwned, StateModels, MatchInfoSchema,
           MatchPlayerInfoSchema, MatchPlayerStateSchema;
      MergeMatchInfo([matchId, durationSeconds, redScore, blueScore], InfoModels(matchPlayersInfo, Infos),
                     StateModels(matchPlayersState, States), unknown,
                     [from.matchId, from.durationSeconds, from.redScore, from.blueScore],
                     InfoModels(from.matchPlayersInfo, from.Infos), StateModels(from.matchPlayersState, from.States),
                     from.unknown);
      MergeLists(from);
      MergeScores(from);
      unknown := unknown + from.unknown;
    }

    method MergeLists(from: MatchInfo)
      requires Owned() && from.Owned() && from != this && this !in from.Infos && this !in from.States
      modifies this`matchPlayersInfo, this`Infos, this`matchPlayersState, this`States
      ensures Owned() && fresh(Infos - old(Infos)) && fresh(States - old(States))
      ensures InfoModels(matchPlayersInfo, Infos)
        == old(InfoModels(matchPlayersInfo, Infos)) + old(InfoModels(from.matchPlayersInfo, from.Infos))
      ensures StateModels(matchPlayersState, States)
        == old(StateModels(matchPlayersState, States)) + old(StateModels(from.matchPlayersState, from.States))
    {
      hide InfosOwned, InfoModels, StatesOwned, StateModels;
      matchPlayersInfo, Infos := MergeInfos(matchPlayersInfo, Infos, from.matchPlayersInfo, from.Infos);
      matchPlayersState, States := MergeStates(matchPlayersState, States, from.matchPlayersState, from.States);
    }

    method MergeScores(from: MatchInfo)
      modifies this`matchId, this`durationSeconds, this`redScore, this`blueScore
      ensures matchId == Pick(old(matchId), old(from.matchId))
      ensures durationSeconds == Pick(old(durationSeconds), old(from.durationSeconds))
      ensures redScore == Pick(old(redScore), old(from.redScore))
      ensures blueScore == Pick(old(blueScore), old(from.blueScore))
    {
      if from.matchId != 0 { matchId := from.matchId; }
      if from.durationSeconds != 0 { durationSeconds := from.durationSeconds; }
      if from.redScore != 0 { redScore := from.redScore; }
      if from.blueScore != 0 { blueScore := from.blueScore; }
    }

    method CopyFrom(from: MatchInfo)
      requires Valid() && from.Valid() && this !in from.Infos && this !in from.States
      modifies this
      ensures Valid() && fresh(Infos - old(Infos)) && fresh(States - old(States)) && Model() == old(from.Model())
    {
      if from == this { return; }
      hide Conforms, ValidSchema, Owned, Model, MatchInfoSchema;
      Clear();
      MergeIntoCleared(from);
    }

    method MergeIntoCleared(from: MatchInfo)
      requires Valid() && from.Valid() && from != this && this !in from.Infos && this !in from.States
      requires Model() == Default(MatchInfoSchema())
      modifies this
      ensures Valid() && fresh(Infos - old(Infos)) && fresh(States - old(States)) && Model() == old(from.Model())
    {
      hide Conforms, ValidSchema, Merge, Owned, Model, MatchInfoSchema;
      MergeIntoDefault(MatchInfoSchema(), from.Model());
      MergeFrom(from);
    }
  }

  /** A message with these scalars, roster, states and unknown fields. */
  function MatchMsg(v: seq<int>, infos: seq<Msg>, states: seq<Msg>, unknown: seq<Rec>): Msg
    requires |v| == 4
  {
    Msg([VInt(v[0]), VInt(v[1]), VInt(v[2]), VInt(v[3]), VRep(infos), VRep(states)], unknown)
  }

  lemma {:induction false} MergeMatchInfo(v: seq<int>, infos: seq<Msg>, states: seq<Msg>, u: seq<Rec>, v': seq<int>,
                                          infos': seq<Msg>, states': seq<Msg>, u': seq<Rec>)
    requires |v| == |v'| == 4
    requires Conforms(MatchInfoSchema(), MatchMsg(v, infos, states, u))
    requires Conforms(MatchInfoSchema(), MatchMsg(v', infos', states', u'))
    ensures Merge(MatchInfoSchema(), MatchMsg(v, infos, states, u), MatchMsg(v', infos', states', u'))
         == MatchMsg([Pick(v[0], v'[0]), Pick(v[1], v'[1]), Pick(v[2], v'[2]), Pick(v[3], v'[3])],
                     infos + infos', states + states', u + u')
  {
    hide MatchPlayerInfoSchema, MatchPlayerStateSchema, Merge, Conforms;
    var S, a, b := MatchInfoSchema(), MatchMsg(v, infos, states, u), MatchMsg(v', infos', states', u');
    var c := MatchMsg([Pick(v[0], v'[0]), Pick(v[1], v'[1]), Pick(v[2], v'[2]), Pick(v[3], v'[3])],
                      infos + infos', states + states', u + u');
    forall i | 0 <= i < 6 ensures ValConforms(S.fields[i].kind, a.vals[i]) && ValConforms(S.fields[i].kind, b.vals[i]) {
      ConformsField(S, a, i);
      ConformsField(S, b, i);
    }
    assert c.vals[0] == MergeVal(S.fields[0].kind, a.vals[0], b.vals[0]);
    assert c.vals[1] == MergeVal(S.fields[1].kind, a.vals[1], b.vals[1]);
    assert c.vals[2] == MergeVal(S.fields[2].kind, a.vals[2], b.vals[2]);
    assert c.vals[3] == MergeVal(S.fields[3].kind, a.vals[3], b.vals[3]);
    assert c.vals[4] == MergeVal(S.fields[4].kind, a.vals[4], b.vals[4]);
    assert c.vals[5] == MergeVal(S.fields[5].kind, a.vals[5], b.vals[5]);
    hide MergeVal;
    MergeIs(S, a, b, c);
  }
}
