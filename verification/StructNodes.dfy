/** The message classes of Struct.pb.cc that own other messages. Sizes are computed first and cached in
    every nested message; serialising then trusts the caches. */
module StructNodes {
  import opened Options
  import opened Wire
  import opened Messages
  import opened Schemas
  import opened ParseLoop
  import opened Writer
  import opened Sizes
  import opened Fields
  import opened RoundTrip
  import opened StructLeaves

  /** Identity, position and name of one player. */
  class PlayerInfo {
    var objectId: uint64
    var moveInfo: MoveInfo?
    var nickname: seq<byte>
    var unknown: seq<Rec>
    var cachedSize: int
    ghost var Repr: set<object>

    function Model(): Msg
      reads this, moveInfo
    {
      Msg([VInt(objectId), VOpt(if moveInfo == null then None else Some(moveInfo.Model())), VBytes(nickname)], unknown)
    }

    ghost predicate Owned()
      reads this, Repr
    {
      this in Repr && (moveInfo != null ==> moveInfo in Repr && moveInfo.Valid())
    }

    ghost predicate Valid()
      reads this, Repr
    {
      Owned() && ValidSchema(PlayerInfoSchema()) && Conforms(PlayerInfoSchema(), Model())
    }

    /** The cached sizes are those of the present contents. */
    ghost predicate Sized()
      requires Valid()
      reads this, Repr
    {
      && cachedSize == Signed32(LongSize(PlayerInfoSchema(), Model()))
      && (moveInfo != null ==> moveInfo.cachedSize == Signed32(LongSize(MoveInfoSchema(), moveInfo.Model())))
    }

    constructor ()
      ensures Valid() && fresh(Repr) && Model() == Default(PlayerInfoSchema())
    {
      objectId, moveInfo, nickname, unknown, cachedSize := 0, null, [], [], 0;
      Repr := {this};
      new;
      NodesValid();
      DefaultIs(PlayerInfoSchema(), Model());
    }

    method Clear()
      requires Valid()
      modifies this
      ensures Valid() && Repr == old(Repr) && Model() == Default(PlayerInfoSchema())
    {
      hide ValidSchema, Conforms;
      objectId, moveInfo, nickname, unknown := 0, null, [], [];
      DefaultIs(PlayerInfoSchema(), Model());
    }

    method InternalParse(buf: seq<byte>, p0: nat, limit: nat, depth: nat) returns (end: Option<nat>)
      requires Valid() && p0 <= limit && limit + SLOP <= |buf|
      modifies Repr
      ensures Valid() && fresh(Repr - old(Repr))
      ensures match Whole(PlayerInfoSchema(), old(Model()), buf, p0, limit, depth)
        case None => end == None
        case Some(m) => end == Some(limit) && Model() == m
    {
      hide Conforms, ValidSchema, Whole, InLoop, ReadItem, ReadTag;
      ghost var S, m0 := PlayerInfoSchema(), Model();
      LoopStarts(S, m0, buf, p0, limit, depth);
      var p := p0;
      while p < limit
        invariant Owned() && fresh(Repr - old(Repr))
        invariant InLoop(S, m0, Model(), buf, p0, p, limit, depth)
        decreases |buf| - p
      {
        ghost var m := Model();
        var t, q := TakeTag(S, m0, m, buf, p0, p, limit, depth);
        if t.None? { return None; }
        var tag := t.value;
        if tag == 8 {
          var v, next := TakeUInt64(S, m0, m, buf, p0, p, q, limit, depth, 1);
          if v.None? { return None; }
          objectId, p := v.value, next;
          assert Model() == m.(vals := m.vals[0 := VInt(objectId)]);
        } else if tag == 18 {
          var next := ParseMoveInfo(S, m0, buf, p0, p, q, limit, depth);
          if next.None? { return None; }
          p := next.value;
        } else if tag == 26 {
          var v, next := TakeString(S, m0, m, buf, p0, p, q, limit, depth, 3);
          if v.None? { return None; }
          nickname, p := v.value, next;
          assert Model() == m.(vals := m.vals[2 := VBytes(nickname)]);
        } else {
          var r, next := TakeUnknown(S, m0, m, buf, p0, p, q, limit, depth, tag);
          if r.None? { return None; }
          unknown, p := unknown + [r.value], next;
        }
      }
      LoopEnds(S, m0, Model(), buf, p0, p, limit, depth);
      if p == limit { return Some(p); }
      return None;
    }

    /** ParseMessage(mutable_move_info()): creates the submessage if there is none, then parses into it. */
    method ParseMoveInfo(ghost S: Schema, ghost m0: Msg, buf: seq<byte>, ghost p0: nat, p: nat, q: nat,
                         limit: nat, depth: nat) returns (end: Option<nat>)
      requires Valid() && S == PlayerInfoSchema()
      requires InLoop(S, m0, Model(), buf, p0, p, limit, depth) && p < limit
      requires p <= q <= |buf| && ReadTag(buf[p..]) == Some((18, q - p))
      modifies Repr
      ensures Valid() && fresh(Repr - old(Repr))
      ensures match end
        case None => Whole(S, m0, buf, p0, limit, depth).None?
        case Some(next) => InLoop(S, m0, Model(), buf, p0, next, limit, depth) && p < next
    {
      hide Conforms, ValidSchema, Whole, InLoop, ReadItem, ReadTag;
      ghost var m := Model();
      if moveInfo == null {
        moveInfo := new MoveInfo();
        Repr := Repr + {moveInfo};
      }
      ghost var base := moveInfo.Model();
      SetSubmessage(S, m, 1, MoveInfoSchema(), base);
      assert Model() == m.(vals := m.vals[1 := VOpt(Some(base))]);
      var start, next := TakeLength(S, m0, m, buf, p0, p, q, limit, depth, 18);
      if start.None? { return None; }
      SubmessageTurn(S, m0, m, buf, p0, p, start.value, next, limit, depth, 2, MoveInfoSchema(), base);
      if depth == 0 { return None; }
      var e := moveInfo.InternalParse(buf, start.value, next, depth - 1);
      SetSubmessage(S, m, 1, MoveInfoSchema(), moveInfo.Model());
      assert Model() == m.(vals := m.vals[1 := VOpt(Some(moveInfo.Model()))]);
      return if e.None? then None else Some(next);
    }

    method ByteSizeLong() returns (total: nat)
      requires Valid()
      modifies Repr
      ensures Valid() && Repr == old(Repr) && Sized() && Model() == old(Model())
      ensures total == LongSize(PlayerInfoSchema(), Model()) && Agree(total, |Serialize(PlayerInfoSchema(), Model())|)
    {
      hide ValidSchema, Serialize, EncodeRecs, FieldSize, VarintSize, RecsSize, LongSize, SumSizes, Agree;
      ghost var S, m := PlayerInfoSchema(), Model();
      MessageSize(S, m);
      LongSizeExact(S, m);
      total := 0;
      StringSize(S.fields[2], m.vals[2]);
      if nickname != [] { total := total + 1 + VarintSize(|nickname| % TWO32) + |nickname|; }
      var n := MoveInfoSize(S, m);
      total := total + n;
      ScalarSize(S.fields[0], m.vals[0]);
      if objectId != 0 { total := total + 1 + VarintSize(objectId); }
      SumOf3(S, m);
      n := UnknownSize(unknown);
      total := total + n;
      cachedSize := Signed32(total);
      assert Model() == m;
    }

    /** Tag, length and body of the nested message, if there is one. */
    method MoveInfoSize(ghost S: Schema, ghost m: Msg) returns (total: nat)
      requires Valid() && S == PlayerInfoSchema() && m == Model()
      modifies moveInfo
      ensures Owned() && Model() == m && total == FieldSize(S.fields[1], m.vals[1])
      ensures moveInfo != null ==> moveInfo.cachedSize == Signed32(LongSize(MoveInfoSchema(), moveInfo.Model()))
    {
      hide ValidSchema, Serialize, FieldSize, VarintSize, Conforms, LongSize;
      SubmessageSize(S.fields[1], m.vals[1]);
      total := 0;
      if moveInfo != null {
        var size := moveInfo.ByteSizeLong();
        total := total + 1 + VarintSize(size % TWO32) + size;
      }
    }

    method InternalSerialize(a: array<byte>, t: nat) returns (t': nat)
      requires Valid() && Sized() && |Serialize(PlayerInfoSchema(), Model())| <= INT_MAX
      requires t + |Serialize(PlayerInfoSchema(), Model())| <= a.Length
      modifies a
      ensures t' == t + |Serialize(PlayerInfoSchema(), Model())|
      ensures Wrote(old(a[..]), a[..], t, Serialize(PlayerInfoSchema(), Model()))
    {
      hide LongSize, Signed32, ValidSchema, Serialize, Conforms, Wrote, Progress, EncodeTag, EncodeVarint, EncodeRec;
      ghost var S, m, a0 := PlayerInfoSchema(), Model(), a[..];
      ProgressStarts(S, m, a[..], t);
      t' := PutVarint(S, m, a0, a, t, t, 1, objectId);
      if moveInfo == null {
        AbsentWritten(S, m, 2, a0, a[..], t, t');
      } else {
        ghost var sub := Serialize(MoveInfoSchema(), moveInfo.Model());
        PartBound(S, m, 1);
        CachedLength(MoveInfoSchema(), moveInfo.Model(), moveInfo.cachedSize);
        ghost var b, t1 := a[..], t';
        NestedFits(S, m, 2, a0, b, t, t1, sub);
        t' := WriteLengthHeader(a, t', 2, moveInfo.cachedSize % TWO32);
        ghost var c := a[..];
        t' := moveInfo.InternalSerialize(a, t');
        NestedWritten(S, m, 2, a0, b, c, a[..], t, t1, sub);
      }
      t' := PutString(S, m, a0, a, t, t', 3, nickname);
      t' := PutUnknown(S, m, a0, a, t, t', unknown);
    }

    method MergeFrom(from: PlayerInfo)
      requires Valid() && from.Valid() && Repr !! from.Repr
      modifies Repr
      ensures Valid() && fresh(Repr - old(Repr))
      ensures Model() == Merge(PlayerInfoSchema(), old(Model()), from.Model())
    {
      hide ValidSchema, Conforms, Merge;
      ghost var x, y := Model(), from.Model();
      if from.nickname != [] { nickname := from.nickname; }
      if from.moveInfo != null {
        if moveInfo == null {
          moveInfo := new MoveInfo();
          Repr := Repr + {moveInfo};
        }
        moveInfo.MergeFrom(from.moveInfo);
      }
      if from.objectId != 0 { objectId := from.objectId; }
      unknown := unknown + from.unknown;
      MergePlayerInfo(x, y);
    }

    method CopyFrom(from: PlayerInfo)
      requires Valid() && from.Valid() && (from == this || Repr !! from.Repr)
      modifies Repr
      ensures Valid() && fresh(Repr - old(Repr)) && Model() == old(from.Model())
    {
      if from == this { return; }
      hide Conforms, ValidSchema, Merge;
      Clear();
      MergeFrom(from);
      MergeIntoDefault(PlayerInfoSchema(), from.Model());
    }
  }

  lemma {:induction false} MergePlayerInfo(a: Msg, b: Msg)
    requires Conforms(PlayerInfoSchema(), a) && Conforms(PlayerInfoSchema(), b)
    ensures a.vals[0].VInt? && a.vals[1].VOpt? && a.vals[2].VBytes?
    ensures b.vals[0].VInt? && b.vals[1].VOpt? && b.vals[2].VBytes?
    ensures a.vals[1].o.Some? ==> Conforms(MoveInfoSchema(), a.vals[1].o.value)
    ensures b.vals[1].o.Some? ==> Conforms(MoveInfoSchema(), b.vals[1].o.value)
    ensures Merge(PlayerInfoSchema(), a, b)
         == Msg([VInt(Pick(a.vals[0].i, b.vals[0].i)),
                 VOpt(MergeOptional(MoveInfoSchema(), a.vals[1].o, b.vals[1].o)),
                 if b.vals[2].s != [] then b.vals[2] else a.vals[2]], a.unknown + b.unknown)
  {
    var S := PlayerInfoSchema();
    var sub := MoveInfoSchema();
    assert ValConforms(S.fields[0].kind, a.vals[0]) && ValConforms(S.fields[0].kind, b.vals[0]);
    assert ValConforms(S.fields[1].kind, a.vals[1]) && ValConforms(S.fields[1].kind, b.vals[1]);
    assert ValConforms(S.fields[2].kind, a.vals[2]) && ValConforms(S.fields[2].kind, b.vals[2]);
    hide Conforms, Merge, ValidSchema;
    MergeIs(S, a, b, Msg([VInt(Pick(a.vals[0].i, b.vals[0].i)), VOpt(MergeOptional(sub, a.vals[1].o, b.vals[1].o)),
                          if b.vals[2].s != [] then b.vals[2] else a.vals[2]], a.unknown + b.unknown));
  }
}
