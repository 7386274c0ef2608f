/** The leaf message classes of Struct.pb.cc: fields updated in place by parsing, merging and clearing, and a
    cached size. Every method is specified by the functions of Messages on the abstract value Model(). */
module StructLeaves {
  import opened Options
  import opened Wire
  import opened Messages
  import opened Schemas
  import opened ParseLoop
  import opened Writer
  import opened Sizes
  import opened Fields
  import opened RoundTrip

  /** Position, heading and move state; floats are 32-bit patterns. */
  class MoveInfo {
    var x: uint32
    var y: uint32
    var z: uint32
    var yaw: uint32
    var state: int32
    var unknown: seq<Rec>
    var cachedSize: int

    function Model(): Msg
      reads this
    {
      Msg([VInt(x), VInt(y), VInt(z), VInt(yaw), VInt(state)], unknown)
    }

    ghost predicate Valid()
      reads this
    {
      ValidSchema(MoveInfoSchema()) && Conforms(MoveInfoSchema(), Model())
    }

    constructor ()
      ensures Valid() && Model() == Default(MoveInfoSchema())
    {
      x := 0;
      y := 0;
      z := 0;
      yaw := 0;
      state := 0;
      unknown, cachedSize := [], 0;
      new;
      LeavesValid();
      DefaultIs(MoveInfoSchema(), Model());
    }

    method Clear()
      requires Valid()
      modifies this
      ensures Valid() && Model() == Default(MoveInfoSchema())
    {
      hide ValidSchema, Conforms;
      x := 0;
      y := 0;
      z := 0;
      yaw := 0;
      state := 0;
      unknown := [];
      DefaultIs(MoveInfoSchema(), Model());
    }

    method InternalParse(buf: seq<byte>, p0: nat, limit: nat, depth: nat) returns (end: Option<nat>)
      requires Valid() && p0 <= limit && limit + SLOP <= |buf|
      modifies this
      ensures Valid()
      ensures match Whole(MoveInfoSchema(), old(Model()), buf, p0, limit, depth)
        case None => end == None
        case Some(m) => end == Some(limit) && Model() == m
    {
      hide Conforms, ValidSchema, Whole, InLoop, ReadItem, ReadTag;
      ghost var S, m0 := MoveInfoSchema(), Model();
      LoopStarts(S, m0, buf, p0, limit, depth);
      var p := p0;
      while p < limit
        invariant InLoop(S, m0, Model(), buf, p0, p, limit, depth)
        decreases |buf| - p
      {
        ghost var m := Model();
        var t, q := TakeTag(S, m0, m, buf, p0, p, limit, depth);
        if t.None? { return None; }
        var tag := t.value;
        if tag == 13 {
          var v, next := TakeFloat(S, m0, m, buf, p0, p, q, limit, depth, 1);
          x, p := v, next;
          assert Model() == m.(vals := m.vals[0 := VInt(x)]);
        } else if tag == 21 {
          var v, next := TakeFloat(S, m0, m, buf, p0, p, q, limit, depth, 2);
          y, p := v, next;
          assert Model() == m.(vals := m.vals[1 := VInt(y)]);
        } else if tag == 29 {
          var v, next := TakeFloat(S, m0, m, buf, p0, p, q, limit, depth, 3);
          z, p := v, next;
          assert Model() == m.(vals := m.vals[2 := VInt(z)]);
        } else if tag == 37 {
          var v, next := TakeFloat(S, m0, m, buf, p0, p, q, limit, depth, 4);
          yaw, p := v, next;
          assert Model() == m.(vals := m.vals[3 := VInt(yaw)]);
        } else if tag == 40 {
          var v, next := TakeEnum(S, m0, m, buf, p0, p, q, limit, depth, 5);
          if v.None? { return None; }
          state, p := v.value, next;
          assert Model() == m.(vals := m.vals[4 := VInt(state)]);
        } else {
          var r, next := TakeUnknown(S, m0, m, buf, p0, p, q, limit, depth, tag);
          if r.None? { return None; }
          unknown, p := unknown + [r.value], next;
        }
      }
      LoopEnds(S, m0, Model(), buf, p0, p, limit, depth);
      if p == limit { return Some(p); }
      return None;
    }

    method ByteSizeLong() returns (total: nat)
      requires Valid()
      modifies this`cachedSize
      ensures Valid() && total == LongSize(MoveInfoSchema(), Model()) && cachedSize == Signed32(total)
      ensures Agree(total, |Serialize(MoveInfoSchema(), Model())|)
    {
      hide ValidSchema, Serialize, EncodeRecs, FieldSize, VarintSize, RecsSize, LongSize, SumSizes, Agree;
      ghost var S, m := MoveInfoSchema(), Model();
      MessageSize(S, m);
      LongSizeExact(S, m);
      total := 0;
      ScalarSize(S.fields[0], m.vals[0]);
      if x != 0 { total := total + 1 + 4; }
      ScalarSize(S.fields[1], m.vals[1]);
      if y != 0 { total := total + 1 + 4; }
      ScalarSize(S.fields[2], m.vals[2]);
      if z != 0 { total := total + 1 + 4; }
      ScalarSize(S.fields[3], m.vals[3]);
      if yaw != 0 { total := total + 1 + 4; }
      ScalarSize(S.fields[4], m.vals[4]);
      if state != 0 { total := total + 1 + VarintSize(SignExtend(state)); }
      SumOf5(S, m);
      var n := UnknownSize(unknown);
      total := total + n;
      cachedSize := Signed32(total);
    }

    method InternalSerialize(a: array<byte>, t: nat) returns (t': nat)
      requires Valid() && t + |Serialize(MoveInfoSchema(), Model())| <= a.Length
      modifies a
      ensures t' == t + |Serialize(MoveInfoSchema(), Model())|
      ensures Wrote(old(a[..]), a[..], t, Serialize(MoveInfoSchema(), Model()))
    {
      hide ValidSchema, Serialize, Conforms, Wrote, Progress;
      ghost var S, m, a0 := MoveInfoSchema(), Model(), a[..];
      ProgressStarts(S, m, a[..], t);
      t' := PutFloat(S, m, a0, a, t, t, 1, x);
      t' := PutFloat(S, m, a0, a, t, t', 2, y);
      t' := PutFloat(S, m, a0, a, t, t', 3, z);
      t' := PutFloat(S, m, a0, a, t, t', 4, yaw);
      t' := PutInt32(S, m, a0, a, t, t', 5, state);
      t' := PutUnknown(S, m, a0, a, t, t', unknown);
    }

    method MergeFrom(from: MoveInfo)
      requires Valid() && from.Valid() && from != this
      modifies this
      ensures Valid() && Model() == Merge(MoveInfoSchema(), old(Model()), from.Model())
    {
      hide ValidSchema, Conforms, Merge;
      if from.x != 0 { x := from.x; }
      if from.y != 0 { y := from.y; }
      if from.z != 0 { z := from.z; }
      if from.yaw != 0 { yaw := from.yaw; }
      if from.state != 0 { state := from.state; }
      unknown := unknown + from.unknown;
      MergeFive(MoveInfoSchema(), old([x, y, z, yaw, state]), old(unknown),
                [from.x, from.y, from.z, from.yaw, from.state], from.unknown);
    }

    method CopyFrom(from: MoveInfo)
      requires Valid() && from.Valid()
      modifies this
      ensures Valid() && Model() == old(from.Model())
    {
      if from == this { return; }
      hide Conforms, ValidSchema, Merge;
      Clear();
      MergeFrom(from);
      MergeIntoDefault(MoveInfoSchema(), from.Model());
    }
  }

  /** Authoritative state of one player in a match. */
  class MatchPlayerState {
    var hp: int32
    var maxHp: int32
    var isAlive: bool
    var killCount: uint32
    var deathCount: uint32
    var unknown: seq<Rec>
    var cachedSize: int

    function Model(): Msg
      reads this
    {
      Msg([VInt(hp), VInt(maxHp), VInt(if isAlive then 1 else 0), VInt(killCount), VInt(deathCount)], unknown)
    }

    ghost predicate Valid()
      reads this
    {
      ValidSchema(MatchPlayerStateSchema()) && Conforms(MatchPlayerStateSchema(), Model())
    }

    constructor ()
      ensures Valid() && Model() == Default(MatchPlayerStateSchema())
    {
      hp := 0;
      maxHp := 0;
      isAlive := false;
      killCount := 0;
      deathCount := 0;
      unknown, cachedSize := [], 0;
      new;
      LeavesValid();
      DefaultIs(MatchPlayerStateSchema(), Model());
    }

    method Clear()
      requires Valid()
      modifies this
      ensures Valid() && Model() == Default(MatchPlayerStateSchema())
    {
      hide ValidSchema, Conforms;
      hp := 0;
      maxHp := 0;
      isAlive := false;
      killCount := 0;
      deathCount := 0;
      unknown := [];
      DefaultIs(MatchPlayerStateSchema(), Model());
    }

    method InternalParse(buf: seq<byte>, p0: nat, limit: nat, depth: nat) returns (end: Option<nat>)
      requires Valid() && p0 <= limit && limit + SLOP <= |buf|
      modifies this
      ensures Valid()
      ensures match Whole(MatchPlayerStateSchema(), old(Model()), buf, p0, limit, depth)
        case None => end == None
        case Some(m) => end == Some(limit) && Model() == m
    {
      hide Conforms, ValidSchema, Whole, InLoop, ReadItem, ReadTag;
      ghost var S, m0 := MatchPlayerStateSchema(), Model();
      LoopStarts(S, m0, buf, p0, limit, depth);
      var p := p0;
      while p < limit
        invariant InLoop(S, m0, Model(), buf, p0, p, limit, depth)
        decreases |buf| - p
      {
        ghost var m := Model();
        var t, q := TakeTag(S, m0, m, buf, p0, p, limit, depth);
        if t.None? { return None; }
        var tag := t.value;
        if tag == 8 {
          var v, next := TakeInt32(S, m0, m, buf, p0, p, q, limit, depth, 1);
          if v.None? { return None; }
          hp, p := v.value, next;
          assert Model() == m.(vals := m.vals[0 := VInt(hp)]);
        } else if tag == 16 {
          var v, next := TakeInt32(S, m0, m, buf, p0, p, q, limit, depth, 2);
          if v.None? { return None; }
          maxHp, p := v.value, next;
          assert Model() == m.(vals := m.vals[1 := VInt(maxHp)]);
        } else if tag == 24 {
          var v, next := TakeBool(S, m0, m, buf, p0, p, q, limit, depth, 3);
          if v.None? { return None; }
          isAlive, p := v.value, next;
          assert Model() == m.(vals := m.vals[2 := VInt(if isAlive then 1 else 0)]);
        } else if tag == 32 || tag == 40 {
          var next := ParseCount(S, m0, buf, p0, p, q, limit, depth, tag);
          if next.None? { return None; }
          p := next.value;
        } else {
          var r, next := TakeUnknown(S, m0, m, buf, p0, p, q, limit, depth, tag);
          if r.None? { return None; }
          unknown, p := unknown + [r.value], next;
        }
      }
      LoopEnds(S, m0, Model(), buf, p0, p, limit, depth);
      if p == limit { return Some(p); }
      return None;
    }

    /** The two counters. */
    method ParseCount(ghost S: Schema, ghost m0: Msg, buf: seq<byte>, ghost p0: nat, p: nat, q: nat,
                      limit: nat, depth: nat, tag: nat) returns (end: Option<nat>)
      requires Valid() && S == MatchPlayerStateSchema() && tag in {32, 40}
      requires InLoop(S, m0, Model(), buf, p0, p, limit, depth) && p < limit
      requires p <= q <= |buf| && ReadTag(buf[p..]) == Some((tag, q - p))
      modifies this`killCount, this`deathCount
      ensures Valid()
      ensures match end
        case None => Whole(S, m0, buf, p0, limit, depth).None?
        case Some(next) => InLoop(S, m0, Model(), buf, p0, next, limit, depth) && p < next
    {
      hide Conforms, ValidSchema, Whole, InLoop, ReadItem, ReadTag;
      ghost var m := Model();
      var v, next := TakeUInt32(S, m0, m, buf, p0, p, q, limit, depth, tag / 8);
      if v.None? { return None; }
      if tag == 32 {
        killCount := v.value;
      } else {
        deathCount := v.value;
      }
      SetField(S, m, tag / 8 - 1, VInt(v.value));
      assert Model() == m.(vals := m.vals[tag / 8 - 1 := VInt(v.value)]);
      return Some(next);
    }

    method ByteSizeLong() returns (total: nat)
      requires Valid()
      modifies this`cachedSize
      ensures Valid() && total == LongSize(MatchPlayerStateSchema(), Model()) && cachedSize == Signed32(total)
      ensures Agree(total, |Serialize(MatchPlayerStateSchema(), Model())|)
    {
      hide ValidSchema, Serialize, EncodeRecs, FieldSize, VarintSize, RecsSize, LongSize, SumSizes, Agree;
      ghost var S, m := MatchPlayerStateSchema(), Model();
      MessageSize(S, m);
      LongSizeExact(S, m);
      total := 0;
      ScalarSize(S.fields[0], m.vals[0]);
      if hp != 0 { total := total + 1 + VarintSize(SignExtend(hp)); }
      ScalarSize(S.fields[1], m.vals[1]);
      if maxHp != 0 { total := total + 1 + VarintSize(SignExtend(maxHp)); }
      ScalarSize(S.fields[2], m.vals[2]);
      if isAlive { total := total + 1 + 1; }
      ScalarSize(S.fields[3], m.vals[3]);
      if killCount != 0 { total := total + 1 + VarintSize(killCount); }
      ScalarSize(S.fields[4], m.vals[4]);
      if deathCount != 0 { total := total + 1 + VarintSize(deathCount); }
      SumOf5(S, m);
      var n := UnknownSize(unknown);
      total := total + n;
      cachedSize := Signed32(total);
    }

    method InternalSerialize(a: array<byte>, t: nat) returns (t': nat)
      requires Valid() && t + |Serialize(MatchPlayerStateSchema(), Model())| <= a.Length
      modifies a
      ensures t' == t + |Serialize(MatchPlayerStateSchema(), Model())|
      ensures Wrote(old(a[..]), a[..], t, Serialize(MatchPlayerStateSchema(), Model()))
    {
      hide ValidSchema, Serialize, Conforms, Wrote, Progress;
      ghost var S, m, a0 := MatchPlayerStateSchema(), Model(), a[..];
      ProgressStarts(S, m, a[..], t);
      t' := PutInt32(S, m, a0, a, t, t, 1, hp);
      t' := PutInt32(S, m, a0, a, t, t', 2, maxHp);
      t' := PutVarint(S, m, a0, a, t, t', 3, if isAlive then 1 else 0);
      t' := PutVarint(S, m, a0, a, t, t', 4, killCount);
      t' := PutVarint(S, m, a0, a, t, t', 5, deathCount);
      t' := PutUnknown(S, m, a0, a, t, t', unknown);
    }

    method MergeFrom(from: MatchPlayerState)
      requires Valid() && from.Valid() && from != this
      modifies this
      ensures Valid() && Model() == Merge(MatchPlayerStateSchema(), old(Model()), from.Model())
    {
      hide ValidSchema, Conforms, Merge;
      if from.hp != 0 { hp := from.hp; }
      if from.maxHp != 0 { maxHp := from.maxHp; }
      if from.isAlive { isAlive := from.isAlive; }
      if from.killCount != 0 { killCount := from.killCount; }
      if from.deathCount != 0 { deathCount := from.deathCount; }
      unknown := unknown + from.unknown;
      MergeFive(MatchPlayerStateSchema(),
                old([hp, maxHp, if isAlive then 1 else 0, killCount, deathCount]), old(unknown),
                [from.hp, from.maxHp, if from.isAlive then 1 else 0, from.killCount, from.deathCount], from.unknown);
    }

    method CopyFrom(from: MatchPlayerState)
      requires Valid() && from.Valid()
      modifies this
      ensures Valid() && Model() == old(from.Model())
    {
      if from == this { return; }
      hide Conforms, ValidSchema, Merge;
      Clear();
      MergeFrom(from);
      MergeIntoDefault(MatchPlayerStateSchema(), from.Model());
    }
  }
}
