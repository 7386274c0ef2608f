/** The packet that opens a match, as a message object: one nested MatchInfo. */
module MatchPrepares {
  import opened Options
  import opened Wire
  import opened Messages
  import opened Schemas
  import opened ParseLoop
  import opened Writer
  import opened Sizes
  import opened Fields
  import opened RoundTrip
  import opened Packets
  import opened Repeated
  import opened MatchInfos

  function MatchPrepareSchema(): Schema { Envelope(MatchInfoSchema()) }

  lemma {:induction false} MatchPrepareValid()
    ensures ValidSchema(MatchPrepareSchema()) && ServerSchema(PKT_S_MATCH_PREPARE) == Some(MatchPrepareSchema())
  {
    ServerSchemaValid(PKT_S_MATCH_PREPARE);
  }

  class MatchPrepare {
    var matchInfo: MatchInfo?
    var unknown: seq<Rec>
    var cachedSize: int
    ghost var Repr: set<object>

    ghost predicate Owned()
      reads this`matchInfo, this`Repr, Repr - {this}
    {
      && this in Repr
      && (matchInfo != null ==>
        && matchInfo in Repr && matchInfo.Infos <= Repr && matchInfo.States <= Repr
        && this !in matchInfo.Infos && this !in matchInfo.States && matchInfo.Valid())
    }

    ghost predicate Valid()
      reads this, Repr
    {
      Owned() && ValidSchema(MatchPrepareSchema()) && Conforms(MatchPrepareSchema(), Model())
    }

    ghost function Model(): Msg
      reads this, Repr
      requires Owned()
    {
      Msg([VOpt(Nested())], unknown)
    }

    ghost function Nested(): (o: Option<Msg>)
      reads this`matchInfo, this`Repr, Repr - {this}
      requires Owned()
      ensures o.Some? ==> Conforms(MatchInfoSchema(), o.value)
    {
      if matchInfo == null then None else Some(matchInfo.Model())
    }

    /** The bytes the packet serialises to. */
    ghost function Encoded(): seq<byte>
      reads this, Repr
      requires Valid()
    {
      Serialize(MatchPrepareSchema(), Model())
    }

    ghost predicate Sized()
      requires Valid()
      reads this, Repr
    {
      cachedSize == Signed32(LongSize(MatchPrepareSchema(), Model())) && (matchInfo != null ==> matchInfo.Sized())
    }

    constructor ()
      ensures Valid() && fresh(Repr) && Model() == Default(MatchPrepareSchema())
    {
      matchInfo, unknown, cachedSize := null, [], 0;
      Repr := {this};
      new;
      MatchPrepareValid();
      DefaultIs(MatchPrepareSchema(), Model());
    }

    method Clear()
      requires Valid()
      modifies this
      ensures Valid() && Repr == old(Repr) && Model() == Default(MatchPrepareSchema())
    {
      hide ValidSchema, Conforms;
      matchInfo, unknown := null, [];
      DefaultIs(MatchPrepareSchema(), Model());
    }

    method InternalParse(buf: seq<byte>, p0: nat, limit: nat, depth: nat) returns (end: Option<nat>)
      requires Valid() && p0 <= limit && limit + SLOP <= |buf|
      modifies Repr
      ensures Valid() && fresh(Repr - old(Repr))
      ensures match Whole(MatchPrepareSchema(), old(Model()), buf, p0, limit, depth)
        case None => end == None
        case Some(m) => end == Some(limit) && Model() == m
    {
      hide Conforms, ValidSchema, Whole, InLoop, ReadItem, ReadTag, MatchInfoSchema;
      ghost var S, m0 := MatchPrepareSchema(), Model();
      LoopStarts(S, m0, buf, p0, limit, depth);
      var p := p0;
      while p < limit
        invariant Owned() && fresh(Repr - old(Repr))
        invariant InLoop(S, m0, Model(), buf, p0, p, limit, depth)
        decreases |buf| - p
      {
        ghost var m := Model();
        var t, q := TakeTag(S, m0, m, buf, p0, p, limit, depth);
        if t.None? { return None; }
        if t.value == 10 {
          var next := ParseMatchInfo(S, m0, buf, p0, p, q, limit, depth);
          if next.None? { return None; }
          p := next.value;
        } else {
          var r, next := TakeUnknown(S, m0, m, buf, p0, p, q, limit, depth, t.value);
          if r.None? { return None; }
          unknown, p := unknown + [r.value], next;
        }
      }
      LoopEnds(S, m0, Model(), buf, p0, p, limit, depth);
      if p == limit { return Some(p); }
      return None;
    }

    /** ParseMessage(mutable_match_info()). */
    method ParseMatchInfo(ghost S: Schema, ghost m0: Msg, buf: seq<byte>, ghost p0: nat, p: nat, q: nat,
                          limit: nat, depth: nat) returns (end: Option<nat>)
      requires Valid() && S == MatchPrepareSchema()
      requires InLoop(S, m0, Model(), buf, p0, p, limit, depth) && p < limit
      requires p <= q <= |buf| && ReadTag(buf[p..]) == Some((10, q - p))
      modifies Repr
      ensures Valid() && fresh(Repr - old(Repr))
      ensures match end
        case None => Whole(S, m0, buf, p0, limit, depth).None?
        case Some(next) => InLoop(S, m0, Model(), buf, p0, next, limit, depth) && p < next
    {
      hide Conforms, ValidSchema, Whole, InLoop, ReadItem, ReadTag, MatchInfoSchema, MatchInfo.Owned,
           MatchInfo.Model;
      ghost var m := Model();
      if matchInfo == null {
        matchInfo := new MatchInfo();
        Repr := Repr + {matchInfo} + matchInfo.Infos + matchInfo.States;
      }
      ghost var base := matchInfo.Model();
      SetSubmessage(S, m, 0, MatchInfoSchema(), base);
      assert Model() == m.(vals := m.vals[0 := VOpt(Some(base))]);
      var start, next := TakeLength(S, m0, m, buf, p0, p, q, limit, depth, 10);
      if start.None? { return None; }
      SubmessageTurn(S, m0, m, buf, p0, p, start.value, next, limit, depth, 1, MatchInfoSchema(), base);
      if depth == 0 { return None; }
      var e := matchInfo.InternalParse(buf, start.value, next, depth - 1);
      Repr := Repr + matchInfo.Infos + matchInfo.States;
      SetSubmessage(S, m, 0, MatchInfoSchema(), matchInfo.Model());
      assert Model() == m.(vals := m.vals[0 := VOpt(Some(matchInfo.Model()))]);
      return if e.None? then None else Some(next);
    }

    method ByteSizeLong() returns (total: nat)
      requires Valid()
      modifies Repr
      ensures Valid() && Repr == old(Repr) && Sized() && Model() == old(Model())
      ensures total == LongSize(MatchPrepareSchema(), Model()) && Agree(total, |Encoded()|)
    {
      ghost var S, m := MatchPrepareSchema(), Model();
      hide ValidSchema, Serialize, EncodeRecs, FieldSize, Conforms, MatchInfoSchema, LongSize, SumSizes,
           RecsSize, Agree;
      MessageSize(S, m);
      LongSizeExact(S, m);
      SumOf1(S, m);
      var fields := MatchInfoSize(S, m);
      total := AddUnknownSize(fields);
    }

    /** MaybeComputeUnknownFieldsSize: the unknown fields are added, and the size is cached. */
    method AddUnknownSize(fields: nat) returns (total: nat)
      requires Valid() && fields + RecsSize(unknown) == LongSize(MatchPrepareSchema(), Model())
      requires matchInfo != null ==> matchInfo.Sized()
      modifies this`cachedSize
      ensures Valid() && Model() == old(Model()) && Sized() && total == LongSize(MatchPrepareSchema(), Model())
    {
      hide ValidSchema, Serialize, EncodeRecs, Conforms, MatchPrepareSchema, Nested, LongSize, RecsSize;
      var n := UnknownSize(unknown);
      total := fields + n;
      cachedSize := Signed32(total);
    }

    /** Tag, length and body of the nested message, if there is one. */
    method MatchInfoSize(ghost S: Schema, ghost m: Msg) returns (total: nat)
      requires Valid() && S == MatchPrepareSchema() && m == Model()
      modifies Repr - {this}
      ensures Owned() && Nested() == old(Nested()) && (matchInfo != null ==> matchInfo.Sized())
      ensures total == FieldSize(S.fields[0], m.vals[0])
    {
      hide ValidSchema, Serialize, FieldSize, VarintSize, Conforms, MatchInfoSchema, InfosOwned, StatesOwned,
           MatchInfo.Model, LongSize;
      SubmessageSize(S.fields[0], m.vals[0]);
      total := 0;
      if matchInfo != null {
        var size := matchInfo.ByteSizeLong();
        total := total + 1 + VarintSize(size % TWO32) + size;
      }
    }

    method InternalSerialize(a: array<byte>, t: nat) returns (t': nat)
      requires Valid() && Sized() && a !in Repr && |Encoded()| <= INT_MAX && t + |Encoded()| <= a.Length
      modifies a
      ensures t' == t + |Encoded()| && Wrote(old(a[..]), a[..], t, Encoded())
    {
      hide LongSize, Signed32, ValidSchema, Serialize, Conforms, Wrote, Progress, EncodeTag, EncodeVarint, EncodeRec,
           MatchInfoSchema;
      ghost var S, m, a0 := MatchPrepareSchema(), Model(), a[..];
      ProgressStarts(S, m, a[..], t);
      t' := t;
      if matchInfo == null {
        AbsentWritten(S, m, 1, a0, a[..], t, t');
      } else {
        ghost var sub := Serialize(MatchInfoSchema(), matchInfo.Model());
        PartBound(S, m, 0);
        CachedLength(MatchInfoSchema(), matchInfo.Model(), matchInfo.cachedSize);
        ghost var b, t1 := a[..], t';
        NestedFits(S, m, 1, a0, b, t, t1, sub);
        t' := WriteLengthHeader(a, t', 1, matchInfo.cachedSize % TWO32);
        ghost var c := a[..];
        t' := matchInfo.InternalSerialize(a, t');
        NestedWritten(S, m, 1, a0, b, c, a[..], t, t1, sub);
      }
      t' := PutUnknown(S, m, a0, a, t, t', unknown);
    }

    method MergeFrom(from: MatchPrepare)
      requires Valid() && from.Valid() && Repr !! from.Repr
      modifies Repr
      ensures Valid() && fresh(Repr - old(Repr))
      ensures Model() == Merge(MatchPrepareSchema(), old(Model()), from.Model())
    {
      hide ValidSchema, Conforms, Merge, MergeOptional, MatchPrepareSchema, MatchInfoSchema;
      MergeMatchPrepare(Nested(), unknown, from.Nested(), from.unknown);
      MergeMatch(from);
      unknown := unknown + from.unknown;
    }

    /** mutable_match_info()->MergeFrom, when the other side has one. */
    method MergeMatch(from: MatchPrepare)
      requires Owned() && from.Owned() && Repr !! from.Repr
      modifies Repr
      ensures Owned() && fresh(Repr - old(Repr)) && unknown == old(unknown)
      ensures Nested() == MergeOptional(MatchInfoSchema(), old(Nested()), from.Nested())
    {
      hide ValidSchema, Conforms, Merge, MatchInfoSchema, MatchInfo.Owned, MatchInfo.Model;
      if from.matchInfo != null {
        if matchInfo == null {
          matchInfo := new MatchInfo();
          Repr := Repr + {matchInfo} + matchInfo.Infos + matchInfo.States;
        }
        matchInfo.MergeFrom(from.matchInfo);
        Repr := Repr + matchInfo.Infos + matchInfo.States;
      }
    }

    method CopyFrom(from: MatchPrepare)
      requires Valid() && from.Valid() && (from == this || Repr !! from.Repr)
      modifies Repr
      ensures Valid() && fresh(Repr - old(Repr)) && Model() == old(from.Model())
    {
      if from == this { return; }
      hide Conforms, ValidSchema, Model, MatchPrepareSchema, MatchInfo.Owned, MatchInfo.Model;
      Clear();
      MergeIntoCleared(from);
    }

    method MergeIntoCleared(from: MatchPrepare)
      requires Valid() && from.Valid() && Repr !! from.Repr && Model() == Default(MatchPrepareSchema())
      modifies Repr
      ensures Valid() && fresh(Repr - old(Repr)) && Model() == old(from.Model())
    {
      hide Conforms, ValidSchema, Merge, Model, MatchPrepareSchema, MatchInfo.Owned, MatchInfo.Model;
      MergeIntoDefault(MatchPrepareSchema(), from.Model());
      MergeFrom(from);
    }

    /** Clear, then parse the whole array. What stands behind the array in memory has no influence. */
    method ParseFromArray(data: seq<byte>, slop: seq<byte>) returns (ok: bool)
      requires Valid() && |slop| == SLOP
      modifies Repr
      ensures Valid() && fresh(Repr - old(Repr))
      ensures match Messages.ParseFromArray(MatchPrepareSchema(), data)
        case None => !ok
        case Some(m) => ok && Model() == m
    {
      hide Conforms, ValidSchema, Parse, MatchPrepareSchema;
      Clear();
      assert (data + slop)[0..|data|] == data;
      var end := InternalParse(data + slop, 0, |data|, RECURSION_LIMIT);
      ok := end == Some(|data|);
    }

    /** SerializeToArray into size bytes from position t: refused when the message does not fit. */
    method SerializeToArray(a: array<byte>, t: nat, size: nat) returns (ok: bool)
      requires Valid() && a !in Repr && t + size <= a.Length
      modifies Repr, a
      ensures Valid() && Model() == old(Model()) && (ok <==> |Encoded()| <= INT_MAX && |Encoded()| <= size)
      ensures if ok then Wrote(old(a[..]), a[..], t, Encoded()) else a[..] == old(a[..])
    {
      hide Conforms, ValidSchema, Serialize, Wrote, MatchPrepareSchema, LongSize;
      var byteSize := ByteSizeLong();
      if byteSize > INT_MAX || size < byteSize { return false; }
      ghost var m := Model();
      var end := InternalSerialize(a, t);
      assert Model() == m;
      return true;
    }
  }

  lemma {:induction false} MergeMatchPrepare(o: Option<Msg>, u: seq<Rec>, o': Option<Msg>, u': seq<Rec>)
    requires o.Some? ==> Conforms(MatchInfoSchema(), o.value)
    requires o'.Some? ==> Conforms(MatchInfoSchema(), o'.value)
    requires Conforms(MatchPrepareSchema(), Msg([VOpt(o)], u)) && Conforms(MatchPrepareSchema(), Msg([VOpt(o')], u'))
    ensures Merge(MatchPrepareSchema(), Msg([VOpt(o)], u), Msg([VOpt(o')], u'))
         == Msg([VOpt(MergeOptional(MatchInfoSchema(), o, o'))], u + u')
  {
    hide MatchInfoSchema, Merge;
    MergeIs(MatchPrepareSchema(), Msg([VOpt(o)], u), Msg([VOpt(o')], u'),
            Msg([VOpt(MergeOptional(MatchInfoSchema(), o, o'))], u + u'));
  }
}
