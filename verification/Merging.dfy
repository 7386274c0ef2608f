/** MergeFrom is a monoid on the messages of every schema; parsing on top of a message is merging for canonical bytes,
    and need not be for other bytes. */
module Merging {
  import opened Options
  import opened Wire
  import opened Messages
  import opened RoundTrip
  import opened Schemas

  lemma {:induction false} MergeDefaultInto(S: Schema, m: Msg)
    requires Conforms(S, m)
    ensures Merge(S, m, Default(S)) == m
  {
    assert Merge(S, m, Default(S)).vals == m.vals by {
      forall i | 0 <= i < |S.fields|
        ensures MergeVal(S.fields[i].kind, m.vals[i], DefaultVal(S.fields[i].kind)) == m.vals[i]
      {
        if S.fields[i].kind.KRepeated? { assert m.vals[i].ms + [] == m.vals[i].ms; }
      }
    }
    assert m.unknown + [] == m.unknown;
  }

  lemma {:induction false} MergeAssociative(S: Schema, a: Msg, b: Msg, c: Msg)
    requires Conforms(S, a) && Conforms(S, b) && Conforms(S, c)
    ensures Merge(S, Merge(S, a, b), c) == Merge(S, a, Merge(S, b, c))
    decreases S
  {
    var l, r := Merge(S, Merge(S, a, b), c), Merge(S, a, Merge(S, b, c));
    forall i | 0 <= i < |S.fields| ensures l.vals[i] == r.vals[i] {
      MergeValAssociative(S.fields[i].kind, a.vals[i], b.vals[i], c.vals[i]);
    }
    assert l.vals == r.vals;
    assert a.unknown + b.unknown + c.unknown == a.unknown + (b.unknown + c.unknown);
  }

  lemma {:induction false} MergeValAssociative(k: Kind, a: Val, b: Val, c: Val)
    requires ValConforms(k, a) && ValConforms(k, b) && ValConforms(k, c)
    ensures MergeVal(k, MergeVal(k, a, b), c) == MergeVal(k, a, MergeVal(k, b, c))
    decreases k
  {
    hide Conforms, Merge;
    match k {
      case KRepeated(_) => assert a.ms + b.ms + c.ms == a.ms + (b.ms + c.ms);
      case KMessage(sub) =>
        if b.o.Some? && c.o.Some? {
          MergeAssociative(sub, if a.o.Some? then a.o.value else Default(sub), b.o.value, c.o.value);
        } else if c.o.Some? {
          MergeIntoDefault(sub, c.o.value);
        }
      case _ =>
    }
  }

  /** For other than canonical bytes parsing on top of a message need not be merging: an explicit zero overwrites a
      field that a merge would leave alone. Here the hit points of a player state are 5, and the bytes 8, 0 set them
      to zero. */
  lemma {:induction false} ExplicitZeroOverwrites()
    ensures var S := MatchPlayerStateSchema(); var m := Msg([VInt(5), VInt(0), VInt(0), VInt(0), VInt(0)], []);
      && ValidSchema(S) && Conforms(S, m)
      && Parse(S, m, [8, 0], RECURSION_LIMIT) == Some(Default(S))
      && ParseFromArray(S, [8, 0]) == Some(Default(S))
      && Merge(S, m, Default(S)) == m
  {
    var S := MatchPlayerStateSchema();
    var m := Msg([VInt(5), VInt(0), VInt(0), VInt(0), VInt(0)], []);
    hide ValidSchema, Merge, Parse;
    LeavesValid();
    forall i | 0 <= i < |S.fields| ensures ValConforms(S.fields[i].kind, m.vals[i]) {}
    assert Conforms(S, m);
    hide Conforms;
    MergeDefaultInto(S, m);
    ZeroRecord(S, m);
    ZeroRecord(S, Default(S));
    assert m.vals[0 := VInt(0)] == Default(S).vals;
    assert Default(S).vals[0 := VInt(0)] == Default(S).vals;
  }

  lemma {:induction false} ZeroRecord(S: Schema, m: Msg)
    requires S == MatchPlayerStateSchema() && ValidSchema(S) && Conforms(S, m)
    ensures Parse(S, m, [8, 0], RECURSION_LIMIT) == Some(m.(vals := m.vals[0 := VInt(0)]))
  {
    var b: seq<byte> := [8, 0];
    var r := VarintRec(1, 0);
    assert b == EncodeRecs([r]) + [] by {
      assert [r][1..] == [];
      assert EncodeRec(r) == [8] + [0];
    }
    AllOne(r, RECURSION_LIMIT);
    hide Apply, Parse, ReadItem;
    ParseEncoded(S, m, [r], [], RECURSION_LIMIT);
    RunOne(S, m, 0, r, RECURSION_LIMIT);
    ParseNothing(S, m.(vals := m.vals[0 := VInt(0)]));
  }

  lemma {:induction false} ParseNothing(S: Schema, m: Msg)
    requires ValidSchema(S)
    ensures Conforms(S, m) ==> Parse(S, m, [], RECURSION_LIMIT) == Some(m)
  {}
}
