/** Parsing what was serialised: on top of any message it is exactly a merge, or a failure when the
    message cannot be sent. Round trip and normal form follow. */
module RoundTrip {
  import opened Options
  import opened Wire
  import opened Messages

  /** The parse loop on records instead of bytes. */
  function Run(S: Schema, m: Msg, rs: seq<Rec>, depth: nat): (m': Option<Msg>)
    requires ValidSchema(S) && Conforms(S, m) && AllWellFormed(rs)
    ensures m'.Some? ==> Conforms(S, m'.value)
    decreases |rs|
  {
    if rs == [] then Some(m)
    else if !Readable(rs[0], depth) then None
    else match Apply(S, m, rs[0], depth)
      case None => None
      case Some(x) => Run(S, x, rs[1..], depth)
  }

  lemma {:induction false} RunAppend(S: Schema, m: Msg, a: seq<Rec>, c: seq<Rec>, depth: nat)
    requires ValidSchema(S) && Conforms(S, m) && AllWellFormed(a) && AllWellFormed(c)
    ensures AllWellFormed(a + c)
    ensures Run(S, m, a + c, depth)
         == match Run(S, m, a, depth) case None => None case Some(x) => Run(S, x, c, depth)
    decreases |a|
  {
    AllAppend(a, c, depth);
    if a == [] {
      assert a + c == c;
    } else {
      assert (a + c)[0] == a[0] && (a + c)[1..] == a[1..] + c;
      if Readable(a[0], depth) && Apply(S, m, a[0], depth).Some? {
        RunAppend(S, Apply(S, m, a[0], depth).value, a[1..], c, depth);
      }
    }
  }

  /** Parsing encoded records is running them. */
  lemma {:induction false} ParseEncoded(S: Schema, m: Msg, rs: seq<Rec>, t: seq<byte>, depth: nat)
    requires ValidSchema(S) && Conforms(S, m) && AllWellFormed(rs)
    ensures Parse(S, m, EncodeRecs(rs) + t, depth)
         == match Run(S, m, rs, depth) case None => None case Some(x) => Parse(S, x, t, depth)
    decreases |rs|
  {
    hide ReadItem, EncodeRec, Readable, WellFormed, Conforms, Apply, ValidSchema;
    if rs == [] {
      assert EncodeRecs(rs) + t == t;
    } else {
      var b := EncodeRecs(rs) + t;
      var c := EncodeRecs(rs[1..]) + t;
      EncodeRecsCons(rs, t);
      ReadItemOfEncoded(rs[0], c, depth);
      assert b[|EncodeRec(rs[0])|..] == c;
      if Readable(rs[0], depth) && Apply(S, m, rs[0], depth).Some? {
        ParseEncoded(S, Apply(S, m, rs[0], depth).value, rs[1..], t, depth);
      }
    }
  }

  /** The records of a message are well formed. */
  lemma {:induction false} RecordsWellFormed(S: Schema, m: Msg)
    requires ValidSchema(S) && Conforms(S, m)
    ensures AllWellFormed(Records(S, m))
  {
    KnownRecsWellFormed(S, m, |S.fields|);
    AllAppend(KnownRecs(S, m, |S.fields|), m.unknown, 0);
  }

  lemma {:induction false} KnownRecsWellFormed(S: Schema, m: Msg, n: nat)
    requires ValidSchema(S) && Conforms(S, m) && n <= |S.fields|
    ensures AllWellFormed(KnownRecs(S, m, n))
    decreases n
  {
    if n > 0 {
      KnownRecsWellFormed(S, m, n - 1);
      FieldRecsWellFormed(S.fields[n - 1], m.vals[n - 1]);
      AllAppend(KnownRecs(S, m, n - 1), FieldRecs(S.fields[n - 1], m.vals[n - 1]), 0);
    }
  }

  lemma {:induction false} FieldRecsWellFormed(f: Field, v: Val)
    requires 1 <= f.num <= 15 && ValConforms(f.kind, v)
    ensures AllWellFormed(FieldRecs(f, v))
  {
    var rs := FieldRecs(f, v);
    if f.kind.KRepeated? {
      ElementRecsWellFormed(f.num, f.kind.schema, v.ms);
    } else if rs != [] {
      assert rs == [rs[0]];
      AllOne(rs[0], 0);
    }
  }

  lemma {:induction false} ElementRecsWellFormed(num: nat, sub: Schema, ms: seq<Msg>)
    requires 1 <= num <= 15
    requires forall j | 0 <= j < |ms| :: Conforms(sub, ms[j])
    ensures AllWellFormed(ElementRecs(num, sub, ms))
    decreases |ms|
  {
    if ms != [] {
      var last := LenRec(num, Serialize(sub, ms[|ms| - 1]));
      ElementRecsWellFormed(num, sub, ms[..|ms| - 1]);
      AllOne(last, 0);
      AllAppend(ElementRecs(num, sub, ms[..|ms| - 1]), [last], 0);
    }
  }

  // ------------------------------------------------------------------ merging with the default message

  /** The default message is a left identity of merging. */
  lemma {:induction false} MergeIntoDefault(S: Schema, m: Msg)
    requires Conforms(S, m)
    ensures Merge(S, Default(S), m) == m
    decreases S
  {
    forall i | 0 <= i < |S.fields|
      ensures Merge(S, Default(S), m).vals[i] == m.vals[i]
    {
      var k := S.fields[i].kind;
      if k.KMessage? && m.vals[i].o.Some? {
        MergeIntoDefault(k.schema, m.vals[i].o.value);
      }
    }
    assert Merge(S, Default(S), m).vals == m.vals;
  }

  // ------------------------------------------------------------------ parsing what was serialised

  lemma {:induction false} ApplyKnown(S: Schema, m: Msg, i: nat, r: Rec, depth: nat)
    requires ValidSchema(S) && Conforms(S, m) && WellFormed(r)
    requires i < |S.fields| && r.num == S.fields[i].num && Matches(S.fields[i].kind, r)
    ensures Known(S, r)
    ensures Apply(S, m, r, depth)
         == match ApplyVal(S.fields[i].kind, m.vals[i], r, depth)
            case None => None
            case Some(v) => Some(m.(vals := m.vals[i := v]))
  {
    assert IndexOf(S.fields, r.num) == i;
  }

  lemma {:induction false} RunOne(S: Schema, m: Msg, i: nat, r: Rec, depth: nat)
    requires ValidSchema(S) && Conforms(S, m) && WellFormed(r)
    requires i < |S.fields| && r.num == S.fields[i].num && Matches(S.fields[i].kind, r)
    ensures AllWellFormed([r])
    ensures Run(S, m, [r], depth)
         == if !Readable(r, depth) then None
            else match ApplyVal(S.fields[i].kind, m.vals[i], r, depth)
              case None => None
              case Some(v) => Some(m.(vals := m.vals[i := v]))
  {
    AllOne(r, depth);
    ApplyKnown(S, m, i, r, depth);
    if Readable(r, depth) && Apply(S, m, r, depth).Some? {
      assert [r][1..] == [];
      assert Run(S, Apply(S, m, r, depth).value, [r][1..], depth) == Apply(S, m, r, depth);
    }
  }

  /** The records of one field merge that field, or fail when its value cannot be sent. */
  lemma {:induction false} RunField(S: Schema, m: Msg, i: nat, v: Val, depth: nat)
    requires ValidSchema(S) && Conforms(S, m) && i < |S.fields| && ValConforms(S.fields[i].kind, v)
    ensures AllWellFormed(FieldRecs(S.fields[i], v))
    ensures Run(S, m, FieldRecs(S.fields[i], v), depth)
         == if ValSendable(S.fields[i].kind, v, depth)
            then Some(m.(vals := m.vals[i := MergeVal(S.fields[i].kind, m.vals[i], v)])) else None
    decreases S, 1
  {
    var f := S.fields[i];
    var rs := FieldRecs(f, v);
    FieldRecsWellFormed(f, v);
    if f.kind.KRepeated? {
      RunElements(S, m, i, f.num, f.kind.schema, m.vals[i].ms, v.ms, depth);
    } else if rs == [] {
      assert m.vals[i := m.vals[i]] == m.vals;
    } else {
      AllOne(rs[0], depth);
      assert rs == [rs[0]];
      RunOne(S, m, i, rs[0], depth);
      StoreField(f.kind, m.vals[i], v, rs[0], depth);
    }
  }

  /** Storing the one record of a non-default, non-repeated value merges the value. */
  lemma {:induction false} StoreField(k: Kind, cur: Val, v: Val, r: Rec, depth: nat)
    requires ValidKind(k) && ValConforms(k, cur) && ValConforms(k, v) && !k.KRepeated?
    requires FieldRecs(Field(r.num, k), v) == [r] && Matches(k, r) && WellFormed(r)
    ensures (if Readable(r, depth) then ApplyVal(k, cur, r, depth) else None)
         == if ValSendable(k, v, depth) then Some(MergeVal(k, cur, v)) else None
    decreases k, 4
  {
    hide Parse, Serialize, Merge, Conforms, Sendable, ValidSchema, SubSendable, Signed32, ValidUtf8, WellFormed;
    if k.KMessage? {
      StoreMessage(k.schema, cur, v.o.value, r, depth);
    } else if k.KInt32? {
      SignedBack(v.i);
    }
  }

  lemma {:induction false} SignedBack(i: int)
    requires -0x8000_0000 <= i < 0x8000_0000
    ensures Signed32(if i < 0 then i + TWO64 else i) == i
  {}

  lemma {:induction false} StoreMessage(sub: Schema, cur: Val, x: Msg, r: Rec, depth: nat)
    requires ValidSchema(sub) && ValConforms(KMessage(sub), cur) && Conforms(sub, x)
    requires r.LenRec? && r.bytes == Serialize(sub, x) && WellFormed(r)
    ensures (if Readable(r, depth) then ApplyVal(KMessage(sub), cur, r, depth) else None)
         == if SubSendable(sub, x, depth) then Some(MergeVal(KMessage(sub), cur, VOpt(Some(x)))) else None
    decreases sub, 5
  {
    hide Parse, Serialize, Merge, Conforms, Sendable, ValidSchema, WellFormed;
    if depth > 0 {
      ParseSubmessage(sub, if cur.o.Some? then cur.o.value else Default(sub), x, depth);
    }
  }

  lemma {:induction false} ParseSubmessage(sub: Schema, base: Msg, x: Msg, depth: nat)
    requires ValidSchema(sub) && Conforms(sub, base) && Conforms(sub, x) && depth > 0
    ensures Parse(sub, base, Serialize(sub, x), depth - 1)
         == if Sendable(sub, x, depth - 1) then Some(Merge(sub, base, x)) else None
    decreases sub, 4
  {
    hide Serialize, Merge, Conforms, Sendable, ValidSchema;
    ParseSerialized(sub, base, x, [], depth - 1);
    assert Serialize(sub, x) + [] == Serialize(sub, x);
  }

  lemma {:induction false} RunElements(S: Schema, m: Msg, i: nat, num: nat, sub: Schema, had: seq<Msg>, ms: seq<Msg>,
                                       depth: nat)
    requires ValidSchema(S) && Conforms(S, m) && i < |S.fields| && S.fields[i] == Field(num, KRepeated(sub))
    requires ValConforms(KRepeated(sub), VRep(ms)) && m.vals[i] == VRep(had)
    ensures AllWellFormed(ElementRecs(num, sub, ms))
    ensures Run(S, m, ElementRecs(num, sub, ms), depth)
         == if ValSendable(KRepeated(sub), VRep(ms), depth) then Some(m.(vals := m.vals[i := VRep(had + ms)])) else None
    decreases S, 1, |ms|
  {
    hide Parse, Serialize, Merge, Sendable, Apply, Run, SubSendable;
    ElementRecsWellFormed(num, sub, ms);
    if ms == [] {
      RunNothing(S, m, depth);
      assert had + ms == had && m.vals[i := m.vals[i]] == m.vals;
    } else {
      var init, x := ms[..|ms| - 1], ms[|ms| - 1];
      assert ms == init + [x];
      var r := LenRec(num, Serialize(sub, x));
      hide ValSendable, AllWellFormed;
      RunElements(S, m, i, num, sub, had, init, depth);
      AllOne(r, depth);
      RunAppend(S, m, ElementRecs(num, sub, init), [r], depth);
      SendableLast(KRepeated(sub), init, x, depth);
      hide ValConforms, ElementRecs, Conforms, WellFormed;
      if ValSendable(KRepeated(sub), VRep(init), depth) {
        RunElement(S, m, i, num, sub, had, init, x, depth);
      }
    }
  }

  lemma {:induction false} SendableLast(k: Kind, init: seq<Msg>, x: Msg, depth: nat)
    requires k.KRepeated? && ValConforms(k, VRep(init + [x]))
    ensures ValConforms(k, VRep(init)) && Conforms(k.schema, x)
    ensures ValSendable(k, VRep(init + [x]), depth)
       <==> ValSendable(k, VRep(init), depth) && SubSendable(k.schema, x, depth)
  {
    hide Conforms, SubSendable;
    var ms := init + [x];
    assert forall j | 0 <= j < |init| :: ms[j] == init[j];
    assert ms[|init|] == x;
  }

  lemma {:induction false} RunNothing(S: Schema, m: Msg, depth: nat)
    requires ValidSchema(S) && Conforms(S, m)
    ensures AllWellFormed([]) && Run(S, m, [], depth) == Some(m)
  {}

  lemma {:induction false} RunElement(S: Schema, m: Msg, i: nat, num: nat, sub: Schema, had: seq<Msg>, init: seq<Msg>,
                                      x: Msg, depth: nat)
    requires ValidSchema(S) && Conforms(S, m) && i < |S.fields| && S.fields[i] == Field(num, KRepeated(sub))
    requires Conforms(S, m.(vals := m.vals[i := VRep(had + init)])) && Conforms(sub, x)
    ensures var r := LenRec(num, Serialize(sub, x));
            && AllWellFormed([r])
            && Run(S, m.(vals := m.vals[i := VRep(had + init)]), [r], depth)
            == if SubSendable(sub, x, depth) then Some(m.(vals := m.vals[i := VRep(had + (init + [x]))])) else None
    decreases S, 0
  {
    hide Parse, Serialize, Merge, Sendable, Apply, Run;
    var m1 := m.(vals := m.vals[i := VRep(had + init)]);
    var r := LenRec(num, Serialize(sub, x));
    AllOne(r, depth);
    RunOne(S, m1, i, r, depth);
    if depth > 0 {
      ParseSubmessage(sub, Default(sub), x, depth);
      MergeIntoDefault(sub, x);
    }
    assert had + init + [x] == had + (init + [x]);
    assert m1.vals[i := VRep(had + init + [x])] == m.vals[i := VRep(had + (init + [x]))];
  }

  /** a with its first n fields merged from c. */
  function MergedUpTo(S: Schema, a: Msg, c: Msg, n: nat): (m: Msg)
    requires Conforms(S, a) && Conforms(S, c) && n <= |S.fields|
    ensures Conforms(S, m)
  {
    a.(vals := seq(|S.fields|, i requires 0 <= i < |S.fields| =>
      if i < n then MergeVal(S.fields[i].kind, a.vals[i], c.vals[i]) else a.vals[i]))
  }

  /** The first n fields of c can be sent. */
  predicate SendableUpTo(S: Schema, c: Msg, n: nat, depth: nat)
    requires Conforms(S, c) && n <= |S.fields|
  {
    forall i | 0 <= i < n :: ValSendable(S.fields[i].kind, c.vals[i], depth)
  }

  lemma {:induction false} RunKnown(S: Schema, m: Msg, c: Msg, n: nat, depth: nat)
    requires ValidSchema(S) && Conforms(S, m) && Conforms(S, c) && n <= |S.fields|
    ensures AllWellFormed(KnownRecs(S, c, n))
    ensures Run(S, m, KnownRecs(S, c, n), depth)
         == if SendableUpTo(S, c, n, depth) then Some(MergedUpTo(S, m, c, n)) else None
    decreases S, 2, n
  {
    hide Run, ValSendable, ValConforms, ValidSchema, MergeVal, FieldRecs, AllWellFormed;
    KnownRecsWellFormed(S, c, n);
    if n == 0 {
      RunNothing(S, m, depth);
      assert MergedUpTo(S, m, c, 0).vals == m.vals;
    } else {
      var f, v := S.fields[n - 1], c.vals[n - 1];
      RunKnown(S, m, c, n - 1, depth);
      KnownRecsWellFormed(S, c, n - 1);
      var x := MergedUpTo(S, m, c, n - 1);
      RunField(S, x, n - 1, v, depth);
      RunAppend(S, m, KnownRecs(S, c, n - 1), FieldRecs(f, v), depth);
      assert x.vals[n - 1 := MergeVal(f.kind, x.vals[n - 1], v)] == MergedUpTo(S, m, c, n).vals;
    }
  }

  lemma {:induction false} RunUnknown(S: Schema, m: Msg, us: seq<Rec>, depth: nat)
    requires ValidSchema(S) && Conforms(S, m) && AllWellFormed(us) && Foreign(S, us)
    ensures Run(S, m, us, depth)
         == if AllReadable(us, depth) then Some(m.(unknown := m.unknown + us)) else None
    decreases |us|
  {
    if us == [] {
      assert m.unknown + us == m.unknown;
    } else {
      assert !Known(S, us[0]);
      var x := Apply(S, m, us[0], depth).value;
      assert Foreign(S, us[1..]) by {
        forall i | 0 <= i < |us[1..]| ensures !Known(S, us[1..][i]) { assert us[1..][i] == us[i + 1]; }
      }
      RunUnknown(S, x, us[1..], depth);
      assert m.unknown + [us[0]] + us[1..] == m.unknown + us;
    }
  }

  /** Concatenation is merge. Parsing the serialised form of c on top of m, with more bytes t behind
      it, goes on with t from Merge(m, c) when c can be sent, and fails when it cannot. */
  lemma {:induction false} ParseSerialized(S: Schema, m: Msg, c: Msg, t: seq<byte>, depth: nat)
    requires ValidSchema(S) && Conforms(S, m) && Conforms(S, c)
    ensures Parse(S, m, Serialize(S, c) + t, depth)
         == if Sendable(S, c, depth) then Parse(S, Merge(S, m, c), t, depth) else None
    decreases S, 3
  {
    hide Run, ValSendable, ValConforms, ValidSchema, MergeVal, AllWellFormed, AllReadable, Parse, KnownRecs;
    var n := |S.fields|;
    RecordsWellFormed(S, c);
    ParseEncoded(S, m, Records(S, c), t, depth);
    RunKnown(S, m, c, n, depth);
    RunAppend(S, m, KnownRecs(S, c, n), c.unknown, depth);
    var x := MergedUpTo(S, m, c, n);
    RunUnknown(S, x, c.unknown, depth);
    assert Sendable(S, c, depth) <==> SendableUpTo(S, c, n, depth) && AllReadable(c.unknown, depth);
    assert x.(unknown := x.unknown + c.unknown) == Merge(S, m, c) by {
      assert x.vals == Merge(S, m, c).vals;
    }
  }

  /** A message survives serialising and parsing exactly when it can be sent; otherwise the parse fails. */
  lemma {:induction false} RoundTripExactly(S: Schema, m: Msg)
    requires ValidSchema(S) && Conforms(S, m)
    ensures ParseFromArray(S, Serialize(S, m))
         == if Sendable(S, m, RECURSION_LIMIT) then Some(m) else None
  {
    ParseSerialized(S, Default(S), m, [], RECURSION_LIMIT);
    assert Serialize(S, m) + [] == Serialize(S, m);
    MergeIntoDefault(S, m);
  }
}
