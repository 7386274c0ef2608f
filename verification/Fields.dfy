/** One field at a time: what _InternalSerialize writes for it, and how the contributions of all fields make up the
    whole message. */
module Fields {
  import opened Options
  import opened Wire
  import opened Messages
  import opened Sizes
  import opened Writer
  import opened Stability

  lemma {:induction false} ConformsField(S: Schema, m: Msg, i: nat)
    requires Conforms(S, m) && i < |S.fields|
    ensures |m.vals| == |S.fields| && ValConforms(S.fields[i].kind, m.vals[i])
  {}

  /** The bytes of one field. */
  function FieldBytes(f: Field, v: Val): nat
    requires ValConforms(f.kind, v)
  {
    |EncodeRecs(FieldRecs(f, v))|
  }

  /** A part of a message is no longer than the message. */
  lemma {:induction false} PartBound(S: Schema, m: Msg, i: nat)
    requires Conforms(S, m) && i < |S.fields|
    ensures FieldBytes(S.fields[i], m.vals[i]) <= |Serialize(S, m)|
    ensures S.fields[i].kind == KString ==> |m.vals[i].s| <= |Serialize(S, m)|
    ensures S.fields[i].kind.KMessage? && m.vals[i].o.Some? ==>
      |Serialize(S.fields[i].kind.schema, m.vals[i].o.value)| <= |Serialize(S, m)|
    ensures S.fields[i].kind.KRepeated? ==> forall j | 0 <= j < |m.vals[i].ms| ::
      |Serialize(S.fields[i].kind.schema, m.vals[i].ms[j])| <= |Serialize(S, m)|
  {
    var f, v := S.fields[i], m.vals[i];
    assert FieldBytes(f, v) <= |Serialize(S, m)| by {
      FieldLength(S, m, |S.fields|, i);
      EncodeRecsAppend(KnownRecs(S, m, |S.fields|), m.unknown);
    }
    hide Serialize, EncodeRecs;
    match f.kind {
      case KString => if v.s != [] { PartLength(FieldRecs(f, v), 0); }
      case KMessage(sub) => if v.o.Some? { PartLength(FieldRecs(f, v), 0); }
      case KRepeated(sub) =>
        forall j | 0 <= j < |v.ms| ensures |Serialize(sub, v.ms[j])| <= |Serialize(S, m)| {
          ElementLength(f.num, sub, v.ms, j);
        }
      case _ =>
    }
  }

  // ------------------------------------------------------------------ _InternalSerialize

  /** The first i fields of m stand in the buffer from t0 to t, and there is room for the rest. */
  predicate Progress(S: Schema, m: Msg, i: nat, a0: seq<byte>, a: seq<byte>, t0: nat, t: nat) {
    && Conforms(S, m) && i <= |S.fields|
    && t == t0 + |EncodeRecs(KnownRecs(S, m, i))|
    && Wrote(a0, a, t0, EncodeRecs(KnownRecs(S, m, i)))
    && t0 + |Serialize(S, m)| <= |a|
  }

  lemma {:induction false} ProgressStarts(S: Schema, m: Msg, a: seq<byte>, t: nat)
    requires Conforms(S, m) && t + |Serialize(S, m)| <= |a|
    ensures Progress(S, m, 0, a, a, t, t)
  {
    hide Serialize;
    EncodeNothing();
    WroteNothing(a, t);
  }

  lemma {:induction false} RoomFor(S: Schema, m: Msg, i: nat)
    requires Conforms(S, m) && i < |S.fields|
    ensures |EncodeRecs(KnownRecs(S, m, i))| + FieldBytes(S.fields[i], m.vals[i]) <= |Serialize(S, m)|
    ensures EncodeRecs(KnownRecs(S, m, i + 1))
         == EncodeRecs(KnownRecs(S, m, i)) + EncodeRecs(FieldRecs(S.fields[i], m.vals[i]))
  {
    hide EncodeRecs, FieldRecs, ValConforms;
    EncodeRecsAppend(KnownRecs(S, m, i), FieldRecs(S.fields[i], m.vals[i]));
    EncodeRecsAppend(KnownRecs(S, m, |S.fields|), m.unknown);
    KnownGrows(S, m, i + 1, |S.fields|);
  }

  lemma {:induction false} KnownGrows(S: Schema, m: Msg, i: nat, n: nat)
    requires Conforms(S, m) && i <= n <= |S.fields|
    ensures |EncodeRecs(KnownRecs(S, m, i))| <= |EncodeRecs(KnownRecs(S, m, n))|
    decreases n - i
  {
    hide EncodeRecs, FieldRecs, ValConforms;
    if i < n {
      KnownGrows(S, m, i, n - 1);
      EncodeRecsAppend(KnownRecs(S, m, n - 1), FieldRecs(S.fields[n - 1], m.vals[n - 1]));
    }
  }

  lemma {:induction false} ProgressField(S: Schema, m: Msg, i: nat, a0: seq<byte>, a: seq<byte>, a': seq<byte>,
                                         t0: nat, t: nat)
    requires Progress(S, m, i, a0, a, t0, t) && i < |S.fields|
    requires Wrote(a, a', t, EncodeRecs(FieldRecs(S.fields[i], m.vals[i])))
    ensures Progress(S, m, i + 1, a0, a', t0, t + FieldBytes(S.fields[i], m.vals[i]))
  {
    hide EncodeRecs, FieldRecs, ValConforms, Serialize, KnownRecs;
    RoomFor(S, m, i);
    WroteThen(a0, a, a', t0, EncodeRecs(KnownRecs(S, m, i)), EncodeRecs(FieldRecs(S.fields[i], m.vals[i])));
    WroteLength(a0, a', t0, EncodeRecs(KnownRecs(S, m, i + 1)));
    WroteLength(a, a', t, EncodeRecs(FieldRecs(S.fields[i], m.vals[i])));
  }

  lemma {:induction false} WroteLength(a: seq<byte>, b: seq<byte>, t: nat, bs: seq<byte>)
    requires Wrote(a, b, t, bs)
    ensures |a| == |b| && t + |bs| <= |b|
  {}

  method PutFloat(ghost S: Schema, ghost m: Msg, ghost a0: seq<byte>, a: array<byte>, ghost t0: nat, t: nat,
                  num: nat, v: nat) returns (t': nat)
    requires 1 <= num <= |S.fields| && Progress(S, m, num - 1, a0, a[..], t0, t)
    requires S.fields[num - 1] == Field(num, KFixed32) && m.vals[num - 1] == VInt(v)
    modifies a
    ensures Progress(S, m, num, a0, a[..], t0, t')
  {
    hide EncodeRecs, EncodeRec, Wrote, Serialize, Conforms, KnownRecs;
    ghost var b := a[..];
    t' := t;
    RoomFor(S, m, num - 1);
    EncodeNothing();
    WroteNothing(a[..], t);
    if v != 0 {
      OneRec(Fixed32Rec(num, v));
      t' := WriteFixed32Field(a, t, num, v);
    }
    ProgressField(S, m, num - 1, a0, b, a[..], t0, t);
  }

  method PutVarint(ghost S: Schema, ghost m: Msg, ghost a0: seq<byte>, a: array<byte>, ghost t0: nat, t: nat,
                   num: nat, v: nat) returns (t': nat)
    requires 1 <= num <= |S.fields| && Progress(S, m, num - 1, a0, a[..], t0, t)
    requires S.fields[num - 1].num == num && S.fields[num - 1].kind in {KUInt64, KUInt32, KBool}
    requires m.vals[num - 1] == VInt(v)
    modifies a
    ensures Progress(S, m, num, a0, a[..], t0, t')
  {
    hide EncodeRecs, EncodeRec, Wrote, Serialize, Conforms, KnownRecs;
    ghost var b := a[..];
    t' := t;
    RoomFor(S, m, num - 1);
    EncodeNothing();
    WroteNothing(a[..], t);
    if v != 0 {
      OneRec(VarintRec(num, v));
      t' := WriteVarintField(a, t, num, v);
    }
    ProgressField(S, m, num - 1, a0, b, a[..], t0, t);
  }

  /** int32 and enum fields go through the 64-bit sign extension. */
  method PutInt32(ghost S: Schema, ghost m: Msg, ghost a0: seq<byte>, a: array<byte>, ghost t0: nat, t: nat,
                  num: nat, v: int32) returns (t': nat)
    requires 1 <= num <= |S.fields| && Progress(S, m, num - 1, a0, a[..], t0, t)
    requires S.fields[num - 1] == Field(num, KInt32) && m.vals[num - 1] == VInt(v)
    modifies a
    ensures Progress(S, m, num, a0, a[..], t0, t')
  {
    hide EncodeRecs, EncodeRec, Wrote, Serialize, KnownRecs;
    hide Conforms;
    ghost var b := a[..];
    t' := t;
    RoomFor(S, m, num - 1);
    EncodeNothing();
    WroteNothing(a[..], t);
    if v != 0 {
      OneRec(VarintRec(num, SignExtend(v)));
      t' := WriteVarintField(a, t, num, SignExtend(v));
    }
    ProgressField(S, m, num - 1, a0, b, a[..], t0, t);
  }

  method PutString(ghost S: Schema, ghost m: Msg, ghost a0: seq<byte>, a: array<byte>, ghost t0: nat, t: nat,
                   num: nat, s: seq<byte>) returns (t': nat)
    requires 1 <= num <= |S.fields| && Progress(S, m, num - 1, a0, a[..], t0, t)
    requires S.fields[num - 1] == Field(num, KString) && m.vals[num - 1] == VBytes(s)
    modifies a
    ensures Progress(S, m, num, a0, a[..], t0, t')
  {
    hide EncodeRecs, EncodeRec, Wrote, Serialize, Conforms, KnownRecs;
    ghost var b := a[..];
    t' := t;
    RoomFor(S, m, num - 1);
    EncodeNothing();
    WroteNothing(a[..], t);
    if s != [] {
      OneRec(LenRec(num, s));
      t' := WriteString(a, t, num, s);
    }
    ProgressField(S, m, num - 1, a0, b, a[..], t0, t);
  }

  /** The unknown fields end a message. */
  method PutUnknown(ghost S: Schema, ghost m: Msg, ghost a0: seq<byte>, a: array<byte>, ghost t0: nat, t: nat,
                    rs: seq<Rec>) returns (t': nat)
    requires Progress(S, m, |S.fields|, a0, a[..], t0, t) && m.unknown == rs
    modifies a
    ensures t' == t0 + |Serialize(S, m)| && Wrote(a0, a[..], t0, Serialize(S, m))
  {
    hide EncodeRecs, Wrote, Conforms, KnownRecs;
    ghost var b := a[..];
    EncodeRecsAppend(KnownRecs(S, m, |S.fields|), m.unknown);
    assert Serialize(S, m) == EncodeRecs(KnownRecs(S, m, |S.fields|)) + EncodeRecs(rs);
    t' := WriteUnknown(a, t, rs);
    WroteThen(a0, b, a[..], t0, EncodeRecs(KnownRecs(S, m, |S.fields|)), EncodeRecs(rs));
  }

  // ------------------------------------------------------------------ nested messages

  lemma {:induction false} HeaderIsRecStart(num: nat, s: seq<byte>)
    ensures EncodeRec(LenRec(num, s)) == EncodeTag(num, 2) + EncodeVarint(|s|) + s
    ensures |EncodeTag(num, 2)| + |EncodeVarint(|s|)| + |s| == |EncodeRec(LenRec(num, s))|
  {}

  lemma {:induction false} NestedRoom(S: Schema, m: Msg, num: nat)
    requires 1 <= num <= |S.fields| && Conforms(S, m)
    requires S.fields[num - 1].num == num && S.fields[num - 1].kind.KMessage?
    requires m.vals[num - 1].VOpt? && m.vals[num - 1].o.Some?
    requires Conforms(S.fields[num - 1].kind.schema, m.vals[num - 1].o.value)
    ensures var s := Serialize(S.fields[num - 1].kind.schema, m.vals[num - 1].o.value);
      && |EncodeRecs(KnownRecs(S, m, num - 1))| + |EncodeRec(LenRec(num, s))| <= |Serialize(S, m)|
      && EncodeRecs(FieldRecs(S.fields[num - 1], m.vals[num - 1])) == EncodeRec(LenRec(num, s))
  {
    hide EncodeRecs, EncodeRec, Serialize, KnownRecs, FieldRecs;
    RoomFor(S, m, num - 1);
    NestedRecs(S.fields[num - 1], m.vals[num - 1], S.fields[num - 1].kind.schema, m.vals[num - 1].o.value);
  }

  lemma {:induction false} NestedRecs(f: Field, v: Val, sub: Schema, x: Msg)
    requires f.kind == KMessage(sub) && v == VOpt(Some(x)) && ValConforms(f.kind, v)
    ensures EncodeRecs(FieldRecs(f, v)) == EncodeRec(LenRec(f.num, Serialize(sub, x)))
  {
    hide EncodeRecs, EncodeRec, Serialize;
    OneRec(LenRec(f.num, Serialize(sub, x)));
  }

  /** Room for the header and the body of a nested message. */
  lemma {:induction false} NestedFits(S: Schema, m: Msg, num: nat, a0: seq<byte>, a: seq<byte>, t0: nat, t: nat,
                                      s: seq<byte>)
    requires 1 <= num <= |S.fields| && Progress(S, m, num - 1, a0, a, t0, t)
    requires S.fields[num - 1].num == num && S.fields[num - 1].kind.KMessage?
    requires m.vals[num - 1].VOpt? && m.vals[num - 1].o.Some?
    requires Conforms(S.fields[num - 1].kind.schema, m.vals[num - 1].o.value)
    requires s == Serialize(S.fields[num - 1].kind.schema, m.vals[num - 1].o.value)
    ensures t + |EncodeTag(num, 2)| + |EncodeVarint(|s|)| + |s| <= |a|
    ensures |EncodeTag(num, 2)| + |EncodeVarint(|s|)| + |s| == |EncodeRec(LenRec(num, s))|
  {
    hide EncodeRecs, EncodeRec, Wrote, Serialize, KnownRecs, EncodeTag, EncodeVarint;
    NestedRoom(S, m, num);
    HeaderIsRecStart(num, s);
  }

  lemma {:induction false} AbsentWritten(S: Schema, m: Msg, num: nat, a0: seq<byte>, a: seq<byte>, t0: nat, t: nat)
    requires 1 <= num <= |S.fields| && Progress(S, m, num - 1, a0, a, t0, t)
    requires S.fields[num - 1].kind.KMessage? && m.vals[num - 1] == VOpt(None)
    ensures Progress(S, m, num, a0, a, t0, t)
  {
    hide EncodeRecs, Wrote, Serialize, Conforms, KnownRecs;
    EncodeNothing();
    WroteLength(a0, a, t0, EncodeRecs(KnownRecs(S, m, num - 1)));
    WroteNothing(a, t);
    ProgressField(S, m, num - 1, a0, a, a, t0, t);
  }

  /** Header and body of a nested message make up its field. */
  lemma {:induction false} NestedWritten(S: Schema, m: Msg, num: nat, a0: seq<byte>, a: seq<byte>, b: seq<byte>,
                                         c: seq<byte>, t0: nat, t: nat, s: seq<byte>)
    requires 1 <= num <= |S.fields| && Progress(S, m, num - 1, a0, a, t0, t)
    requires S.fields[num - 1].num == num && S.fields[num - 1].kind.KMessage?
    requires m.vals[num - 1].VOpt? && m.vals[num - 1].o.Some?
    requires Conforms(S.fields[num - 1].kind.schema, m.vals[num - 1].o.value)
    requires s == Serialize(S.fields[num - 1].kind.schema, m.vals[num - 1].o.value)
    requires Wrote(a, b, t, EncodeTag(num, 2) + EncodeVarint(|s|))
    requires Wrote(b, c, t + |EncodeTag(num, 2)| + |EncodeVarint(|s|)|, s)
    ensures Progress(S, m, num, a0, c, t0, t + |EncodeRec(LenRec(num, s))|)
  {
    hide EncodeRecs, EncodeRec, Wrote, Serialize, KnownRecs, EncodeTag, EncodeVarint;
    NestedRoom(S, m, num);
    HeaderIsRecStart(num, s);
    WroteThen(a, b, c, t, EncodeTag(num, 2) + EncodeVarint(|s|), s);
    ProgressField(S, m, num - 1, a0, a, c, t0, t);
  }

  // ------------------------------------------------------------------ repeated messages

  /** As Progress, with the first j elements of repeated field num written too. */
  predicate ElementProgress(S: Schema, m: Msg, num: nat, j: nat, a0: seq<byte>, a: seq<byte>, t0: nat, t: nat) {
    && Conforms(S, m) && 1 <= num <= |S.fields| && S.fields[num - 1].num == num
    && S.fields[num - 1].kind.KRepeated? && m.vals[num - 1].VRep? && j <= |m.vals[num - 1].ms|
    && ValConforms(S.fields[num - 1].kind, m.vals[num - 1])
    && (var e := EncodeRecs(KnownRecs(S, m, num - 1))
               + EncodeRecs(ElementRecs(num, S.fields[num - 1].kind.schema, m.vals[num - 1].ms[..j]));
        t == t0 + |e| && Wrote(a0, a, t0, e))
    && t0 + |Serialize(S, m)| <= |a|
  }

  lemma {:induction false} ElementsStart(S: Schema, m: Msg, num: nat, a0: seq<byte>, a: seq<byte>, t0: nat, t: nat)
    requires 1 <= num <= |S.fields| && Progress(S, m, num - 1, a0, a, t0, t)
    requires S.fields[num - 1].num == num && S.fields[num - 1].kind.KRepeated?
    ensures ElementProgress(S, m, num, 0, a0, a, t0, t)
  {
    hide EncodeRecs, Wrote, Serialize, KnownRecs;
    assert ValConforms(S.fields[num - 1].kind, m.vals[num - 1]);
    EncodeNothing();
    var e := EncodeRecs(KnownRecs(S, m, num - 1));
    assert e + [] == e;
    assert m.vals[num - 1].ms[..0] == [];
  }

  lemma {:induction false} ElementsEnd(S: Schema, m: Msg, num: nat, a0: seq<byte>, a: seq<byte>, t0: nat, t: nat)
    requires 1 <= num <= |S.fields| && m.vals != [] && |m.vals| == |S.fields| && m.vals[num - 1].VRep?
    requires ElementProgress(S, m, num, |m.vals[num - 1].ms|, a0, a, t0, t)
    ensures Progress(S, m, num, a0, a, t0, t)
  {
    hide EncodeRecs, Wrote, Serialize, KnownRecs, Conforms, ElementRecs;
    assert m.vals[num - 1].ms[..|m.vals[num - 1].ms|] == m.vals[num - 1].ms;
    RoomFor(S, m, num - 1);
  }

  /** The records of the first j + 1 elements, and the room they need. */
  lemma {:induction false} ElementRoom(S: Schema, m: Msg, num: nat, j: nat, sub: Schema, ms: seq<Msg>)
    requires Conforms(S, m) && 1 <= num <= |S.fields| && S.fields[num - 1] == Field(num, KRepeated(sub))
    requires m.vals[num - 1] == VRep(ms) && j < |ms| && forall i | 0 <= i < |ms| :: Conforms(sub, ms[i])
    ensures EncodeRecs(ElementRecs(num, sub, ms[..j + 1]))
         == EncodeRecs(ElementRecs(num, sub, ms[..j])) + EncodeRec(LenRec(num, Serialize(sub, ms[j])))
    ensures |EncodeRecs(KnownRecs(S, m, num - 1))| + |EncodeRecs(ElementRecs(num, sub, ms[..j + 1]))|
         <= |Serialize(S, m)|
  {
    hide EncodeRecs, EncodeRec, Serialize, KnownRecs, Conforms, ElementRecs, ValConforms;
    RoomFor(S, m, num - 1);
    hide FieldRecs;
    ElementRecsLast(num, sub, ms, j);
    ElementsGrow(num, sub, ms, j + 1);
  }

  lemma {:induction false} ElementRecsLast(num: nat, sub: Schema, ms: seq<Msg>, j: nat)
    requires forall i | 0 <= i < |ms| :: Conforms(sub, ms[i])
    requires j < |ms|
    ensures EncodeRecs(ElementRecs(num, sub, ms[..j + 1]))
         == EncodeRecs(ElementRecs(num, sub, ms[..j])) + EncodeRec(LenRec(num, Serialize(sub, ms[j])))
  {
    hide EncodeRecs, EncodeRec, Serialize, Conforms;
    var r := LenRec(num, Serialize(sub, ms[j]));
    assert ms[..j + 1][..j] == ms[..j] && ms[..j + 1][j] == ms[j];
    EncodeRecsAppend(ElementRecs(num, sub, ms[..j]), [r]);
    OneRec(r);
  }

  lemma {:induction false} ElementsGrow(num: nat, sub: Schema, ms: seq<Msg>, j: nat)
    requires forall i | 0 <= i < |ms| :: Conforms(sub, ms[i])
    requires j <= |ms|
    ensures |EncodeRecs(ElementRecs(num, sub, ms[..j]))| <= |EncodeRecs(ElementRecs(num, sub, ms))|
    decreases |ms|
  {
    hide EncodeRecs, Serialize, Conforms;
    if j == |ms| {
      assert ms[..j] == ms;
    } else {
      var init := ms[..|ms| - 1];
      ElementsGrow(num, sub, init, j);
      assert init[..j] == ms[..j];
      EncodeRecsAppend(ElementRecs(num, sub, init), [LenRec(num, Serialize(sub, ms[|ms| - 1]))]);
    }
  }

  lemma {:induction false} ElementWritten(S: Schema, m: Msg, num: nat, sub: Schema, ms: seq<Msg>, j: nat,
                                          a0: seq<byte>, a: seq<byte>, b: seq<byte>, c: seq<byte>, t0: nat, t: nat,
                                          s: seq<byte>)
    requires ElementProgress(S, m, num, j, a0, a, t0, t)
    requires S.fields[num - 1].kind == KRepeated(sub) && m.vals[num - 1] == VRep(ms) && j < |ms|
    requires Conforms(sub, ms[j]) && s == Serialize(sub, ms[j])
    requires Wrote(a, b, t, EncodeTag(num, 2) + EncodeVarint(|s|))
    requires Wrote(b, c, t + |EncodeTag(num, 2)| + |EncodeVarint(|s|)|, s)
    ensures ElementProgress(S, m, num, j + 1, a0, c, t0, t + |EncodeRec(LenRec(num, s))|)
  {
    hide EncodeRecs, EncodeRec, Wrote, Serialize, KnownRecs, EncodeTag, EncodeVarint, Conforms, ElementRecs;
    ElementRoom(S, m, num, j, sub, ms);
    HeaderIsRecStart(num, s);
    WroteThen(a, b, c, t, EncodeTag(num, 2) + EncodeVarint(|s|), s);
    var e := EncodeRecs(KnownRecs(S, m, num - 1)) + EncodeRecs(ElementRecs(num, sub, ms[..j]));
    WroteThen(a0, a, c, t0, e, EncodeRec(LenRec(num, s)));
    Associate(EncodeRecs(KnownRecs(S, m, num - 1)), EncodeRecs(ElementRecs(num, sub, ms[..j])),
              EncodeRec(LenRec(num, s)));
    WroteLength(a, c, t, EncodeRec(LenRec(num, s)));
  }

  /** Room for the header and the body of one more element. */
  lemma {:induction false} ElementFits(S: Schema, m: Msg, num: nat, sub: Schema, ms: seq<Msg>, j: nat, a0: seq<byte>,
                                       a: seq<byte>, t0: nat, t: nat, s: seq<byte>)
    requires ElementProgress(S, m, num, j, a0, a, t0, t)
    requires S.fields[num - 1].kind == KRepeated(sub) && m.vals[num - 1] == VRep(ms) && j < |ms|
    requires Conforms(sub, ms[j]) && s == Serialize(sub, ms[j])
    ensures t + |EncodeTag(num, 2)| + |EncodeVarint(|s|)| + |s| <= |a|
    ensures |EncodeTag(num, 2)| + |EncodeVarint(|s|)| + |s| == |EncodeRec(LenRec(num, s))|
  {
    hide EncodeRecs, EncodeRec, Wrote, Serialize, KnownRecs, EncodeTag, EncodeVarint, Conforms, ElementRecs;
    ElementRoom(S, m, num, j, sub, ms);
    HeaderIsRecStart(num, s);
  }

  // ------------------------------------------------------------------ MergeImpl

  lemma {:induction false} MergeIs(S: Schema, a: Msg, b: Msg, m: Msg)
    requires Conforms(S, a) && Conforms(S, b) && |m.vals| == |S.fields|
    requires forall i | 0 <= i < |S.fields| :: m.vals[i] == MergeVal(S.fields[i].kind, a.vals[i], b.vals[i])
    requires m.unknown == a.unknown + b.unknown
    ensures m == Merge(S, a, b)
  {
    hide MergeVal;
    assert m.vals == Merge(S, a, b).vals;
  }

  /** What a set-if-not-default assignment leaves. */
  function Pick(to: int, from: int): int { if from != 0 then from else to }

  predicate Scalar(k: Kind) { k.KFixed32? || k.KUInt64? || k.KUInt32? || k.KInt32? || k.KBool? }

  function Scalars(v: seq<int>): seq<Val> { seq(|v|, i requires 0 <= i < |v| => VInt(v[i])) }

  lemma {:induction false} MergeScalars(S: Schema, a: seq<int>, u: seq<Rec>, b: seq<int>, w: seq<Rec>)
    requires forall i | 0 <= i < |S.fields| :: Scalar(S.fields[i].kind)
    requires |a| == |b| == |S.fields|
    requires Conforms(S, Msg(Scalars(a), u)) && Conforms(S, Msg(Scalars(b), w))
    ensures Merge(S, Msg(Scalars(a), u), Msg(Scalars(b), w))
         == Msg(Scalars(seq(|a|, i requires 0 <= i < |a| => Pick(a[i], b[i]))), u + w)
  {
    var x, y := Msg(Scalars(a), u), Msg(Scalars(b), w);
    var m := Msg(Scalars(seq(|a|, i requires 0 <= i < |a| => Pick(a[i], b[i]))), u + w);
    forall i | 0 <= i < |S.fields| ensures m.vals[i] == MergeVal(S.fields[i].kind, x.vals[i], y.vals[i]) {}
    MergeIs(S, x, y, m);
  }

  function Five(v: seq<int>): seq<Val>
    requires |v| == 5
  {
    [VInt(v[0]), VInt(v[1]), VInt(v[2]), VInt(v[3]), VInt(v[4])]
  }

  /** Merging two messages of five scalar fields. */
  lemma {:induction false} MergeFive(S: Schema, a: seq<int>, u: seq<Rec>, b: seq<int>, w: seq<Rec>)
    requires |a| == |b| == |S.fields| == 5 && forall i | 0 <= i < 5 :: Scalar(S.fields[i].kind)
    requires Conforms(S, Msg(Five(a), u)) && Conforms(S, Msg(Five(b), w))
    ensures Merge(S, Msg(Five(a), u), Msg(Five(b), w))
         == Msg(Five([Pick(a[0], b[0]), Pick(a[1], b[1]), Pick(a[2], b[2]), Pick(a[3], b[3]), Pick(a[4], b[4])]), u + w)
  {
    hide Conforms, Merge;
    assert Five(a) == Scalars(a) && Five(b) == Scalars(b);
    MergeScalars(S, a, u, b, w);
    var c := seq(|a|, i requires 0 <= i < |a| => Pick(a[i], b[i]));
    assert [Pick(a[0], b[0]), Pick(a[1], b[1]), Pick(a[2], b[2]), Pick(a[3], b[3]), Pick(a[4], b[4])] == c;
    assert Five(c) == Scalars(c);
  }

  /** Merging into a submessage that is created on demand. */
  function MergeOptional(sub: Schema, a: Option<Msg>, b: Option<Msg>): Option<Msg>
    requires (a.Some? ==> Conforms(sub, a.value)) && (b.Some? ==> Conforms(sub, b.value))
  {
    if b.None? then a else Some(Merge(sub, if a.Some? then a.value else Default(sub), b.value))
  }

  lemma {:induction false} DefaultIs(S: Schema, m: Msg)
    requires |m.vals| == |S.fields| && m.unknown == []
    requires forall i | 0 <= i < |S.fields| :: m.vals[i] == DefaultVal(S.fields[i].kind)
    ensures m == Default(S)
  {
    hide DefaultVal;
    assert m.vals == Default(S).vals;
  }
}
