/** Serialising what was parsed takes at most twice the bytes that were parsed. The factor is real: a
    five-byte varint can turn into a negative number, which is written back in ten bytes. */
module SizeBound {
  import opened Wire
  import opened Messages
  import opened Writer
  import opened Fields
  import opened Stability

  function EncodedLength(v: nat): nat { |EncodeVarint(v)| }

  lemma {:induction false} EncodedLengthMonotone(a: nat, b: nat)
    requires a <= b
    ensures EncodedLength(a) <= EncodedLength(b)
    decreases b
  {
    if a >= 128 { EncodedLengthMonotone(a / 128, b / 128); }
  }

  lemma {:induction false} EncodedLengthSum(a: nat, b: nat)
    ensures EncodedLength(a + b + 1) <= EncodedLength(a) + EncodedLength(b)
    decreases a + b
  {
    if a < 128 && b < 128 {
      assert (a + b + 1) / 128 < 128;
    } else {
      var a', b' := if a < 128 then 0 else a / 128, if b < 128 then 0 else b / 128;
      assert (a + b + 1) / 128 <= a' + b' + 1;
      EncodedLengthSum(a', b');
      EncodedLengthMonotone((a + b + 1) / 128, a' + b' + 1);
    }
  }

  lemma {:induction false} EncodedLengthDouble(a: nat, b: nat)
    ensures EncodedLength(a + 2 * b) <= EncodedLength(a) + EncodedLength(b) + 1
    ensures EncodedLength(2 * b) <= EncodedLength(b) + 1
  {
    EncodedLengthSum(a, 2 * b);
    EncodedLengthMonotone(a + 2 * b, a + 2 * b + 1);
    DoubleOne(b);
  }

  lemma {:induction false} DoubleOne(b: nat)
    ensures EncodedLength(2 * b) <= EncodedLength(b) + 1
  {
    if b < 128 {
      assert 2 * b / 128 < 128;
    } else {
      assert 2 * b / 128 <= 2 * (b / 128) + 1;
      DoubleOdd(b / 128);
      EncodedLengthMonotone(2 * b / 128, 2 * (b / 128) + 1);
    }
  }

  lemma {:induction false} DoubleOdd(b: nat)
    ensures EncodedLength(2 * b + 1) <= EncodedLength(b) + 1
  {
    if b < 128 {
      assert (2 * b + 1) / 128 < 128;
    } else {
      assert (2 * b + 1) / 128 <= 2 * (b / 128) + 1;
      DoubleOdd(b / 128);
      EncodedLengthMonotone((2 * b + 1) / 128, 2 * (b / 128) + 1);
    }
  }

  // ------------------------------------------------------------------ the canonical form is the shortest

  lemma {:induction false} CanonicalVarint(b: seq<byte>, max: nat)
    requires RawVarint(b, max).Some?
    ensures EncodedLength(RawVarint(b, max).value.0) <= RawVarint(b, max).value.1
    decreases max
  {
    if b[0] >= 128 {
      CanonicalVarint(b[1..], max - 1);
      var v := RawVarint(b[1..], max - 1).value.0;
      assert (b[0] - 128 + 128 * v) / 128 == v;
    }
  }

  lemma {:induction false} CanonicalItem(b: seq<byte>, depth: nat)
    requires ReadItem(b, depth).Item?
    ensures |EncodeRec(ReadItem(b, depth).rec)| <= ReadItem(b, depth).n
    decreases |b|, 1
  {
    hide RawVarint, EncodeVarint;
    var (tag, n) := ReadTag(b).value;
    CanonicalVarint(b, 5);
    EncodedLengthMonotone(tag, RawVarint(b, 5).value.0);
    assert tag == tag / 8 * 8 + tag % 8;
    CanonicalPayload(b[n..], tag / 8, tag % 8, depth);
  }

  lemma {:induction false} CanonicalPayload(b: seq<byte>, num: nat, wire: nat, depth: nat)
    requires ReadPayload(b, num, wire, depth).Some?
    ensures |EncodeRec(ReadPayload(b, num, wire, depth).value.0)|
         <= |EncodeTag(num, wire)| + ReadPayload(b, num, wire, depth).value.1
    decreases |b|, 3
  {
    hide RawVarint, EncodeVarint, EncodeTag;
    if wire == 0 {
      CanonicalVarint(b, 10);
      EncodedLengthMonotone(ReadVarint64(b).value.0, RawVarint(b, 10).value.0);
    } else if wire == 2 {
      CanonicalVarint(b, 5);
    } else if wire == 3 {
      CanonicalGroup(b, num, depth - 1);
    }
  }

  lemma {:induction false} CanonicalGroup(b: seq<byte>, num: nat, depth: nat)
    requires ReadGroup(b, num, depth).Some?
    ensures |EncodeRecs(ReadGroup(b, num, depth).value.0)| + |EncodeTag(num, 4)|
         <= ReadGroup(b, num, depth).value.1
    decreases |b|, 2
  {
    match ReadItem(b, depth) {
      case End(m, n) => CanonicalEnd(b, depth);
      case Item(r, n) =>
        hide ReadItem, EncodeRec, EncodeTag;
        CanonicalItem(b, depth);
        CanonicalGroup(b[n..], num, depth);
        var rs := ReadGroup(b[n..], num, depth).value.0;
        assert ([r] + rs)[1..] == rs;
    }
  }

  lemma {:induction false} CanonicalEnd(b: seq<byte>, depth: nat)
    requires ReadItem(b, depth).End?
    ensures |EncodeTag(ReadItem(b, depth).num, 4)| <= ReadItem(b, depth).n
  {
    hide RawVarint, EncodeVarint;
    var (tag, n) := ReadTag(b).value;
    CanonicalVarint(b, 5);
    EncodedLengthMonotone(tag, RawVarint(b, 5).value.0);
    assert tag == tag / 8 * 8 + 4;
  }

  // ------------------------------------------------------------------ growth of a message by one record

  /** Replacing one field value changes the size of the first n fields by what that field changes. */
  lemma {:induction false} ReplaceField(S: Schema, m: Msg, i: nat, v: Val, n: nat)
    requires Conforms(S, m) && i < |S.fields| && n <= |S.fields| && ValConforms(S.fields[i].kind, v)
    requires Conforms(S, m.(vals := m.vals[i := v]))
    ensures |EncodeRecs(KnownRecs(S, m.(vals := m.vals[i := v]), n))|
         == |EncodeRecs(KnownRecs(S, m, n))|
            + if i < n then FieldBytes(S.fields[i], v) - FieldBytes(S.fields[i], m.vals[i]) else 0
    decreases n
  {
    hide EncodeRecs, FieldRecs, ValConforms;
    if n > 0 {
      var x := m.(vals := m.vals[i := v]);
      ReplaceField(S, m, i, v, n - 1);
      EncodeRecsAppend(KnownRecs(S, m, n - 1), FieldRecs(S.fields[n - 1], m.vals[n - 1]));
      EncodeRecsAppend(KnownRecs(S, x, n - 1), FieldRecs(S.fields[n - 1], x.vals[n - 1]));
    }
  }

  /** The size of a record of a schema field: one byte of tag. */
  lemma {:induction false} RecSize(num: nat, s: seq<byte>, v: nat)
    requires 1 <= num <= 15
    ensures |EncodeRec(LenRec(num, s))| == 1 + EncodedLength(|s|) + |s|
    ensures |EncodeRec(VarintRec(num, v))| == 1 + EncodedLength(v)
    ensures |EncodeRec(Fixed32Rec(num, v))| == 5
  {}

  lemma {:induction false} SignedSize(v: nat)
    requires v < TWO64
    ensures var i := Signed32(v); EncodedLength(if i < 0 then i + TWO64 else i) <= 2 * EncodedLength(v)
  {
    var i := Signed32(v);
    if i < 0 {
      Pow128Values();
      VarintLength(i + TWO64, 10);
      assert v >= 0x8000_0000;
      assert EncodedLength(v) >= 5 by {
        assert Pow128(4) == 0x1000_0000;
        VarintLength(v, 4);
      }
    } else {
      EncodedLengthMonotone(i, v);
    }
  }

  lemma {:induction false} StoreGrowth(f: Field, cur: Val, r: Rec, depth: nat)
    requires 1 <= f.num <= 15 && r.num == f.num
    requires ValidKind(f.kind) && ValConforms(f.kind, cur) && Matches(f.kind, r) && WellFormed(r)
    requires ApplyVal(f.kind, cur, r, depth).Some?
    ensures FieldBytes(f, ApplyVal(f.kind, cur, r, depth).value) <= FieldBytes(f, cur) + 2 * |EncodeRec(r)|
    decreases f.kind, 1
  {
    hide EncodeRecs, EncodeRec, Parse, Serialize, Conforms, ValidSchema, EncodedLength, Signed32, WellFormed, ValidUtf8;
    var v := ApplyVal(f.kind, cur, r, depth).value;
    var rs := FieldRecs(f, v);
    if f.kind.KMessage? {
      StoreMessageGrowth(f, cur, r, depth);
    } else if f.kind.KRepeated? {
      StoreElementGrowth(f, cur, r, depth);
    } else if rs == [] {
      assert |EncodeRecs([])| == 0 by { EncodeNothing(); }
    } else {
      assert rs == [rs[0]];
      OneRec(rs[0]);
      ScalarGrowth(f, cur, r, depth);
    }
  }

  lemma {:induction false} ScalarGrowth(f: Field, cur: Val, r: Rec, depth: nat)
    requires 1 <= f.num <= 15 && r.num == f.num
    requires ValidKind(f.kind) && ValConforms(f.kind, cur) && Matches(f.kind, r) && WellFormed(r)
    requires !f.kind.KMessage? && !f.kind.KRepeated? && ApplyVal(f.kind, cur, r, depth).Some?
    requires FieldRecs(f, ApplyVal(f.kind, cur, r, depth).value) != []
    ensures |EncodeRec(FieldRecs(f, ApplyVal(f.kind, cur, r, depth).value)[0])| <= 2 * |EncodeRec(r)|
  {
    hide EncodeRec, Parse, Serialize, Conforms, ValidSchema, EncodedLength, Signed32, ValidUtf8;
    if r.VarintRec? {
      RecSize(f.num, [], r.v);
      var q := FieldRecs(f, ApplyVal(f.kind, cur, r, depth).value)[0];
      RecSize(f.num, [], q.v);
      if f.kind.KInt32? {
        SignedSize(r.v);
      } else {
        assert q.v <= r.v;
        EncodedLengthMonotone(q.v, r.v);
      }
    } else if r.Fixed32Rec? {
      RecSize(f.num, [], r.v);
      RecSize(f.num, [], FieldRecs(f, ApplyVal(f.kind, cur, r, depth).value)[0].v);
    }
  }

  lemma {:induction false} StoreMessageGrowth(f: Field, cur: Val, r: Rec, depth: nat)
    requires 1 <= f.num <= 15 && r.num == f.num && f.kind.KMessage? && r.LenRec?
    requires ValidKind(f.kind) && ValConforms(f.kind, cur) && WellFormed(r)
    requires ApplyVal(f.kind, cur, r, depth).Some?
    ensures FieldBytes(f, ApplyVal(f.kind, cur, r, depth).value) <= FieldBytes(f, cur) + 2 * |EncodeRec(r)|
    decreases f.kind, 0
  {
    hide EncodeRecs, EncodeRec, Parse, Serialize, Conforms, ValidSchema, EncodedLength, Default;
    var sub := f.kind.schema;
    var base := if cur.o.Some? then cur.o.value else Default(sub);
    ParseGrowth(sub, base, r.bytes, depth - 1);
    var x := ApplyVal(f.kind, cur, r, depth).value.o.value;
    var s, s' := |Serialize(sub, base)|, |Serialize(sub, x)|;
    var n := |r.bytes|;
    RecSize(f.num, r.bytes, 0);
    RecSize(f.num, Serialize(sub, x), 0);
    OneRec(LenRec(f.num, Serialize(sub, x)));
    EncodedLengthMonotone(s', s + 2 * n);
    EncodedLengthDouble(s, n);
    if cur.o.Some? {
      RecSize(f.num, Serialize(sub, base), 0);
      OneRec(LenRec(f.num, Serialize(sub, base)));
    } else {
      DefaultIsEmpty(sub);
    }
  }

  lemma {:induction false} StoreElementGrowth(f: Field, cur: Val, r: Rec, depth: nat)
    requires 1 <= f.num <= 15 && r.num == f.num && f.kind.KRepeated? && r.LenRec?
    requires ValidKind(f.kind) && ValConforms(f.kind, cur) && WellFormed(r)
    requires ApplyVal(f.kind, cur, r, depth).Some?
    ensures FieldBytes(f, ApplyVal(f.kind, cur, r, depth).value) <= FieldBytes(f, cur) + 2 * |EncodeRec(r)|
    decreases f.kind, 0
  {
    hide EncodeRecs, EncodeRec, Parse, Serialize, Conforms, ValidSchema, EncodedLength, Default;
    var sub := f.kind.schema;
    ParseGrowth(sub, Default(sub), r.bytes, depth - 1);
    DefaultIsEmpty(sub);
    var x := Parse(sub, Default(sub), r.bytes, depth - 1).value;
    var s', n := |Serialize(sub, x)|, |r.bytes|;
    RecSize(f.num, r.bytes, 0);
    RecSize(f.num, Serialize(sub, x), 0);
    OneRec(LenRec(f.num, Serialize(sub, x)));
    EncodedLengthMonotone(s', 2 * n);
    EncodedLengthDouble(0, n);
    assert (cur.ms + [x])[..|cur.ms|] == cur.ms && (cur.ms + [x])[|cur.ms|] == x;
    assert ElementRecs(f.num, sub, cur.ms + [x])
        == ElementRecs(f.num, sub, cur.ms) + [LenRec(f.num, Serialize(sub, x))];
    EncodeRecsAppend(ElementRecs(f.num, sub, cur.ms), [LenRec(f.num, Serialize(sub, x))]);
  }

  lemma {:induction false} DefaultIsEmpty(S: Schema)
    ensures Serialize(S, Default(S)) == []
  {
    DefaultKnownEmpty(S, |S.fields|);
  }

  lemma {:induction false} DefaultKnownEmpty(S: Schema, n: nat)
    requires n <= |S.fields|
    ensures KnownRecs(S, Default(S), n) == []
    decreases n
  {
    if n > 0 {
      DefaultKnownEmpty(S, n - 1);
      var k := S.fields[n - 1].kind;
      assert Default(S).vals[n - 1] == DefaultVal(k);
      assert FieldRecs(S.fields[n - 1], DefaultVal(k)) == [];
    }
  }

  lemma {:induction false} ApplyGrowth(S: Schema, m: Msg, r: Rec, depth: nat)
    requires ValidSchema(S) && Conforms(S, m) && WellFormed(r) && Apply(S, m, r, depth).Some?
    ensures |Serialize(S, Apply(S, m, r, depth).value)| <= |Serialize(S, m)| + 2 * |EncodeRec(r)|
    decreases S, 1
  {
    hide EncodeRecs, EncodeRec, ApplyVal, WellFormed, KnownRecs, FieldBytes, Matches;
    var n := |S.fields|;
    EncodeRecsAppend(KnownRecs(S, m, n), m.unknown);
    var x := Apply(S, m, r, depth).value;
    EncodeRecsAppend(KnownRecs(S, x, n), x.unknown);
    if Known(S, r) {
      var i := IndexOf(S.fields, r.num);
      StoreGrowth(S.fields[i], m.vals[i], r, depth);
      ReplaceField(S, m, i, x.vals[i], n);
    } else {
      EncodeRecsAppend(m.unknown, [r]);
      OneRec(r);
      SameKnown(S, m, x, n);
    }
  }

  lemma {:induction false} SameKnown(S: Schema, m: Msg, x: Msg, n: nat)
    requires Conforms(S, m) && Conforms(S, x) && m.vals == x.vals && n <= |S.fields|
    ensures KnownRecs(S, m, n) == KnownRecs(S, x, n)
    decreases n
  {
    if n > 0 { SameKnown(S, m, x, n - 1); }
  }

  lemma {:induction false} ParseGrowth(S: Schema, m: Msg, b: seq<byte>, depth: nat)
    requires ValidSchema(S) && Conforms(S, m) && Parse(S, m, b, depth).Some?
    ensures |Serialize(S, Parse(S, m, b, depth).value)| <= |Serialize(S, m)| + 2 * |b|
    decreases S, 2, |b|
  {
    hide ReadItem, Apply, Conforms, ValidSchema, Serialize, EncodeRec;
    if b != [] {
      var Item(r, n) := ReadItem(b, depth);
      ReadItemYields(b, depth);
      CanonicalItem(b, depth);
      ApplyGrowth(S, m, r, depth);
      ParseGrowth(S, Apply(S, m, r, depth).value, b[n..], depth);
    }
  }

  /** A condition on the input alone: everything accepted from at most half the largest length has a stable normal
      form. */
  lemma {:induction false} NormalForm(S: Schema, b: seq<byte>)
    requires ValidSchema(S) && ParseFromArray(S, b).Some? && 2 * |b| <= MAX_LENGTH
    ensures |Serialize(S, ParseFromArray(S, b).value)| <= 2 * |b|
    ensures ParseFromArray(S, Serialize(S, ParseFromArray(S, b).value)) == ParseFromArray(S, b)
  {
    hide Parse, Serialize, Conforms, ValidSchema;
    DefaultIsEmpty(S);
    ParseGrowth(S, Default(S), b, RECURSION_LIMIT);
    NormalFormStable(S, b);
  }
}
