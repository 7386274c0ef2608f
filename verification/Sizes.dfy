/** What ByteSizeLong adds up. A length prefix is counted as the varint of the low 32 bits of the length, so the sum is
    the length of the encoding exactly as long as that is below 4 GiB. */
module Sizes {
  import opened Wire
  import opened Messages
  import opened Writer

  /** The size, or both from 4 GiB on. */
  predicate Agree(size: nat, length: nat) { size == length || (size >= TWO32 && length >= TWO32) }

  // ------------------------------------------------------------------ the sum

  /** UInt64SizePlusOne, UInt32SizePlusOne and, with a sign-extended value, Int32SizePlusOne. */
  function VarintFieldSize(v: nat): nat { if v == 0 then 0 else 1 + VarintSize(v) }

  function SignExtend(i: int32): nat {
    if i < 0 then i + TWO64 else i
  }

  /** LengthDelimitedSize behind a one-byte tag. */
  function LengthFieldSize(len: nat): nat { 1 + VarintSize(len % TWO32) + len }

  function FieldSize(f: Field, v: Val): nat
    requires ValConforms(f.kind, v)
    decreases f.kind, 1
  {
    match f.kind
    case KFixed32 => if v.i == 0 then 0 else 5
    case KInt32 => VarintFieldSize(SignExtend(v.i))
    case KBool => if v.i == 0 then 0 else 2
    case KString => if v.s == [] then 0 else LengthFieldSize(|v.s|)
    case KMessage(sub) => if v.o.None? then 0 else LengthFieldSize(LongSize(sub, v.o.value))
    case KRepeated(sub) => ElementSizes(sub, v.ms)
    case _ => VarintFieldSize(v.i)
  }

  /** What the size loop over the elements of a repeated field adds up, tags included. */
  function ElementSizes(sub: Schema, ms: seq<Msg>): nat
    requires forall j | 0 <= j < |ms| :: Conforms(sub, ms[j])
    decreases sub, 1, |ms|
  {
    if ms == [] then 0
    else ElementSizes(sub, ms[..|ms| - 1]) + LengthFieldSize(LongSize(sub, ms[|ms| - 1]))
  }

  function SumSizes(S: Schema, m: Msg, n: nat): nat
    requires Conforms(S, m) && n <= |S.fields|
    decreases S, 0, n
  {
    if n == 0 then 0 else SumSizes(S, m, n - 1) + FieldSize(S.fields[n - 1], m.vals[n - 1])
  }

  function LongSize(S: Schema, m: Msg): nat
    requires Conforms(S, m)
    decreases S, 0, |S.fields| + 1
  {
    SumSizes(S, m, |S.fields|) + RecsSize(m.unknown)
  }

  function RecSize(r: Rec): nat
    decreases r, 0
  {
    match r
    case VarintRec(num, v) => VarintSize(num * 8) + VarintSize(v)
    case Fixed64Rec(num, v) => VarintSize(num * 8 + 1) + 8
    case LenRec(num, s) => VarintSize(num * 8 + 2) + VarintSize(|s| % TWO32) + |s|
    case GroupRec(num, rs) => VarintSize(num * 8 + 3) + RecsSize(rs) + VarintSize(num * 8 + 4)
    case Fixed32Rec(num, v) => VarintSize(num * 8 + 5) + 4
  }

  function RecsSize(rs: seq<Rec>): nat
    decreases rs, 1
  {
    if rs == [] then 0 else RecsSize(rs[..|rs| - 1]) + RecSize(rs[|rs| - 1])
  }

  // ------------------------------------------------------------------ the sum is the length

  lemma {:induction false} ScalarExact(f: Field, v: Val)
    requires 1 <= f.num <= 15 && ValConforms(f.kind, v) && v.VInt?
    ensures FieldSize(f, v) == |EncodeRecs(FieldRecs(f, v))|
  {
    hide VarintSize, EncodeRecs, ElementRecs, Serialize;
    EncodeNothing();
    if v.i != 0 {
      var r := FieldRecs(f, v)[0];
      assert FieldRecs(f, v) == [r];
      OneRec(r);
      VarintSizeExact(if r.VarintRec? then r.v else 0);
    }
  }

  lemma {:induction false} LengthRecExact(num: nat, size: nat, s: seq<byte>)
    requires 1 <= num <= 15 && Agree(size, |s|)
    ensures Agree(LengthFieldSize(size), |EncodeRec(LenRec(num, s))|)
  {
    hide VarintSize;
    if size < TWO32 { VarintSizeExact(size); }
  }

  lemma {:induction false} FieldSizeExact(f: Field, v: Val)
    requires 1 <= f.num <= 15 && ValidKind(f.kind) && ValConforms(f.kind, v)
    ensures Agree(FieldSize(f, v), |EncodeRecs(FieldRecs(f, v))|)
    decreases f.kind, 1
  {
    hide EncodeRecs, EncodeRec, Serialize, LongSize, LengthFieldSize, ElementSizes, ElementRecs;
    EncodeNothing();
    match f.kind {
      case KString =>
        OneRec(LenRec(f.num, v.s));
        LengthRecExact(f.num, |v.s|, v.s);
      case KMessage(sub) =>
        if v.o.Some? {
          LongSizeExact(sub, v.o.value);
          OneRec(LenRec(f.num, Serialize(sub, v.o.value)));
          LengthRecExact(f.num, LongSize(sub, v.o.value), Serialize(sub, v.o.value));
        }
      case KRepeated(sub) => ElementSizesExact(f.num, sub, v.ms);
      case _ => ScalarExact(f, v);
    }
  }

  lemma {:induction false} ElementSizesExact(num: nat, sub: Schema, ms: seq<Msg>)
    requires 1 <= num <= 15 && ValidSchema(sub) && forall j | 0 <= j < |ms| :: Conforms(sub, ms[j])
    ensures Agree(ElementSizes(sub, ms), |EncodeRecs(ElementRecs(num, sub, ms))|)
    decreases sub, 1, |ms|
  {
    hide Serialize, EncodeRecs, EncodeRec, Conforms, ValidSchema, LongSize, LengthFieldSize;
    if ms == [] {
      EncodeNothing();
    } else {
      var last := ms[|ms| - 1];
      ElementSizesExact(num, sub, ms[..|ms| - 1]);
      LongSizeExact(sub, last);
      var r := LenRec(num, Serialize(sub, last));
      EncodeRecsAppend(ElementRecs(num, sub, ms[..|ms| - 1]), [r]);
      OneRec(r);
      LengthRecExact(num, LongSize(sub, last), r.bytes);
    }
  }

  lemma {:induction false} SumSizesExact(S: Schema, m: Msg, n: nat)
    requires ValidSchema(S) && Conforms(S, m) && n <= |S.fields|
    ensures Agree(SumSizes(S, m, n), |EncodeRecs(KnownRecs(S, m, n))|)
    decreases S, 0, n
  {
    hide EncodeRecs, FieldRecs, FieldSize;
    if n == 0 {
      EncodeNothing();
    } else {
      SumSizesExact(S, m, n - 1);
      FieldSizeExact(S.fields[n - 1], m.vals[n - 1]);
      EncodeRecsAppend(KnownRecs(S, m, n - 1), FieldRecs(S.fields[n - 1], m.vals[n - 1]));
    }
  }

  /** ByteSizeLong is the length of the encoding, as long as either is below 4 GiB. */
  lemma {:induction false} LongSizeExact(S: Schema, m: Msg)
    requires ValidSchema(S) && Conforms(S, m)
    ensures Agree(LongSize(S, m), |Serialize(S, m)|)
    decreases S, 0, |S.fields| + 1
  {
    hide EncodeRecs, KnownRecs, SumSizes, RecsSize;
    SumSizesExact(S, m, |S.fields|);
    RecsSizeExact(m.unknown);
    EncodeRecsAppend(KnownRecs(S, m, |S.fields|), m.unknown);
  }

  /** A cached size is the length of a message that can be written. */
  lemma {:induction false} CachedLength(S: Schema, m: Msg, cached: int)
    requires ValidSchema(S) && Conforms(S, m) && |Serialize(S, m)| <= INT_MAX && cached == Signed32(LongSize(S, m))
    ensures cached % TWO32 == |Serialize(S, m)|
  {
    hide LongSize, Serialize;
    LongSizeExact(S, m);
  }

  lemma {:induction false} RecsSizeExact(rs: seq<Rec>)
    requires AllWellFormed(rs)
    ensures Agree(RecsSize(rs), |EncodeRecs(rs)|)
    decreases rs, 1
  {
    hide EncodeRecs, AllWellFormed, RecsSize;
    RecsSizePrefix(rs, |rs|);
    assert rs[..|rs|] == rs;
  }

  lemma {:induction false} RecsSizePrefix(rs: seq<Rec>, n: nat)
    requires AllWellFormed(rs) && n <= |rs|
    ensures Agree(RecsSize(rs[..n]), |EncodeRecs(rs[..n])|)
    decreases rs, 0, n
  {
    hide EncodeRec, EncodeRecs, AllWellFormed, RecSize, WellFormed;
    if n == 0 {
      assert rs[..0] == [];
      EncodeNothing();
    } else {
      RecsSizePrefix(rs, n - 1);
      WellFormedAt(rs, n - 1);
      RecSizeExact(rs[n - 1]);
      EncodePrefix(rs, n - 1);
      assert rs[..n][..n - 1] == rs[..n - 1];
    }
  }

  lemma {:induction false} RecSizeExact(r: Rec)
    requires WellFormed(r)
    ensures Agree(RecSize(r), |EncodeRec(r)|)
    decreases r, 0
  {
    hide VarintSize, EncodeVarint, EncodeRecs;
    match r {
      case VarintRec(num, v) =>
        VarintSizeExact(num * 8);
        VarintSizeExact(v);
      case Fixed64Rec(num, _) => VarintSizeExact(num * 8 + 1);
      case Fixed32Rec(num, _) => VarintSizeExact(num * 8 + 5);
      case LenRec(num, s) =>
        VarintSizeExact(num * 8 + 2);
        if |s| < TWO32 { VarintSizeExact(|s|); }
      case GroupRec(num, rs) =>
        VarintSizeExact(num * 8 + 3);
        VarintSizeExact(num * 8 + 4);
        RecsSizeExact(rs);
    }
  }

  lemma {:induction false} WellFormedAt(rs: seq<Rec>, i: nat)
    requires AllWellFormed(rs) && i < |rs|
    ensures WellFormed(rs[i])
  {
    if i > 0 { WellFormedAt(rs[1..], i - 1); }
  }

  // ------------------------------------------------------------------ one field after the other

  lemma {:induction false} MessageSize(S: Schema, m: Msg)
    requires Conforms(S, m)
    ensures LongSize(S, m) == SumSizes(S, m, |S.fields|) + RecsSize(m.unknown)
  {}

  lemma {:induction false} SumOf5(S: Schema, m: Msg)
    requires Conforms(S, m) && |S.fields| == 5
    ensures SumSizes(S, m, |S.fields|) == FieldSize(S.fields[0], m.vals[0]) + FieldSize(S.fields[1], m.vals[1])
      + FieldSize(S.fields[2], m.vals[2]) + FieldSize(S.fields[3], m.vals[3]) + FieldSize(S.fields[4], m.vals[4])
  {
    hide FieldSize;
    assert SumSizes(S, m, 0) == 0;
    assert SumSizes(S, m, 1) == FieldSize(S.fields[0], m.vals[0]);
    assert SumSizes(S, m, 3) == SumSizes(S, m, 2) + FieldSize(S.fields[2], m.vals[2]);
  }

  lemma {:induction false} SumOf1(S: Schema, m: Msg)
    requires Conforms(S, m) && |S.fields| == 1
    ensures SumSizes(S, m, |S.fields|) == FieldSize(S.fields[0], m.vals[0])
  {
    hide FieldSize;
    assert SumSizes(S, m, 0) == 0;
  }

  lemma {:induction false} SumOf3(S: Schema, m: Msg)
    requires Conforms(S, m) && |S.fields| == 3
    ensures SumSizes(S, m, |S.fields|) == FieldSize(S.fields[0], m.vals[0]) + FieldSize(S.fields[1], m.vals[1])
      + FieldSize(S.fields[2], m.vals[2])
  {
    hide FieldSize;
    assert SumSizes(S, m, 0) == 0;
    assert SumSizes(S, m, 1) == FieldSize(S.fields[0], m.vals[0]);
  }

  lemma {:induction false} SumOf6(S: Schema, m: Msg)
    requires Conforms(S, m) && |S.fields| == 6
    ensures SumSizes(S, m, |S.fields|) == FieldSize(S.fields[0], m.vals[0]) + FieldSize(S.fields[1], m.vals[1])
      + FieldSize(S.fields[2], m.vals[2]) + FieldSize(S.fields[3], m.vals[3]) + FieldSize(S.fields[4], m.vals[4])
      + FieldSize(S.fields[5], m.vals[5])
  {
    hide FieldSize;
    assert SumSizes(S, m, 0) == 0;
    assert SumSizes(S, m, 1) == FieldSize(S.fields[0], m.vals[0]);
    assert SumSizes(S, m, 3) == SumSizes(S, m, 2) + FieldSize(S.fields[2], m.vals[2]);
    assert SumSizes(S, m, 5) == SumSizes(S, m, 4) + FieldSize(S.fields[4], m.vals[4]);
  }

  lemma {:induction false} ScalarSize(f: Field, v: Val)
    requires ValConforms(f.kind, v)
    ensures f.kind == KFixed32 ==> FieldSize(f, v) == if v.i == 0 then 0 else 5
    ensures f.kind == KUInt64 || f.kind == KUInt32 ==> FieldSize(f, v) == VarintFieldSize(v.i)
    ensures f.kind == KInt32 ==> FieldSize(f, v) == VarintFieldSize(SignExtend(v.i))
    ensures f.kind == KBool ==> FieldSize(f, v) == if v.i == 0 then 0 else 2
  {
    hide VarintSize;
  }

  lemma {:induction false} StringSize(f: Field, v: Val)
    requires f.kind == KString && v.VBytes?
    ensures FieldSize(f, v) == if v.s == [] then 0 else LengthFieldSize(|v.s|)
  {}

  lemma {:induction false} SubmessageSize(f: Field, v: Val)
    requires f.kind.KMessage? && ValConforms(f.kind, v)
    ensures FieldSize(f, v) == if v.o.None? then 0 else LengthFieldSize(LongSize(f.kind.schema, v.o.value))
  {
    hide LongSize, LengthFieldSize;
  }

  lemma {:induction false} RepeatedSize(f: Field, sub: Schema, ms: seq<Msg>)
    requires f.kind == KRepeated(sub) && forall j | 0 <= j < |ms| :: Conforms(sub, ms[j])
    ensures FieldSize(f, VRep(ms)) == ElementSizes(sub, ms)
  {
    hide ElementSizes, Conforms;
  }

  /** ComputeUnknownFieldsSize. */
  method UnknownSize(rs: seq<Rec>) returns (size: nat)
    ensures size == RecsSize(rs)
    decreases rs, 1
  {
    hide RecSize;
    size := 0;
    var i := 0;
    assert rs[..0] == [];
    while i < |rs|
      invariant 0 <= i <= |rs| && size == RecsSize(rs[..i])
    {
      assert rs[..i + 1][..i] == rs[..i];
      var n := UnknownFieldSize(rs[i]);
      size := size + n;
      i := i + 1;
    }
    assert rs[..i] == rs;
  }

  method UnknownFieldSize(r: Rec) returns (size: nat)
    ensures size == RecSize(r)
    decreases r, 0
  {
    hide VarintSize, RecsSize;
    match r {
      case VarintRec(num, v) => size := VarintSize(num * 8) + VarintSize(v);
      case Fixed64Rec(num, v) => size := VarintSize(num * 8 + 1) + 8;
      case Fixed32Rec(num, v) => size := VarintSize(num * 8 + 5) + 4;
      case LenRec(num, s) => size := VarintSize(num * 8 + 2) + VarintSize(|s| % TWO32) + |s|;
      case GroupRec(num, rs) =>
        var n := UnknownSize(rs);
        size := VarintSize(num * 8 + 3) + n + VarintSize(num * 8 + 4);
    }
  }
}
