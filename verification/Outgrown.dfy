/** An input that is accepted although its normal form is not: two occurrences of a submessage merge into one that is
    longer than a length prefix may announce. */
module Outgrown {
  import opened Options
  import opened Wire
  import opened Messages
  import opened Schemas
  import opened RoundTrip
  import opened Writer
  import opened Stability
  import opened SizeBound
  import opened Packets

  /** An unknown string that makes its message exactly as long as the longest length prefix. */
  function Big(): (r: Rec)
    ensures r.LenRec? && |r.bytes| == MAX_LENGTH - 6
  {
    LenRec(15, seq(MAX_LENGTH - 6, _ => 0))
  }

  const SMALL: Rec := VarintRec(15, 1)

  /** A message with these unknown fields and nothing else. */
  function Bare(S: Schema, us: seq<Rec>): Msg { Default(S).(unknown := us) }

  /** The packet: the nested message twice, once with the big and once with the small unknown field. */
  function Twice(): seq<byte> {
    EncodeRecs([LenRec(1, EncodeRec(Big())), LenRec(1, EncodeRec(SMALL))])
  }

  lemma {:induction false} PartSizes()
    ensures |EncodeRec(Big())| == MAX_LENGTH && |EncodeRec(SMALL)| == 2
    ensures |Twice()| == MAX_LENGTH + 10 <= INT_MAX
  {
    hide VarintSize;
    var big := Big();
    assert Pow128(4) == 0x1000_0000 && Pow128(5) == 0x8_0000_0000;
    VarintLength(|big.bytes|, 4);
    VarintLength(|big.bytes|, 5);
    VarintLength(MAX_LENGTH, 4);
    VarintLength(MAX_LENGTH, 5);
    assert |EncodeVarint(|big.bytes|)| == 5 && |EncodeVarint(MAX_LENGTH)| == 5;
    BigSize();
    assert |EncodeRec(SMALL)| == 2;
    hide EncodeRec;
    var a, c := LenRec(1, EncodeRec(Big())), LenRec(1, EncodeRec(SMALL));
    OneRec(a);
    OneRec(c);
    EncodeRecsAppend([a], [c]);
    assert [a] + [c] == [a, c];
    LengthRec(1, a.bytes);
    LengthRec(1, c.bytes);
  }

  lemma {:induction false} BigSize()
    requires |EncodeVarint(MAX_LENGTH - 6)| == 5
    ensures |EncodeRec(Big())| == MAX_LENGTH
  {
    LengthRec(15, Big().bytes);
  }

  lemma {:induction false} LengthRec(num: nat, s: seq<byte>)
    requires 1 <= num <= 15
    ensures |EncodeRec(LenRec(num, s))| == 1 + |EncodeVarint(|s|)| + |s|
  {}

  /** Parsing the record of one unknown field keeps it. */
  lemma {:induction false} KeepsUnknown(S: Schema, us: seq<Rec>, r: Rec, depth: nat)
    requires ValidSchema(S) && r.num == 15 && Consecutive(S) && |S.fields| < 15
    requires AllWellFormed(us) && Foreign(S, us) && WellFormed(r) && Readable(r, depth)
    ensures Conforms(S, Bare(S, us)) && Conforms(S, Bare(S, us + [r]))
    ensures Foreign(S, us + [r]) && AllWellFormed(us + [r])
    ensures Parse(S, Bare(S, us), EncodeRec(r), depth) == Some(Bare(S, us + [r]))
  {
    ConsecutiveIndex(S, 15);
    assert !Known(S, r);
    AllOne(r, depth);
    AllAppend(us, [r], depth);
    assert EncodeRec(r) == EncodeRecs([r]) + [] by { OneRec(r); }
    hide Parse, EncodeRec, Known;
    var m := Bare(S, us);
    assert Apply(S, m, r, depth) == Some(Bare(S, us + [r]));
    ParseEncoded(S, m, [r], [], depth);
    assert [r][1..] == [];
    hide Apply;
    RunNothing(S, Bare(S, us + [r]), depth);
    ParseEmpty(S, Bare(S, us + [r]), depth);
  }

  lemma {:induction false} ParseEmpty(S: Schema, m: Msg, depth: nat)
    requires ValidSchema(S) && Conforms(S, m)
    ensures Parse(S, m, [], depth) == Some(m)
  {}

  /** A message of one nested message. */
  function Wrapped(x: Msg): Msg { Msg([VOpt(Some(x))], []) }

  lemma {:induction false} WrappedConforms(sub: Schema, x: Msg)
    requires Conforms(sub, x)
    ensures Conforms(Envelope(sub), Wrapped(x))
  {
    hide Conforms;
    EnvelopeConforms(sub, VOpt(Some(x)));
  }

  lemma {:induction false} EnvelopeConforms(sub: Schema, v: Val)
    requires ValConforms(KMessage(sub), v)
    ensures Conforms(Envelope(sub), Msg([v], []))
  {
    hide ValConforms;
  }

  /** One more record of the nested message, holding one unknown field, merges into what is there. */
  lemma {:induction false} OneMore(sub: Schema, cur: Option<Msg>, us: seq<Rec>, r: Rec)
    requires ValidSchema(sub) && Consecutive(sub) && |sub.fields| < 15 && r.num == 15
    requires AllWellFormed(us) && Foreign(sub, us) && WellFormed(r) && Readable(r, RECURSION_LIMIT - 1)
    requires |EncodeRec(r)| <= MAX_LENGTH
    requires if cur.Some? then cur.value == Bare(sub, us) else us == []
    ensures ValidSchema(Envelope(sub)) && Conforms(sub, Bare(sub, us)) && Conforms(sub, Bare(sub, us + [r]))
    ensures AllWellFormed(us + [r]) && Foreign(sub, us + [r])
    ensures Conforms(Envelope(sub), Msg([VOpt(cur)], []))
    ensures AllWellFormed([LenRec(1, EncodeRec(r))])
    ensures Run(Envelope(sub), Msg([VOpt(cur)], []), [LenRec(1, EncodeRec(r))], RECURSION_LIMIT)
         == Some(Wrapped(Bare(sub, us + [r])))
  {
    hide Conforms, Parse, EncodeRec, ValidSchema;
    var S, m := Envelope(sub), Msg([VOpt(cur)], []);
    ConsecutiveValid(S);
    KeepsUnknown(sub, us, r, RECURSION_LIMIT - 1);
    assert Bare(sub, []) == Default(sub);
    EnvelopeConforms(sub, VOpt(cur));
    RunOne(S, m, 0, LenRec(1, EncodeRec(r)), RECURSION_LIMIT);
    assert m.vals[0 := VOpt(Some(Bare(sub, us + [r])))] == Wrapped(Bare(sub, us + [r])).vals;
  }

  /** The outcome of parsing the nested message twice. */
  function Merged(sub: Schema): Msg { Wrapped(Bare(sub, [Big(), SMALL])) }

  lemma {:induction false} TwiceParses(sub: Schema)
    requires ValidSchema(sub) && Consecutive(sub) && |sub.fields| < 15
    ensures ValidSchema(Envelope(sub)) && Conforms(sub, Bare(sub, [Big(), SMALL]))
    ensures ParseFromArray(Envelope(sub), Twice()) == Some(Merged(sub))
  {
    hide Conforms, Parse, Run, EncodeRec, EncodeRecs, ValidSchema;
    PartSizes();
    var S := Envelope(sub);
    OneMore(sub, None, [], Big());
    assert [] + [Big()] == [Big()];
    OneMore(sub, Some(Bare(sub, [Big()])), [Big()], SMALL);
    assert [Big()] + [SMALL] == [Big(), SMALL];
    assert Default(S) == Msg([VOpt(None)], []) by { assert Default(S).vals == [VOpt(None)]; }
    var a, c := LenRec(1, EncodeRec(Big())), LenRec(1, EncodeRec(SMALL));
    RunAppend(S, Default(S), [a], [c], RECURSION_LIMIT);
    assert [a] + [c] == [a, c];
    ParseEncoded(S, Default(S), [a, c], [], RECURSION_LIMIT);
    assert EncodeRecs([a, c]) + [] == Twice();
    WrappedConforms(sub, Bare(sub, [Big(), SMALL]));
    ParseEmpty(S, Merged(sub), RECURSION_LIMIT);
  }

  lemma {:induction false} MergedSize(sub: Schema)
    requires Conforms(sub, Bare(sub, [Big(), SMALL])) && Conforms(Envelope(sub), Merged(sub))
    ensures |Serialize(sub, Bare(sub, [Big(), SMALL]))| == MAX_LENGTH + 2
    ensures |Serialize(Envelope(sub), Merged(sub))| == MAX_LENGTH + 8
  {
    hide Conforms, EncodeRec, EncodeRecs;
    var x := Bare(sub, [Big(), SMALL]);
    PartSizes();
    BareSize(sub, [Big(), SMALL]);
    EncodeRecsAppend([Big()], [SMALL]);
    OneRec(Big());
    OneRec(SMALL);
    assert [Big()] + [SMALL] == [Big(), SMALL];
    var r := LenRec(1, Serialize(sub, x));
    assert Records(Envelope(sub), Merged(sub)) == [r] by { WrappedRecords(sub, x); }
    OneRec(r);
    LengthRec(1, r.bytes);
    assert Pow128(4) == 0x1000_0000 && Pow128(5) == 0x8_0000_0000;
    VarintLength(MAX_LENGTH + 2, 4);
    VarintLength(MAX_LENGTH + 2, 5);
  }

  lemma {:induction false} WrappedRecords(sub: Schema, x: Msg)
    requires Conforms(sub, x) && Conforms(Envelope(sub), Wrapped(x))
    ensures Records(Envelope(sub), Wrapped(x)) == [LenRec(1, Serialize(sub, x))]
  {
    hide Conforms, Serialize;
    var S, m := Envelope(sub), Wrapped(x);
    assert KnownRecs(S, m, 0) == [];
    assert KnownRecs(S, m, 1) == FieldRecs(S.fields[0], m.vals[0]);
  }

  lemma {:induction false} BareSize(S: Schema, us: seq<Rec>)
    requires Conforms(S, Bare(S, us))
    ensures |Serialize(S, Bare(S, us))| == |EncodeRecs(us)|
  {
    hide Conforms, EncodeRecs;
    SameKnown(S, Default(S), Bare(S, us), |S.fields|);
    DefaultKnownEmpty(S, |S.fields|);
    assert Records(S, Bare(S, us)) == us;
  }

  /** The normal form can be lost. These bytes, which fit an int length, are accepted as a match state packet; the
      result serialises, within 2 GiB, to bytes that the parser refuses. */
  lemma {:induction false} NormalFormLost()
    ensures var sub := MatchStateInfoSchema(); var S := Envelope(sub);
      && ServerSchema(PKT_S_MATCH_STATE) == Some(S) && ValidSchema(S) && |Twice()| <= INT_MAX
      && ParseFromArray(S, Twice()) == Some(Merged(sub))
      && Conforms(S, Merged(sub)) && |Serialize(S, Merged(sub))| <= INT_MAX
      && ParseFromArray(S, Serialize(S, Merged(sub))) == None
  {
    hide Conforms, Parse, Serialize, ValidSchema, MatchStateInfoSchema, Twice;
    var sub := MatchStateInfoSchema();
    LeavesValid();
    SmallType();
    PartSizes();
    TwiceParses(sub);
    MergedSize(sub);
    NotNestedFit(sub, Bare(sub, [Big(), SMALL]));
    NormalFormExactly(Envelope(sub), Twice());
  }

  lemma {:induction false} SmallType()
    ensures Consecutive(MatchStateInfoSchema()) && |MatchStateInfoSchema().fields| < 15
  {}

  lemma {:induction false} NotNestedFit(sub: Schema, x: Msg)
    requires Conforms(sub, x) && |Serialize(sub, x)| > MAX_LENGTH
    ensures Conforms(Envelope(sub), Wrapped(x)) && !NestedFit(Envelope(sub), Wrapped(x))
  {
    WrappedConforms(sub, x);
    hide Conforms, Serialize;
    assert !ValFits(Envelope(sub).fields[0].kind, Wrapped(x).vals[0]);
  }
}
