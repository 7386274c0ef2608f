/** Whatever the parser accepts, serialising the result and parsing again gives the same message, exactly when no
    nested message has outgrown its length prefix. */
module Stability {
  import opened Options
  import opened Wire
  import opened Messages
  import opened RoundTrip

  // ------------------------------------------------------------------ what a parse leaves sendable

  /** Sendable, but for the length of nested messages. */
  predicate Clean(S: Schema, m: Msg, depth: nat)
    requires Conforms(S, m)
    decreases S, 0
  {
    && (forall i | 0 <= i < |S.fields| :: ValClean(S.fields[i].kind, m.vals[i], depth))
    && AllReadable(m.unknown, depth)
  }

  predicate ValClean(k: Kind, v: Val, depth: nat)
    requires ValConforms(k, v)
    decreases k, 0
  {
    match k
    case KString => |v.s| <= MAX_LENGTH && ValidUtf8(v.s)
    case KMessage(sub) => v.o.Some? ==> SubClean(sub, v.o.value, depth)
    case KRepeated(sub) => forall j | 0 <= j < |v.ms| :: SubClean(sub, v.ms[j], depth)
    case _ => true
  }

  predicate SubClean(sub: Schema, x: Msg, depth: nat)
    requires Conforms(sub, x)
    decreases sub, 1
  {
    depth > 0 && Clean(sub, x, depth - 1)
  }

  lemma {:induction false} DefaultClean(S: Schema, depth: nat)
    ensures Clean(S, Default(S), depth)
  {}

  lemma {:induction false} ParseClean(S: Schema, m: Msg, b: seq<byte>, depth: nat)
    requires ValidSchema(S) && Conforms(S, m) && Clean(S, m, depth)
    requires Parse(S, m, b, depth).Some?
    ensures Clean(S, Parse(S, m, b, depth).value, depth)
    decreases S, 2, |b|
  {
    hide ReadItem, Apply, Conforms, ValidSchema, Clean;
    if b != [] {
      var Item(r, n) := ReadItem(b, depth);
      ReadItemYields(b, depth);
      ApplyClean(S, m, r, depth);
      ParseClean(S, Apply(S, m, r, depth).value, b[n..], depth);
    }
  }

  lemma {:induction false} ApplyClean(S: Schema, m: Msg, r: Rec, depth: nat)
    requires ValidSchema(S) && Conforms(S, m) && Clean(S, m, depth)
    requires WellFormed(r) && Readable(r, depth) && Apply(S, m, r, depth).Some?
    ensures Clean(S, Apply(S, m, r, depth).value, depth)
    decreases S, 1
  {
    hide WellFormed, ApplyVal, ValClean, Matches;
    if Known(S, r) {
      var i := IndexOf(S.fields, r.num);
      ApplyValClean(S.fields[i].kind, m.vals[i], r, depth);
    } else {
      AllOne(r, depth);
      AllAppend(m.unknown, [r], depth);
    }
  }

  lemma {:induction false} ApplyValClean(k: Kind, cur: Val, r: Rec, depth: nat)
    requires ValidKind(k) && ValConforms(k, cur) && Matches(k, r) && WellFormed(r) && Readable(r, depth)
    requires ValClean(k, cur, depth) && ApplyVal(k, cur, r, depth).Some?
    ensures ValClean(k, ApplyVal(k, cur, r, depth).value, depth)
    decreases k, 0
  {
    hide Parse, Clean, Conforms, ValidSchema;
    if k.KMessage? {
      DefaultClean(k.schema, depth - 1);
      ParseClean(k.schema, if cur.o.Some? then cur.o.value else Default(k.schema), r.bytes, depth - 1);
    } else if k.KRepeated? {
      DefaultClean(k.schema, depth - 1);
      ParseClean(k.schema, Default(k.schema), r.bytes, depth - 1);
    }
  }

  // ------------------------------------------------------------------ parts are no longer than the whole

  lemma {:induction false} PartLength(rs: seq<Rec>, j: nat)
    requires j < |rs| && rs[j].LenRec?
    ensures |rs[j].bytes| <= |EncodeRecs(rs)|
  {
    hide EncodeVarint;
    if j > 0 { PartLength(rs[1..], j - 1); }
  }

  lemma {:induction false} FieldLength(S: Schema, m: Msg, n: nat, i: nat)
    requires Conforms(S, m) && i < n <= |S.fields|
    ensures |EncodeRecs(FieldRecs(S.fields[i], m.vals[i]))| <= |EncodeRecs(KnownRecs(S, m, n))|
    decreases n
  {
    hide EncodeRecs, FieldRecs, ValConforms;
    EncodeRecsAppend(KnownRecs(S, m, n - 1), FieldRecs(S.fields[n - 1], m.vals[n - 1]));
    if i < n - 1 { FieldLength(S, m, n - 1, i); }
  }

  lemma {:induction false} ElementLength(num: nat, sub: Schema, ms: seq<Msg>, j: nat)
    requires forall i | 0 <= i < |ms| :: Conforms(sub, ms[i])
    requires j < |ms|
    ensures |Serialize(sub, ms[j])| <= |EncodeRecs(ElementRecs(num, sub, ms))|
    decreases |ms|
  {
    hide Serialize, Conforms;
    var last := LenRec(num, Serialize(sub, ms[|ms| - 1]));
    EncodeRecsAppend(ElementRecs(num, sub, ms[..|ms| - 1]), [last]);
    PartLength([last], 0);
    if j < |ms| - 1 { ElementLength(num, sub, ms[..|ms| - 1], j); }
  }

  // ------------------------------------------------------------------ when the canonical form is read back

  /** At every level, each nested message has at most as many canonical bytes as a length prefix may announce. */
  predicate NestedFit(S: Schema, m: Msg)
    requires Conforms(S, m)
    decreases S, 0
  {
    forall i | 0 <= i < |S.fields| :: ValFits(S.fields[i].kind, m.vals[i])
  }

  predicate ValFits(k: Kind, v: Val)
    requires ValConforms(k, v)
    decreases k, 0
  {
    match k
    case KMessage(sub) => v.o.Some? ==> SubFits(sub, v.o.value)
    case KRepeated(sub) => forall j | 0 <= j < |v.ms| :: SubFits(sub, v.ms[j])
    case _ => true
  }

  predicate SubFits(sub: Schema, x: Msg)
    requires Conforms(sub, x)
    decreases sub, 1
  {
    |Serialize(sub, x)| <= MAX_LENGTH && NestedFit(sub, x)
  }

  /** What a parse can leave is sendable exactly when its nested messages fit. */
  lemma {:induction false} SendableIs(S: Schema, m: Msg, depth: nat)
    requires Conforms(S, m)
    ensures Sendable(S, m, depth) <==> Clean(S, m, depth) && NestedFit(S, m)
    decreases S, 0
  {
    forall i | 0 <= i < |S.fields|
      ensures ValSendable(S.fields[i].kind, m.vals[i], depth)
        <==> ValClean(S.fields[i].kind, m.vals[i], depth) && ValFits(S.fields[i].kind, m.vals[i])
    {
      ValSendableIs(S.fields[i].kind, m.vals[i], depth);
    }
  }

  lemma {:induction false} ValSendableIs(k: Kind, v: Val, depth: nat)
    requires ValConforms(k, v)
    ensures ValSendable(k, v, depth) <==> ValClean(k, v, depth) && ValFits(k, v)
    decreases k, 0
  {
    match k {
      case KMessage(sub) => if v.o.Some? { SubSendableIs(sub, v.o.value, depth); }
      case KRepeated(sub) =>
        forall j | 0 <= j < |v.ms|
          ensures SubSendable(sub, v.ms[j], depth) <==> SubClean(sub, v.ms[j], depth) && SubFits(sub, v.ms[j])
        {
          SubSendableIs(sub, v.ms[j], depth);
        }
      case _ =>
    }
  }

  lemma {:induction false} SubSendableIs(sub: Schema, x: Msg, depth: nat)
    requires Conforms(sub, x)
    ensures SubSendable(sub, x, depth) <==> SubClean(sub, x, depth) && SubFits(sub, x)
    decreases sub, 1
  {
    if depth > 0 { SendableIs(sub, x, depth - 1); }
  }

  /** Normal form. Whatever byte string the parser accepted, over-long, repeated or misplaced records included, the
      canonical bytes of the result are parsed to the same message again if and only if the nested messages of the
      result fit their length prefixes. */
  lemma {:induction false} NormalFormExactly(S: Schema, b: seq<byte>)
    requires ValidSchema(S) && ParseFromArray(S, b).Some?
    ensures var m := ParseFromArray(S, b).value;
      ParseFromArray(S, Serialize(S, m)) == (if NestedFit(S, m) then Some(m) else None)
  {
    hide Serialize, Parse, Clean, Sendable, Conforms, NestedFit;
    DefaultClean(S, RECURSION_LIMIT);
    ParseClean(S, Default(S), b, RECURSION_LIMIT);
    var m := ParseFromArray(S, b).value;
    SendableIs(S, m, RECURSION_LIMIT);
    RoundTripExactly(S, m);
  }

  // ------------------------------------------------------------------ a short message has short parts

  lemma {:induction false} ShortFits(S: Schema, m: Msg)
    requires Conforms(S, m) && |Serialize(S, m)| <= MAX_LENGTH
    ensures NestedFit(S, m)
    decreases S
  {
    EncodeRecsAppend(KnownRecs(S, m, |S.fields|), m.unknown);
    forall i | 0 <= i < |S.fields|
      ensures ValFits(S.fields[i].kind, m.vals[i])
    {
      FieldLength(S, m, |S.fields|, i);
      ShortFieldFits(S.fields[i], m.vals[i]);
    }
  }

  lemma {:induction false} ShortFieldFits(f: Field, v: Val)
    requires ValConforms(f.kind, v) && |EncodeRecs(FieldRecs(f, v))| <= MAX_LENGTH
    ensures ValFits(f.kind, v)
    decreases f.kind
  {
    hide EncodeRecs, Serialize, Conforms, NestedFit;
    match f.kind {
      case KMessage(sub) =>
        if v.o.Some? {
          PartLength(FieldRecs(f, v), 0);
          ShortFits(sub, v.o.value);
        }
      case KRepeated(sub) =>
        forall j | 0 <= j < |v.ms| ensures SubFits(sub, v.ms[j]) {
          ElementLength(f.num, sub, v.ms, j);
          ShortFits(sub, v.ms[j]);
        }
      case _ =>
    }
  }

  /** In particular the normal form is stable when it is within the parser's length limit as a whole. */
  lemma {:induction false} NormalFormStable(S: Schema, b: seq<byte>)
    requires ValidSchema(S) && ParseFromArray(S, b).Some?
    requires |Serialize(S, ParseFromArray(S, b).value)| <= MAX_LENGTH
    ensures ParseFromArray(S, Serialize(S, ParseFromArray(S, b).value)) == ParseFromArray(S, b)
  {
    hide Serialize, Parse, Conforms, NestedFit;
    ShortFits(S, ParseFromArray(S, b).value);
    NormalFormExactly(S, b);
  }
}
