/** The round trip in the terms of a sender: valid strings, no groups among the unknown fields, and a total
    length within the parser's limit are enough for every message type of the game. */
module GroupFree {
  import opened Options
  import opened Wire
  import opened Messages
  import opened Schemas
  import opened RoundTrip
  import opened Stability

  predicate NoGroups(rs: seq<Rec>) { forall i | 0 <= i < |rs| :: !rs[i].GroupRec? }

  /** Valid strings and group-free unknown fields at every level. */
  predicate Plain(S: Schema, m: Msg)
    requires Conforms(S, m)
    decreases S
  {
    NoGroups(m.unknown) && forall i | 0 <= i < |S.fields| :: PlainVal(S.fields[i].kind, m.vals[i])
  }

  predicate PlainVal(k: Kind, v: Val)
    requires ValConforms(k, v)
    decreases k
  {
    match k
    case KString => ValidUtf8(v.s)
    case KMessage(sub) => v.o.Some? ==> Plain(sub, v.o.value)
    case KRepeated(sub) => forall j | 0 <= j < |v.ms| :: Plain(sub, v.ms[j])
    case _ => true
  }

  /** Messages of type S nest at most depth levels below the top. */
  predicate Shallow(S: Schema, depth: nat)
    decreases S
  {
    forall i | 0 <= i < |S.fields| :: ShallowKind(S.fields[i].kind, depth)
  }

  predicate ShallowKind(k: Kind, depth: nat)
    decreases k
  {
    k.KMessage? || k.KRepeated? ==> depth > 0 && Shallow(k.schema, depth - 1)
  }

  lemma {:induction false} PlainUnknown(rs: seq<Rec>, depth: nat)
    requires NoGroups(rs) && |EncodeRecs(rs)| <= MAX_LENGTH
    ensures AllReadable(rs, depth)
  {
    if rs != [] {
      if rs[0].LenRec? { PartLength(rs, 0); }
      PlainUnknown(rs[1..], depth);
    }
  }

  lemma {:induction false} PlainIsSendable(S: Schema, m: Msg, depth: nat)
    requires Conforms(S, m) && Plain(S, m) && Shallow(S, depth) && |Serialize(S, m)| <= MAX_LENGTH
    ensures Sendable(S, m, depth)
    decreases S
  {
    EncodeRecsAppend(KnownRecs(S, m, |S.fields|), m.unknown);
    PlainUnknown(m.unknown, depth);
    forall i | 0 <= i < |S.fields|
      ensures ValSendable(S.fields[i].kind, m.vals[i], depth)
    {
      FieldLength(S, m, |S.fields|, i);
      PlainFieldIsSendable(S.fields[i], m.vals[i], depth);
    }
  }

  lemma {:induction false} PlainFieldIsSendable(f: Field, v: Val, depth: nat)
    requires ValConforms(f.kind, v) && PlainVal(f.kind, v) && ShallowKind(f.kind, depth)
    requires |EncodeRecs(FieldRecs(f, v))| <= MAX_LENGTH
    ensures ValSendable(f.kind, v, depth)
    decreases f.kind
  {
    hide EncodeRecs, Serialize, Conforms, Plain, Sendable, Shallow;
    match f.kind {
      case KString => if v.s != [] { PartLength(FieldRecs(f, v), 0); }
      case KMessage(sub) =>
        if v.o.Some? {
          PartLength(FieldRecs(f, v), 0);
          PlainIsSendable(sub, v.o.value, depth - 1);
        }
      case KRepeated(sub) =>
        forall j | 0 <= j < |v.ms| ensures SubSendable(sub, v.ms[j], depth) {
          ElementLength(f.num, sub, v.ms, j);
          PlainIsSendable(sub, v.ms[j], depth - 1);
        }
      case _ =>
    }
  }

  /** Parsing the bytes of a plain message gives exactly that message. */
  lemma {:induction false} PlainRoundTrip(S: Schema, m: Msg)
    requires ValidSchema(S) && Shallow(S, RECURSION_LIMIT) && Conforms(S, m)
    requires Plain(S, m) && |Serialize(S, m)| <= MAX_LENGTH
    ensures ParseFromArray(S, Serialize(S, m)) == Some(m)
  {
    hide Parse, Serialize, Sendable;
    PlainIsSendable(S, m, RECURSION_LIMIT);
    RoundTripExactly(S, m);
  }

  lemma {:induction false} StructsShallow()
    ensures Shallow(MoveInfoSchema(), 97) && Shallow(PlayerInfoSchema(), 98) && Shallow(MatchPlayerInfoSchema(), 99)
    ensures Shallow(MatchPlayerStateSchema(), 99) && Shallow(MatchInfoSchema(), 100)
    ensures Shallow(RoomInfoSchema(), 100)
  {
    hide Shallow;
    ScalarsShallow(MoveInfoSchema(), 97);
    ScalarsShallow(MatchPlayerStateSchema(), 99);
    ScalarsShallow(RoomPlayerInfoSchema(), 99);
    NodeShallow(PlayerInfoSchema(), 98);
    NodeShallow(MatchPlayerInfoSchema(), 99);
    NodeShallow(MatchInfoSchema(), 100);
    NodeShallow(RoomInfoSchema(), 100);
  }

  lemma {:induction false} ScalarsShallow(S: Schema, depth: nat)
    requires forall i | 0 <= i < |S.fields| :: !S.fields[i].kind.KMessage? && !S.fields[i].kind.KRepeated?
    ensures Shallow(S, depth)
  {}

  lemma {:induction false} NodeShallow(S: Schema, depth: nat)
    requires forall i | 0 <= i < |S.fields| :: ShallowKind(S.fields[i].kind, depth)
    ensures Shallow(S, depth)
  {}

  /** Any number of players and states, negative hit points, negative zero floats: all come back. */
  lemma {:induction false} MatchInfoRoundTrip(m: Msg)
    requires Conforms(MatchInfoSchema(), m) && Plain(MatchInfoSchema(), m)
    requires |Serialize(MatchInfoSchema(), m)| <= MAX_LENGTH
    ensures ValidSchema(MatchInfoSchema())
    ensures ParseFromArray(MatchInfoSchema(), Serialize(MatchInfoSchema(), m)) == Some(m)
  {
    hide Parse, Serialize, Conforms, Plain, ValidSchema, Shallow, MatchInfoSchema;
    MatchInfoValid();
    StructsShallow();
    PlainRoundTrip(MatchInfoSchema(), m);
  }

  lemma {:induction false} RoomInfoRoundTrip(m: Msg)
    requires Conforms(RoomInfoSchema(), m) && Plain(RoomInfoSchema(), m)
    requires |Serialize(RoomInfoSchema(), m)| <= MAX_LENGTH
    ensures ValidSchema(RoomInfoSchema())
    ensures ParseFromArray(RoomInfoSchema(), Serialize(RoomInfoSchema(), m)) == Some(m)
  {
    hide Parse, Serialize, Conforms, Plain, ValidSchema, Shallow, RoomInfoSchema;
    NodesValid();
    StructsShallow();
    PlainRoundTrip(RoomInfoSchema(), m);
  }

  /** The serialiser writes a string that is not valid UTF-8 all the same, but no parser takes it back. */
  lemma {:induction false} InvalidNicknameIsLost(id: uint64)
    requires id != 0
    ensures var S, m := PlayerInfoSchema(), Msg([VInt(id), VOpt(None), VBytes([0xFF])], []);
      ValidSchema(S) && Conforms(S, m) && ParseFromArray(S, Serialize(S, m)) == None
  {
    var S, m := PlayerInfoSchema(), Msg([VInt(id), VOpt(None), VBytes([0xFF])], []);
    hide Parse, Serialize, ValidSchema;
    NodesValid();
    forall i | 0 <= i < |S.fields| ensures ValConforms(S.fields[i].kind, m.vals[i]) {}
    assert Conforms(S, m);
    assert !ValSendable(S.fields[2].kind, m.vals[2], RECURSION_LIMIT);
    RoundTripExactly(S, m);
  }
}
