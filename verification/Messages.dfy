/** Messages over a schema, and what the generated code of every message type does with them:
    default, merge, serialise, parse. A schema lists the fields of a message type in the order the
    serialiser writes them; the values of a message stand in the same order. */
module Messages {
  import opened Options
  import opened Wire

  /** int32 and enum fields share KInt32: both keep the low 32 bits of a varint as a signed number
      and write negative numbers sign-extended to ten bytes. A float is its 32-bit pattern. */
  datatype Kind =
    | KFixed32
    | KUInt64
    | KUInt32
    | KInt32
    | KBool
    | KString
    | KMessage(schema: Schema)
    | KRepeated(schema: Schema)

  datatype Field = Field(num: nat, kind: Kind)

  datatype Schema = Schema(fields: seq<Field>)

  datatype Val =
    | VInt(i: int)
    | VBytes(s: seq<byte>)
    | VOpt(o: Option<Msg>)
    | VRep(ms: seq<Msg>)

  /** Field values by position, and the unknown fields in arrival order. */
  datatype Msg = Msg(vals: seq<Val>, unknown: seq<Rec>)

  /** Field numbers ascend and fit a one-byte tag. */
  predicate ValidSchema(S: Schema)
    decreases S
  {
    && (forall i | 0 <= i < |S.fields| :: 1 <= S.fields[i].num <= 15)
    && (forall i, j | 0 <= i < j < |S.fields| :: S.fields[i].num < S.fields[j].num)
    && (forall i | 0 <= i < |S.fields| :: ValidKind(S.fields[i].kind))
  }

  predicate ValidKind(k: Kind)
    decreases k
  {
    match k
    case KMessage(sub) => ValidSchema(sub)
    case KRepeated(sub) => ValidSchema(sub)
    case _ => true
  }

  function IndexOf(fields: seq<Field>, num: nat): (i: nat)
    ensures i <= |fields|
    ensures i < |fields| ==> fields[i].num == num
    ensures forall j | 0 <= j < i :: fields[j].num != num
  {
    if fields == [] || fields[0].num == num then 0
    else 1 + IndexOf(fields[1..], num)
  }

  predicate Matches(k: Kind, r: Rec) {
    match k
    case KFixed32 => r.Fixed32Rec?
    case KUInt64 => r.VarintRec?
    case KUInt32 => r.VarintRec?
    case KInt32 => r.VarintRec?
    case KBool => r.VarintRec?
    case KString => r.LenRec?
    case KMessage(_) => r.LenRec?
    case KRepeated(_) => r.LenRec?
  }

  /** A field of the schema with the wire type it is declared with. */
  predicate Known(S: Schema, r: Rec) {
    var i := IndexOf(S.fields, r.num);
    i < |S.fields| && Matches(S.fields[i].kind, r)
  }

  predicate Foreign(S: Schema, rs: seq<Rec>) {
    forall i | 0 <= i < |rs| :: !Known(S, rs[i])
  }

  /** The shape and ranges every message object has in memory. */
  predicate Conforms(S: Schema, m: Msg)
    decreases S
  {
    && |m.vals| == |S.fields|
    && (forall i | 0 <= i < |S.fields| :: ValConforms(S.fields[i].kind, m.vals[i]))
    && AllWellFormed(m.unknown)
    && Foreign(S, m.unknown)
  }

  predicate ValConforms(k: Kind, v: Val)
    decreases k
  {
    match k
    case KFixed32 => v.VInt? && 0 <= v.i < TWO32
    case KUInt64 => v.VInt? && 0 <= v.i < TWO64
    case KUInt32 => v.VInt? && 0 <= v.i < TWO32
    case KInt32 => v.VInt? && -0x8000_0000 <= v.i < 0x8000_0000
    case KBool => v.VInt? && 0 <= v.i <= 1
    case KString => v.VBytes?
    case KMessage(sub) => v.VOpt? && (v.o.Some? ==> Conforms(sub, v.o.value))
    case KRepeated(sub) => v.VRep? && forall j | 0 <= j < |v.ms| :: Conforms(sub, v.ms[j])
  }

  // ------------------------------------------------------------------ default and merge

  function DefaultVal(k: Kind): (v: Val)
    ensures ValConforms(k, v)
  {
    match k
    case KString => VBytes([])
    case KMessage(_) => VOpt(None)
    case KRepeated(_) => VRep([])
    case _ => VInt(0)
  }

  function Default(S: Schema): (m: Msg)
    ensures Conforms(S, m)
  {
    Msg(seq(|S.fields|, i requires 0 <= i < |S.fields| => DefaultVal(S.fields[i].kind)), [])
  }

  /** MergeImpl: fields of b that are not default replace, submessages merge, the rest is appended. */
  function Merge(S: Schema, a: Msg, b: Msg): (m: Msg)
    requires Conforms(S, a) && Conforms(S, b)
    ensures Conforms(S, m)
    decreases S
  {
    AllAppend(a.unknown, b.unknown, 0);
    Msg(seq(|S.fields|, i requires 0 <= i < |S.fields| => MergeVal(S.fields[i].kind, a.vals[i], b.vals[i])),
        a.unknown + b.unknown)
  }

  function MergeVal(k: Kind, a: Val, b: Val): (v: Val)
    requires ValConforms(k, a) && ValConforms(k, b)
    ensures ValConforms(k, v)
    decreases k
  {
    match k
    case KString => if b.s != [] then b else a
    case KMessage(sub) =>
      if b.o.None? then a
      else VOpt(Some(Merge(sub, if a.o.Some? then a.o.value else Default(sub), b.o.value)))
    case KRepeated(sub) => VRep(a.ms + b.ms)
    case _ => if b.i != 0 then b else a
  }

  // ------------------------------------------------------------------ serialise

  /** The records the serialiser writes for one field; a default value is skipped. */
  function FieldRecs(f: Field, v: Val): (rs: seq<Rec>)
    requires ValConforms(f.kind, v)
    decreases f.kind, 1
  {
    match f.kind
    case KFixed32 => if v.i == 0 then [] else [Fixed32Rec(f.num, v.i)]
    case KInt32 => if v.i == 0 then [] else [VarintRec(f.num, if v.i < 0 then v.i + TWO64 else v.i)]
    case KString => if v.s == [] then [] else [LenRec(f.num, v.s)]
    case KMessage(sub) => if v.o.None? then [] else [LenRec(f.num, Serialize(sub, v.o.value))]
    case KRepeated(sub) => ElementRecs(f.num, sub, v.ms)
    case _ => if v.i == 0 then [] else [VarintRec(f.num, v.i)]
  }

  function ElementRecs(num: nat, sub: Schema, ms: seq<Msg>): seq<Rec>
    requires forall j | 0 <= j < |ms| :: Conforms(sub, ms[j])
    decreases sub, 1, |ms|
  {
    if ms == [] then []
    else ElementRecs(num, sub, ms[..|ms| - 1]) + [LenRec(num, Serialize(sub, ms[|ms| - 1]))]
  }

  /** The records of the first n fields, in schema order. */
  function KnownRecs(S: Schema, m: Msg, n: nat): seq<Rec>
    requires Conforms(S, m) && n <= |S.fields|
    decreases S, 0, n
  {
    if n == 0 then [] else KnownRecs(S, m, n - 1) + FieldRecs(S.fields[n - 1], m.vals[n - 1])
  }

  function Records(S: Schema, m: Msg): seq<Rec>
    requires Conforms(S, m)
    decreases S, 0, |S.fields| + 1
  {
    KnownRecs(S, m, |S.fields|) + m.unknown
  }

  function Serialize(S: Schema, m: Msg): seq<byte>
    requires Conforms(S, m)
    decreases S, 0, |S.fields| + 2
  {
    EncodeRecs(Records(S, m))
  }

  // ------------------------------------------------------------------ parse

  function Signed32(v: nat): int32 {
    var w := v % TWO32;
    if w < 0x8000_0000 then w else w - TWO32
  }

  /** Storing a record into the field it belongs to. None is a parse failure. */
  function ApplyVal(k: Kind, cur: Val, r: Rec, depth: nat): (v: Option<Val>)
    requires ValidKind(k) && ValConforms(k, cur) && Matches(k, r) && WellFormed(r)
    ensures v.Some? ==> ValConforms(k, v.value)
    decreases k, 0
  {
    match k
    case KUInt32 => Some(VInt(r.v % TWO32))
    case KInt32 => Some(VInt(Signed32(r.v)))
    case KBool => Some(VInt(if r.v != 0 then 1 else 0))
    case KString => if ValidUtf8(r.bytes) then Some(VBytes(r.bytes)) else None
    case KMessage(sub) =>
      if depth == 0 then None
      else (match Parse(sub, if cur.o.Some? then cur.o.value else Default(sub), r.bytes, depth - 1)
            case None => None
            case Some(x) => Some(VOpt(Some(x))))
    case KRepeated(sub) =>
      if depth == 0 then None
      else (match Parse(sub, Default(sub), r.bytes, depth - 1)
            case None => None
            case Some(x) => Some(VRep(cur.ms + [x])))
    case _ => Some(VInt(r.v))
  }

  /** One turn of the parse loop after its record was read: set a field or keep the record as unknown. */
  function Apply(S: Schema, m: Msg, r: Rec, depth: nat): (m': Option<Msg>)
    requires ValidSchema(S) && Conforms(S, m) && WellFormed(r)
    ensures m'.Some? ==> Conforms(S, m'.value)
    decreases S, 0
  {
    if Known(S, r) then
      var i := IndexOf(S.fields, r.num);
      match ApplyVal(S.fields[i].kind, m.vals[i], r, depth)
      case None => None
      case Some(v) => Some(m.(vals := m.vals[i := v]))
    else
      AllAppend(m.unknown, [r], 0);
      Some(m.(unknown := m.unknown + [r]))
  }

  /** _InternalParse: read a record, store it, repeat until the bytes are used up. */
  function Parse(S: Schema, m: Msg, b: seq<byte>, depth: nat): (m': Option<Msg>)
    requires ValidSchema(S) && Conforms(S, m)
    ensures m'.Some? ==> Conforms(S, m'.value)
    decreases S, 1, |b|
  {
    if b == [] then Some(m)
    else match ReadItem(b, depth)
      case Bad => None
      case End(_, _) => None
      case Item(r, n) =>
        ReadItemYields(b, depth);
        match Apply(S, m, r, depth)
        case None => None
        case Some(x) => Parse(S, x, b[n..], depth)
  }

  /** The recursion budget a parse starts with. */
  const RECURSION_LIMIT: nat := 100

  function ParseFromArray(S: Schema, b: seq<byte>): Option<Msg>
    requires ValidSchema(S)
  {
    Parse(S, Default(S), b, RECURSION_LIMIT)
  }

  // ------------------------------------------------------------------ what can be sent

  /** Strings valid and short enough, nested messages short enough and not too deep. */
  predicate Sendable(S: Schema, m: Msg, depth: nat)
    requires Conforms(S, m)
    decreases S, 0
  {
    && (forall i | 0 <= i < |S.fields| :: ValSendable(S.fields[i].kind, m.vals[i], depth))
    && AllReadable(m.unknown, depth)
  }

  predicate ValSendable(k: Kind, v: Val, depth: nat)
    requires ValConforms(k, v)
    decreases k, 0
  {
    match k
    case KString => |v.s| <= MAX_LENGTH && ValidUtf8(v.s)
    case KMessage(sub) => v.o.Some? ==> SubSendable(sub, v.o.value, depth)
    case KRepeated(sub) => forall j | 0 <= j < |v.ms| :: SubSendable(sub, v.ms[j], depth)
    case _ => true
  }

  predicate SubSendable(sub: Schema, x: Msg, depth: nat)
    requires Conforms(sub, x)
    decreases sub, 1
  {
    depth > 0 && |Serialize(sub, x)| <= MAX_LENGTH && Sendable(sub, x, depth - 1)
  }
}
