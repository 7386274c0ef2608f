/** The generated parse loops read from a whole buffer and look at the limit only between records. The
    readers and lemmas here tie such a loop, turn by turn, to the parse of the bytes up to the limit. */
module ParseLoop {
  import opened Options
  import opened Wire
  import opened Messages
  import opened Schemas
  import opened VarintParse

  /** Bytes behind the data that a primitive read may run into. */
  const SLOP: nat := 16

  /** The invariant of a parse loop. m is what the loop, started on m0 at position p0, has made of the
      bytes before position p; once it has run past the limit, the parse it stands for has failed. */
  predicate InLoop(S: Schema, m0: Msg, m: Msg, buf: seq<byte>, p0: nat, p: nat, limit: nat, depth: nat) {
    && ValidSchema(S) && Consecutive(S) && Conforms(S, m0) && Conforms(S, m)
    && p0 <= limit && limit + SLOP <= |buf| && p0 <= p <= |buf|
    && if p <= limit then Parse(S, m0, buf[p0..limit], depth) == Parse(S, m, buf[p..limit], depth)
       else Parse(S, m0, buf[p0..limit], depth).None?
  }

  /** The parse a loop stands for. */
  function Whole(S: Schema, m0: Msg, buf: seq<byte>, p0: nat, limit: nat, depth: nat): Option<Msg>
    requires ValidSchema(S) && Conforms(S, m0) && p0 <= limit <= |buf|
  {
    Parse(S, m0, buf[p0..limit], depth)
  }

  lemma {:induction false} LoopStarts(S: Schema, m0: Msg, buf: seq<byte>, p0: nat, limit: nat, depth: nat)
    requires ValidSchema(S) && Consecutive(S) && Conforms(S, m0) && p0 <= limit && limit + SLOP <= |buf|
    ensures InLoop(S, m0, m0, buf, p0, p0, limit, depth)
  {}

  lemma {:induction false} LoopEnds(S: Schema, m0: Msg, m: Msg, buf: seq<byte>, p0: nat, p: nat, limit: nat, depth: nat)
    requires InLoop(S, m0, m, buf, p0, p, limit, depth) && limit <= p
    ensures Conforms(S, m)
    ensures Whole(S, m0, buf, p0, limit, depth) == if p == limit then Some(m) else None
  {
    if p == limit { assert buf[p..limit] == []; }
  }

  /** Reading with and without the limit: the record within the limit, or none when it crosses it. */
  lemma {:induction false} ReadAcrossLimit(buf: seq<byte>, p: nat, limit: nat, depth: nat)
    requires p <= limit <= |buf|
    ensures var far, near := ReadItem(buf[p..], depth), ReadItem(buf[p..limit], depth);
      if far.Item? && p + far.n <= limit then near == far else !near.Item?
  {
    hide ReadItem;
    var far, near := ReadItem(buf[p..], depth), ReadItem(buf[p..limit], depth);
    if far.Item? && p + far.n <= limit {
      assert buf[p..limit][..far.n] == buf[p..][..far.n];
      ReadItemLocal(buf[p..], buf[p..limit], depth);
    } else if near.Item? {
      assert buf[p..limit][..near.n] == buf[p..][..near.n];
      ReadItemLocal(buf[p..limit], buf[p..], depth);
    }
  }

  /** A turn that reads record r, ending at next, and stores it. */
  lemma {:induction false} Turn(S: Schema, m0: Msg, m: Msg, buf: seq<byte>, p0: nat, p: nat, next: nat, limit: nat,
                                depth: nat, r: Rec)
    requires InLoop(S, m0, m, buf, p0, p, limit, depth) && p < limit
    requires p <= next && ReadItem(buf[p..], depth) == Item(r, next - p)
    ensures WellFormed(r)
    ensures Apply(S, m, r, depth).Some? ==> InLoop(S, m0, Apply(S, m, r, depth).value, buf, p0, next, limit, depth)
    ensures Apply(S, m, r, depth).None? ==> Whole(S, m0, buf, p0, limit, depth).None?
  {
    hide ReadItem, Apply, Conforms, ValidSchema, WellFormed, Consecutive;
    ReadAcrossLimit(buf, p, limit, depth);
    ReadItemYields(buf[p..], depth);
    if next <= limit {
      assert buf[p..limit][next - p..] == buf[next..limit];
    }
  }

  /** A turn that finds no record, or one that ends beyond the limit. */
  lemma {:induction false} TurnFails(S: Schema, m0: Msg, m: Msg, buf: seq<byte>, p0: nat, p: nat, limit: nat,
                                     depth: nat)
    requires InLoop(S, m0, m, buf, p0, p, limit, depth) && p < limit
    requires ReadItem(buf[p..], depth).Item? ==> p + ReadItem(buf[p..], depth).n > limit
    ensures Whole(S, m0, buf, p0, limit, depth).None?
  {
    hide ReadItem, Apply, Conforms, ValidSchema, Consecutive;
    ReadAcrossLimit(buf, p, limit, depth);
  }

  // ------------------------------------------------------------------ one tag per record

  /** A turn of the plain loop, which reads a tag for every record: the message and position after it. */
  function PlainTurn(S: Schema, m: Msg, buf: seq<byte>, p: nat, depth: nat): (r: Option<(Msg, nat)>)
    requires ValidSchema(S) && Conforms(S, m) && p <= |buf|
    ensures r.Some? ==> Conforms(S, r.value.0) && p < r.value.1 <= |buf|
  {
    match ReadItem(buf[p..], depth)
    case Bad => None
    case End(_, _) => None
    case Item(rec, n) =>
      ReadItemYields(buf[p..], depth);
      match Apply(S, m, rec, depth)
      case None => None
      case Some(x) => Some((x, p + n))
  }

  /** k turns of the plain loop. */
  function PlainTurns(S: Schema, m: Msg, buf: seq<byte>, p: nat, depth: nat, k: nat): (r: Option<(Msg, nat)>)
    requires ValidSchema(S) && Conforms(S, m) && p <= |buf|
    ensures r.Some? ==> Conforms(S, r.value.0) && p <= r.value.1 <= |buf|
    decreases k
  {
    if k == 0 then Some((m, p))
    else match PlainTurns(S, m, buf, p, depth, k - 1)
      case None => None
      case Some((x, q)) => PlainTurn(S, x, buf, q, depth)
  }

  /** What the tight loops ask behind an element: whether the same one-byte tag follows before the limit. */
  predicate Again(buf: seq<byte>, q: nat, limit: nat, tag: byte) {
    q < limit && q < |buf| && buf[q] == tag
  }

  /** m' and next are where the plain loop, started on m at p, first comes behind a record that is not followed by
      the same tag; that is after k turns. */
  predicate FirstStop(S: Schema, m: Msg, buf: seq<byte>, p: nat, limit: nat, depth: nat, tag: byte, k: nat, m': Msg,
                      next: nat) {
    && ValidSchema(S) && Conforms(S, m) && p <= |buf|
    && k >= 1 && PlainTurns(S, m, buf, p, depth, k) == Some((m', next)) && !Again(buf, next, limit, tag)
    && AgainUntil(S, m, buf, p, limit, depth, tag, k)
  }

  /** Behind each of the turns 1 to k - 1 the same tag follows. */
  predicate AgainUntil(S: Schema, m: Msg, buf: seq<byte>, p: nat, limit: nat, depth: nat, tag: byte, k: nat)
    requires ValidSchema(S) && Conforms(S, m) && p <= |buf|
  {
    forall j: nat | 0 < j < k ::
      PlainTurns(S, m, buf, p, depth, j).Some? && Again(buf, PlainTurns(S, m, buf, p, depth, j).value.1, limit, tag)
  }

  // ------------------------------------------------------------------ the readers of the runtime

  /** A tag followed by a payload of its wire type. */
  lemma {:induction false} AfterTag(buf: seq<byte>, p: nat, q: nat, tag: nat, depth: nat)
    requires p <= q <= |buf| && ReadTag(buf[p..]) == Some((tag, q - p)) && tag >= 8 && tag % 8 != 4
    ensures ReadItem(buf[p..], depth)
         == match ReadPayload(buf[q..], tag / 8, tag % 8, depth)
            case None => Bad
            case Some((rec, k)) => Item(rec, q - p + k)
  {
    assert buf[p..][q - p..] == buf[q..];
  }

  /** The tag at p, or a failed parse. */
  method TakeTag(ghost S: Schema, ghost m0: Msg, ghost m: Msg, buf: seq<byte>, ghost p0: nat, p: nat,
                 ghost limit: nat, ghost depth: nat) returns (tag: Option<nat>, q: nat)
    requires InLoop(S, m0, m, buf, p0, p, limit, depth) && p < limit
    ensures Conforms(S, m)
    ensures match tag
      case None => Whole(S, m0, buf, p0, limit, depth).None?
      case Some(t) => p < q <= p + 5 && q <= |buf| && ReadTag(buf[p..]) == Some((t, q - p))
  {
    hide Parse, Conforms, ValidSchema, Consecutive, RawVarint;
    var t := ParseTag(buf[p..]);
    q := p;
    if t.None? {
      TurnFails(S, m0, m, buf, p0, p, limit, depth);
      return None, q;
    }
    TagLength(buf[p..]);
    return Some(t.value.0), p + t.value.1;
  }

  lemma {:induction false} TagLength(b: seq<byte>)
    requires ReadTag(b).Some?
    ensures ReadTag(b).value.1 <= 5
  {}

  /** A varint payload: ReadVarint64. */
  method TakeVarint(ghost S: Schema, ghost m0: Msg, ghost m: Msg, buf: seq<byte>, ghost p0: nat, ghost p: nat,
                    q: nat, ghost limit: nat, ghost depth: nat, ghost tag: nat)
    returns (v: Option<uint64>, next: nat)
    requires InLoop(S, m0, m, buf, p0, p, limit, depth) && p < limit
    requires p <= q <= |buf| && ReadTag(buf[p..]) == Some((tag, q - p)) && tag >= 8 && tag % 8 == 0
    ensures match v
      case None => Whole(S, m0, buf, p0, limit, depth).None?
      case Some(x) => q < next <= |buf| && ReadItem(buf[p..], depth) == Item(VarintRec(tag / 8, x), next - p)
  {
    hide Whole, ReadItem, ReadVarint64, ReadTag, Parse, Conforms, ValidSchema, Consecutive;
    AfterTag(buf, p, q, tag, depth);
    TagLength(buf[p..]);
    var r := ParseVarint64(buf[q..]);
    if r.None? {
      TurnFails(S, m0, m, buf, p0, p, limit, depth);
      return None, q;
    }
    return Some(r.value.0), q + r.value.1;
  }

  /** A varint payload of a 32-bit field: ReadVarint32. v is the value before it was reduced. */
  method TakeVarint32(ghost S: Schema, ghost m0: Msg, ghost m: Msg, buf: seq<byte>, ghost p0: nat, ghost p: nat,
                      q: nat, ghost limit: nat, ghost depth: nat, ghost tag: nat)
    returns (x: Option<uint32>, next: nat, ghost v: nat)
    requires InLoop(S, m0, m, buf, p0, p, limit, depth) && p < limit
    requires p <= q <= |buf| && ReadTag(buf[p..]) == Some((tag, q - p)) && tag >= 8 && tag % 8 == 0
    ensures match x
      case None => Whole(S, m0, buf, p0, limit, depth).None?
      case Some(y) => (q < next <= |buf| && y == v % TWO32
        && ReadItem(buf[p..], depth) == Item(VarintRec(tag / 8, v), next - p))
  {
    hide Whole, ReadItem, RawVarint, ReadTag, Parse, Conforms, ValidSchema, Consecutive;
    AfterTag(buf, p, q, tag, depth);
    TagLength(buf[p..]);
    var r := ParseVarint32(buf[q..]);
    if r.None? {
      TurnFails(S, m0, m, buf, p0, p, limit, depth);
      v := 0;
      return None, q, v;
    }
    v := ReadVarint64(buf[q..]).value.0;
    return Some(r.value.0), q + r.value.1, v;
  }

  /** A length prefix at q: where the announced bytes begin and end. */
  method TakeLength(ghost S: Schema, ghost m0: Msg, ghost m: Msg, buf: seq<byte>, ghost p0: nat, ghost p: nat,
                    q: nat, ghost limit: nat, ghost depth: nat, ghost tag: nat)
    returns (start: Option<nat>, next: nat)
    requires InLoop(S, m0, m, buf, p0, p, limit, depth) && p < limit
    requires p <= q <= |buf| && ReadTag(buf[p..]) == Some((tag, q - p)) && tag >= 8 && tag % 8 == 2
    ensures match start
      case None => Whole(S, m0, buf, p0, limit, depth).None?
      case Some(s) => (q < s <= next && next + SLOP <= |buf|
        && ReadItem(buf[p..], depth) == Item(LenRec(tag / 8, buf[s..next]), next - p))
  {
    hide Whole, ReadItem, ReadTag, ReadSize, Parse, Conforms, ValidSchema, Consecutive;
    AfterTag(buf, p, q, tag, depth);
    TagLength(buf[p..]);
    var r := ParseSize(buf[q..]);
    if r.None? {
      TurnFails(S, m0, m, buf, p0, p, limit, depth);
      return None, q;
    }
    var s := q + r.value.1;
    next := s + r.value.0;
    if next + SLOP > |buf| {
      TurnFails(S, m0, m, buf, p0, p, limit, depth);
      return None, q;
    }
    assert buf[q..][s - q..next - q] == buf[s..next];
    return Some(s), next;
  }

  // ------------------------------------------------------------------ the cases of the switch

  /** A field case: the record just read, of number num and its declared wire type, is stored as v. */
  lemma {:induction false} StoreTurn(S: Schema, m0: Msg, m: Msg, buf: seq<byte>, p0: nat, p: nat, next: nat,
                                     limit: nat, depth: nat, num: nat, v: Val)
    requires InLoop(S, m0, m, buf, p0, p, limit, depth) && p < limit && 1 <= num <= |S.fields|
    requires p <= next && ReadItem(buf[p..], depth).Item? && ReadItem(buf[p..], depth).n == next - p
    requires var r := ReadItem(buf[p..], depth).rec;
      && r.num == num && Matches(S.fields[num - 1].kind, r)
      && (WellFormed(r) ==> ApplyVal(S.fields[num - 1].kind, m.vals[num - 1], r, depth) == Some(v))
    ensures InLoop(S, m0, m.(vals := m.vals[num - 1 := v]), buf, p0, next, limit, depth)
    ensures PlainTurn(S, m, buf, p, depth) == Some((m.(vals := m.vals[num - 1 := v]), next))
  {
    hide ReadItem, ApplyVal, Matches, Parse;
    var r := ReadItem(buf[p..], depth).rec;
    ReadItemYields(buf[p..], depth);
    ConsecutiveIndex(S, num);
    assert Apply(S, m, r, depth) == Some(m.(vals := m.vals[num - 1 := v]));
    hide Apply;
    Turn(S, m0, m, buf, p0, p, next, limit, depth, r);
  }

  /** A field case whose value is refused. */
  lemma {:induction false} RefuseTurn(S: Schema, m0: Msg, m: Msg, buf: seq<byte>, p0: nat, p: nat, next: nat,
                                      limit: nat, depth: nat, num: nat)
    requires InLoop(S, m0, m, buf, p0, p, limit, depth) && p < limit && 1 <= num <= |S.fields|
    requires p <= next && ReadItem(buf[p..], depth).Item? && ReadItem(buf[p..], depth).n == next - p
    requires var r := ReadItem(buf[p..], depth).rec;
      && r.num == num && Matches(S.fields[num - 1].kind, r)
      && (WellFormed(r) ==> ApplyVal(S.fields[num - 1].kind, m.vals[num - 1], r, depth) == None)
    ensures Whole(S, m0, buf, p0, limit, depth).None?
  {
    hide ReadItem, ApplyVal, Matches, Parse;
    var r := ReadItem(buf[p..], depth).rec;
    ReadItemYields(buf[p..], depth);
    ConsecutiveIndex(S, num);
    assert Apply(S, m, r, depth) == None;
    hide Apply;
    Turn(S, m0, m, buf, p0, p, next, limit, depth, r);
  }

  /** The default case: a record that no field takes is kept. */
  lemma {:induction false} KeepTurn(S: Schema, m0: Msg, m: Msg, buf: seq<byte>, p0: nat, p: nat, next: nat,
                                    limit: nat, depth: nat, r: Rec)
    requires InLoop(S, m0, m, buf, p0, p, limit, depth) && p < limit
    requires p <= next && ReadItem(buf[p..], depth) == Item(r, next - p)
    requires 1 <= r.num <= |S.fields| ==> !Matches(S.fields[r.num - 1].kind, r)
    ensures InLoop(S, m0, m.(unknown := m.unknown + [r]), buf, p0, next, limit, depth)
  {
    hide ReadItem, Matches, Parse;
    ReadItemYields(buf[p..], depth);
    ConsecutiveIndex(S, r.num);
    assert Apply(S, m, r, depth) == Some(m.(unknown := m.unknown + [r]));
    hide Apply;
    Turn(S, m0, m, buf, p0, p, next, limit, depth, r);
  }

  // ------------------------------------------------------------------ one field of each kind

  /** An enum field: the low 32 bits of a 64-bit varint, as a signed number. */
  method TakeEnum(ghost S: Schema, ghost m0: Msg, ghost m: Msg, buf: seq<byte>, ghost p0: nat, ghost p: nat,
                  q: nat, ghost limit: nat, ghost depth: nat, ghost num: nat)
    returns (v: Option<int32>, next: nat)
    requires InLoop(S, m0, m, buf, p0, p, limit, depth) && p < limit
    requires 1 <= num <= |S.fields| && S.fields[num - 1].kind == KInt32
    requires p <= q <= |buf| && ReadTag(buf[p..]) == Some((num * 8, q - p))
    ensures match v
      case None => Whole(S, m0, buf, p0, limit, depth).None?
      case Some(x) => InLoop(S, m0, m.(vals := m.vals[num - 1 := VInt(x)]), buf, p0, next, limit, depth) && p < next
  {
    hide InLoop, Whole, ReadItem, ReadTag, Parse;
    var r;
    r, next := TakeVarint(S, m0, m, buf, p0, p, q, limit, depth, num * 8);
    if r.None? { return None, next; }
    v := Some(Signed32(r.value));
    StoreTurn(S, m0, m, buf, p0, p, next, limit, depth, num, VInt(v.value));
  }

  /** An int32 field: a 32-bit varint, as a signed number. */
  method TakeInt32(ghost S: Schema, ghost m0: Msg, ghost m: Msg, buf: seq<byte>, ghost p0: nat, ghost p: nat,
                   q: nat, ghost limit: nat, ghost depth: nat, ghost num: nat)
    returns (v: Option<int32>, next: nat)
    requires InLoop(S, m0, m, buf, p0, p, limit, depth) && p < limit
    requires 1 <= num <= |S.fields| && S.fields[num - 1].kind == KInt32
    requires p <= q <= |buf| && ReadTag(buf[p..]) == Some((num * 8, q - p))
    ensures match v
      case None => Whole(S, m0, buf, p0, limit, depth).None?
      case Some(x) => InLoop(S, m0, m.(vals := m.vals[num - 1 := VInt(x)]), buf, p0, next, limit, depth) && p < next
  {
    hide InLoop, Whole, ReadItem, ReadTag, Parse;
    var r;
    ghost var w;
    r, next, w := TakeVarint32(S, m0, m, buf, p0, p, q, limit, depth, num * 8);
    if r.None? { return None, next; }
    v := Some(Signed32(r.value));
    StoreTurn(S, m0, m, buf, p0, p, next, limit, depth, num, VInt(v.value));
  }

  /** A uint32 field. */
  method TakeUInt32(ghost S: Schema, ghost m0: Msg, ghost m: Msg, buf: seq<byte>, ghost p0: nat, ghost p: nat,
                    q: nat, ghost limit: nat, ghost depth: nat, ghost num: nat)
    returns (v: Option<uint32>, next: nat)
    requires InLoop(S, m0, m, buf, p0, p, limit, depth) && p < limit
    requires 1 <= num <= |S.fields| && S.fields[num - 1].kind == KUInt32
    requires p <= q <= |buf| && ReadTag(buf[p..]) == Some((num * 8, q - p))
    ensures match v
      case None => Whole(S, m0, buf, p0, limit, depth).None?
      case Some(x) => InLoop(S, m0, m.(vals := m.vals[num - 1 := VInt(x)]), buf, p0, next, limit, depth) && p < next
  {
    hide InLoop, Whole, ReadItem, ReadTag, Parse;
    var r;
    ghost var w;
    r, next, w := TakeVarint32(S, m0, m, buf, p0, p, q, limit, depth, num * 8);
    if r.None? { return None, next; }
    v := Some(r.value);
    StoreTurn(S, m0, m, buf, p0, p, next, limit, depth, num, VInt(v.value));
  }

  /** A uint64 field. */
  method TakeUInt64(ghost S: Schema, ghost m0: Msg, ghost m: Msg, buf: seq<byte>, ghost p0: nat, ghost p: nat,
                q: nat, ghost limit: nat, ghost depth: nat, ghost num: nat)
    returns (v: Option<uint64>, next: nat)
    requires InLoop(S, m0, m, buf, p0, p, limit, depth) && p < limit
    requires 1 <= num <= |S.fields| && S.fields[num - 1].kind == KUInt64
    requires p <= q <= |buf| && ReadTag(buf[p..]) == Some((num * 8, q - p))
    ensures match v
      case None => Whole(S, m0, buf, p0, limit, depth).None?
      case Some(x) => InLoop(S, m0, m.(vals := m.vals[num - 1 := VInt(x)]), buf, p0, next, limit, depth) && p < next
  {
    hide InLoop, Whole, ReadItem, ReadTag, Parse;
    var r;
    r, next := TakeVarint(S, m0, m, buf, p0, p, q, limit, depth, num * 8);
    if r.None? { return None, next; }
    v := Some(r.value);
    StoreTurn(S, m0, m, buf, p0, p, next, limit, depth, num, VInt(v.value));
  }

  /** A bool field: whether the 64-bit varint is not zero. */
  method TakeBool(ghost S: Schema, ghost m0: Msg, ghost m: Msg, buf: seq<byte>, ghost p0: nat, ghost p: nat,
                q: nat, ghost limit: nat, ghost depth: nat, ghost num: nat)
    returns (v: Option<bool>, next: nat)
    requires InLoop(S, m0, m, buf, p0, p, limit, depth) && p < limit
    requires 1 <= num <= |S.fields| && S.fields[num - 1].kind == KBool
    requires p <= q <= |buf| && ReadTag(buf[p..]) == Some((num * 8, q - p))
    ensures match v
      case None => Whole(S, m0, buf, p0, limit, depth).None?
      case Some(x) =>
        && InLoop(S, m0, m.(vals := m.vals[num - 1 := VInt(if x then 1 else 0)]), buf, p0, next, limit, depth)
        && p < next
  {
    hide InLoop, Whole, ReadItem, ReadTag, Parse;
    var r;
    r, next := TakeVarint(S, m0, m, buf, p0, p, q, limit, depth, num * 8);
    if r.None? { return None, next; }
    v := Some(r.value != 0);
    StoreTurn(S, m0, m, buf, p0, p, next, limit, depth, num, VInt(if v.value then 1 else 0));
  }

  /** A float field: a 32-bit load, which never leaves the buffer because of the slop bytes. */
  method TakeFloat(ghost S: Schema, ghost m0: Msg, ghost m: Msg, buf: seq<byte>, ghost p0: nat, ghost p: nat,
                   q: nat, ghost limit: nat, ghost depth: nat, ghost num: nat)
    returns (v: uint32, next: nat)
    requires InLoop(S, m0, m, buf, p0, p, limit, depth) && p < limit
    requires 1 <= num <= |S.fields| && S.fields[num - 1].kind == KFixed32
    requires p <= q <= p + 5 && ReadTag(buf[p..]) == Some((num * 8 + 5, q - p))
    ensures InLoop(S, m0, m.(vals := m.vals[num - 1 := VInt(v)]), buf, p0, next, limit, depth) && p < next
  {
    hide Whole, ReadItem, ReadTag, Parse, Conforms, ValidSchema, Consecutive;
    AfterTag(buf, p, q, num * 8 + 5, depth);
    assert buf[q..][..4] == buf[q..q + 4];
    Pow256Values();
    WordBound(buf[q..q + 4]);
    v, next := Word(buf[q..q + 4]), q + 4;
    hide InLoop;
    StoreTurn(S, m0, m, buf, p0, p, next, limit, depth, num, VInt(v));
  }

  /** A string field: the bytes, refused unless they are structurally valid UTF-8. */
  method TakeString(ghost S: Schema, ghost m0: Msg, ghost m: Msg, buf: seq<byte>, ghost p0: nat, ghost p: nat,
                    q: nat, ghost limit: nat, ghost depth: nat, ghost num: nat)
    returns (v: Option<seq<byte>>, next: nat)
    requires InLoop(S, m0, m, buf, p0, p, limit, depth) && p < limit
    requires 1 <= num <= |S.fields| && S.fields[num - 1].kind == KString
    requires p <= q <= |buf| && ReadTag(buf[p..]) == Some((num * 8 + 2, q - p))
    ensures match v
      case None => Whole(S, m0, buf, p0, limit, depth).None?
      case Some(s) => InLoop(S, m0, m.(vals := m.vals[num - 1 := VBytes(s)]), buf, p0, next, limit, depth) && p < next
  {
    hide InLoop, Whole, ReadItem, ReadTag, Parse, ValidUtf8;
    var start;
    start, next := TakeLength(S, m0, m, buf, p0, p, q, limit, depth, num * 8 + 2);
    if start.None? { return None, next; }
    var s := buf[start.value..next];
    if !ValidUtf8(s) {
      RefuseTurn(S, m0, m, buf, p0, p, next, limit, depth, num);
      return None, next;
    }
    StoreTurn(S, m0, m, buf, p0, p, next, limit, depth, num, VBytes(s));
    return Some(s), next;
  }

  /** A nested message: ParseMessage on the existing or new submessage, one level deeper. */
  lemma {:induction false} SubmessageTurn(S: Schema, m0: Msg, m: Msg, buf: seq<byte>, p0: nat, p: nat, start: nat,
                                          next: nat, limit: nat, depth: nat, num: nat, sub: Schema, base: Msg)
    requires InLoop(S, m0, m, buf, p0, p, limit, depth) && p < limit && p <= start <= next && next + SLOP <= |buf|
    requires 1 <= num <= |S.fields| && S.fields[num - 1].kind == KMessage(sub) && m.vals[num - 1].VOpt?
    requires base == if m.vals[num - 1].o.Some? then m.vals[num - 1].o.value else Default(sub)
    requires ReadItem(buf[p..], depth) == Item(LenRec(num, buf[start..next]), next - p)
    ensures ValidSchema(sub) && Conforms(sub, base)
    ensures depth == 0 ==> Whole(S, m0, buf, p0, limit, depth).None?
    ensures depth > 0 ==> match Whole(sub, base, buf, start, next, depth - 1)
      case None => Whole(S, m0, buf, p0, limit, depth).None?
      case Some(x) => InLoop(S, m0, m.(vals := m.vals[num - 1 := VOpt(Some(x))]), buf, p0, next, limit, depth)
  {
    hide ReadItem, Parse;
    assert ValidKind(S.fields[num - 1].kind) && ValConforms(S.fields[num - 1].kind, m.vals[num - 1]);
    hide ValidSchema, Conforms, InLoop, Consecutive;
    if depth > 0 && Whole(sub, base, buf, start, next, depth - 1).Some? {
      StoreTurn(S, m0, m, buf, p0, p, next, limit, depth, num,
                VOpt(Whole(sub, base, buf, start, next, depth - 1)));
    } else {
      RefuseTurn(S, m0, m, buf, p0, p, next, limit, depth, num);
    }
  }

  lemma {:induction false} SetSubmessage(S: Schema, m: Msg, i: nat, sub: Schema, x: Msg)
    requires Conforms(S, m) && i < |S.fields| && S.fields[i].kind == KMessage(sub) && Conforms(sub, x)
    ensures Conforms(S, m.(vals := m.vals[i := VOpt(Some(x))]))
  {
    SetField(S, m, i, VOpt(Some(x)));
  }

  lemma {:induction false} SetField(S: Schema, m: Msg, i: nat, v: Val)
    requires Conforms(S, m) && i < |S.fields| && ValConforms(S.fields[i].kind, v)
    ensures Conforms(S, m.(vals := m.vals[i := v]))
  {
    hide ValConforms;
  }

  /** A repeated message: ParseMessage on a new element. */
  lemma {:induction false} ElementTurn(S: Schema, m0: Msg, m: Msg, buf: seq<byte>, p0: nat, p: nat, start: nat,
                                       next: nat, limit: nat, depth: nat, num: nat, sub: Schema)
    requires InLoop(S, m0, m, buf, p0, p, limit, depth) && p < limit && p <= start <= next && next + SLOP <= |buf|
    requires 1 <= num <= |S.fields| && S.fields[num - 1].kind == KRepeated(sub) && m.vals[num - 1].VRep?
    requires ReadItem(buf[p..], depth) == Item(LenRec(num, buf[start..next]), next - p)
    ensures ValidSchema(sub)
    ensures depth == 0 ==> Whole(S, m0, buf, p0, limit, depth).None?
    ensures depth > 0 ==> match Whole(sub, Default(sub), buf, start, next, depth - 1)
      case None => Whole(S, m0, buf, p0, limit, depth).None?
      case Some(x) =>
        (InLoop(S, m0, m.(vals := m.vals[num - 1 := VRep(m.vals[num - 1].ms + [x])]), buf, p0, next, limit, depth)
        && PlainTurn(S, m, buf, p, depth)
             == Some((m.(vals := m.vals[num - 1 := VRep(m.vals[num - 1].ms + [x])]), next)))
  {
    hide ReadItem, Parse, PlainTurn;
    assert ValidKind(S.fields[num - 1].kind) && ValConforms(S.fields[num - 1].kind, m.vals[num - 1]);
    hide ValidSchema, Conforms, InLoop, Consecutive;
    if depth > 0 && Whole(sub, Default(sub), buf, start, next, depth - 1).Some? {
      StoreTurn(S, m0, m, buf, p0, p, next, limit, depth, num,
                VRep(m.vals[num - 1].ms + [Whole(sub, Default(sub), buf, start, next, depth - 1).value]));
    } else {
      RefuseTurn(S, m0, m, buf, p0, p, next, limit, depth, num);
    }
  }

  function KindWire(k: Kind): nat {
    match k
    case KFixed32 => 5
    case KString => 2
    case KMessage(_) => 2
    case KRepeated(_) => 2
    case _ => 0
  }

  /** UnknownFieldParse, with the checks that stand before it: the record to keep, or a failed parse. */
  method TakeUnknown(ghost S: Schema, ghost m0: Msg, ghost m: Msg, buf: seq<byte>, ghost p0: nat, ghost p: nat,
                     q: nat, ghost limit: nat, depth: nat, tag: nat)
    returns (r: Option<Rec>, next: nat)
    requires 1 <= tag / 8 <= |S.fields| ==> tag % 8 != KindWire(S.fields[tag / 8 - 1].kind)
    requires InLoop(S, m0, m, buf, p0, p, limit, depth) && p < limit
    requires p < q <= |buf| && ReadTag(buf[p..]) == Some((tag, q - p))
    ensures match r
      case None => Whole(S, m0, buf, p0, limit, depth).None?
      case Some(x) => InLoop(S, m0, m.(unknown := m.unknown + [x]), buf, p0, next, limit, depth) && p < next
  {
    hide InLoop, Whole, RawVarint;
    if tag == 0 || tag % 8 == 4 || tag / 8 == 0 {
      TurnFails(S, m0, m, buf, p0, p, limit, depth);
      return None, q;
    }
    AfterTag(buf, p, q, tag, depth);
    hide ReadItem, ReadTag;
    var x := ReadPayload(buf[q..], tag / 8, tag % 8, depth);
    if x.None? {
      TurnFails(S, m0, m, buf, p0, p, limit, depth);
      return None, q;
    }
    next := q + x.value.1;
    KeepTurn(S, m0, m, buf, p0, p, next, limit, depth, x.value.0);
    return Some(x.value.0), next;
  }
}
