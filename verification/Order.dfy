/** What a parse depends on: for every field the records of that field in their order, and the unknown
    records in theirs. Any other reordering of the records on the wire is invisible. */
module Order {
  import opened Options
  import opened Wire
  import opened Messages
  import opened RoundTrip

  /** All records of a message body; None when some record cannot be read or an end-group tag stands alone. */
  function Items(b: seq<byte>, depth: nat): (r: Option<seq<Rec>>)
    ensures r.Some? ==> AllWellFormed(r.value)
    decreases |b|
  {
    if b == [] then Some([])
    else match ReadItem(b, depth)
      case Bad => None
      case End(_, _) => None
      case Item(r, n) =>
        ReadItemYields(b, depth);
        match Items(b[n..], depth)
        case None => None
        case Some(rs) => Some([r] + rs)
  }

  /** The loop over bytes is the loop over records. */
  lemma {:induction false} ParseIsRun(S: Schema, m: Msg, b: seq<byte>, depth: nat)
    requires ValidSchema(S) && Conforms(S, m) && Items(b, depth).Some?
    ensures Parse(S, m, b, depth) == Run(S, m, Items(b, depth).value, depth)
    decreases |b|
  {
    hide ReadItem, Apply, Conforms, ValidSchema;
    if b != [] {
      var Item(r, n) := ReadItem(b, depth);
      ReadItemYields(b, depth);
      var rs := Items(b[n..], depth).value;
      assert ([r] + rs)[1..] == rs;
      if Apply(S, m, r, depth).Some? {
        ParseIsRun(S, Apply(S, m, r, depth).value, b[n..], depth);
      }
    }
  }

  lemma {:induction false} ItemsFail(S: Schema, m: Msg, b: seq<byte>, depth: nat)
    requires ValidSchema(S) && Conforms(S, m) && Items(b, depth).None?
    ensures Parse(S, m, b, depth).None?
    decreases |b|
  {
    hide ReadItem, Apply, Conforms, ValidSchema;
    var it := ReadItem(b, depth);
    if it.Item? {
      ReadItemYields(b, depth);
      if Apply(S, m, it.rec, depth).Some? {
        ItemsFail(S, Apply(S, m, it.rec, depth).value, b[it.n..], depth);
      }
    }
  }

  /** The records that go to field i. */
  function OfField(S: Schema, rs: seq<Rec>, i: nat): (f: seq<Rec>)
    requires i < |S.fields| && AllWellFormed(rs)
    ensures forall j | 0 <= j < |f| :: Matches(S.fields[i].kind, f[j]) && WellFormed(f[j])
    decreases |rs|
  {
    if rs == [] then []
    else if Known(S, rs[0]) && IndexOf(S.fields, rs[0].num) == i then [rs[0]] + OfField(S, rs[1..], i)
    else OfField(S, rs[1..], i)
  }

  /** The records no field takes. */
  function Strangers(S: Schema, rs: seq<Rec>): seq<Rec>
    decreases |rs|
  {
    if rs == [] then []
    else if Known(S, rs[0]) then Strangers(S, rs[1..])
    else [rs[0]] + Strangers(S, rs[1..])
  }

  /** One field's value after its records arrived in turn. */
  function StoreAll(k: Kind, v: Val, rs: seq<Rec>, depth: nat): (r: Option<Val>)
    requires ValidKind(k) && ValConforms(k, v)
    requires forall j | 0 <= j < |rs| :: Matches(k, rs[j]) && WellFormed(rs[j])
    ensures r.Some? ==> ValConforms(k, r.value)
    decreases |rs|
  {
    if rs == [] then Some(v)
    else match ApplyVal(k, v, rs[0], depth)
      case None => None
      case Some(w) => StoreAll(k, w, rs[1..], depth)
  }

  /** Every field has a value after its own records. */
  predicate AllStored(S: Schema, m: Msg, rs: seq<Rec>, depth: nat)
    requires ValidSchema(S) && Conforms(S, m) && AllWellFormed(rs)
  {
    forall i | 0 <= i < |S.fields| :: StoreAll(S.fields[i].kind, m.vals[i], OfField(S, rs, i), depth).Some?
  }

  /** Each field is computed from its own records alone, and the whole succeeds when every field does. */
  lemma {:induction false} RunPerField(S: Schema, m: Msg, rs: seq<Rec>, depth: nat)
    requires ValidSchema(S) && Conforms(S, m) && AllWellFormed(rs) && AllReadable(rs, depth)
    ensures Run(S, m, rs, depth).Some? <==> AllStored(S, m, rs, depth)
    ensures Run(S, m, rs, depth).Some? ==>
      && Run(S, m, rs, depth).value.unknown == m.unknown + Strangers(S, rs)
      && forall i | 0 <= i < |S.fields| ::
           Some(Run(S, m, rs, depth).value.vals[i])
           == StoreAll(S.fields[i].kind, m.vals[i], OfField(S, rs, i), depth)
    decreases |rs|
  {
    hide Apply, ApplyVal, Matches, WellFormed, Readable, Conforms, ValidSchema, Strangers;
    if rs == [] {
      NothingPerField(S, m, depth);
    } else {
      hide OfField, StoreAll;
      StepPerField(S, m, rs, depth);
      if Apply(S, m, rs[0], depth).Some? {
        RunPerField(S, Apply(S, m, rs[0], depth).value, rs[1..], depth);
      }
    }
  }

  lemma {:induction false} NothingPerField(S: Schema, m: Msg, depth: nat)
    requires ValidSchema(S) && Conforms(S, m)
    ensures AllStored(S, m, [], depth)
    ensures m.unknown + Strangers(S, []) == m.unknown
    ensures forall i | 0 <= i < |S.fields| ::
      Some(m.vals[i]) == StoreAll(S.fields[i].kind, m.vals[i], OfField(S, [], i), depth)
  {}

  lemma {:induction false} StepPerField(S: Schema, m: Msg, rs: seq<Rec>, depth: nat)
    requires ValidSchema(S) && Conforms(S, m) && AllWellFormed(rs) && rs != []
    ensures var x := Apply(S, m, rs[0], depth);
      if x.None? then !AllStored(S, m, rs, depth)
      else
        && x.value.unknown + Strangers(S, rs[1..]) == m.unknown + Strangers(S, rs)
        && forall i | 0 <= i < |S.fields| ::
          StoreAll(S.fields[i].kind, m.vals[i], OfField(S, rs, i), depth)
          == StoreAll(S.fields[i].kind, x.value.vals[i], OfField(S, rs[1..], i), depth)
  {
    hide ApplyVal, Matches, WellFormed;
    var r := rs[0];
    assert m.unknown + [r] + Strangers(S, rs[1..]) == m.unknown + ([r] + Strangers(S, rs[1..]));
    forall i | 0 <= i < |S.fields| && Known(S, r) && IndexOf(S.fields, r.num) == i
      ensures StoreAll(S.fields[i].kind, m.vals[i], OfField(S, rs, i), depth)
           == match ApplyVal(S.fields[i].kind, m.vals[i], r, depth)
              case None => None
              case Some(w) => StoreAll(S.fields[i].kind, w, OfField(S, rs[1..], i), depth)
    {
      assert OfField(S, rs, i) == [r] + OfField(S, rs[1..], i);
      assert OfField(S, rs, i)[1..] == OfField(S, rs[1..], i);
    }
  }

  predicate SamePerField(S: Schema, a: seq<Rec>, c: seq<Rec>)
    requires AllWellFormed(a) && AllWellFormed(c)
  {
    && (forall i | 0 <= i < |S.fields| :: OfField(S, a, i) == OfField(S, c, i))
    && Strangers(S, a) == Strangers(S, c)
  }

  /** Field order does not matter: two bodies with the same records per field and the same unknown
      records in the same order parse to the same result, success or failure, on top of any message. */
  lemma {:induction false} OrderInsensitive(S: Schema, m: Msg, b: seq<byte>, c: seq<byte>, depth: nat)
    requires ValidSchema(S) && Conforms(S, m)
    requires Items(b, depth).Some? && Items(c, depth).Some?
    requires SamePerField(S, Items(b, depth).value, Items(c, depth).value)
    ensures Parse(S, m, b, depth) == Parse(S, m, c, depth)
  {
    hide Run, Parse, ReadItem, Conforms, ValidSchema, ApplyVal, Readable, WellFormed;
    var rs, qs := Items(b, depth).value, Items(c, depth).value;
    ParseIsRun(S, m, b, depth);
    ParseIsRun(S, m, c, depth);
    ItemsReadable(b, depth);
    ItemsReadable(c, depth);
    RunPerField(S, m, rs, depth);
    RunPerField(S, m, qs, depth);
    if Run(S, m, rs, depth).Some? {
      SameMessage(S, Run(S, m, rs, depth).value, Run(S, m, qs, depth).value);
    }
  }

  lemma {:induction false} SameMessage(S: Schema, x: Msg, y: Msg)
    requires Conforms(S, x) && Conforms(S, y) && x.unknown == y.unknown
    requires forall i | 0 <= i < |S.fields| :: x.vals[i] == y.vals[i]
    ensures x == y
  {
    assert x.vals == y.vals;
  }

  lemma {:induction false} ItemsReadable(b: seq<byte>, depth: nat)
    requires Items(b, depth).Some?
    ensures AllReadable(Items(b, depth).value, depth)
    decreases |b|
  {
    hide ReadItem, Readable, WellFormed;
    if b != [] {
      ReadItemYields(b, depth);
      ItemsReadable(b[ReadItem(b, depth).n..], depth);
    }
  }

  // ------------------------------------------------------------------ exchanging two neighbours

  /** b is the wire form, canonical or not, of the single record r. */
  predicate IsOne(b: seq<byte>, r: Rec, depth: nat) {
    ReadItem(b, depth) == Item(r, |b|)
  }

  /** Two records that do not compete for a field or for a place among the unknown ones. */
  predicate Independent(S: Schema, r: Rec, q: Rec) {
    r.num != q.num && (Known(S, r) || Known(S, q))
  }

  lemma {:induction false} ParseConcat(S: Schema, m: Msg, a: seq<byte>, t: seq<byte>, depth: nat)
    requires ValidSchema(S) && Conforms(S, m) && Items(a, depth).Some?
    ensures Parse(S, m, a + t, depth)
         == match Parse(S, m, a, depth) case None => None case Some(x) => Parse(S, x, t, depth)
    decreases |a|
  {
    hide ReadItem, Apply, Conforms, ValidSchema;
    if a == [] {
      assert a + t == t;
    } else {
      var Item(r, n) := ReadItem(a, depth);
      ReadItemYields(a, depth);
      assert (a + t)[..n] == a[..n];
      ReadItemLocal(a, a + t, depth);
      assert (a + t)[n..] == a[n..] + t;
      if Apply(S, m, r, depth).Some? {
        ParseConcat(S, Apply(S, m, r, depth).value, a[n..], t, depth);
      }
    }
  }

  lemma {:induction false} ApplyTwoCommute(S: Schema, m: Msg, r: Rec, q: Rec, depth: nat)
    requires ValidSchema(S) && Conforms(S, m) && WellFormed(r) && WellFormed(q)
    requires Independent(S, r, q)
    ensures AllWellFormed([r, q]) && AllWellFormed([q, r])
    ensures SamePerField(S, [r, q], [q, r])
  {
    assert [r, q][1..] == [q] && [q, r][1..] == [r];
    AllOne(r, 0);
    AllOne(q, 0);
    forall i | 0 <= i < |S.fields| ensures OfField(S, [r, q], i) == OfField(S, [q, r], i) {
      assert [q][1..] == [] && [r][1..] == [];
      assert OfField(S, [r], i) == [] || OfField(S, [q], i) == [];
    }
    assert [q][1..] == [] && [r][1..] == [];
  }

  /** Exchanging two neighbouring independent records changes nothing. */
  lemma {:induction false} SwapNeighbours(S: Schema, m: Msg, e: seq<byte>, r: Rec, f: seq<byte>, q: Rec, t: seq<byte>,
                                          depth: nat)
    requires ValidSchema(S) && Conforms(S, m)
    requires IsOne(e, r, depth) && IsOne(f, q, depth) && Independent(S, r, q)
    ensures Parse(S, m, e + f + t, depth) == Parse(S, m, f + e + t, depth)
  {
    hide Parse, ReadItem, Conforms, ValidSchema, WellFormed, Known, OfField, Strangers;
    TwoItems(e, r, f, q, depth);
    TwoItems(f, q, e, r, depth);
    ReadItemYields(e, depth);
    ReadItemYields(f, depth);
    ApplyTwoCommute(S, m, r, q, depth);
    OrderInsensitive(S, m, e + f, f + e, depth);
    ParseConcat(S, m, e + f, t, depth);
    ParseConcat(S, m, f + e, t, depth);
  }

  lemma {:induction false} TwoItems(e: seq<byte>, r: Rec, f: seq<byte>, q: Rec, depth: nat)
    requires IsOne(e, r, depth) && IsOne(f, q, depth)
    ensures Items(e + f, depth) == Some([r, q])
  {
    hide ReadItem, WellFormed;
    assert (e + f)[..|e|] == e[..|e|];
    ReadItemLocal(e, e + f, depth);
    assert (e + f)[|e|..] == f;
    assert f[|f|..] == [];
    assert Items(f[|f|..], depth) == Some([]);
    assert Items(f, depth) == Some([q] + []);
    assert [q] + [] == [q] && [r] + [q] == [r, q];
  }
}
