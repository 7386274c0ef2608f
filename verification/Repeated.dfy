/** The repeated message fields of MatchInfo: lists of owned elements, the tight parse loop over adjacent
    elements, and the loops that size, write and merge them. */
module Repeated {
  import opened Options
  import opened Wire
  import opened Messages
  import opened Schemas
  import opened ParseLoop
  import opened Writer
  import opened Sizes
  import opened Fields
  import opened RoundTrip
  import opened StructLeaves
  import opened RosterEntry

  /** Elements that own disjoint parts of R. */
  ghost predicate InfosOwned(es: seq<MatchPlayerInfo>, R: set<object>)
    reads R
  {
    && (forall i | 0 <= i < |es| :: es[i] in R && es[i].Repr <= R && es[i].Valid())
    && (forall i, j | 0 <= i < j < |es| :: es[i].Repr !! es[j].Repr)
  }

  ghost function InfoModels(es: seq<MatchPlayerInfo>, R: set<object>): (ms: seq<Msg>)
    requires InfosOwned(es, R)
    reads R
    ensures |ms| == |es| && forall i | 0 <= i < |es| :: Conforms(MatchPlayerInfoSchema(), ms[i])
  {
    seq(|es|, i requires 0 <= i < |es| && InfosOwned(es, R) reads R => es[i].Model())
  }

  /** A length-delimited element: a new message, parsed from the announced bytes. */
  method ParseInfo(es: seq<MatchPlayerInfo>, ghost R: set<object>, ghost S: Schema, ghost m0: Msg, ghost m: Msg,
                   buf: seq<byte>, ghost p0: nat, ghost p: nat, q: nat, ghost limit: nat, depth: nat, ghost num: nat)
    returns (es': seq<MatchPlayerInfo>, ghost R': set<object>, end: Option<nat>)
    requires InfosOwned(es, R) && InLoop(S, m0, m, buf, p0, p, limit, depth) && p < limit
    requires 1 <= num <= |S.fields| && S.fields[num - 1].kind == KRepeated(MatchPlayerInfoSchema())
    requires |m.vals| == |S.fields| && m.vals[num - 1] == VRep(InfoModels(es, R))
    requires p <= q <= |buf| && ReadTag(buf[p..]) == Some((num * 8 + 2, q - p))
    ensures InfosOwned(es', R') && fresh(R' - R) && R <= R'
    ensures match end
      case None => Whole(S, m0, buf, p0, limit, depth).None?
      case Some(next) => (p < next
        && InLoop(S, m0, m.(vals := m.vals[num - 1 := VRep(InfoModels(es', R'))]), buf, p0, next, limit, depth)
        && PlainTurn(S, m, buf, p, depth)
          == Some((m.(vals := m.vals[num - 1 := VRep(InfoModels(es', R'))]), next)))
  {
    hide Conforms, ValidSchema, Whole, InLoop, ReadItem, ReadTag, PlainTurn, MatchPlayerInfoSchema;
    var e := new MatchPlayerInfo();
    es', R' := es + [e], R + e.Repr;
    var start, next := TakeLength(S, m0, m, buf, p0, p, q, limit, depth, num * 8 + 2);
    if start.None? { return es', R', None; }
    ElementTurn(S, m0, m, buf, p0, p, start.value, next, limit, depth, num, MatchPlayerInfoSchema());
    if depth == 0 { return es', R', None; }
    var ok := e.InternalParse(buf, start.value, next, depth - 1);
    R' := R + e.Repr;
    assert InfoModels(es', R') == InfoModels(es, R) + [e.Model()];
    return es', R', if ok.None? then None else Some(next);
  }

  lemma {:induction false} OneByteTag(buf: seq<byte>, p: nat)
    requires p < |buf| && buf[p] < 128
    ensures ReadTag(buf[p..]) == Some((buf[p] as nat, 1))
  {}

  /** The tight loop: elements are read for as long as the next byte is the same tag. */
  method ParseInfos(es: seq<MatchPlayerInfo>, ghost R: set<object>, ghost S: Schema, ghost m0: Msg, ghost m: Msg,
                    buf: seq<byte>, ghost p0: nat, ghost p: nat, q: nat, limit: nat, depth: nat, ghost num: nat,
                     tag: byte)
    returns (es': seq<MatchPlayerInfo>, ghost R': set<object>, end: Option<nat>, ghost turns: nat)
    requires InfosOwned(es, R) && InLoop(S, m0, m, buf, p0, p, limit, depth) && p < limit
    requires 1 <= num <= |S.fields| && S.fields[num - 1].kind == KRepeated(MatchPlayerInfoSchema())
    requires |m.vals| == |S.fields| && m.vals[num - 1] == VRep(InfoModels(es, R))
    requires tag == num * 8 + 2 && tag < 128
    requires p < q <= |buf| && ReadTag(buf[p..]) == Some((tag as nat, q - p))
    ensures InfosOwned(es', R') && fresh(R' - R) && R <= R'
    ensures match end
      case None => Whole(S, m0, buf, p0, limit, depth).None?
      case Some(next) => (p < next
        && InLoop(S, m0, m.(vals := m.vals[num - 1 := VRep(InfoModels(es', R'))]), buf, p0, next, limit, depth)
        && FirstStop(S, m, buf, p, limit, depth, tag, turns,
                     m.(vals := m.vals[num - 1 := VRep(InfoModels(es', R'))]), next))
  {
    hide Conforms, ValidSchema, Whole, ReadItem, ReadTag, MatchPlayerInfoSchema, InfosOwned, InfoModels, Parse,
         Consecutive, PlainTurn;
    es', R', turns := es, R, 0;
    var ptr := q - 1;
    ghost var s, x := p, m;
    while true
      invariant InfosOwned(es', R') && fresh(R' - R) && R <= R'
      invariant InLoop(S, m0, x, buf, p0, s, limit, depth) && p <= s < limit && s <= ptr < |buf|
      invariant x.unknown == m.unknown && |x.vals| == |m.vals|
      invariant x == m.(vals := m.vals[num - 1 := VRep(InfoModels(es', R'))])
      invariant ReadTag(buf[s..]) == Some((tag as nat, ptr + 1 - s))
      invariant PlainTurns(S, m, buf, p, depth, turns) == Some((x, s))
      invariant AgainUntil(S, m, buf, p, limit, depth, tag, turns + 1)
      decreases |buf| - s
    {
      ptr := ptr + 1;
      var next;
      ghost var y := x;
      es', R', next := ParseInfo(es', R', S, m0, x, buf, p0, s, ptr, limit, depth, num);
      if next.None? { return es', R', None, turns; }
      x := m.(vals := m.vals[num - 1 := VRep(InfoModels(es', R'))]);
      assert y.(vals := y.vals[num - 1 := VRep(InfoModels(es', R'))]) == x;
      ptr := next.value;
      turns := turns + 1;
      if ptr >= limit { break; }
      if buf[ptr] != tag { break; }
      s := ptr;
      OneByteTag(buf, ptr);
    }
    return es', R', Some(ptr), turns;
  }

  // ------------------------------------------------------------------ size, write, merge

  /** The cached sizes of the first n elements are right. */
  ghost predicate InfosSizedTo(es: seq<MatchPlayerInfo>, R: set<object>, n: nat)
    requires InfosOwned(es, R)
    reads R
  {
    forall i | 0 <= i < |es| && i < n :: es[i].Sized()
  }

  ghost predicate InfosSized(es: seq<MatchPlayerInfo>, R: set<object>)
    requires InfosOwned(es, R)
    reads R
  {
    InfosSizedTo(es, R, |es|)
  }

  /** One tag byte per element, and each element with its length prefix. */
  method InfosSize(es: seq<MatchPlayerInfo>, ghost R: set<object>) returns (total: nat)
    requires InfosOwned(es, R)
    modifies R
    ensures InfosOwned(es, R) && InfosSized(es, R) && InfoModels(es, R) == old(InfoModels(es, R))
    ensures total == ElementSizes(MatchPlayerInfoSchema(), InfoModels(es, R))
  {
    hide Serialize, Conforms, MatchPlayerInfoSchema, VarintSize, InfosOwned, InfoModels, LongSize;
    ghost var sub, ms := MatchPlayerInfoSchema(), InfoModels(es, R);
    total := |es|;
    var i := 0;
    assert ms[..0] == [];
    while i < |es|
      invariant 0 <= i <= |es| && InfosOwned(es, R) && InfoModels(es, R) == ms && InfosSizedTo(es, R, i)
      invariant total == |es| - i + ElementSizes(sub, ms[..i])
    {
      var size := InfoSize(es, R, i);
      total := total + VarintSize(size % TWO32) + size;
      assert ms[..i + 1][..i] == ms[..i];
      i := i + 1;
    }
    assert ms[..i] == ms;
  }

  /** MessageSize of one element. */
  method InfoSize(es: seq<MatchPlayerInfo>, ghost R: set<object>, i: nat) returns (size: nat)
    requires InfosOwned(es, R) && i < |es| && InfosSizedTo(es, R, i)
    modifies R
    ensures InfosOwned(es, R) && InfoModels(es, R) == old(InfoModels(es, R)) && InfosSizedTo(es, R, i + 1)
    ensures size == LongSize(MatchPlayerInfoSchema(), InfoModels(es, R)[i])
  {
    hide Serialize, Conforms, ValidSchema, MatchPlayerInfoSchema, MatchPlayerInfo.Player, LongSize;
    ghost var ms := InfoModels(es, R);
    assert es[i].Model() == ms[i];
    size := es[i].ByteSizeLong();
    forall j | 0 <= j < |es| ensures es[j].Model() == ms[j] {}
    assert InfoModels(es, R) == ms;
  }

  method WriteInfos(ghost S: Schema, ghost m: Msg, ghost a0: seq<byte>, a: array<byte>, ghost t0: nat, t: nat, num: nat,
                    es: seq<MatchPlayerInfo>, ghost R: set<object>) returns (t': nat)
    requires InfosOwned(es, R) && InfosSized(es, R) && a !in R
    requires forall i | 0 <= i < |es| :: |Serialize(MatchPlayerInfoSchema(), InfoModels(es, R)[i])| <= INT_MAX
    requires 1 <= num <= |S.fields| && Progress(S, m, num - 1, a0, a[..], t0, t)
    requires S.fields[num - 1] == Field(num, KRepeated(MatchPlayerInfoSchema()))
    requires m.vals[num - 1] == VRep(InfoModels(es, R))
    modifies a
    ensures Progress(S, m, num, a0, a[..], t0, t')
  {
    assert |m.vals| == |S.fields|;
    hide Serialize, Conforms, ValidSchema, MatchPlayerInfoSchema, Progress, ElementProgress, InfosOwned, InfosSized,
         InfoModels;
    ElementsStart(S, m, num, a0, a[..], t0, t);
    t' := t;
    var i := 0;
    while i < |es|
      invariant 0 <= i <= |es|
      invariant ElementProgress(S, m, num, i, a0, a[..], t0, t')
    {
      t' := WriteInfo(S, m, a0, a, t0, t', num, es, R, i);
      i := i + 1;
    }
    ElementsEnd(S, m, num, a0, a[..], t0, t');
  }

  /** InternalWriteMessage of one element: tag, cached size, body. */
  method WriteInfo(ghost S: Schema, ghost m: Msg, ghost a0: seq<byte>, a: array<byte>, ghost t0: nat, t: nat, num: nat,
                   es: seq<MatchPlayerInfo>, ghost R: set<object>, i: nat) returns (t': nat)
    requires InfosOwned(es, R) && InfosSized(es, R) && a !in R && i < |es|
    requires |Serialize(MatchPlayerInfoSchema(), InfoModels(es, R)[i])| <= INT_MAX
    requires 1 <= num <= |S.fields| == |m.vals| && ElementProgress(S, m, num, i, a0, a[..], t0, t)
    requires S.fields[num - 1] == Field(num, KRepeated(MatchPlayerInfoSchema()))
    requires m.vals[num - 1] == VRep(InfoModels(es, R))
    modifies a
    ensures ElementProgress(S, m, num, i + 1, a0, a[..], t0, t')
  {
    hide Serialize, Conforms, ValidSchema, MatchPlayerInfoSchema, ElementProgress, Wrote, EncodeTag, EncodeVarint,
         EncodeRec, LongSize, Signed32;
    ghost var sub, ms, e := MatchPlayerInfoSchema(), InfoModels(es, R), es[i];
    assert e.Valid() && e.Sized() && e.Model() == ms[i];
    hide InfosOwned, InfosSized, InfoModels;
    ghost var s := Serialize(sub, ms[i]);
    CachedLength(sub, ms[i], es[i].cachedSize);
    ghost var b, t1 := a[..], t;
    ElementFits(S, m, num, sub, ms, i, a0, b, t0, t1, s);
    t' := WriteLengthHeader(a, t, num, es[i].cachedSize % TWO32);
    ghost var c := a[..];
    t' := es[i].InternalSerialize(a, t');
    ElementWritten(S, m, num, sub, ms, i, a0, b, c, a[..], t0, t1, s);
  }

  method CopyInfo(x: MatchPlayerInfo) returns (e: MatchPlayerInfo)
    requires x.Valid()
    ensures e.Valid() && fresh(e.Repr) && e in e.Repr && e.Model() == x.Model()
  {
    hide Conforms, ValidSchema, MatchPlayerInfoSchema, Merge, MatchPlayerInfo.Player;
    e := new MatchPlayerInfo();
    e.MergeFrom(x);
    MergeIntoDefault(MatchPlayerInfoSchema(), x.Model());
  }

  /** RepeatedPtrField::MergeFrom: a merged copy of every element of the other list is appended. */
  method MergeInfos(es: seq<MatchPlayerInfo>, ghost R: set<object>, other: seq<MatchPlayerInfo>, ghost Q: set<object>)
    returns (es': seq<MatchPlayerInfo>, ghost R': set<object>)
    requires InfosOwned(es, R) && InfosOwned(other, Q)
    ensures InfosOwned(es', R') && fresh(R' - R) && R <= R'
    ensures InfoModels(es', R') == InfoModels(es, R) + InfoModels(other, Q)
  {
    hide Conforms, ValidSchema, MatchPlayerInfoSchema, MatchPlayerInfo.Model, MatchPlayerInfo.Owned;
    es', R' := es, R;
    ghost var ms := InfoModels(other, Q);
    var i := 0;
    while i < |other|
      invariant 0 <= i <= |other| && InfosOwned(es', R') && fresh(R' - R) && R <= R'
      invariant InfoModels(es', R') == InfoModels(es, R) + ms[..i]
    {
      var e := CopyInfo(other[i]);
      ghost var before := InfoModels(es', R');
      es', R' := es' + [e], R' + e.Repr;
      assert InfoModels(es', R') == before + [e.Model()];
      assert ms[..i + 1] == ms[..i] + [ms[i]];
      i := i + 1;
    }
  }

  // ------------------------------------------------------------------ the same for player states

  /** Distinct elements in R. */
  ghost predicate StatesOwned(es: seq<MatchPlayerState>, R: set<object>)
    reads R
  {
    && (forall i | 0 <= i < |es| :: es[i] in R && es[i].Valid())
    && (forall i, j | 0 <= i < j < |es| :: es[i] != es[j])
  }

  ghost function StateModels(es: seq<MatchPlayerState>, R: set<object>): (ms: seq<Msg>)
    requires StatesOwned(es, R)
    reads R
    ensures |ms| == |es| && forall i | 0 <= i < |es| :: Conforms(MatchPlayerStateSchema(), ms[i])
  {
    seq(|es|, i requires 0 <= i < |es| && StatesOwned(es, R) reads R => es[i].Model())
  }

  /** A length-delimited element: a new message, parsed from the announced bytes. */
  method ParseState(es: seq<MatchPlayerState>, ghost R: set<object>, ghost S: Schema, ghost m0: Msg, ghost m: Msg,
                   buf: seq<byte>, ghost p0: nat, ghost p: nat, q: nat, ghost limit: nat, depth: nat, ghost num: nat)
    returns (es': seq<MatchPlayerState>, ghost R': set<object>, end: Option<nat>)
    requires StatesOwned(es, R) && InLoop(S, m0, m, buf, p0, p, limit, depth) && p < limit
    requires 1 <= num <= |S.fields| && S.fields[num - 1].kind == KRepeated(MatchPlayerStateSchema())
    requires |m.vals| == |S.fields| && m.vals[num - 1] == VRep(StateModels(es, R))
    requires p <= q <= |buf| && ReadTag(buf[p..]) == Some((num * 8 + 2, q - p))
    ensures StatesOwned(es', R') && fresh(R' - R) && R <= R'
    ensures match end
      case None => Whole(S, m0, buf, p0, limit, depth).None?
      case Some(next) => (p < next
        && InLoop(S, m0, m.(vals := m.vals[num - 1 := VRep(StateModels(es', R'))]), buf, p0, next, limit, depth)
        && PlainTurn(S, m, buf, p, depth)
          == Some((m.(vals := m.vals[num - 1 := VRep(StateModels(es', R'))]), next)))
  {
    hide Conforms, ValidSchema, Whole, InLoop, ReadItem, ReadTag, PlainTurn, MatchPlayerStateSchema;
    var e := new MatchPlayerState();
    es', R' := es + [e], R + {e};
    var start, next := TakeLength(S, m0, m, buf, p0, p, q, limit, depth, num * 8 + 2);
    if start.None? { return es', R', None; }
    ElementTurn(S, m0, m, buf, p0, p, start.value, next, limit, depth, num, MatchPlayerStateSchema());
    if depth == 0 { return es', R', None; }
    var ok := e.InternalParse(buf, start.value, next, depth - 1);
    assert StateModels(es', R') == StateModels(es, R) + [e.Model()];
    return es', R', if ok.None? then None else Some(next);
  }

  /** The tight loop: elements are read for as long as the next byte is the same tag. */
  method ParseStates(es: seq<MatchPlayerState>, ghost R: set<object>, ghost S: Schema, ghost m0: Msg, ghost m: Msg,
                    buf: seq<byte>, ghost p0: nat, ghost p: nat, q: nat, limit: nat, depth: nat, ghost num: nat,
                     tag: byte)
    returns (es': seq<MatchPlayerState>, ghost R': set<object>, end: Option<nat>, ghost turns: nat)
    requires StatesOwned(es, R) && InLoop(S, m0, m, buf, p0, p, limit, depth) && p < limit
    requires 1 <= num <= |S.fields| && S.fields[num - 1].kind == KRepeated(MatchPlayerStateSchema())
    requires |m.vals| == |S.fields| && m.vals[num - 1] == VRep(StateModels(es, R))
    requires tag == num * 8 + 2 && tag < 128
    requires p < q <= |buf| && ReadTag(buf[p..]) == Some((tag as nat, q - p))
    ensures StatesOwned(es', R') && fresh(R' - R) && R <= R'
    ensures match end
      case None => Whole(S, m0, buf, p0, limit, depth).None?
      case Some(next) => (p < next
        && InLoop(S, m0, m.(vals := m.vals[num - 1 := VRep(StateModels(es', R'))]), buf, p0, next, limit, depth)
        && FirstStop(S, m, buf, p, limit, depth, tag, turns,
                     m.(vals := m.vals[num - 1 := VRep(StateModels(es', R'))]), next))
  {
    hide Conforms, ValidSchema, Whole, ReadItem, ReadTag, MatchPlayerStateSchema, StatesOwned, StateModels, Parse,
         Consecutive, PlainTurn;
    es', R', turns := es, R, 0;
    var ptr := q - 1;
    ghost var s, x := p, m;
    while true
      invariant StatesOwned(es', R') && fresh(R' - R) && R <= R'
      invariant InLoop(S, m0, x, buf, p0, s, limit, depth) && p <= s < limit && s <= ptr < |buf|
      invariant x.unknown == m.unknown && |x.vals| == |m.vals|
      invariant x == m.(vals := m.vals[num - 1 := VRep(StateModels(es', R'))])
      invariant ReadTag(buf[s..]) == Some((tag as nat, ptr + 1 - s))
      invariant PlainTurns(S, m, buf, p, depth, turns) == Some((x, s))
      invariant AgainUntil(S, m, buf, p, limit, depth, tag, turns + 1)
      decreases |buf| - s
    {
      ptr := ptr + 1;
      var next;
      ghost var y := x;
      es', R', next := ParseState(es', R', S, m0, x, buf, p0, s, ptr, limit, depth, num);
      if next.None? { return es', R', None, turns; }
      x := m.(vals := m.vals[num - 1 := VRep(StateModels(es', R'))]);
      assert y.(vals := y.vals[num - 1 := VRep(StateModels(es', R'))]) == x;
      ptr := next.value;
      turns := turns + 1;
      if ptr >= limit { break; }
      if buf[ptr] != tag { break; }
      s := ptr;
      OneByteTag(buf, ptr);
    }
    return es', R', Some(ptr), turns;
  }

  ghost predicate Sized(e: MatchPlayerState)
    requires e.Valid()
    reads e
  {
    e.cachedSize == Signed32(LongSize(MatchPlayerStateSchema(), e.Model()))
  }

  /** The cached sizes of the first n elements are right. */
  ghost predicate StatesSizedTo(es: seq<MatchPlayerState>, R: set<object>, n: nat)
    requires StatesOwned(es, R)
    reads R
  {
    forall i | 0 <= i < |es| && i < n :: Sized(es[i])
  }

  ghost predicate StatesSized(es: seq<MatchPlayerState>, R: set<object>)
    requires StatesOwned(es, R)
    reads R
  {
    StatesSizedTo(es, R, |es|)
  }

  /** One tag byte per element, and each element with its length prefix. */
  method StatesSize(es: seq<MatchPlayerState>, ghost R: set<object>) returns (total: nat)
    requires StatesOwned(es, R)
    modifies R
    ensures StatesOwned(es, R) && StatesSized(es, R) && StateModels(es, R) == old(StateModels(es, R))
    ensures total == ElementSizes(MatchPlayerStateSchema(), StateModels(es, R))
  {
    hide Serialize, Conforms, MatchPlayerStateSchema, VarintSize, StatesOwned, StateModels, LongSize;
    ghost var sub, ms := MatchPlayerStateSchema(), StateModels(es, R);
    total := |es|;
    var i := 0;
    assert ms[..0] == [];
    while i < |es|
      invariant 0 <= i <= |es| && StatesOwned(es, R) && StateModels(es, R) == ms && StatesSizedTo(es, R, i)
      invariant total == |es| - i + ElementSizes(sub, ms[..i])
    {
      var size := StateSize(es, R, i);
      total := total + VarintSize(size % TWO32) + size;
      assert ms[..i + 1][..i] == ms[..i];
      i := i + 1;
    }
    assert ms[..i] == ms;
  }

  /** MessageSize of one element. */
  method StateSize(es: seq<MatchPlayerState>, ghost R: set<object>, i: nat) returns (size: nat)
    requires StatesOwned(es, R) && i < |es| && StatesSizedTo(es, R, i)
    modifies R
    ensures StatesOwned(es, R) && StateModels(es, R) == old(StateModels(es, R)) && StatesSizedTo(es, R, i + 1)
    ensures size == LongSize(MatchPlayerStateSchema(), StateModels(es, R)[i])
  {
    hide Serialize, Conforms, ValidSchema, MatchPlayerStateSchema, LongSize;
    ghost var ms := StateModels(es, R);
    assert es[i].Model() == ms[i];
    size := es[i].ByteSizeLong();
    forall j | 0 <= j < |es| ensures es[j].Model() == ms[j] {}
    assert StateModels(es, R) == ms;
  }

  method WriteStates(ghost S: Schema, ghost m: Msg, ghost a0: seq<byte>, a: array<byte>, ghost t0: nat, t: nat,
                     num: nat, es: seq<MatchPlayerState>, ghost R: set<object>) returns (t': nat)
    requires StatesOwned(es, R) && StatesSized(es, R) && a !in R
    requires forall i | 0 <= i < |es| :: |Serialize(MatchPlayerStateSchema(), StateModels(es, R)[i])| <= INT_MAX
    requires 1 <= num <= |S.fields| && Progress(S, m, num - 1, a0, a[..], t0, t)
    requires S.fields[num - 1] == Field(num, KRepeated(MatchPlayerStateSchema()))
    requires m.vals[num - 1] == VRep(StateModels(es, R))
    modifies a
    ensures Progress(S, m, num, a0, a[..], t0, t')
  {
    assert |m.vals| == |S.fields|;
    hide Serialize, Conforms, ValidSchema, MatchPlayerStateSchema, Progress, ElementProgress, StatesOwned, StatesSized,
         StateModels;
    ElementsStart(S, m, num, a0, a[..], t0, t);
    t' := t;
    var i := 0;
    while i < |es|
      invariant 0 <= i <= |es|
      invariant ElementProgress(S, m, num, i, a0, a[..], t0, t')
    {
      t' := WriteState(S, m, a0, a, t0, t', num, es, R, i);
      i := i + 1;
    }
    ElementsEnd(S, m, num, a0, a[..], t0, t');
  }

  /** InternalWriteMessage of one element: tag, cached size, body. */
  method WriteState(ghost S: Schema, ghost m: Msg, ghost a0: seq<byte>, a: array<byte>, ghost t0: nat, t: nat, num: nat,
                   es: seq<MatchPlayerState>, ghost R: set<object>, i: nat) returns (t': nat)
    requires StatesOwned(es, R) && StatesSized(es, R) && a !in R && i < |es|
    requires |Serialize(MatchPlayerStateSchema(), StateModels(es, R)[i])| <= INT_MAX
    requires 1 <= num <= |S.fields| == |m.vals| && ElementProgress(S, m, num, i, a0, a[..], t0, t)
    requires S.fields[num - 1] == Field(num, KRepeated(MatchPlayerStateSchema()))
    requires m.vals[num - 1] == VRep(StateModels(es, R))
    modifies a
    ensures ElementProgress(S, m, num, i + 1, a0, a[..], t0, t')
  {
    hide Serialize, Conforms, ValidSchema, MatchPlayerStateSchema, ElementProgress, Wrote, EncodeTag, EncodeVarint,
         EncodeRec, LongSize, Signed32;
    ghost var sub, ms, e := MatchPlayerStateSchema(), StateModels(es, R), es[i];
    assert e.Valid() && Sized(e) && e.Model() == ms[i];
    hide StatesOwned, StatesSized, StateModels;
    ghost var s := Serialize(sub, ms[i]);
    CachedLength(sub, ms[i], es[i].cachedSize);
    ghost var b, t1 := a[..], t;
    ElementFits(S, m, num, sub, ms, i, a0, b, t0, t1, s);
    t' := WriteLengthHeader(a, t, num, es[i].cachedSize % TWO32);
    ghost var c := a[..];
    t' := es[i].InternalSerialize(a, t');
    ElementWritten(S, m, num, sub, ms, i, a0, b, c, a[..], t0, t1, s);
  }

  method CopyState(x: MatchPlayerState) returns (e: MatchPlayerState)
    requires x.Valid()
    ensures e.Valid() && fresh(e) && e.Model() == x.Model()
  {
    hide Conforms, ValidSchema, MatchPlayerStateSchema, Merge;
    e := new MatchPlayerState();
    e.MergeFrom(x);
    MergeIntoDefault(MatchPlayerStateSchema(), x.Model());
  }

  /** RepeatedPtrField::MergeFrom: a merged copy of every element of the other list is appended. */
  method MergeStates(es: seq<MatchPlayerState>, ghost R: set<object>, other: seq<MatchPlayerState>,
                     ghost Q: set<object>)
    returns (es': seq<MatchPlayerState>, ghost R': set<object>)
    requires StatesOwned(es, R) && StatesOwned(other, Q)
    ensures StatesOwned(es', R') && fresh(R' - R) && R <= R'
    ensures StateModels(es', R') == StateModels(es, R) + StateModels(other, Q)
  {
    hide Conforms, ValidSchema, MatchPlayerStateSchema, MatchPlayerState.Model;
    es', R' := es, R;
    ghost var ms := StateModels(other, Q);
    var i := 0;
    while i < |other|
      invariant 0 <= i <= |other| && StatesOwned(es', R') && fresh(R' - R) && R <= R'
      invariant StateModels(es', R') == StateModels(es, R) + ms[..i]
    {
      var e := CopyState(other[i]);
      ghost var before := StateModels(es', R');
      es', R' := es' + [e], R' + {e};
      assert StateModels(es', R') == before + [e.Model()];
      assert ms[..i + 1] == ms[..i] + [ms[i]];
      i := i + 1;
    }
  }
}
