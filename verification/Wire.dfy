/** Bytes and the record layer of the Protocol Buffers wire format: base-128 varints,
    little-endian words, tags, length prefixes, groups, and the canonical encoding of a record. */
module Wire {
  import opened Options

  type byte = b: int | 0 <= b < 256

  const TWO32: int := 0x1_0000_0000
  const TWO64: int := 0x1_0000_0000_0000_0000

  type uint32 = i: int | 0 <= i < TWO32
  type uint64 = i: int | 0 <= i < TWO64
  type int32 = i: int | -0x8000_0000 <= i < 0x8000_0000

  const INT_MAX: int := 0x7fff_ffff
  /** Largest length prefix the parser accepts: INT_MAX minus the 16 slop bytes. */
  const MAX_LENGTH: int := INT_MAX - 16
  /** Field numbers occupy the upper 29 bits of a 32-bit tag. */
  const MAX_NUMBER: int := 0x1fff_ffff

  // ------------------------------------------------------------------ varints

  function EncodeVarint(v: nat): (b: seq<byte>)
    ensures |b| >= 1
    decreases v
  {
    if v < 128 then [v] else [128 + v % 128] + EncodeVarint(v / 128)
  }

  /** The varint at the front of b, at most max bytes long: its unreduced value and its length. */
  function RawVarint(b: seq<byte>, max: nat): (r: Option<(nat, nat)>)
    ensures r.Some? ==> 1 <= r.value.1 <= |b| && r.value.1 <= max
    decreases max
  {
    if max == 0 || b == [] then None
    else if b[0] < 128 then Some((b[0], 1))
    else match RawVarint(b[1..], max - 1)
      case None => None
      case Some((v, n)) => Some((b[0] - 128 + 128 * v, n + 1))
  }

  function ReadVarint64(b: seq<byte>): (r: Option<(nat, nat)>)
    ensures r.Some? ==> r.value.0 < TWO64 && 1 <= r.value.1 <= |b|
  {
    match RawVarint(b, 10)
    case None => None
    case Some((v, n)) => Some((v % TWO64, n))
  }

  function ReadTag(b: seq<byte>): (r: Option<(nat, nat)>)
    ensures r.Some? ==> r.value.0 < TWO32 && 1 <= r.value.1 <= |b|
  {
    match RawVarint(b, 5)
    case None => None
    case Some((v, n)) => Some((v % TWO32, n))
  }

  function ReadSize(b: seq<byte>): (r: Option<(nat, nat)>)
    ensures r.Some? ==> r.value.0 <= MAX_LENGTH && 1 <= r.value.1 <= |b|
  {
    match RawVarint(b, 5)
    case None => None
    case Some((v, n)) => if v <= MAX_LENGTH then Some((v, n)) else None
  }

  function Pow128(k: nat): (p: nat)
    ensures p >= 1
  {
    if k == 0 then 1 else 128 * Pow128(k - 1)
  }

  lemma {:induction false} VarintLength(v: nat, k: nat)
    requires k >= 1
    ensures |EncodeVarint(v)| <= k <==> v < Pow128(k)
    decreases k
  {
    if k == 1 {
      assert Pow128(1) == 128 * Pow128(0);
    } else {
      Pow128AtLeast(k);
      if v >= 128 {
        VarintLength(v / 128, k - 1);
      }
    }
  }

  lemma {:induction false} Pow128AtLeast(k: nat)
    requires k >= 1
    ensures Pow128(k) >= 128
  {
    if k > 1 { Pow128AtLeast(k - 1); }
  }

  lemma {:induction false} Pow128Values()
    ensures Pow128(5) == 0x8_0000_0000
    ensures Pow128(10) == 0x40_0000_0000_0000_0000
  {
    assert Pow128(1) == 128;
    assert Pow128(2) == 128 * 128;
    assert Pow128(3) == 0x20_0000;
    assert Pow128(4) == 0x1000_0000;
    assert Pow128(5) == 0x8_0000_0000;
    assert Pow128(6) == 0x400_0000_0000;
    assert Pow128(7) == 0x2_0000_0000_0000;
    assert Pow128(8) == 0x100_0000_0000_0000;
    assert Pow128(9) == 0x8000_0000_0000_0000;
  }

  /** Byte i of a canonical varint: seven bits of the number, lowest first, and a mark unless it is the last byte. */
  lemma {:induction false} VarintBytes(v: nat, i: nat)
    requires i < |EncodeVarint(v)|
    ensures EncodeVarint(v)[i] == v / Pow128(i) % 128 + if i == |EncodeVarint(v)| - 1 then 0 else 128
    decreases i
  {
    if i > 0 {
      VarintBytes(v / 128, i - 1);
      Divided(v, 128, Pow128(i - 1));
    }
  }

  lemma {:induction false} Divided(v: nat, a: nat, b: nat)
    requires a > 0 && b > 0
    ensures a * b > 0 && v / a / b == v / (a * b)
  {
    var q, r, s := v / a / b, v / a % b, v % a;
    Remainder(v / a, b);
    Remainder(v, a);
    Monotone(a, r + 1, b);
    Distributed(a, b * q, r);
    Distributed(a, r, 1);
    Regrouped(a, b, q);
    Quotient(v, a * b, q, a * r + s);
  }

  lemma {:induction false} Remainder(v: nat, d: nat)
    requires d > 0
    ensures v == d * (v / d) + v % d && v % d < d
  {}

  lemma {:induction false} Monotone(d: nat, x: nat, y: nat)
    requires x <= y
    ensures d * x <= d * y
  {}

  lemma {:induction false} Distributed(d: nat, x: nat, y: nat)
    ensures d * (x + y) == d * x + d * y
  {}

  lemma {:induction false} Regrouped(a: nat, b: nat, q: nat)
    ensures a * (b * q) == (a * b) * q
  {}

  lemma {:induction false} Quotient(v: nat, d: nat, q: nat, r: nat)
    requires d > 0 && r < d && v == d * q + r
    ensures v / d == q
  {
    var p := v / d;
    Remainder(v, d);
    if p < q {
      Monotone(d, p + 1, q);
      Distributed(d, p, 1);
    } else if q < p {
      Monotone(d, q + 1, p);
      Distributed(d, q, 1);
    }
  }

  /** Decoding a canonical varint gives the number back, wherever it stands, if its length is allowed. */
  lemma {:induction false} RawVarintOfEncoded(v: nat, t: seq<byte>, max: nat)
    ensures RawVarint(EncodeVarint(v) + t, max)
         == if |EncodeVarint(v)| <= max then Some((v, |EncodeVarint(v)|)) else None
    decreases max
  {
    var e := EncodeVarint(v);
    if max > 0 && v >= 128 {
      assert (e + t)[1..] == EncodeVarint(v / 128) + t;
      RawVarintOfEncoded(v / 128, t, max - 1);
    }
  }

  /** A decoded varint depends on the bytes it spans and on nothing after them. */
  lemma {:induction false} RawVarintLocal(b: seq<byte>, c: seq<byte>, max: nat)
    requires RawVarint(b, max).Some?
    requires RawVarint(b, max).value.1 <= |c|
    requires c[..RawVarint(b, max).value.1] == b[..RawVarint(b, max).value.1]
    ensures RawVarint(c, max) == RawVarint(b, max)
    decreases max
  {
    var n := RawVarint(b, max).value.1;
    assert c[0] == c[..n][0] == b[..n][0] == b[0];
    if b[0] >= 128 {
      assert c[1..][..n - 1] == c[..n][1..] == b[..n][1..] == b[1..][..n - 1];
      RawVarintLocal(b[1..], c[1..], max - 1);
    }
  }

  // ------------------------------------------------------------------ words

  function Bytes(v: nat, k: nat): (b: seq<byte>)
    ensures |b| == k
    decreases k
  {
    if k == 0 then [] else [v % 256] + Bytes(v / 256, k - 1)
  }

  function Word(b: seq<byte>): nat {
    if b == [] then 0 else b[0] + 256 * Word(b[1..])
  }

  function Pow256(k: nat): (p: nat)
    ensures p >= 1
  {
    if k == 0 then 1 else 256 * Pow256(k - 1)
  }

  lemma {:induction false} WordOfBytes(v: nat, k: nat)
    requires v < Pow256(k)
    ensures Word(Bytes(v, k)) == v
    decreases k
  {
    if k > 0 {
      assert v / 256 < Pow256(k - 1);
      WordOfBytes(v / 256, k - 1);
      assert Bytes(v, k)[1..] == Bytes(v / 256, k - 1);
    }
  }

  /** Words are little-endian: byte i is digit i to the base 256. */
  lemma {:induction false} BytesAt(v: nat, k: nat, i: nat)
    requires i < k
    ensures Bytes(v, k)[i] == v / Pow256(i) % 256
    decreases i
  {
    if i > 0 {
      BytesAt(v / 256, k - 1, i - 1);
      Divided(v, 256, Pow256(i - 1));
    }
  }

  lemma {:induction false} WordAt(b: seq<byte>, i: nat)
    requires i < |b|
    ensures Word(b) / Pow256(i) % 256 == b[i]
    decreases i
  {
    if i > 0 {
      WordAt(b[1..], i - 1);
      Divided(Word(b), 256, Pow256(i - 1));
    }
  }

  lemma {:induction false} WordOfFour(b: seq<byte>)
    requires |b| == 4
    ensures Word(b) == b[0] as int + 256 * (b[1] as int) + 0x1_0000 * (b[2] as int) + 0x100_0000 * (b[3] as int)
  {
    assert Word(b[1..]) == b[1] as int + 256 * Word(b[1..][1..]);
    assert Word(b[1..][1..]) == b[2] as int + 256 * Word(b[1..][1..][1..]);
    assert Word(b[1..][1..][1..]) == b[3];
  }

  lemma {:induction false} WordBound(b: seq<byte>)
    ensures Word(b) < Pow256(|b|)
  {
    if b != [] { WordBound(b[1..]); }
  }

  lemma {:induction false} Pow256Values()
    ensures Pow256(4) == TWO32 && Pow256(8) == TWO64
  {
    assert Pow256(1) == 256;
    assert Pow256(2) == 0x1_0000;
    assert Pow256(3) == 0x100_0000;
    assert Pow256(4) == TWO32;
    assert Pow256(5) == 0x100_0000_0000;
    assert Pow256(6) == 0x1_0000_0000_0000;
    assert Pow256(7) == 0x100_0000_0000_0000;
  }

  // ------------------------------------------------------------------ records

  /** One field on the wire: its number and its payload, by wire type 0, 1, 2, 3/4 and 5. */
  datatype Rec =
    | VarintRec(num: nat, v: nat)
    | Fixed64Rec(num: nat, v: nat)
    | LenRec(num: nat, bytes: seq<byte>)
    | GroupRec(num: nat, recs: seq<Rec>)
    | Fixed32Rec(num: nat, v: nat)

  /** What stands at the front of a byte string: nothing readable, a record, or an end-group tag. */
  datatype Item = Bad | Item(rec: Rec, n: nat) | End(num: nat, n: nat)

  function ReadItem(b: seq<byte>, depth: nat): (r: Item)
    ensures r.Item? ==> 1 <= r.n <= |b|
    ensures r.End? ==> 1 <= r.n <= |b|
    decreases |b|, 1
  {
    match ReadTag(b)
    case None => Bad
    case Some((tag, n)) =>
      var num := tag / 8;
      if tag == 0 then Bad
      else if tag % 8 == 4 then End(num, n)
      else if num == 0 then Bad
      else match ReadPayload(b[n..], num, tag % 8, depth)
        case None => Bad
        case Some((rec, k)) => Item(rec, n + k)
  }

  /** The record whose tag, with this number and wire type, has just been read. */
  function ReadPayload(b: seq<byte>, num: nat, wire: nat, depth: nat): (r: Option<(Rec, nat)>)
    ensures r.Some? ==> r.value.1 <= |b|
    decreases |b|, 3
  {
    match wire
    case 0 =>
      (match ReadVarint64(b)
       case None => None
       case Some((v, k)) => Some((VarintRec(num, v), k)))
    case 1 => if 8 <= |b| then Some((Fixed64Rec(num, Word(b[..8])), 8)) else None
    case 2 =>
      (match ReadString(b)
       case None => None
       case Some((s, k)) => Some((LenRec(num, s), k)))
    case 3 =>
      if depth == 0 then None
      else (match ReadGroup(b, num, depth - 1)
            case None => None
            case Some((rs, k)) => Some((GroupRec(num, rs), k)))
    case 5 => if 4 <= |b| then Some((Fixed32Rec(num, Word(b[..4])), 4)) else None
    case _ => None
  }

  /** A length prefix and the bytes it announces. */
  function ReadString(b: seq<byte>): (r: Option<(seq<byte>, nat)>)
    ensures r.Some? ==> 1 <= r.value.1 <= |b| && |r.value.0| <= MAX_LENGTH
  {
    match ReadSize(b)
    case None => None
    case Some((len, k)) => if k + len <= |b| then Some((b[k..k + len], k + len)) else None
  }

  /** The records of a group up to its matching end tag, which is consumed too. */
  function ReadGroup(b: seq<byte>, num: nat, depth: nat): (r: Option<(seq<Rec>, nat)>)
    ensures r.Some? ==> 1 <= r.value.1 <= |b|
    decreases |b|, 2
  {
    match ReadItem(b, depth)
    case Bad => None
    case End(m, n) => if m == num then Some(([], n)) else None
    case Item(rec, n) =>
      match ReadGroup(b[n..], num, depth)
      case None => None
      case Some((rs, k)) => Some(([rec] + rs, n + k))
  }

  function EncodeTag(num: nat, wire: nat): (b: seq<byte>)
    ensures |b| >= 1
  {
    EncodeVarint(num * 8 + wire)
  }

  function EncodeRec(r: Rec): (b: seq<byte>)
    ensures |b| >= 1
    decreases r, 0
  {
    match r
    case VarintRec(num, v) => EncodeTag(num, 0) + EncodeVarint(v)
    case Fixed64Rec(num, v) => EncodeTag(num, 1) + Bytes(v, 8)
    case LenRec(num, s) => EncodeTag(num, 2) + EncodeVarint(|s|) + s
    case GroupRec(num, rs) => EncodeTag(num, 3) + EncodeRecs(rs) + EncodeTag(num, 4)
    case Fixed32Rec(num, v) => EncodeTag(num, 5) + Bytes(v, 4)
  }

  function EncodeRecs(rs: seq<Rec>): seq<byte>
    decreases rs, 1
  {
    if rs == [] then [] else EncodeRec(rs[0]) + EncodeRecs(rs[1..])
  }

  lemma {:induction false} Associate(a: seq<byte>, b: seq<byte>, c: seq<byte>)
    ensures (a + b) + c == a + (b + c)
  {}

  lemma {:induction false} OneRec(r: Rec)
    ensures |EncodeRecs([r])| == |EncodeRec(r)| && EncodeRecs([r]) == EncodeRec(r)
  {
    assert [r][1..] == [];
  }

  lemma {:induction false} EncodeRecsCons(rs: seq<Rec>, t: seq<byte>)
    requires rs != []
    ensures EncodeRecs(rs) + t == EncodeRec(rs[0]) + (EncodeRecs(rs[1..]) + t)
    ensures |EncodeRecs(rs)| == |EncodeRec(rs[0])| + |EncodeRecs(rs[1..])|
  {
    Associate(EncodeRec(rs[0]), EncodeRecs(rs[1..]), t);
  }

  lemma {:induction false} EncodeRecsAppend(a: seq<Rec>, c: seq<Rec>)
    ensures EncodeRecs(a + c) == EncodeRecs(a) + EncodeRecs(c)
  {
    if a == [] {
      assert a + c == c;
    } else {
      assert (a + c)[0] == a[0] && (a + c)[1..] == a[1..] + c;
      EncodeRecsAppend(a[1..], c);
    }
  }

  /** Ranges every record object respects in memory. */
  predicate WellFormed(r: Rec)
    decreases r, 0
  {
    && 1 <= r.num <= MAX_NUMBER
    && match r
       case VarintRec(_, v) => v < TWO64
       case Fixed64Rec(_, v) => v < TWO64
       case LenRec(_, s) => true
       case GroupRec(_, rs) => AllWellFormed(rs)
       case Fixed32Rec(_, v) => v < TWO32
  }

  predicate AllWellFormed(rs: seq<Rec>)
    decreases rs, 1
  {
    rs == [] || (WellFormed(rs[0]) && AllWellFormed(rs[1..]))
  }

  /** What the parser additionally demands of a record: short enough strings, shallow enough groups. */
  predicate Readable(r: Rec, depth: nat)
    decreases r, 0
  {
    match r
    case LenRec(_, s) => |s| <= MAX_LENGTH
    case GroupRec(_, rs) => depth > 0 && AllReadable(rs, depth - 1)
    case _ => true
  }

  predicate AllReadable(rs: seq<Rec>, depth: nat)
    decreases rs, 1
  {
    rs == [] || (Readable(rs[0], depth) && AllReadable(rs[1..], depth))
  }

  lemma {:induction false} AllOne(r: Rec, depth: nat)
    ensures AllWellFormed([r]) <==> WellFormed(r)
    ensures AllReadable([r], depth) <==> Readable(r, depth)
  {
    assert [r][1..] == [];
  }

  lemma {:induction false} AllAppend(a: seq<Rec>, c: seq<Rec>, depth: nat)
    ensures AllWellFormed(a + c) <==> AllWellFormed(a) && AllWellFormed(c)
    ensures AllReadable(a + c, depth) <==> AllReadable(a, depth) && AllReadable(c, depth)
  {
    if a == [] {
      assert a + c == c;
    } else {
      assert (a + c)[0] == a[0] && (a + c)[1..] == a[1..] + c;
      AllAppend(a[1..], c, depth);
    }
  }

  lemma {:induction false} ReadTagOfEncoded(num: nat, wire: nat, t: seq<byte>)
    requires 0 <= num <= MAX_NUMBER && wire < 8
    ensures ReadTag(EncodeTag(num, wire) + t) == Some((num * 8 + wire, |EncodeTag(num, wire)|))
  {
    Pow128Values();
    VarintLength(num * 8 + wire, 5);
    RawVarintOfEncoded(num * 8 + wire, t, 5);
  }

  lemma {:induction false} ReadVarint64OfEncoded(v: nat, t: seq<byte>)
    requires v < TWO64
    ensures ReadVarint64(EncodeVarint(v) + t) == Some((v, |EncodeVarint(v)|))
  {
    Pow128Values();
    VarintLength(v, 10);
    RawVarintOfEncoded(v, t, 10);
  }

  lemma {:induction false} ReadSizeOfEncoded(v: nat, t: seq<byte>)
    ensures ReadSize(EncodeVarint(v) + t)
         == if v <= MAX_LENGTH then Some((v, |EncodeVarint(v)|)) else None
  {
    Pow128Values();
    VarintLength(v, 5);
    RawVarintOfEncoded(v, t, 5);
  }

  lemma {:induction false} ReadItemAfterTag(num: nat, wire: nat, p: seq<byte>, depth: nat)
    requires 1 <= num <= MAX_NUMBER && wire < 8 && wire != 4
    ensures ReadItem(EncodeTag(num, wire) + p, depth)
         == match ReadPayload(p, num, wire, depth)
            case None => Bad
            case Some((rec, k)) => Item(rec, |EncodeTag(num, wire)| + k)
  {
    ReadTagOfEncoded(num, wire, p);
    assert (EncodeTag(num, wire) + p)[|EncodeTag(num, wire)|..] == p;
  }

  lemma {:induction false} ReadFixed(v: nat, t: seq<byte>)
    ensures v < TWO64 ==> Word((Bytes(v, 8) + t)[..8]) == v
    ensures v < TWO32 ==> Word((Bytes(v, 4) + t)[..4]) == v
  {
    Pow256Values();
    assert (Bytes(v, 8) + t)[..8] == Bytes(v, 8);
    assert (Bytes(v, 4) + t)[..4] == Bytes(v, 4);
    if v < TWO64 { WordOfBytes(v, 8); }
    if v < TWO32 { WordOfBytes(v, 4); }
  }

  lemma {:induction false} ReadStringOfEncoded(s: seq<byte>, t: seq<byte>)
    ensures ReadString(EncodeVarint(|s|) + (s + t))
         == if |s| <= MAX_LENGTH then Some((s, |EncodeVarint(|s|)| + |s|)) else None
  {
    hide ReadSize, EncodeVarint;
    var k := |EncodeVarint(|s|)|;
    ReadSizeOfEncoded(|s|, s + t);
    assert (EncodeVarint(|s|) + (s + t))[k..k + |s|] == s;
  }

  /** Reading back one encoded record: the record itself when it is readable, a failure otherwise. */
  lemma {:induction false} ReadItemOfEncoded(r: Rec, t: seq<byte>, depth: nat)
    requires WellFormed(r)
    ensures ReadItem(EncodeRec(r) + t, depth)
         == if Readable(r, depth) then Item(r, |EncodeRec(r)|) else Bad
    decreases r, 0
  {
    hide ReadItem, RawVarint, EncodeVarint, Bytes, Word, EncodeRecs, ReadGroup, ReadVarint64, ReadString, ReadTag;
    var b := EncodeRec(r) + t;
    match r {
      case VarintRec(num, v) =>
        assert b == EncodeTag(num, 0) + (EncodeVarint(v) + t);
        ReadItemAfterTag(num, 0, EncodeVarint(v) + t, depth);
        ReadVarint64OfEncoded(v, t);
      case Fixed64Rec(num, v) =>
        assert b == EncodeTag(num, 1) + (Bytes(v, 8) + t);
        ReadItemAfterTag(num, 1, Bytes(v, 8) + t, depth);
        ReadFixed(v, t);
      case Fixed32Rec(num, v) =>
        assert b == EncodeTag(num, 5) + (Bytes(v, 4) + t);
        ReadItemAfterTag(num, 5, Bytes(v, 4) + t, depth);
        ReadFixed(v, t);
      case LenRec(num, s) =>
        assert b == EncodeTag(num, 2) + (EncodeVarint(|s|) + (s + t));
        ReadItemAfterTag(num, 2, EncodeVarint(|s|) + (s + t), depth);
        ReadStringOfEncoded(s, t);
      case GroupRec(num, rs) =>
        ReadGroupRecOfEncoded(num, rs, t, depth);
        assert Readable(r, depth) <==> depth > 0 && AllReadable(rs, depth - 1);
    }
  }

  lemma {:induction false} ReadGroupRecOfEncoded(num: nat, rs: seq<Rec>, t: seq<byte>, depth: nat)
    requires 1 <= num <= MAX_NUMBER && AllWellFormed(rs)
    ensures ReadItem(EncodeRec(GroupRec(num, rs)) + t, depth)
         == if depth > 0 && AllReadable(rs, depth - 1)
            then Item(GroupRec(num, rs), |EncodeRec(GroupRec(num, rs))|) else Bad
    decreases rs, 2
  {
    hide ReadItem, ReadGroup, EncodeRecs, AllReadable, AllWellFormed, EncodeTag;
    var h := EncodeTag(num, 3);
    var e := EncodeRecs(rs);
    var p := e + (EncodeTag(num, 4) + t);
    assert EncodeRec(GroupRec(num, rs)) == h + e + EncodeTag(num, 4);
    assert EncodeRec(GroupRec(num, rs)) + t == h + p;
    ReadItemAfterTag(num, 3, p, depth);
    if depth > 0 {
      ReadGroupOfEncoded(rs, num, t, depth - 1);
    }
  }

  lemma {:induction false} ReadGroupOfEncoded(rs: seq<Rec>, num: nat, t: seq<byte>, depth: nat)
    requires AllWellFormed(rs) && 1 <= num <= MAX_NUMBER
    ensures ReadGroup(EncodeRecs(rs) + (EncodeTag(num, 4) + t), num, depth)
         == if AllReadable(rs, depth) then Some((rs, |EncodeRecs(rs)| + |EncodeTag(num, 4)|)) else None
    decreases rs, 1
  {
    hide ReadGroup, ReadItem, EncodeRec, Readable, WellFormed, EncodeTag;
    var tail := EncodeTag(num, 4) + t;
    if rs == [] {
      assert EncodeRecs(rs) + tail == tail;
      ReadGroupEnd(num, t, depth);
    } else {
      var r, rest := rs[0], rs[1..];
      var c := EncodeRecs(rest) + tail;
      EncodeRecsCons(rs, tail);
      ReadItemOfEncoded(r, c, depth);
      ReadGroupOfEncoded(rest, num, t, depth);
      ReadGroupStep(r, c, num, depth,
        if AllReadable(rest, depth) then Some((rest, |EncodeRecs(rest)| + |EncodeTag(num, 4)|)) else None);
      assert [r] + rest == rs;
    }
  }

  lemma {:induction false} ReadGroupEnd(num: nat, t: seq<byte>, depth: nat)
    requires 1 <= num <= MAX_NUMBER
    ensures ReadGroup(EncodeTag(num, 4) + t, num, depth) == Some(([], |EncodeTag(num, 4)|))
  {
    ReadTagOfEncoded(num, 4, t);
  }

  lemma {:induction false} ReadGroupStep(r: Rec, c: seq<byte>, num: nat, depth: nat, g: Option<(seq<Rec>, nat)>)
    requires ReadItem(EncodeRec(r) + c, depth) == if Readable(r, depth) then Item(r, |EncodeRec(r)|) else Bad
    requires ReadGroup(c, num, depth) == g
    ensures ReadGroup(EncodeRec(r) + c, num, depth)
         == if Readable(r, depth) && g.Some? then Some(([r] + g.value.0, |EncodeRec(r)| + g.value.1)) else None
  {
    hide ReadItem, EncodeRec, Readable;
    assert (EncodeRec(r) + c)[|EncodeRec(r)|..] == c;
  }

  /** Every record the reader delivers is in range and readable again at the same depth. */
  lemma {:induction false} ReadItemYields(b: seq<byte>, depth: nat)
    requires ReadItem(b, depth).Item?
    ensures WellFormed(ReadItem(b, depth).rec) && Readable(ReadItem(b, depth).rec, depth)
    decreases |b|, 0
  {
    Pow256Values();
    var (tag, n) := ReadTag(b).value;
    var num := tag / 8;
    match tag % 8 {
      case 1 => WordBound(b[n..][..8]);
      case 5 => WordBound(b[n..][..4]);
      case 3 => ReadGroupYields(b[n..], num, depth - 1);
      case _ =>
    }
  }

  lemma {:induction false} ReadGroupYields(b: seq<byte>, num: nat, depth: nat)
    requires ReadGroup(b, num, depth).Some?
    ensures AllWellFormed(ReadGroup(b, num, depth).value.0)
    ensures AllReadable(ReadGroup(b, num, depth).value.0, depth)
    decreases |b|, 1
  {
    match ReadItem(b, depth) {
      case End(_, _) =>
      case Item(rec, n) =>
        ReadItemYields(b, depth);
        ReadGroupYields(b[n..], num, depth);
    }
  }

  /** A record is determined by the bytes it spans: bytes beyond it are never looked at. */
  lemma {:induction false} ReadItemLocal(b: seq<byte>, c: seq<byte>, depth: nat)
    requires !ReadItem(b, depth).Bad?
    requires ReadItem(b, depth).n <= |c|
    requires c[..ReadItem(b, depth).n] == b[..ReadItem(b, depth).n]
    ensures ReadItem(c, depth) == ReadItem(b, depth)
    decreases |b|, 1
  {
    hide RawVarint, ReadPayload;
    var m := ReadItem(b, depth).n;
    var (tag, n) := ReadTag(b).value;
    assert ReadTag(c) == ReadTag(b) by {
      SamePrefix(b, c, m, 0, n);
      RawVarintLocal(b, c, 5);
    }
    if tag % 8 != 4 {
      SamePrefix(b, c, m, n, m);
      ReadPayloadLocal(b[n..], c[n..], tag / 8, tag % 8, depth);
    }
  }

  lemma {:induction false} ReadPayloadLocal(b: seq<byte>, c: seq<byte>, num: nat, wire: nat, depth: nat)
    requires ReadPayload(b, num, wire, depth).Some?
    requires ReadPayload(b, num, wire, depth).value.1 <= |c|
    requires c[..ReadPayload(b, num, wire, depth).value.1] == b[..ReadPayload(b, num, wire, depth).value.1]
    ensures ReadPayload(c, num, wire, depth) == ReadPayload(b, num, wire, depth)
    decreases |b|, 3
  {
    if wire == 0 {
      RawVarintLocal(b, c, 10);
    } else if wire == 2 {
      ReadStringLocal(b, c);
    } else if wire == 3 {
      ReadGroupLocal(b, c, num, depth - 1);
    }
  }

  lemma {:induction false} ReadStringLocal(b: seq<byte>, c: seq<byte>)
    requires ReadString(b).Some?
    requires ReadString(b).value.1 <= |c|
    requires c[..ReadString(b).value.1] == b[..ReadString(b).value.1]
    ensures ReadString(c) == ReadString(b)
  {
    hide RawVarint;
    var m := ReadString(b).value.1;
    var k := ReadSize(b).value.1;
    assert ReadSize(c) == ReadSize(b) by {
      SamePrefix(b, c, m, 0, k);
      RawVarintLocal(b, c, 5);
    }
    SamePrefix(b, c, m, k, m);
  }

  lemma {:induction false} SamePrefix(b: seq<byte>, c: seq<byte>, m: nat, i: nat, j: nat)
    requires i <= j <= m <= |b| && m <= |c| && b[..m] == c[..m]
    ensures b[i..j] == c[i..j]
    ensures b[i..][..j - i] == c[i..][..j - i]
  {
    assert b[i..j] == b[..m][i..j];
    assert c[i..j] == c[..m][i..j];
    assert b[i..][..j - i] == b[i..j];
    assert c[i..][..j - i] == c[i..j];
  }

  lemma {:induction false} ReadGroupLocal(b: seq<byte>, c: seq<byte>, num: nat, depth: nat)
    requires ReadGroup(b, num, depth).Some?
    requires ReadGroup(b, num, depth).value.1 <= |c|
    requires c[..ReadGroup(b, num, depth).value.1] == b[..ReadGroup(b, num, depth).value.1]
    ensures ReadGroup(c, num, depth) == ReadGroup(b, num, depth)
    decreases |b|, 2
  {
    hide ReadItem;
    var m := ReadGroup(b, num, depth).value.1;
    var n := ReadItem(b, depth).n;
    assert ReadItem(c, depth) == ReadItem(b, depth) by {
      SamePrefix(b, c, m, 0, n);
      ReadItemLocal(b, c, depth);
    }
    if ReadItem(b, depth).Item? {
      assert ReadGroup(c[n..], num, depth) == ReadGroup(b[n..], num, depth) by {
        SamePrefix(b, c, m, n, m);
        ReadGroupLocal(b[n..], c[n..], num, depth);
      }
    }
  }

  // ------------------------------------------------------------------ strings

  predicate Continuation(b: byte) { 0x80 <= b <= 0xBF }

  /** Structural validity of UTF-8: sections 3 and 4 of RFC 3629 (no overlong forms, no surrogates). */
  predicate ValidUtf8(s: seq<byte>)
    decreases |s|
  {
    if s == [] then true
    else if s[0] < 0x80 then ValidUtf8(s[1..])
    else if 0xC2 <= s[0] <= 0xDF then |s| >= 2 && Continuation(s[1]) && ValidUtf8(s[2..])
    else if 0xE0 <= s[0] <= 0xEF then
      && |s| >= 3 && Continuation(s[1]) && Continuation(s[2])
      && (s[0] == 0xE0 ==> s[1] >= 0xA0)
      && (s[0] == 0xED ==> s[1] <= 0x9F)
      && ValidUtf8(s[3..])
    else if 0xF0 <= s[0] <= 0xF4 then
      && |s| >= 4 && Continuation(s[1]) && Continuation(s[2]) && Continuation(s[3])
      && (s[0] == 0xF0 ==> s[1] >= 0x90)
      && (s[0] == 0xF4 ==> s[1] <= 0x8F)
      && ValidUtf8(s[4..])
    else false
  }
}
