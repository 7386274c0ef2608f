/** Writing encoded records into a buffer through an advancing position, and the size arithmetic that
    decides how long the buffer must be. */
module Writer {
  import opened Wire

  /** after is before with bs written at position t, and nothing else changed. */
  predicate Wrote(before: seq<byte>, after: seq<byte>, t: nat, bs: seq<byte>) {
    && |after| == |before| && t + |bs| <= |before|
    && after[..t] == before[..t]
    && after[t..t + |bs|] == bs
    && after[t + |bs|..] == before[t + |bs|..]
  }

  lemma {:induction false} WroteNothing(a: seq<byte>, t: nat)
    requires t <= |a|
    ensures Wrote(a, a, t, [])
  {}

  lemma {:induction false} WroteThen(a: seq<byte>, b: seq<byte>, c: seq<byte>, t: nat, x: seq<byte>, y: seq<byte>)
    requires Wrote(a, b, t, x) && Wrote(b, c, t + |x|, y)
    ensures Wrote(a, c, t, x + y)
  {
    var u, w := t + |x|, t + |x| + |y|;
    assert c[..t] == c[..u][..t] == b[..u][..t] == b[..t];
    assert c[t..u] == c[..u][t..u] == b[..u][t..u] == b[t..u];
    assert c[t..w] == c[t..u] + c[u..w];
    assert b[u..][|y|..] == b[w..] && a[u..][|y|..] == a[w..];
  }

  method WriteRaw(a: array<byte>, t: nat, bs: seq<byte>) returns (t': nat)
    requires t + |bs| <= a.Length
    modifies a
    ensures t' == t + |bs| && Wrote(old(a[..]), a[..], t, bs)
  {
    var i := 0;
    while i < |bs|
      invariant 0 <= i <= |bs|
      invariant a[t..t + i] == bs[..i]
      invariant a[..t] == old(a[..t]) && a[t + i..] == old(a[t + i..])
    {
      a[t + i] := bs[i];
      i := i + 1;
    }
    t' := t + i;
  }

  method WriteByte(a: array<byte>, t: nat, x: byte) returns (t': nat)
    requires t < a.Length
    modifies a
    ensures t' == t + 1 && Wrote(old(a[..]), a[..], t, [x])
  {
    a[t] := x;
    t' := t + 1;
  }

  /** UnsafeVarint: seven bits at a time, the continuation bit on all but the last byte. */
  method WriteVarint(a: array<byte>, t: nat, v: nat) returns (t': nat)
    requires t + |EncodeVarint(v)| <= a.Length
    modifies a
    ensures t' == t + |EncodeVarint(v)| && Wrote(old(a[..]), a[..], t, EncodeVarint(v))
  {
    hide Wrote;
    var value := v;
    t' := t;
    ghost var done: seq<byte> := [];
    WroteNothing(a[..], t);
    while value >= 128
      invariant t' == t + |done| && t' + |EncodeVarint(value)| <= a.Length
      invariant done + EncodeVarint(value) == EncodeVarint(v)
      invariant Wrote(old(a[..]), a[..], t, done)
      decreases value
    {
      ghost var b := a[..];
      t' := WriteByte(a, t', 128 + value % 128);
      WroteThen(old(a[..]), b, a[..], t, done, [128 + value % 128]);
      done := done + [128 + value % 128];
      value := value / 128;
    }
    ghost var b := a[..];
    t' := WriteByte(a, t', value);
    WroteThen(old(a[..]), b, a[..], t, done, [value]);
  }

  method WriteTag(a: array<byte>, t: nat, num: nat, wire: nat) returns (t': nat)
    requires t + |EncodeTag(num, wire)| <= a.Length
    modifies a
    ensures t' == t + |EncodeTag(num, wire)| && Wrote(old(a[..]), a[..], t, EncodeTag(num, wire))
  {
    t' := WriteVarint(a, t, num * 8 + wire);
  }

  /** A tag and a varint: WriteUInt64ToArray and, with a sign-extended value, WriteInt32ToArray. */
  method WriteVarintField(a: array<byte>, t: nat, num: nat, v: nat) returns (t': nat)
    requires t + |EncodeRec(VarintRec(num, v))| <= a.Length
    modifies a
    ensures t' == t + |EncodeRec(VarintRec(num, v))| && Wrote(old(a[..]), a[..], t, EncodeRec(VarintRec(num, v)))
  {
    hide EncodeTag, EncodeVarint, Wrote;
    t' := WriteTag(a, t, num, 0);
    ghost var b := a[..];
    t' := WriteVarint(a, t', v);
    WroteThen(old(a[..]), b, a[..], t, EncodeTag(num, 0), EncodeVarint(v));
  }

  method WriteFixed32Field(a: array<byte>, t: nat, num: nat, v: nat) returns (t': nat)
    requires t + |EncodeRec(Fixed32Rec(num, v))| <= a.Length
    modifies a
    ensures t' == t + |EncodeRec(Fixed32Rec(num, v))| && Wrote(old(a[..]), a[..], t, EncodeRec(Fixed32Rec(num, v)))
  {
    hide EncodeTag, Bytes, Wrote;
    t' := WriteTag(a, t, num, 5);
    ghost var b := a[..];
    t' := WriteRaw(a, t', Bytes(v, 4));
    WroteThen(old(a[..]), b, a[..], t, EncodeTag(num, 5), Bytes(v, 4));
  }

  method WriteFixed64Field(a: array<byte>, t: nat, num: nat, v: nat) returns (t': nat)
    requires t + |EncodeRec(Fixed64Rec(num, v))| <= a.Length
    modifies a
    ensures t' == t + |EncodeRec(Fixed64Rec(num, v))| && Wrote(old(a[..]), a[..], t, EncodeRec(Fixed64Rec(num, v)))
  {
    hide EncodeTag, Bytes, Wrote;
    t' := WriteTag(a, t, num, 1);
    ghost var b := a[..];
    t' := WriteRaw(a, t', Bytes(v, 8));
    WroteThen(old(a[..]), b, a[..], t, EncodeTag(num, 1), Bytes(v, 8));
  }

  /** A tag and the length that follows it, ahead of a string or a nested message. */
  method WriteLengthHeader(a: array<byte>, t: nat, num: nat, len: nat) returns (t': nat)
    requires t + |EncodeTag(num, 2)| + |EncodeVarint(len)| <= a.Length
    modifies a
    ensures t' == t + |EncodeTag(num, 2)| + |EncodeVarint(len)|
    ensures Wrote(old(a[..]), a[..], t, EncodeTag(num, 2) + EncodeVarint(len))
  {
    hide EncodeTag, EncodeVarint, Wrote;
    t' := WriteTag(a, t, num, 2);
    ghost var b := a[..];
    t' := WriteVarint(a, t', len);
    WroteThen(old(a[..]), b, a[..], t, EncodeTag(num, 2), EncodeVarint(len));
  }

  method WriteString(a: array<byte>, t: nat, num: nat, s: seq<byte>) returns (t': nat)
    requires t + |EncodeRec(LenRec(num, s))| <= a.Length
    modifies a
    ensures t' == t + |EncodeRec(LenRec(num, s))| && Wrote(old(a[..]), a[..], t, EncodeRec(LenRec(num, s)))
  {
    hide EncodeTag, EncodeVarint, Wrote;
    t' := WriteLengthHeader(a, t, num, |s|);
    ghost var b := a[..];
    t' := WriteRaw(a, t', s);
    WroteThen(old(a[..]), b, a[..], t, EncodeTag(num, 2) + EncodeVarint(|s|), s);
  }

  /** InternalSerializeUnknownFieldsToArray: every kept record in its canonical form, groups recursively. */
  method WriteUnknown(a: array<byte>, t: nat, rs: seq<Rec>) returns (t': nat)
    requires t + |EncodeRecs(rs)| <= a.Length
    modifies a
    ensures t' == t + |EncodeRecs(rs)| && Wrote(old(a[..]), a[..], t, EncodeRecs(rs))
    decreases rs, 1
  {
    hide EncodeRec, EncodeRecs, Wrote;
    t' := t;
    var i := 0;
    WroteNothing(a[..], t);
    EncodeNothing();
    assert rs[..0] == [];
    while i < |rs|
      invariant 0 <= i <= |rs| && t' == t + |EncodeRecs(rs[..i])|
      invariant Wrote(old(a[..]), a[..], t, EncodeRecs(rs[..i]))
    {
      ghost var b := a[..];
      EncodePrefix(rs, i);
      t' := WriteRec(a, t', rs[i]);
      WroteThen(old(a[..]), b, a[..], t, EncodeRecs(rs[..i]), EncodeRec(rs[i]));
      i := i + 1;
    }
    assert rs[..i] == rs;
  }

  lemma {:induction false} EncodeNothing()
    ensures EncodeRecs([]) == []
  {}

  lemma {:induction false} EncodePrefix(rs: seq<Rec>, i: nat)
    requires i < |rs|
    ensures EncodeRecs(rs[..i + 1]) == EncodeRecs(rs[..i]) + EncodeRec(rs[i])
    ensures |EncodeRecs(rs[..i])| + |EncodeRec(rs[i])| <= |EncodeRecs(rs)|
  {
    hide EncodeRec;
    EncodeRecsAppend(rs[..i], [rs[i]]);
    assert rs[..i] + [rs[i]] == rs[..i + 1];
    assert [rs[i]][1..] == [];
    EncodeRecsAppend(rs[..i + 1], rs[i + 1..]);
    assert rs[..i + 1] + rs[i + 1..] == rs;
  }

  method WriteRec(a: array<byte>, t: nat, r: Rec) returns (t': nat)
    requires t + |EncodeRec(r)| <= a.Length
    modifies a
    ensures t' == t + |EncodeRec(r)| && Wrote(old(a[..]), a[..], t, EncodeRec(r))
    decreases r, 0
  {
    hide EncodeTag, EncodeVarint, Wrote, EncodeRecs, Bytes;
    match r {
      case VarintRec(num, v) => t' := WriteVarintField(a, t, num, v);
      case Fixed64Rec(num, v) => t' := WriteFixed64Field(a, t, num, v);
      case Fixed32Rec(num, v) => t' := WriteFixed32Field(a, t, num, v);
      case LenRec(num, s) => t' := WriteString(a, t, num, s);
      case GroupRec(num, rs) => t' := WriteGroup(a, t, num, rs);
    }
  }

  method WriteGroup(a: array<byte>, t: nat, num: nat, rs: seq<Rec>) returns (t': nat)
    requires t + |EncodeRec(GroupRec(num, rs))| <= a.Length
    modifies a
    ensures t' == t + |EncodeRec(GroupRec(num, rs))| && Wrote(old(a[..]), a[..], t, EncodeRec(GroupRec(num, rs)))
    decreases rs, 2
  {
    hide EncodeTag, Wrote, EncodeRecs;
    t' := WriteTag(a, t, num, 3);
    ghost var b := a[..];
    t' := WriteUnknown(a, t', rs);
    WroteThen(old(a[..]), b, a[..], t, EncodeTag(num, 3), EncodeRecs(rs));
    b := a[..];
    t' := WriteTag(a, t', num, 4);
    WroteThen(old(a[..]), b, a[..], t, EncodeTag(num, 3) + EncodeRecs(rs), EncodeTag(num, 4));
  }

  // ------------------------------------------------------------------ sizes

  /** Position of the highest set bit. */
  function Log2Floor(v: nat): nat
    requires v >= 1
  {
    if v == 1 then 0 else 1 + Log2Floor(v / 2)
  }

  /** VarintSize32 and VarintSize64: nine 64ths per bit instead of a division by seven. */
  function VarintSize(v: nat): nat {
    (Log2Floor(if v == 0 then 1 else v) * 9 + 73) / 64
  }

  lemma {:induction false} Log2OfShift(v: nat)
    requires v >= 128
    ensures Log2Floor(v) == 7 + Log2Floor(v / 128)
  {
    assert Log2Floor(v) == 1 + Log2Floor(v / 2);
    assert Log2Floor(v / 2) == 1 + Log2Floor(v / 2 / 2) && v / 2 / 2 == v / 4;
    assert Log2Floor(v / 4) == 1 + Log2Floor(v / 4 / 2) && v / 4 / 2 == v / 8;
    assert Log2Floor(v / 8) == 1 + Log2Floor(v / 8 / 2) && v / 8 / 2 == v / 16;
    assert Log2Floor(v / 16) == 1 + Log2Floor(v / 16 / 2) && v / 16 / 2 == v / 32;
    assert Log2Floor(v / 32) == 1 + Log2Floor(v / 32 / 2) && v / 32 / 2 == v / 64;
    assert Log2Floor(v / 64) == 1 + Log2Floor(v / 64 / 2) && v / 64 / 2 == v / 128;
  }

  lemma {:induction false} EncodedBits(v: nat)
    requires v >= 1
    ensures |EncodeVarint(v)| == Log2Floor(v) / 7 + 1
  {
    if v >= 128 {
      Log2OfShift(v);
      EncodedBits(v / 128);
    } else {
      SmallLog2(v);
    }
  }

  lemma {:induction false} SmallLog2(v: nat)
    requires 1 <= v < 128
    ensures Log2Floor(v) <= 6
  {
    assert v / 2 / 2 / 2 / 2 / 2 / 2 <= 1;
    Halve(v, 6);
  }

  lemma {:induction false} Halve(v: nat, k: nat)
    requires v >= 1
    requires k < 64 && v < Pow2(k + 1)
    ensures Log2Floor(v) <= k
    decreases k
  {
    if v > 1 {
      Halve(v / 2, k - 1);
    }
  }

  function Pow2(k: nat): nat { if k == 0 then 1 else 2 * Pow2(k - 1) }

  /** The approximation is exact for every 64-bit value. */
  lemma {:induction false} VarintSizeExact(v: nat)
    requires v < TWO64
    ensures VarintSize(v) == |EncodeVarint(v)|
  {
    if v > 0 {
      EncodedBits(v);
      Pow2Of64();
      Halve(v, 63);
      var l := Log2Floor(v);
      assert (l * 9 + 73) / 64 == l / 7 + 1;
    } else {
      assert Log2Floor(1) == 0;
    }
  }

  lemma {:induction false} Pow2Of64()
    ensures Pow2(64) == TWO64
  {
    assert Pow2(8) == 256;
    assert Pow2(16) == 0x1_0000;
    assert Pow2(24) == 0x100_0000;
    assert Pow2(32) == 0x1_0000_0000;
    assert Pow2(40) == 0x100_0000_0000;
    assert Pow2(48) == 0x1_0000_0000_0000;
    assert Pow2(56) == 0x100_0000_0000_0000;
  }
}
