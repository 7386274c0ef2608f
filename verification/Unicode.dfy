/** UTF-16 and UTF-8: the engine's conversion, the validity that the parser checks, and decoding. Strings are sequences
    of UTF-16 code units. */
module Unicode {
  import opened Options
  import opened Wire
  import opened Packets

  predicate High(u: uint16) { 0xD800 <= u <= 0xDBFF }

  predicate Low(u: uint16) { 0xDC00 <= u <= 0xDFFF }

  /** FTCHARToUTF8 on a zero-terminated string: surrogate pairs become four bytes, other units up to three. What
      stands for a lone surrogate is the engine's choice. */
  function Utf8(s: seq<uint16>, lone: seq<byte>): seq<byte> {
    if s == [] || s[0] == 0 then []
    else if s[0] < 0x80 then [s[0]] + Utf8(s[1..], lone)
    else if s[0] < 0x800 then [0xC0 + s[0] / 64, 0x80 + s[0] % 64] + Utf8(s[1..], lone)
    else if High(s[0]) && |s| > 1 && Low(s[1]) then
      var c := 0x1_0000 + (s[0] as int - 0xD800) * 0x400 + (s[1] as int - 0xDC00);
      [0xF0 + c / 0x4_0000, 0x80 + c / 0x1000 % 64, 0x80 + c / 64 % 64, 0x80 + c % 64] + Utf8(s[2..], lone)
    else if High(s[0]) || Low(s[0]) then lone + Utf8(s[1..], lone)
    else [0xE0 + s[0] / 0x1000, 0x80 + s[0] / 64 % 64, 0x80 + s[0] % 64] + Utf8(s[1..], lone)
  }

  lemma {:induction false} Utf8Length(s: seq<uint16>, lone: seq<byte>)
    requires |lone| <= 3
    ensures |Utf8(s, lone)| <= 3 * |s|
    decreases |s|
  {
    if s == [] || s[0] == 0 {
    } else if s[0] >= 0x800 && High(s[0]) && |s| > 1 && Low(s[1]) {
      Utf8Length(s[2..], lone);
    } else {
      Utf8Length(s[1..], lone);
    }
  }

  /** How many bytes the first character takes, or zero if it is not valid. */
  function CharLength(s: seq<byte>): (k: nat)
    requires s != []
    ensures k <= |s|
  {
    if s[0] < 0x80 then 1
    else if 0xC2 <= s[0] <= 0xDF then if |s| >= 2 && Continuation(s[1]) then 2 else 0
    else if 0xE0 <= s[0] <= 0xEF then
      if |s| >= 3 && Continuation(s[1]) && Continuation(s[2]) && (s[0] == 0xE0 ==> s[1] >= 0xA0)
         && (s[0] == 0xED ==> s[1] <= 0x9F) then 3 else 0
    else if 0xF0 <= s[0] <= 0xF4 then
      if |s| >= 4 && Continuation(s[1]) && Continuation(s[2]) && Continuation(s[3]) && (s[0] == 0xF0 ==> s[1] >= 0x90)
         && (s[0] == 0xF4 ==> s[1] <= 0x8F) then 4 else 0
    else 0
  }

  lemma {:induction false} ValidByCharacter(s: seq<byte>)
    requires s != []
    ensures ValidUtf8(s) <==> CharLength(s) > 0 && ValidUtf8(s[CharLength(s)..])
  {}

  lemma {:induction false} CharLengthAppend(a: seq<byte>, b: seq<byte>)
    requires a != [] && CharLength(a) > 0
    ensures CharLength(a + b) == CharLength(a)
  {
    assert |a| >= 2 ==> (a + b)[1] == a[1];
    assert |a| >= 3 ==> (a + b)[2] == a[2];
    assert |a| >= 4 ==> (a + b)[3] == a[3];
  }

  lemma {:induction false} AppendValid(a: seq<byte>, b: seq<byte>)
    requires ValidUtf8(a) && ValidUtf8(b)
    ensures ValidUtf8(a + b)
    decreases |a|
  {
    hide ValidUtf8, CharLength;
    if a == [] {
      assert a + b == b;
    } else {
      ValidByCharacter(a);
      ValidByCharacter(a + b);
      CharLengthAppend(a, b);
      var k := CharLength(a);
      AppendValid(a[k..], b);
      assert (a + b)[k..] == a[k..] + b;
    }
  }

  lemma {:induction false} OneUnitValid(u: uint16)
    requires !High(u) && !Low(u)
    ensures u < 0x80 ==> ValidUtf8([u])
    ensures 0x80 <= u < 0x800 ==> ValidUtf8([0xC0 + u / 64, 0x80 + u % 64])
    ensures u >= 0x800 ==> ValidUtf8([0xE0 + u / 0x1000, 0x80 + u / 64 % 64, 0x80 + u % 64])
  {
    if u < 0x80 {
      assert [u][1..] == [];
    } else if u < 0x800 {
      assert [0xC0 + u / 64, 0x80 + u % 64][2..] == [];
    } else {
      assert [0xE0 + u / 0x1000, 0x80 + u / 64 % 64, 0x80 + u % 64][3..] == [];
    }
  }

  lemma {:induction false} PairValid(h: uint16, l: uint16)
    requires High(h) && Low(l)
    ensures var c := 0x1_0000 + (h as int - 0xD800) * 0x400 + (l as int - 0xDC00);
      ValidUtf8([0xF0 + c / 0x4_0000, 0x80 + c / 0x1000 % 64, 0x80 + c / 64 % 64, 0x80 + c % 64])
  {
    var c := 0x1_0000 + (h as int - 0xD800) * 0x400 + (l as int - 0xDC00);
    assert [0xF0 + c / 0x4_0000, 0x80 + c / 0x1000 % 64, 0x80 + c / 64 % 64, 0x80 + c % 64][4..] == [];
  }

  /** The conversion always yields valid UTF-8, so the server's parser accepts the strings. */
  lemma {:induction false} Utf8Valid(s: seq<uint16>, lone: seq<byte>)
    requires ValidUtf8(lone)
    ensures ValidUtf8(Utf8(s, lone))
    decreases |s|
  {
    hide ValidUtf8;
    if s == [] || s[0] == 0 {
      assert ValidUtf8([]) by { NothingValid(); }
    } else if High(s[0]) && |s| > 1 && Low(s[1]) {
      Utf8Valid(s[2..], lone);
      PairValid(s[0], s[1]);
      var c := 0x1_0000 + (s[0] as int - 0xD800) * 0x400 + (s[1] as int - 0xDC00);
      AppendValid([0xF0 + c / 0x4_0000, 0x80 + c / 0x1000 % 64, 0x80 + c / 64 % 64, 0x80 + c % 64], Utf8(s[2..], lone));
    } else if High(s[0]) || Low(s[0]) {
      Utf8Valid(s[1..], lone);
      AppendValid(lone, Utf8(s[1..], lone));
    } else {
      Utf8Valid(s[1..], lone);
      OneUnitValid(s[0]);
      AppendValid(if s[0] < 0x80 then [s[0]] else if s[0] < 0x800 then [0xC0 + s[0] / 64, 0x80 + s[0] % 64]
                  else [0xE0 + s[0] / 0x1000, 0x80 + s[0] / 64 % 64, 0x80 + s[0] % 64], Utf8(s[1..], lone));
    }
  }

  lemma {:induction false} NothingValid()
    ensures ValidUtf8([])
  {}

  // ------------------------------------------------------------------ decoding

  /** The first character of a byte string, by section 3 of RFC 3629: its number and its length. */
  function FirstCharacter(b: seq<byte>): (r: Option<(nat, nat)>)
    ensures r.Some? ==> 1 <= r.value.1 <= |b|
  {
    if b == [] then None
    else if b[0] < 0x80 then Some((b[0], 1))
    else if 0xC0 <= b[0] < 0xE0 && |b| >= 2 then Some(((b[0] - 0xC0) * 64 + Six(b[1]), 2))
    else if 0xE0 <= b[0] < 0xF0 && |b| >= 3 then Some(((b[0] - 0xE0) * 0x1000 + Six(b[1]) * 64 + Six(b[2]), 3))
    else if 0xF0 <= b[0] < 0xF8 && |b| >= 4 then
      Some(((b[0] - 0xF0) * 0x4_0000 + Six(b[1]) * 0x1000 + Six(b[2]) * 64 + Six(b[3]), 4))
    else None
  }

  /** The low six bits. */
  function Six(b: byte): nat { b as int % 64 }

  /** A character in UTF-16, by section 2.1 of RFC 2781. */
  function Units(c: nat): seq<nat> {
    if c < 0x1_0000 then [c] else [0xD800 + (c - 0x1_0000) / 0x400, 0xDC00 + (c - 0x1_0000) % 0x400]
  }

  /** The UTF-16 units of a string in UTF-8. */
  function Decoded(b: seq<byte>): Option<seq<nat>>
    decreases |b|
  {
    if b == [] then Some([])
    else match FirstCharacter(b)
      case None => None
      case Some((c, n)) =>
        match Decoded(b[n..])
        case None => None
        case Some(rest) => Some(Units(c) + rest)
  }

  /** No zero, and surrogates only in pairs. */
  predicate Proper(s: seq<uint16>)
    decreases |s|
  {
    s == [] || (
      if High(s[0]) then |s| > 1 && Low(s[1]) && Proper(s[2..]) else s[0] != 0 && !Low(s[0]) && Proper(s[1..]))
  }

  lemma {:induction false} DecodedAppend(a: seq<byte>, c: nat, b: seq<byte>)
    requires FirstCharacter(a + b) == Some((c, |a|)) && Decoded(b).Some?
    ensures Decoded(a + b) == Some(Units(c) + Decoded(b).value)
  {
    hide FirstCharacter, Units;
    assert (a + b)[|a|..] == b;
  }

  /** Decoding gives every proper string back. */
  lemma {:induction false} Utf8Decodes(s: seq<uint16>, lone: seq<byte>)
    requires Proper(s)
    ensures Decoded(Utf8(s, lone)) == Some(s)
    decreases |s|
  {
    hide Decoded, Utf8, Units, FirstCharacter;
    if s == [] {
      NothingDecoded(lone);
    } else if High(s[0]) {
      var a, c := OfPair(s, lone);
      Utf8Decodes(s[2..], lone);
      DecodedAppend(a, c, Utf8(s[2..], lone));
      assert s == [s[0], s[1]] + s[2..];
    } else {
      var a, c := OfUnit(s, lone);
      Utf8Decodes(s[1..], lone);
      DecodedAppend(a, c, Utf8(s[1..], lone));
      assert s == [s[0]] + s[1..];
    }
  }

  /** The bytes of a surrogate pair, and the character they stand for. */
  lemma {:induction false} OfPair(s: seq<uint16>, lone: seq<byte>) returns (a: seq<byte>, c: nat)
    requires |s| > 1 && High(s[0]) && Low(s[1])
    ensures Utf8(s, lone) == a + Utf8(s[2..], lone) && Units(c) == [s[0], s[1]]
    ensures FirstCharacter(a + Utf8(s[2..], lone)) == Some((c, |a|))
  {
    hide FirstCharacter;
    c := 0x1_0000 + (s[0] as int - 0xD800) * 0x400 + (s[1] as int - 0xDC00);
    a := [0xF0 + c / 0x4_0000, 0x80 + c / 0x1000 % 64, 0x80 + c / 64 % 64, 0x80 + c % 64];
    FourBytes(c, Utf8(s[2..], lone));
  }

  /** The bytes of any other unit. */
  lemma {:induction false} OfUnit(s: seq<uint16>, lone: seq<byte>) returns (a: seq<byte>, c: nat)
    requires s != [] && s[0] != 0 && !High(s[0]) && !Low(s[0])
    ensures Utf8(s, lone) == a + Utf8(s[1..], lone) && Units(c) == [s[0]]
    ensures FirstCharacter(a + Utf8(s[1..], lone)) == Some((c, |a|))
  {
    hide FirstCharacter;
    c := s[0] as int;
    a := if c < 0x80 then [c] else if c < 0x800 then [0xC0 + c / 64, 0x80 + c % 64]
      else [0xE0 + c / 0x1000, 0x80 + c / 64 % 64, 0x80 + c % 64];
    FewBytes(c, a, Utf8(s[1..], lone));
  }

  lemma {:induction false} NothingDecoded(lone: seq<byte>)
    ensures Utf8([], lone) == [] && Decoded([]) == Some([])
  {}

  lemma {:induction false} FourBytes(c: nat, b: seq<byte>)
    requires 0x1_0000 <= c < 0x11_0000
    ensures FirstCharacter([0xF0 + c / 0x4_0000, 0x80 + c / 0x1000 % 64, 0x80 + c / 64 % 64, 0x80 + c % 64] + b)
      == Some((c, 4))
  {
    SixBitDigits(c);
  }

  lemma {:induction false} SixBitDigits(c: nat)
    ensures c == (c / 0x4_0000) * 0x4_0000 + (c / 0x1000 % 64) * 0x1000 + (c / 64 % 64) * 64 + c % 64
    ensures c < 0x11_0000 ==> c / 0x4_0000 <= 4
  {
    Divided(c, 64, 64);
    Divided(c, 0x1000, 64);
  }

  lemma {:induction false} FewBytes(c: nat, a: seq<byte>, b: seq<byte>)
    requires c < 0x1_0000
    requires a == if c < 0x80 then [c] else if c < 0x800 then [0xC0 + c / 64, 0x80 + c % 64]
      else [0xE0 + c / 0x1000, 0x80 + c / 64 % 64, 0x80 + c % 64]
    ensures FirstCharacter(a + b) == Some((c, |a|))
  {
    Divided(c, 64, 64);
  }

  /** A zero ends the string. */
  lemma {:induction false} ZeroEnds(s: seq<uint16>, t: seq<uint16>, lone: seq<byte>)
    requires Proper(s)
    ensures Utf8(s + [0] + t, lone) == Utf8(s, lone)
    decreases |s|
  {
    var w := s + [0] + t;
    if s != [] {
      if High(s[0]) {
        assert w[2..] == s[2..] + [0] + t;
        ZeroEnds(s[2..], t, lone);
      } else {
        assert w[1..] == s[1..] + [0] + t;
        ZeroEnds(s[1..], t, lone);
      }
    }
  }

  // ------------------------------------------------------------------ validity

  /** Characters are numbered up to 0x10FFFF, without the surrogates. */
  predicate Scalar(c: nat) { c < 0xD800 || 0xE000 <= c < 0x11_0000 }

  /** One character, by the table in section 3 of RFC 3629. */
  function Encoded(c: nat): seq<byte>
    requires Scalar(c)
  {
    if c < 0x80 then [c]
    else if c < 0x800 then [0xC0 + c / 64, 0x80 + c % 64]
    else if c < 0x1_0000 then [0xE0 + c / 0x1000, 0x80 + c / 64 % 64, 0x80 + c % 64]
    else [0xF0 + c / 0x4_0000, 0x80 + c / 0x1000 % 64, 0x80 + c / 64 % 64, 0x80 + c % 64]
  }

  predicate Scalars(cs: seq<nat>) { forall i | 0 <= i < |cs| :: Scalar(cs[i]) }

  function EncodedAll(cs: seq<nat>): seq<byte>
    requires Scalars(cs)
  {
    if cs == [] then [] else Encoded(cs[0]) + EncodedAll(cs[1..])
  }

  /** The parser's check accepts exactly the encodings of sequences of characters. */
  lemma {:induction false} ValidExactly(b: seq<byte>)
    ensures ValidUtf8(b) <==> exists cs :: Scalars(cs) && b == EncodedAll(cs)
  {
    if ValidUtf8(b) {
      var cs := Characters(b);
    }
    if cs :| Scalars(cs) && b == EncodedAll(cs) { EncodedValid(cs); }
  }

  lemma {:induction false} EncodedValid(cs: seq<nat>)
    requires Scalars(cs)
    ensures ValidUtf8(EncodedAll(cs))
  {
    hide ValidUtf8, Encoded;
    if cs == [] {
      NothingValid();
    } else {
      OneValid(cs[0]);
      EncodedValid(cs[1..]);
      AppendValid(Encoded(cs[0]), EncodedAll(cs[1..]));
    }
  }

  lemma {:induction false} OneValid(c: nat)
    requires Scalar(c)
    ensures ValidUtf8(Encoded(c))
  {
    var e := Encoded(c);
    if c < 0x1_0000 {
      OneUnitValid(c);
    } else {
      SixBitDigits(c);
      assert e[4..] == [];
    }
  }

  lemma {:induction false} Characters(b: seq<byte>) returns (cs: seq<nat>)
    requires ValidUtf8(b)
    ensures Scalars(cs) && b == EncodedAll(cs)
    decreases |b|
  {
    hide ValidUtf8, Encoded, CharLength;
    if b == [] {
      cs := [];
    } else {
      ValidByCharacter(b);
      var k := CharLength(b);
      var c := OneCharacter(b);
      var rest := Characters(b[k..]);
      cs := [c] + rest;
      assert cs[1..] == rest && b == b[..k] + b[k..];
    }
  }

  /** A number from its digits to the base 64, and back. */
  lemma {:induction false} FromSix(high: nat, d: nat)
    requires d < 64
    ensures (high * 64 + d) / 64 == high && (high * 64 + d) % 64 == d
  {}

  lemma {:induction false} OneCharacter(b: seq<byte>) returns (c: nat)
    requires b != [] && CharLength(b) > 0
    ensures Scalar(c) && Encoded(c) == b[..CharLength(b)]
  {
    var lead := b[0] as int;
    if lead < 0x80 {
      c := lead;
    } else if lead <= 0xDF {
      c := TwoByteCharacter(b);
    } else if lead <= 0xEF {
      c := ThreeByteCharacter(b);
    } else {
      c := FourByteCharacter(b);
    }
  }

  lemma {:induction false} TwoByteCharacter(b: seq<byte>) returns (c: nat)
    requires b != [] && CharLength(b) > 0 && 0x80 <= b[0] <= 0xDF
    ensures Scalar(c) && Encoded(c) == b[..CharLength(b)]
  {
    var high, d := b[0] as int - 0xC0, b[1] as int - 0x80;
    c := high * 64 + d;
    FromSix(high, d);
  }

  lemma {:induction false} ThreeByteCharacter(b: seq<byte>) returns (c: nat)
    requires b != [] && CharLength(b) > 0 && 0xE0 <= b[0] <= 0xEF
    ensures Scalar(c) && Encoded(c) == b[..CharLength(b)]
  {
    var high, e, d := b[0] as int - 0xE0, b[1] as int - 0x80, b[2] as int - 0x80;
    c := (high * 64 + e) * 64 + d;
    FromSix(high * 64 + e, d);
    FromSix(high, e);
    Divided(c, 64, 64);
  }

  lemma {:induction false} FourByteCharacter(b: seq<byte>) returns (c: nat)
    requires b != [] && CharLength(b) > 0 && b[0] >= 0xF0
    ensures Scalar(c) && Encoded(c) == b[..CharLength(b)]
  {
    var high, f, e, d := b[0] as int - 0xF0, b[1] as int - 0x80, b[2] as int - 0x80, b[3] as int - 0x80;
    c := ((high * 64 + f) * 64 + e) * 64 + d;
    FromSix((high * 64 + f) * 64 + e, d);
    FromSix(high * 64 + f, e);
    FromSix(high, f);
    Divided(c, 64, 64);
    Divided(c, 0x1000, 64);
  }
}
