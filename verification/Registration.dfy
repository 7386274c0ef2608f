/** RequestRegister: which input it accepts, the packet it sends, and how long that can get. Strings are sequences
    of UTF-16 code units. */
module Registration {
  import opened Options
  import opened Wire
  import opened Messages
  import opened Schemas
  import opened Writer
  import opened Sizes
  import opened GroupFree
  import opened Packets
  import opened Frames
  import opened Unicode

  const PKT_C_REGISTER: uint16 := 1002

  // ------------------------------------------------------------------ the request

  /** TrimStartAndEnd, for whatever the engine takes for white space. */
  function Trim(s: seq<uint16>, white: uint16 -> bool): (r: seq<uint16>)
    ensures |r| <= |s|
  {
    if s == [] then []
    else if white(s[0]) then Trim(s[1..], white)
    else if white(s[|s| - 1]) then Trim(s[..|s| - 1], white)
    else s
  }

  /** What is left is the part of the string between its first and its last character that is not white space. */
  lemma {:induction false} TrimIs(s: seq<uint16>, white: uint16 -> bool)
    ensures exists a: nat, b: nat :: Trimmed(s, white, a, b) && Trim(s, white) == s[a..b]
    decreases |s|
  {
    if s == [] {
      assert Trimmed(s, white, 0, 0);
    } else if white(s[0]) {
      TrimIs(s[1..], white);
      var a: nat, b: nat :| Trimmed(s[1..], white, a, b) && Trim(s[1..], white) == s[1..][a..b];
      assert forall i | 0 < i < |s| :: s[i] == s[1..][i - 1];
      assert s[1..][a..b] == s[a + 1..b + 1];
      assert Trimmed(s, white, a + 1, b + 1);
    } else if white(s[|s| - 1]) {
      TrimIs(s[..|s| - 1], white);
      var t := s[..|s| - 1];
      var a: nat, b: nat :| Trimmed(t, white, a, b) && Trim(t, white) == t[a..b];
      assert t[a..b] == s[a..b];
      assert Trimmed(s, white, a, b);
    } else {
      assert s[0..|s|] == s;
      assert Trimmed(s, white, 0, |s|);
    }
  }

  predicate Trimmed(s: seq<uint16>, white: uint16 -> bool, a: nat, b: nat) {
    && a <= b <= |s|
    && (forall i | 0 <= i < a :: white(s[i])) && (forall i | b <= i < |s| :: white(s[i]))
    && (a < b ==> !white(s[a]) && !white(s[b - 1]))
  }

  predicate Alphanumeric(u: uint16) {
    0x61 <= u <= 0x7A || 0x41 <= u <= 0x5A || 0x30 <= u <= 0x39
  }

  lemma {:induction false} Alphanumerics(c: char)
    requires c as int < 0x1_0000
    ensures Alphanumeric(c as int) <==> 'a' <= c <= 'z' || 'A' <= c <= 'Z' || '0' <= c <= '9'
  {}

  /** What RequestRegister demands of its trimmed login id and nickname and its password. */
  predicate Acceptable(login: seq<uint16>, password: seq<uint16>, nickname: seq<uint16>) {
    && 4 <= |login| <= 64 && 2 <= |nickname| <= 16 && 8 <= |password| <= 128
    && forall i | 0 <= i < |login| :: Alphanumeric(login[i])
  }

  function RegisterPacket(login: seq<uint16>, password: seq<uint16>, nickname: seq<uint16>, lone: seq<byte>): Msg {
    Msg([VBytes(Utf8(login, lone)), VBytes(Utf8(password, lone)), VBytes(Utf8(nickname, lone))], [])
  }

  /** RequestRegister up to the sending of its packet. */
  method RequestRegister(connected: bool, loginId: seq<uint16>, password: seq<uint16>, nickname: seq<uint16>,
                         white: uint16 -> bool, lone: seq<byte>) returns (packet: Option<Msg>)
    ensures packet.Some? <==> connected && Acceptable(Trim(loginId, white), password, Trim(nickname, white))
    ensures packet.Some? <==> (
      && connected && 4 <= |Trim(loginId, white)| <= 64 && 8 <= |password| <= 128 && 2 <= |Trim(nickname, white)| <= 16
      && forall i | 0 <= i < |Trim(loginId, white)| :: Alphanumeric(Trim(loginId, white)[i]))
    ensures packet.Some? ==> packet.value == RegisterPacket(Trim(loginId, white), password, Trim(nickname, white), lone)
  {
    if !connected { return None; }
    var login := Trim(loginId, white);
    if |login| < 4 || |login| > 64 { return None; }
    var name := Trim(nickname, white);
    if |name| < 2 || |name| > 16 { return None; }
    if |password| < 8 || |password| > 128 { return None; }
    for i := 0 to |login|
      invariant forall k | 0 <= k < i :: Alphanumeric(login[k])
    {
      var letter := (login[i] >= 0x61 && login[i] <= 0x7A) || (login[i] >= 0x41 && login[i] <= 0x5A);
      var digit := login[i] >= 0x30 && login[i] <= 0x39;
      if !letter && !digit { return None; }
    }
    return Some(RegisterPacket(login, password, name, lone));
  }

  // ------------------------------------------------------------------ its contents

  lemma {:induction false} AsciiBytes(s: seq<uint16>, lone: seq<byte>)
    requires forall i | 0 <= i < |s| :: Alphanumeric(s[i])
    ensures |Utf8(s, lone)| == |s| && forall i | 0 <= i < |s| :: Utf8(s, lone)[i] == s[i]
  {
    if s != [] { AsciiBytes(s[1..], lone); }
  }

  /** What the server finds in the bytes sent: records with the numbers 1, 2 and 3, except for an empty string; the
      first holds the letters of the login id, and the others decode to the password and the nickname. */
  lemma {:induction false} RegisterCarries(login: seq<uint16>, password: seq<uint16>, nickname: seq<uint16>,
                                           lone: seq<byte>)
    requires Acceptable(login, password, nickname) && |lone| <= 3 && ValidUtf8(lone)
    ensures ValidSchema(RegisterSchema()) && Conforms(RegisterSchema(), RegisterPacket(login, password, nickname, lone))
    ensures var sent := Serialize(RegisterSchema(), RegisterPacket(login, password, nickname, lone));
      exists m :: ParseFromArray(RegisterSchema(), sent) == Some(m) && |m.vals| == 3
        && sent == EncodeRecs(TextRecords(m)) && CarriesLetters(m.vals[0], login)
        && (Proper(password) ==> CarriesText(m.vals[1], password))
        && (Proper(nickname) ==> CarriesText(m.vals[2], nickname))
  {
    hide Serialize, Parse, Utf8, Conforms, ValidUtf8, Decoded, ValidSchema;
    RegisterFits(login, password, nickname, lone);
    var m := RegisterPacket(login, password, nickname, lone);
    AsciiBytes(login, lone);
    if Proper(password) { Utf8Decodes(password, lone); }
    if Proper(nickname) { Utf8Decodes(nickname, lone); }
    RegisterRecords(m);
  }

  predicate CarriesLetters(v: Val, s: seq<uint16>) {
    v.VBytes? && |v.s| == |s| && forall i | 0 <= i < |s| :: v.s[i] == s[i]
  }

  predicate CarriesText(v: Val, s: seq<uint16>) { v.VBytes? && Decoded(v.s) == Some(s) }

  function TextRecord(num: nat, v: Val): seq<Rec> { if v.VBytes? && v.s != [] then [LenRec(num, v.s)] else [] }

  function TextRecords(m: Msg): seq<Rec>
    requires |m.vals| == 3
  {
    TextRecord(1, m.vals[0]) + TextRecord(2, m.vals[1]) + TextRecord(3, m.vals[2])
  }

  lemma {:induction false} RegisterRecords(m: Msg)
    requires Conforms(RegisterSchema(), m) && m.unknown == []
    ensures |m.vals| == 3 && Serialize(RegisterSchema(), m) == EncodeRecs(TextRecords(m))
  {
    var S := RegisterSchema();
    assert ValConforms(S.fields[0].kind, m.vals[0]) && ValConforms(S.fields[1].kind, m.vals[1])
      && ValConforms(S.fields[2].kind, m.vals[2]);
    assert KnownRecs(S, m, 0) == [];
    assert KnownRecs(S, m, 1) == TextRecord(1, m.vals[0]);
    assert KnownRecs(S, m, 2) == TextRecord(1, m.vals[0]) + TextRecord(2, m.vals[1]);
    assert Records(S, m) == TextRecords(m);
  }

  // ------------------------------------------------------------------ its length

  lemma {:induction false} RegisterConforms(m: Msg)
    requires |m.vals| == 3 && m.vals[0].VBytes? && m.vals[1].VBytes? && m.vals[2].VBytes? && m.unknown == []
    ensures Conforms(RegisterSchema(), m)
  {
    hide ValConforms;
    var S := RegisterSchema();
    forall i | 0 <= i < |S.fields| ensures ValConforms(S.fields[i].kind, m.vals[i]) {
      StringConforms(m.vals[i]);
    }
  }

  lemma {:induction false} StringConforms(v: Val)
    requires v.VBytes?
    ensures ValConforms(KString, v)
  {}

  /** The size of a string field of up to 127, and of up to 16383 bytes. */
  lemma {:induction false} StringFieldSize(f: Field, s: seq<byte>)
    requires 1 <= f.num <= 15 && f.kind == KString && 0 < |s| < 16384
    ensures FieldSize(f, VBytes(s)) == |s| + if |s| < 128 then 2 else 3
  {
    hide VarintSize, EncodeVarint, FieldSize;
    StringSize(f, VBytes(s));
    VarintSizeExact(|s|);
    assert Pow128(1) == 128 && Pow128(2) == 16384;
    VarintLength(|s|, 1);
    VarintLength(|s|, 2);
  }

  lemma {:induction false} StringFieldBound(f: Field, s: seq<byte>)
    requires 1 <= f.num <= 15 && f.kind == KString && |s| < 16384
    ensures FieldSize(f, VBytes(s)) <= |s| + if |s| < 128 then 2 else 3
  {
    if s == [] { StringSize(f, VBytes(s)); } else { StringFieldSize(f, s); }
  }

  /** Every registration the client accepts has at most 503 bytes, so its frame has at most 507 and neither 16-bit
      size loses anything; and the packet survives the trip. */
  lemma {:induction false} RegisterFits(login: seq<uint16>, password: seq<uint16>, nickname: seq<uint16>,
                                        lone: seq<byte>)
    requires Acceptable(login, password, nickname) && |lone| <= 3 && ValidUtf8(lone)
    ensures var S, m := RegisterSchema(), RegisterPacket(login, password, nickname, lone);
      && ValidSchema(S) && Conforms(S, m) && |Serialize(S, m)| <= 503
      && |Frame(PKT_C_REGISTER, Serialize(S, m))| <= 507
      && ParseFromArray(S, Serialize(S, m)) == Some(m)
  {
    hide Serialize, Parse, FieldSize, LongSize, Utf8, Conforms, ValidUtf8, Plain;
    var S, m := RegisterSchema(), RegisterPacket(login, password, nickname, lone);
    RegisterConforms(m);
    AsciiBytes(login, lone);
    Utf8Length(password, lone);
    Utf8Length(nickname, lone);
    LeavesValid();
    LongSizeExact(S, m);
    MessageSize(S, m);
    SumOf3(S, m);
    StringFieldBound(S.fields[0], m.vals[0].s);
    StringFieldBound(S.fields[1], m.vals[1].s);
    StringFieldBound(S.fields[2], m.vals[2].s);
    assert |Serialize(S, m)| <= 503;
    Utf8Valid(login, lone);
    Utf8Valid(password, lone);
    Utf8Valid(nickname, lone);
    RegisterPlain(m);
    ScalarsShallow(S, RECURSION_LIMIT);
    PlainRoundTrip(S, m);
  }

  lemma {:induction false} RegisterPlain(m: Msg)
    requires Conforms(RegisterSchema(), m) && m.unknown == []
    requires forall i | 0 <= i < 3 :: m.vals[i].VBytes? && ValidUtf8(m.vals[i].s)
    ensures Plain(RegisterSchema(), m)
  {
    hide ValidUtf8, ValConforms, PlainVal;
    var S := RegisterSchema();
    forall i | 0 <= i < 3 ensures ValConforms(S.fields[i].kind, m.vals[i]) && PlainVal(S.fields[i].kind, m.vals[i]) {
      StringPlain(m.vals[i]);
    }
  }

  lemma {:induction false} StringPlain(v: Val)
    requires v.VBytes? && ValidUtf8(v.s)
    ensures ValConforms(KString, v) && PlainVal(KString, v)
  {}

  /** n copies of one unit. */
  function Copies(u: uint16, n: nat): (s: seq<uint16>)
    ensures |s| == n && forall i | 0 <= i < n :: s[i] == u
  {
    seq(n, _ => u)
  }

  lemma {:induction false} CopiesLength(u: uint16, n: nat, lone: seq<byte>)
    requires u >= 0x800 && !High(u) && !Low(u)
    ensures |Utf8(Copies(u, n), lone)| == 3 * n
  {
    if n > 0 {
      assert Copies(u, n)[1..] == Copies(u, n - 1);
      CopiesLength(u, n - 1, lone);
    }
  }

  /** The bound is sharp: 64 letters, and a password and a nickname of Hangul syllables. */
  lemma {:induction false} BoundAttained(lone: seq<byte>)
    ensures var login, password, nickname := Copies(0x61, 64), Copies(0xAC00, 128), Copies(0xAC00, 16);
      && Acceptable(login, password, nickname)
      && var m := RegisterPacket(login, password, nickname, lone);
         Conforms(RegisterSchema(), m) && |Serialize(RegisterSchema(), m)| == 503
  {
    hide Serialize, Utf8, Conforms;
    var login, password, nickname := Copies(0x61, 64), Copies(0xAC00, 128), Copies(0xAC00, 16);
    AsciiBytes(login, lone);
    CopiesLength(0xAC00, 128, lone);
    CopiesLength(0xAC00, 16, lone);
    RegisterLength(Utf8(login, lone), Utf8(password, lone), Utf8(nickname, lone));
  }

  /** The exact length of a registration packet. */
  lemma {:induction false} RegisterLength(a: seq<byte>, b: seq<byte>, c: seq<byte>)
    requires 0 < |a| < 128 && 0 < |b| < 16384 && 0 < |c| < 128
    ensures Conforms(RegisterSchema(), Msg([VBytes(a), VBytes(b), VBytes(c)], []))
    ensures |Serialize(RegisterSchema(), Msg([VBytes(a), VBytes(b), VBytes(c)], []))|
         == |a| + 2 + |b| + (if |b| < 128 then 2 else 3) + |c| + 2
  {
    hide Conforms, FieldSize, LongSize, Serialize;
    var S, m := RegisterSchema(), Msg([VBytes(a), VBytes(b), VBytes(c)], []);
    RegisterConforms(m);
    LeavesValid();
    LongSizeExact(S, m);
    MessageSize(S, m);
    SumOf3(S, m);
    StringFieldSize(S.fields[0], a);
    StringFieldSize(S.fields[1], b);
    StringFieldSize(S.fields[2], c);
  }
}
