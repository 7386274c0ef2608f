/** The runtime decodes varints without masking continuation bits: each byte is added minus one at its place,
    and the borrow cancels the bit below. All arithmetic wraps at 32 or 64 bits. The loops here are that code;
    they compute the plain decoding, reduced to the width. */
module VarintParse {
  import opened Options
  import opened Wire

  /** What i continuing bytes contribute to the value. */
  function Low(b: seq<byte>, i: nat): int
    requires i <= |b|
  {
    if i == 0 then 0 else Low(b, i - 1) + (b[i - 1] - 128) * Pow128(i - 1)
  }

  predicate Continuing(b: seq<byte>, i: nat)
    requires i <= |b|
  {
    forall k | 0 <= k < i :: b[k] >= 128
  }

  /** Decoding resumes after any number of continuing bytes. */
  lemma {:induction false} RawVarintFrom(b: seq<byte>, i: nat, max: nat)
    requires i <= |b| && i <= max && Continuing(b, i)
    ensures Low(b, i) >= 0
    ensures RawVarint(b, max) == match RawVarint(b[i..], max - i)
      case None => None
      case Some((v, n)) => Some((Low(b, i) + Pow128(i) * v, i + n))
    decreases i
  {
    if i == 0 {
      assert b[0..] == b;
    } else {
      RawVarintFrom(b, i - 1, max);
      assert b[i - 1..][1..] == b[i..];
      assert Low(b, i) >= 0 by { Product(b[i - 1] - 128, Pow128(i - 1)); }
      match RawVarint(b[i..], max - i) {
        case None =>
        case Some((v, n)) =>
          Distribute(Pow128(i - 1), b[i - 1] - 128, v);
      }
    }
  }

  lemma {:induction false} Product(x: nat, y: nat)
    ensures x * y >= 0
  {}

  lemma {:induction false} Distribute(p: int, x: int, v: int)
    ensures p * (x + 128 * v) == x * p + 128 * p * v
  {}

  /** The accumulator before byte i: the value so far plus one at the place of byte i. */
  function Pending(b: seq<byte>, i: nat): int
    requires i <= |b|
  {
    Low(b, i) + Pow128(i)
  }

  lemma {:induction false} PendingStep(b: seq<byte>, i: nat)
    requires i < |b|
    ensures Pending(b, i) + (b[i] - 1) * Pow128(i) == Low(b, i) + b[i] * Pow128(i)
    ensures Low(b, i) + b[i] * Pow128(i) == Pending(b, i + 1)
  {
    var x, p := b[i] as int, Pow128(i);
    assert (x - 1) * p == x * p - p;
    assert (x - 128) * p == x * p - 128 * p;
  }

  /** (byte - 1) << (7 * i) on w-bit unsigned numbers. */
  function Shift32(x: int, i: nat): uint32 { (x % TWO32) * Pow128(i) % TWO32 }

  function Shift64(x: int, i: nat): uint64 { (x % TWO64) * Pow128(i) % TWO64 }

  lemma {:induction false} Split(q: int, m: int, r: int, p: int)
    ensures (q * m + r) * p == r * p + (q * p) * m
  {
    assert (q * m + r) * p == (q * m) * p + r * p;
    assert (q * m) * p == (q * p) * m;
  }

  lemma {:induction false} Wrap32(e: int, x: int, i: nat)
    ensures (e % TWO32 + Shift32(x, i)) % TWO32 == (e + x * Pow128(i)) % TWO32
  {
    var r, q, p := x % TWO32, x / TWO32, Pow128(i);
    Split(q, TWO32, r, p);
    ModSum32(e, r * p);
    Multiple32(e + r * p, q * p);
  }

  lemma {:induction false} ModSum32(e: int, a: int)
    ensures (e % TWO32 + a % TWO32) % TWO32 == (e + a) % TWO32
  {}

  lemma {:induction false} Multiple32(a: int, k: int)
    ensures (a + k * TWO32) % TWO32 == a % TWO32
  {}

  lemma {:induction false} Wrap64(e: int, x: int, i: nat)
    ensures (e % TWO64 + Shift64(x, i)) % TWO64 == (e + x * Pow128(i)) % TWO64
  {
    var r, q, p := x % TWO64, x / TWO64, Pow128(i);
    Split(q, TWO64, r, p);
    ModSum64(e, r * p);
    Multiple64(e + r * p, q * p);
  }

  lemma {:induction false} ModSum64(e: int, a: int)
    ensures (e % TWO64 + a % TWO64) % TWO64 == (e + a) % TWO64
  {}

  lemma {:induction false} Multiple64(a: int, k: int)
    ensures (a + k * TWO64) % TWO64 == a % TWO64
  {}

  /** The varint ends at byte i. */
  lemma {:induction false} Ends(b: seq<byte>, i: nat, max: nat)
    requires i < |b| && i < max && Continuing(b, i) && b[i] < 128
    ensures RawVarint(b, max) == Some((Low(b, i) + b[i] * Pow128(i), i + 1))
  {
    RawVarintFrom(b, i, max);
    assert b[i..][0] == b[i];
    assert Pow128(i) * b[i] == b[i] * Pow128(i);
  }

  lemma {:induction false} TooLong(b: seq<byte>, max: nat)
    requires max <= |b| && Continuing(b, max)
    ensures RawVarint(b, max) == None
  {
    RawVarintFrom(b, max, max);
  }

  /** The raw decoding reduced modulo m. */
  function Reduced(r: Option<(nat, nat)>, m: int): Option<(nat, nat)>
    requires m > 0
  {
    match r case None => None case Some((v, n)) => Some((v % m, n))
  }

  /** ReadTag with ReadTagFallback: at most five bytes. */
  method ParseTag(b: seq<byte>) returns (r: Option<(nat, nat)>)
    requires |b| >= 5
    ensures r == ReadTag(b)
  {
    hide RawVarint, Low;
    var res: uint32 := b[0];
    if res < 128 {
      Ends(b, 0, 5);
      assert Low(b, 0) + b[0] * Pow128(0) == res by { FirstByte(b); }
      return Some((res, 1));
    }
    var i := 1;
    FirstByte(b);
    while i < 5
      invariant 1 <= i <= 5 && Continuing(b, i) && res == Pending(b, i) % TWO32
    {
      var x: uint32 := b[i];
      Wrap32(Pending(b, i), x - 1, i);
      PendingStep(b, i);
      res := (res + Shift32(x - 1, i)) % TWO32;
      if x < 128 {
        Ends(b, i, 5);
        return Some((res, i + 1));
      }
      i := i + 1;
    }
    TooLong(b, 5);
    return None;
  }

  lemma {:induction false} FirstByte(b: seq<byte>)
    requires |b| >= 1
    ensures Low(b, 0) + b[0] * Pow128(0) == b[0]
    ensures Pending(b, 1) == b[0]
  {
    assert Pow128(1) == 128 * Pow128(0);
    assert Low(b, 1) == Low(b, 0) + (b[0] - 128) * Pow128(0);
  }

  /** VarintParse<uint64_t> with VarintParseSlow64: the first two bytes in 32 bits, the others in 64. */
  method ParseVarint64(b: seq<byte>) returns (r: Option<(nat, nat)>)
    requires |b| >= 10
    ensures r == ReadVarint64(b)
  {
    hide RawVarint, Low, ReadVarint64;
    var res: uint32 := b[0];
    FirstByte(b);
    if res < 128 {
      Ends64(b, 0);
      return Some((res, 1));
    }
    var second: uint32 := b[1];
    Wrap32(Pending(b, 1), second - 1, 1);
    PendingStep(b, 1);
    TwoBytes(b);
    res := (res + Shift32(second - 1, 1)) % TWO32;
    if second < 128 {
      Ends64(b, 1);
      return Some((res, 2));
    }
    r := ParseVarint64Slow(b, res);
  }

  /** VarintParseSlow64. */
  method ParseVarint64Slow(b: seq<byte>, first: uint64) returns (r: Option<(nat, nat)>)
    requires |b| >= 10 && Continuing(b, 2) && first == Pending(b, 2) % TWO64
    ensures r == ReadVarint64(b)
  {
    hide RawVarint, Low, ReadVarint64;
    var res, i := first, 2;
    while i < 10
      invariant 2 <= i <= 10 && Continuing(b, i) && res == Pending(b, i) % TWO64
    {
      var x: uint64 := b[i];
      Wrap64(Pending(b, i), x - 1, i);
      PendingStep(b, i);
      res := (res + Shift64(x - 1, i)) % TWO64;
      if x < 128 {
        Ends64(b, i);
        return Some((res, i + 1));
      }
      i := i + 1;
    }
    TooLong64(b);
    return None;
  }

  lemma {:induction false} Ends64(b: seq<byte>, i: nat)
    requires i < |b| && i < 10 && Continuing(b, i) && b[i] < 128
    ensures ReadVarint64(b) == Some(((Low(b, i) + b[i] * Pow128(i)) % TWO64, i + 1))
  {
    hide RawVarint, Low;
    Ends(b, i, 10);
  }

  lemma {:induction false} TooLong64(b: seq<byte>)
    requires |b| >= 10 && Continuing(b, 10)
    ensures ReadVarint64(b) == None
  {
    hide RawVarint;
    TooLong(b, 10);
  }

  /** Two bytes, the first of them continuing, stay far below 32 bits. */
  lemma {:induction false} TwoBytes(b: seq<byte>)
    requires |b| >= 2 && b[0] >= 128
    ensures var e := Low(b, 1) + b[1] * Pow128(1); 0 <= e && e % TWO32 == e && e % TWO64 == e
  {
    assert Pow128(1) == 128 * Pow128(0);
    assert Low(b, 1) == Low(b, 0) + (b[0] - 128) * Pow128(0);
  }

  /** VarintParse<uint32_t> with VarintParseSlow32: bytes six to ten are read but no longer added. */
  method ParseVarint32(b: seq<byte>) returns (r: Option<(nat, nat)>)
    requires |b| >= 10
    ensures r == Reduced(RawVarint(b, 10), TWO32)
  {
    hide RawVarint, Low;
    var res: uint32 := b[0];
    FirstByte(b);
    if res < 128 {
      Ends(b, 0, 10);
      return Some((res, 1));
    }
    var i := 1;
    while i < 5
      invariant 1 <= i <= 5 && Continuing(b, i) && res == Pending(b, i) % TWO32
    {
      var x: uint32 := b[i];
      Wrap32(Pending(b, i), x - 1, i);
      PendingStep(b, i);
      res := (res + Shift32(x - 1, i)) % TWO32;
      if x < 128 {
        Ends(b, i, 10);
        return Some((res, i + 1));
      }
      i := i + 1;
    }
    while i < 10
      invariant 5 <= i <= 10 && Continuing(b, i) && res == Pending(b, i) % TWO32
    {
      var x: uint32 := b[i];
      PendingStep(b, i);
      Beyond32(Pending(b, i), x - 1, i);
      if x < 128 {
        Ends(b, i, 10);
        return Some((res, i + 1));
      }
      i := i + 1;
    }
    TooLong(b, 10);
    return None;
  }

  /** From the sixth byte on nothing reaches the low 32 bits. */
  lemma {:induction false} Beyond32(e: int, x: int, i: nat)
    requires i >= 5
    ensures (e + x * Pow128(i)) % TWO32 == e % TWO32
  {
    HighPlace(i);
    var k :| Pow128(i) == 8 * TWO32 * k;
    assert x * Pow128(i) == (x * 8 * k) * TWO32;
    Multiple32(e, x * 8 * k);
  }

  lemma {:induction false} HighPlace(i: nat)
    requires i >= 5
    ensures exists k: nat :: Pow128(i) == 8 * TWO32 * k
  {
    if i == 5 {
      Pow128Values();
      assert Pow128(i) == 8 * TWO32 * 1;
    } else {
      HighPlace(i - 1);
      var k: nat :| Pow128(i - 1) == 8 * TWO32 * k;
      assert Pow128(i) == 8 * TWO32 * (128 * k);
    }
  }

  /** ReadSize with ReadSizeFallback: the fifth byte must be below eight. */
  method ParseSize(b: seq<byte>) returns (r: Option<(nat, nat)>)
    requires |b| >= 5
    ensures r == ReadSize(b)
  {
    hide RawVarint, Low, ReadSize, Pow128, Pending, Shift32;
    var res: uint32 := b[0];
    FirstByte(b);
    if res < 128 {
      ShortSize(b, 0);
      return Some((res, 1));
    }
    var i := 1;
    while i < 4
      invariant 1 <= i <= 4 && Continuing(b, i) && res == Pending(b, i) % TWO32
    {
      var x: uint32 := b[i];
      Wrap32(Pending(b, i), x - 1, i);
      PendingStep(b, i);
      res := (res + Shift32(x - 1, i)) % TWO32;
      if x < 128 {
        ShortSize(b, i);
        return Some((res, i + 1));
      }
      i := i + 1;
    }
    r := ParseLastSizeByte(b, res);
  }

  method ParseLastSizeByte(b: seq<byte>, first: uint32) returns (r: Option<(nat, nat)>)
    requires |b| >= 5 && Continuing(b, 4) && first == Pending(b, 4) % TWO32
    ensures r == ReadSize(b)
  {
    hide RawVarint, Low, ReadSize, Pow128, Shift32;
    var x: uint32 := b[4];
    FifthByte(b);
    if x >= 8 { return None; }
    Wrap32(Pending(b, 4), x - 1, 4);
    PendingStep(b, 4);
    var res := (first + Shift32(x - 1, 4)) % TWO32;
    if res > MAX_LENGTH { return None; }
    return Some((res, 5));
  }

  /** A length of five bytes is below 2^31 exactly when the fifth byte is below eight. */
  lemma {:induction false} FifthByte(b: seq<byte>)
    requires |b| >= 5 && Continuing(b, 4)
    ensures b[4] >= 8 ==> ReadSize(b) == None
    ensures b[4] < 8 ==> var e := Low(b, 4) + b[4] * Pow128(4);
      0 <= e && e % TWO32 == e && ReadSize(b) == if e <= MAX_LENGTH then Some((e, 5)) else None
  {
    hide RawVarint, Low;
    LowBound(b, 4);
    if b[4] < 128 { Ends(b, 4, 5); } else { TooLong(b, 5); }
  }

  /** A length of up to four bytes is always small enough. */
  lemma {:induction false} ShortSize(b: seq<byte>, i: nat)
    requires i < 4 && i < |b| && Continuing(b, i) && b[i] < 128
    ensures var e := Low(b, i) + b[i] * Pow128(i);
      0 <= e && e % TWO32 == e && ReadSize(b) == Some((e, i + 1))
  {
    hide RawVarint, Low;
    Ends(b, i, 5);
    LowBound(b, i);
    assert Pow128(1) == 128 && Pow128(2) == 0x4000 && Pow128(3) == 0x20_0000;
    assert i == 0 || i == 1 || i == 2 || i == 3;
  }

  lemma {:induction false} LowBound(b: seq<byte>, i: nat)
    requires i <= |b| && i <= 4 && Continuing(b, i)
    ensures 0 <= Low(b, i) < Pow128(i) && Pow128(4) == 0x1000_0000
  {
    RawVarintFrom(b, i, i);
    assert Pow128(1) == 128 && Pow128(2) == 0x4000 && Pow128(3) == 0x20_0000 && Pow128(4) == 0x1000_0000;
    if i > 0 { LowBound(b, i - 1); }
  }
}
