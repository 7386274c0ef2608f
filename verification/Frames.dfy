/** The packet frame: a four-byte header, size and id as little-endian 16-bit numbers, and the payload.
    Frames follow one another in a byte stream without separators. */
module Frames {
  import opened Options
  import opened Wire
  import opened Messages
  import opened Writer
  import opened Sizes
  import opened RoundTrip
  import opened Packets

  const HEADER: nat := 4
  /** The longest payload whose frame length fits 16 bits. */
  const MAX_PAYLOAD: nat := 65531

  function Little(v: uint16): seq<byte> { [v % 256, v / 256] }

  function Frame(id: uint16, payload: seq<byte>): (f: seq<byte>)
    requires |payload| <= MAX_PAYLOAD
    ensures |f| == HEADER + |payload|
  {
    Little(HEADER + |payload|) + Little(id) + payload
  }

  function SizeOf(p: seq<byte>): uint16
    requires |p| >= HEADER
  {
    p[0] as int + 256 * (p[1] as int)
  }

  function IdOf(p: seq<byte>): uint16
    requires |p| >= HEADER
  {
    p[2] as int + 256 * (p[3] as int)
  }

  /** The first packet of a stream, header included, if it has arrived completely. */
  function NextPacket(s: seq<byte>): (r: Option<(seq<byte>, seq<byte>)>)
    ensures r.Some? ==> s == r.value.0 + r.value.1 && HEADER <= |r.value.0| == SizeOf(r.value.0)
  {
    if |s| < HEADER || SizeOf(s) < HEADER || |s| < SizeOf(s) then None
    else Some((s[..SizeOf(s)], s[SizeOf(s)..]))
  }

  /** All complete packets at the front of a stream, and what remains. */
  function Split(s: seq<byte>): (r: (seq<seq<byte>>, seq<byte>))
    ensures NextPacket(r.1).None?
    decreases |s|
  {
    match NextPacket(s)
    case None => ([], s)
    case Some((p, rest)) => ([p] + Split(rest).0, Split(rest).1)
  }

  /** A message on its way, as id and payload. */
  datatype Parcel = Parcel(id: uint16, payload: seq<byte>)

  predicate Fits(ps: seq<Parcel>) { forall i | 0 <= i < |ps| :: |ps[i].payload| <= MAX_PAYLOAD }

  function Stream(ps: seq<Parcel>): seq<byte>
    requires Fits(ps)
  {
    if ps == [] then [] else Frame(ps[0].id, ps[0].payload) + Stream(ps[1..])
  }

  lemma {:induction false} FrameHeader(id: uint16, payload: seq<byte>, t: seq<byte>)
    requires |payload| <= MAX_PAYLOAD
    ensures var f := Frame(id, payload);
      && SizeOf(f) == |f| && IdOf(f) == id && f[HEADER..] == payload
      && NextPacket(f + t) == Some((f, t))
  {
    var f := Frame(id, payload);
    assert (f + t)[..|f|] == f && (f + t)[|f|..] == t;
  }

  /** The bytes of a frame: its length and its id, low byte first, and the payload. */
  lemma {:induction false} FrameBytes(id: uint16, payload: seq<byte>)
    requires |payload| <= MAX_PAYLOAD
    ensures var f := Frame(id, payload);
      && |f| == 4 + |payload| && f[0] == |f| % 256 && f[1] == |f| / 256 && f[2] == id % 256 && f[3] == id / 256
      && f[4..] == payload
  {}

  function FramesOf(ps: seq<Parcel>): (fs: seq<seq<byte>>)
    requires Fits(ps)
    ensures |fs| == |ps| && forall i | 0 <= i < |ps| :: fs[i] == Frame(ps[i].id, ps[i].payload)
  {
    if ps == [] then [] else [Frame(ps[0].id, ps[0].payload)] + FramesOf(ps[1..])
  }

  /** Frames are self-delimiting: the stream falls apart into exactly the frames that were sent, in order, and
      the beginning of a further packet stays for later. */
  lemma {:induction false} SplitFrames(ps: seq<Parcel>, t: seq<byte>)
    requires Fits(ps) && NextPacket(t).None?
    ensures Split(Stream(ps) + t) == (FramesOf(ps), t)
  {
    hide Frame, NextPacket;
    if ps == [] {
      assert Stream(ps) + t == t;
    } else {
      Associate(Frame(ps[0].id, ps[0].payload), Stream(ps[1..]), t);
      FrameHeader(ps[0].id, ps[0].payload, Stream(ps[1..]) + t);
      SplitFrames(ps[1..], t);
    }
  }

  /** Splitting as bytes arrive is splitting them all at once, however the stream is cut. */
  lemma {:induction false} SplitIncremental(a: seq<byte>, b: seq<byte>)
    ensures Split(a + b).0 == Split(a).0 + Split(Split(a).1 + b).0
    ensures Split(a + b).1 == Split(Split(a).1 + b).1
    decreases |a|
  {
    hide NextPacket;
    match NextPacket(a) {
      case None =>
        assert Split(a) == ([], a);
        assert [] + Split(a + b).0 == Split(a + b).0;
      case Some((p, rest)) =>
        NextPacketAppend(a, b, p, rest);
        SplitIncremental(rest, b);
        var more := Split(Split(rest).1 + b).0;
        assert [p] + (Split(rest).0 + more) == ([p] + Split(rest).0) + more;
    }
  }

  lemma {:induction false} NextPacketAppend(a: seq<byte>, b: seq<byte>, p: seq<byte>, rest: seq<byte>)
    requires NextPacket(a) == Some((p, rest))
    ensures NextPacket(a + b) == Some((p, rest + b))
  {
    Associate(p, rest, b);
    assert (a + b)[..|p|] == p && (a + b)[|p|..] == rest + b;
  }

  lemma {:induction false} HeadIs(f: seq<byte>, size: uint16, id: uint16)
    requires |f| >= HEADER && f[..HEADER] == Little(size) + Little(id)
    ensures SizeOf(f) == size && IdOf(f) == id
  {
    assert f[0] == f[..HEADER][0] && f[1] == f[..HEADER][1] && f[2] == f[..HEADER][2] && f[3] == f[..HEADER][3];
  }

  lemma {:induction false} FrameIs(f: seq<byte>, id: uint16, payload: seq<byte>)
    requires |payload| <= MAX_PAYLOAD && |f| == HEADER + |payload|
    requires f[..HEADER] == Little(|f|) + Little(id) && f[HEADER..HEADER + |payload|] == payload
    ensures f == Frame(id, payload) && SizeOf(f) == |f| && IdOf(f) == id
  {
    assert f == f[..HEADER] + f[HEADER..];
    HeadIs(f, |f|, id);
  }

  /** The two sizes of a frame for a message of this many bytes, both cut to 16 bits. */
  function DataSize(byteSize: nat): uint16 { byteSize % 0x1_0000 }

  function PacketSize(byteSize: nat): uint16 { (DataSize(byteSize) + HEADER) % 0x1_0000 }

  /** SerializeToArray into size bytes from position t: refused when the message does not fit. */
  method SerializeToArray(S: Schema, m: Msg, a: array<byte>, t: nat, size: nat) returns (ok: bool)
    requires ValidSchema(S) && Conforms(S, m) && t + size <= a.Length
    modifies a
    ensures ok <==> |Serialize(S, m)| <= INT_MAX && |Serialize(S, m)| <= size
    ensures if ok then Wrote(old(a[..]), a[..], t, Serialize(S, m)) else a[..] == old(a[..])
  {
    hide Serialize, Conforms, ValidSchema, LongSize, Wrote;
    var byteSize := LongSize(S, m);
    LongSizeExact(S, m);
    if byteSize > INT_MAX || size < byteSize { return false; }
    var end := WriteRaw(a, t, Serialize(S, m));
    return true;
  }

  /** MakeSendBuffer: both sizes are cut to 16 bits, and a message that is then too long for its buffer is not
      written. None stands for a buffer that has no room for the header. */
  method MakeSendBuffer(S: Schema, m: Msg, id: uint16) returns (buffer: Option<array<byte>>)
    requires ValidSchema(S) && Conforms(S, m)
    ensures buffer.Some? <==> PacketSize(LongSize(S, m)) >= HEADER
    ensures buffer.Some? ==> fresh(buffer.value) && buffer.value.Length == PacketSize(LongSize(S, m))
    ensures buffer.Some? ==> SizeOf(buffer.value[..]) == buffer.value.Length && IdOf(buffer.value[..]) == id
    ensures |Serialize(S, m)| <= MAX_PAYLOAD ==> buffer.Some? && buffer.value[..] == Frame(id, Serialize(S, m))
    ensures |Serialize(S, m)| > MAX_PAYLOAD ==> buffer.None? || buffer.value.Length < HEADER + |Serialize(S, m)|
  {
    hide Serialize, Conforms, ValidSchema, Frame, SizeOf, IdOf, LongSize;
    LongSizeExact(S, m);
    var dataSize: uint16 := LongSize(S, m) % 0x1_0000;
    var packetSize: uint16 := (dataSize + HEADER) % 0x1_0000;
    if packetSize < HEADER { return None; }
    var a := new byte[packetSize];
    a[0], a[1], a[2], a[3] := packetSize % 256, packetSize / 256, id % 256, id / 256;
    ghost var head := a[..];
    assert head[..HEADER] == Little(packetSize) + Little(id);
    HeadIs(head, packetSize, id);
    var ok := SerializeToArray(S, m, a, HEADER, dataSize);
    if ok {
      assert a[..HEADER] == head[..HEADER];
      FrameIs(a[..], id, Serialize(S, m));
    }
    return Some(a);
  }

  // ------------------------------------------------------------------ any list of messages

  /** A message to be sent: its type, its packet id and its contents. */
  datatype Letter = Letter(S: Schema, id: uint16, m: Msg)

  /** A message of a valid type that fits a frame. */
  predicate Postable(x: Letter) {
    ValidSchema(x.S) && Conforms(x.S, x.m) && |Serialize(x.S, x.m)| <= MAX_PAYLOAD
  }

  function Packed(x: Letter): (p: Parcel)
    requires Postable(x)
    ensures |p.payload| <= MAX_PAYLOAD
  {
    Parcel(x.id, Serialize(x.S, x.m))
  }

  function PackedAll(xs: seq<Letter>): (ps: seq<Parcel>)
    requires forall i | 0 <= i < |xs| :: Postable(xs[i])
    ensures Fits(ps) && |ps| == |xs| && forall i | 0 <= i < |xs| :: ps[i] == Packed(xs[i])
  {
    seq(|xs|, i requires 0 <= i < |xs| => Packed(xs[i]))
  }

  /** Packet p carries x: it has the id of x, and its payload parses to the contents of x if x is sendable, and does
      not parse otherwise. */
  predicate Carried(p: seq<byte>, x: Letter)
    requires Postable(x)
  {
    && |p| >= HEADER && IdOf(p) == x.id
    && ParseFromArray(x.S, p[HEADER..]) == if Sendable(x.S, x.m, RECURSION_LIMIT) then Some(x.m) else None
  }

  /** The session sends one buffer after the other; the stream is that of all the frames. */
  method SendAll(xs: seq<Letter>) returns (stream: seq<byte>)
    requires forall i | 0 <= i < |xs| :: Postable(xs[i])
    ensures stream == Stream(PackedAll(xs))
    ensures Split(stream).1 == [] && |Split(stream).0| == |xs|
    ensures forall i | 0 <= i < |xs| :: Carried(Split(stream).0[i], xs[i])
  {
    hide Postable, Frame, Packed, Carried, Split;
    stream := [];
    var n := 0;
    StreamStarts();
    while n < |xs|
      invariant 0 <= n <= |xs| && stream == Stream(PackedAll(xs)[..n])
    {
      var packet := Send(xs[n]);
      StreamNext(PackedAll(xs), n);
      stream := stream + packet;
      n := n + 1;
    }
    assert PackedAll(xs)[..n] == PackedAll(xs) && stream + [] == stream;
    Delivered(xs, []);
  }

  method Send(x: Letter) returns (packet: seq<byte>)
    requires Postable(x)
    ensures packet == Frame(Packed(x).id, Packed(x).payload)
  {
    hide Frame, Serialize, Conforms, ValidSchema;
    var buffer := MakeSendBuffer(x.S, x.m, x.id);
    packet := buffer.value[..];
  }

  lemma {:induction false} StreamStarts()
    ensures Stream([]) == []
  {}

  lemma {:induction false} StreamNext(ps: seq<Parcel>, n: nat)
    requires Fits(ps) && n < |ps|
    ensures Stream(ps[..n + 1]) == Stream(ps[..n]) + Frame(ps[n].id, ps[n].payload)
    decreases n
  {
    hide Frame;
    if n == 0 {
      assert ps[..1] == [ps[0]] && ps[..1][1..] == [] && ps[..0] == [];
    } else {
      StreamNext(ps[1..], n - 1);
      assert ps[..n + 1][1..] == ps[1..][..n] && ps[..n][1..] == ps[1..][..n - 1];
      Associate(Frame(ps[0].id, ps[0].payload), Stream(ps[1..][..n - 1]), Frame(ps[n].id, ps[n].payload));
    }
  }

  /** Whatever messages are framed into one stream, one packet per message is cut from it, in order, and carries it;
      bytes of a further packet that is still incomplete stay for later. */
  lemma {:induction false} Delivered(xs: seq<Letter>, t: seq<byte>)
    requires (forall i | 0 <= i < |xs| :: Postable(xs[i])) && NextPacket(t).None?
    ensures var (packets, rest) := Split(Stream(PackedAll(xs)) + t);
      rest == t && |packets| == |xs| && forall i | 0 <= i < |xs| :: Carried(packets[i], xs[i])
  {
    hide Frame, Packed, Postable, Carried;
    SplitFrames(PackedAll(xs), t);
    var packets := FramesOf(PackedAll(xs));
    forall i | 0 <= i < |xs| ensures Carried(packets[i], xs[i]) {
      DeliveredOne(xs[i]);
    }
  }

  lemma {:induction false} DeliveredOne(x: Letter)
    requires Postable(x)
    ensures Carried(Frame(Packed(x).id, Packed(x).payload), x)
  {
    hide Frame, Parse, Serialize, Sendable, Conforms, ValidSchema;
    FrameHeader(x.id, Serialize(x.S, x.m), []);
    RoundTripExactly(x.S, x.m);
  }
}
