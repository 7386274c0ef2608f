/** From the queue to the handlers: the session holds the packets of the receive worker, and the game thread drains
    the queue through the dispatch table. */
module Sessions {
  import opened Options
  import opened Wire
  import opened Messages
  import opened Packets
  import opened GroupFree
  import opened Frames

  /** What became of a packet. OffTable: the id 65535 lies behind the end of the dispatch table. */
  datatype Outcome = Handled(id: uint16, pkt: Msg) | Unparsed(id: uint16) | Invalid | OffTable

  datatype Handler = HandleInvalid | Parsing(id: uint16)

  const TABLE_SIZE: nat := 65535

  /** The handler registered for an id. */
  function Registered(id: uint16): Handler {
    if ServerSchema(id).Some? then Parsing(id) else HandleInvalid
  }

  /** What HandlePacket does with a packet. */
  function Dispatch(p: seq<byte>): Outcome
    requires |p| >= HEADER
  {
    var id := IdOf(p);
    if id >= TABLE_SIZE then OffTable
    else match ServerSchema(id)
      case None => Invalid
      case Some(S) =>
        ServerSchemaValid(id);
        match ParseFromArray(S, p[HEADER..])
        case None => Unparsed(id)
        case Some(m) => Handled(id, m)
  }

  /** Only packets of the 18 server types reach a handler, and only if their payload parses. */
  lemma {:induction false} DispatchIs(p: seq<byte>)
    requires |p| >= HEADER
    ensures Dispatch(p) == OffTable <==> IdOf(p) == 65535
    ensures Dispatch(p) == Invalid <==> IdOf(p) != 65535 && ServerSchema(IdOf(p)).None?
    ensures forall id, m :: Dispatch(p) == Handled(id, m) ==>
      && id == IdOf(p) && ServerSchema(id).Some? && ValidSchema(ServerSchema(id).value)
      && ParseFromArray(ServerSchema(id).value, p[HEADER..]) == Some(m)
    ensures forall id :: Dispatch(p) == Unparsed(id) ==>
      && id == IdOf(p) && ServerSchema(id).Some? && ValidSchema(ServerSchema(id).value)
      && ParseFromArray(ServerSchema(id).value, p[HEADER..]) == None
  {
    hide ServerSchema, Parse, ValidSchema, Shallow;
    if ServerSchema(IdOf(p)).Some? { ServerSchemaValid(IdOf(p)); }
    LastId();
  }

  lemma {:induction false} LastId()
    ensures ServerSchema(65535).None?
  {}

  function DispatchAll(ps: seq<seq<byte>>): (os: seq<Outcome>)
    requires forall i | 0 <= i < |ps| :: |ps[i]| >= HEADER
    ensures |os| == |ps| && forall i | 0 <= i < |ps| :: os[i] == Dispatch(ps[i])
  {
    seq(|ps|, i requires 0 <= i < |ps| => Dispatch(ps[i]))
  }

  /** The entries below n are final, the others still invalid. */
  ghost predicate Filled(table: seq<Handler>, n: nat) {
    && |table| == TABLE_SIZE
    && forall i: uint16 | 0 <= i < TABLE_SIZE :: table[i] == if i < n then Registered(i) else HandleInvalid
  }

  /** No server packet has an id from a up to b. */
  predicate Gap(a: nat, b: uint16) { forall i: uint16 | a <= i < b :: ServerSchema(i).None? }

  class PacketSession {
    var handlers: array<Handler>
    var recvPacketQueue: seq<seq<byte>>
    /** The calls of the handlers so far, with their packets. */
    var calls: seq<Outcome>

    ghost predicate Valid()
      reads this, handlers
    {
      && handlers.Length == TABLE_SIZE
      && (forall i: uint16 | 0 <= i < TABLE_SIZE :: handlers[i] == Registered(i))
      && (forall i | 0 <= i < |recvPacketQueue| :: |recvPacketQueue[i]| >= HEADER)
    }

    constructor ()
      ensures Valid() && fresh(handlers) && recvPacketQueue == [] && calls == []
    {
      handlers := new Handler[TABLE_SIZE](_ => HandleInvalid);
      recvPacketQueue, calls := [], [];
      new;
      Init();
    }

    /** Init: every entry invalid, then one entry per server packet. */
    method Init()
      requires handlers.Length == TABLE_SIZE
      modifies handlers
      ensures forall i: uint16 | 0 <= i < TABLE_SIZE :: handlers[i] == Registered(i)
    {
      var i := 0;
      while i < TABLE_SIZE
        invariant 0 <= i <= TABLE_SIZE
        invariant forall k | 0 <= k < i :: handlers[k] == HandleInvalid
      {
        handlers[i] := HandleInvalid;
        i := i + 1;
      }
      Register(PKT_S_LOGIN, 0);
      Register(PKT_S_REGISTER, PKT_S_LOGIN + 1);
      Register(PKT_S_ROOM_LIST, PKT_S_REGISTER + 1);
      Register(PKT_S_CREATE_ROOM, PKT_S_ROOM_LIST + 1);
      Register(PKT_S_ENTER_ROOM, PKT_S_CREATE_ROOM + 1);
      Register(PKT_S_LEAVE_ROOM, PKT_S_ENTER_ROOM + 1);
      Register(PKT_S_ROOM_STATE, PKT_S_LEAVE_ROOM + 1);
      Register(PKT_S_MATCH_PREPARE, PKT_S_ROOM_STATE + 1);
      Register(PKT_S_MATCH_START, PKT_S_MATCH_PREPARE + 1);
      Register(PKT_S_MATCH_STATE, PKT_S_MATCH_START + 1);
      Register(PKT_S_PLAYER_STATE, PKT_S_MATCH_STATE + 1);
      Register(PKT_S_PLAYER_RESPAWN, PKT_S_PLAYER_STATE + 1);
      Register(PKT_S_MOVE, PKT_S_PLAYER_RESPAWN + 1);
      Register(PKT_S_FIRE, PKT_S_MOVE + 1);
      Register(PKT_S_PLAYER_DESPAWN, PKT_S_FIRE + 1);
      Register(PKT_S_MATCH_END, PKT_S_PLAYER_DESPAWN + 1);
      Register(PKT_S_RETURN_TO_ROOM, PKT_S_MATCH_END + 1);
      Register(PKT_S_CHAT, PKT_S_RETURN_TO_ROOM + 1);
    }

    method Register(id: uint16, ghost n: nat)
      requires Filled(handlers[..], n) && n <= id < TABLE_SIZE && Gap(n, id) && ServerSchema(id).Some?
      modifies handlers
      ensures Filled(handlers[..], id + 1)
    {
      hide ServerSchema;
      handlers[id] := Parsing(id);
    }

    method HandlePacket(packet: seq<byte>)
      requires Valid() && |packet| >= HEADER
      modifies this`calls
      ensures Valid() && calls == old(calls) + [Dispatch(packet)]
    {
      hide Parse;
      var id := IdOf(packet);
      if id >= TABLE_SIZE {
        calls := calls + [OffTable];
        return;
      }
      match handlers[id] {
        case HandleInvalid => calls := calls + [Invalid];
        case Parsing(k) =>
          ServerSchemaValid(k);
          var pkt := ParseFromArray(ServerSchema(k).value, packet[HEADER..]);
          calls := calls + [if pkt.None? then Unparsed(k) else Handled(k, pkt.value)];
      }
    }

    /** HandleRecvPackets: dequeue and dispatch until the queue is empty. arrivals[k] is what the receive worker
        enqueues before dequeue k, and nothing arrives behind the list. The loop ends at the first dequeue that
        finds the queue empty: every dequeue before had a packet left, and dequeue used - 1 has none. */
    method HandleRecvPackets(arrivals: seq<seq<seq<byte>>>) returns (used: nat)
      requires Valid() && forall k | 0 <= k < |arrivals| :: Headed(arrivals[k])
      modifies this`recvPacketQueue, this`calls
      ensures Valid() && recvPacketQueue == [] && used <= |arrivals|
      ensures forall k | 0 < k < used :: |old(recvPacketQueue)| + |Flatten(arrivals[..k])| >= k
      ensures used < |arrivals| ==> |old(recvPacketQueue)| + |Flatten(arrivals[..used])| + 1 == used
      ensures Headed(old(recvPacketQueue) + Flatten(arrivals[..used]))
      ensures calls == old(calls) + DispatchAll(old(recvPacketQueue) + Flatten(arrivals[..used]))
    {
      hide Dispatch, DispatchAll, Flatten;
      used := 0;
      ghost var done: seq<seq<byte>> := [];
      NothingYet(arrivals);
      while true
        invariant Valid() && used <= |arrivals|
        invariant Headed(done) && done + recvPacketQueue == old(recvPacketQueue) + Flatten(arrivals[..used])
        invariant calls == old(calls) + DispatchAll(done)
        invariant forall k | 0 < k <= used :: |old(recvPacketQueue)| + |Flatten(arrivals[..k])| >= k
        invariant used < |arrivals| ==> |done| == used
        decreases |arrivals| - used, |recvPacketQueue|
      {
        if used < |arrivals| {
          FlattenNext(arrivals, used);
          assert done + (recvPacketQueue + arrivals[used]) == (done + recvPacketQueue) + arrivals[used];
          assert (old(recvPacketQueue) + Flatten(arrivals[..used])) + arrivals[used]
              == old(recvPacketQueue) + (Flatten(arrivals[..used]) + arrivals[used]);
          recvPacketQueue := recvPacketQueue + arrivals[used];
          used := used + 1;
        }
        if recvPacketQueue == [] { break; }
        var packet := recvPacketQueue[0];
        assert done + recvPacketQueue == (done + [packet]) + recvPacketQueue[1..];
        recvPacketQueue := recvPacketQueue[1..];
        HandlePacket(packet);
        DispatchNext(done, packet);
        done := done + [packet];
      }
      assert done == done + recvPacketQueue;
    }
  }

  lemma {:induction false} NothingYet(arrivals: seq<seq<seq<byte>>>)
    ensures Flatten(arrivals[..0]) == [] && DispatchAll([]) == []
  {}

  lemma {:induction false} DispatchNext(done: seq<seq<byte>>, packet: seq<byte>)
    requires Headed(done) && |packet| >= HEADER
    ensures Headed(done + [packet]) && DispatchAll(done + [packet]) == DispatchAll(done) + [Dispatch(packet)]
  {
    hide Dispatch;
  }

  predicate Headed(ps: seq<seq<byte>>) { forall i | 0 <= i < |ps| :: |ps[i]| >= HEADER }

  function Flatten(xs: seq<seq<seq<byte>>>): seq<seq<byte>> {
    if xs == [] then [] else Flatten(xs[..|xs| - 1]) + xs[|xs| - 1]
  }

  lemma {:induction false} FlattenNext(xs: seq<seq<seq<byte>>>, k: nat)
    requires k < |xs|
    ensures Flatten(xs[..k + 1]) == Flatten(xs[..k]) + xs[k]
  {
    assert xs[..k + 1][..k] == xs[..k];
  }

  // ------------------------------------------------------------------ end to end

  /** A message of the type that the server sends under its id. */
  predicate FromServer(x: Letter) { ServerSchema(x.id) == Some(x.S) }

  /** What the client makes of a message of the server. */
  function Reception(x: Letter): Outcome
    requires Postable(x)
  {
    if Sendable(x.S, x.m, RECURSION_LIMIT) then Handled(x.id, x.m) else Unparsed(x.id)
  }

  /** Whatever messages the server frames into one stream, the client's handlers get, in order, exactly the sendable
      ones; the others are reported, each as one packet of its id that does not parse. Bytes of a further packet that
      is still incomplete do no harm. */
  lemma {:induction false} Handed(xs: seq<Letter>, t: seq<byte>)
    requires (forall i | 0 <= i < |xs| :: Postable(xs[i]) && FromServer(xs[i])) && NextPacket(t).None?
    ensures var (packets, rest) := Split(Stream(PackedAll(xs)) + t);
      && rest == t && Headed(packets) && |packets| == |xs|
      && forall i | 0 <= i < |xs| :: Dispatch(packets[i]) == Reception(xs[i])
  {
    hide Dispatch, Postable, PackedAll, Stream, Split, Carried, FromServer, Reception;
    Delivered(xs, t);
    var packets := Split(Stream(PackedAll(xs)) + t).0;
    forall i | 0 <= i < |xs| ensures |packets[i]| >= HEADER && Dispatch(packets[i]) == Reception(xs[i]) {
      HandedOne(packets[i], xs[i]);
    }
  }

  lemma {:induction false} HandedOne(p: seq<byte>, x: Letter)
    requires Postable(x) && Carried(p, x) && FromServer(x)
    ensures |p| >= HEADER && Dispatch(p) == Reception(x)
  {
    hide Parse, ValidSchema, Shallow, Conforms, Serialize, Sendable;
    ServerSchemaValid(x.id);
  }
}
