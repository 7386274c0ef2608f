/** The receive worker: it cuts what the socket delivers into packets. Its calls fail when no data is pending, and a
    failing call may have used up the beginning of a packet. */
module Receiving {
  import opened Options
  import opened Wire
  import opened Frames

  /** What the socket answers during one call of ReceiveDesiredBytes: whether data is pending, and how many bytes the
      successive reads may return at most. A read of no bytes is a closed or failed socket. */
  datatype Answers = Answers(pending: bool, offers: seq<nat>)

  function Min(a: nat, b: nat): nat { if a < b then a else b }

  /** The bytes one read returns: no more than are asked for, and than there are. */
  function OneRead(offers: seq<nat>, size: nat, available: nat): nat {
    if offers == [] then 0 else Min(offers[0], Min(size, available))
  }

  /** The bytes a loop of reads takes before it has size bytes or a read returns none. */
  function Taken(offers: seq<nat>, size: nat, available: nat): (n: nat)
    ensures n <= size && n <= available
    decreases |offers|
  {
    var n := OneRead(offers, size, available);
    if size == 0 || n == 0 then 0 else n + Taken(offers[1..], size - n, available - n)
  }

  function Used(a: Answers, size: nat, available: nat): (n: nat)
    ensures n <= size && n <= available
  {
    if a.pending then Taken(a.offers, size, available) else 0
  }

  predicate Completes(a: Answers, size: nat, available: nat) {
    a.pending && Taken(a.offers, size, available) == size
  }

  /** The answers during one call of ReceivePacket, for the header and for the payload. */
  datatype Round = Round(header: Answers, payload: Answers)

  /** One call of ReceivePacket: the packet, if the call succeeds, and the bytes it uses up either way. */
  function Receive(s: seq<byte>, r: Round): (o: (Option<seq<byte>>, nat))
    ensures o.1 <= |s|
    ensures o.0.Some? ==> NextPacket(s) == Some((o.0.value, s[o.1..]))
  {
    if !Completes(r.header, HEADER, |s|) then (None, Used(r.header, HEADER, |s|))
    else
      var size := SizeOf(s);
      if size == HEADER then (Some(s[..size]), size)
      else if size < HEADER then (None, HEADER)
      else if Completes(r.payload, size - HEADER, |s| - HEADER) then (Some(s[..size]), size)
      else (None, HEADER + Used(r.payload, size - HEADER, |s| - HEADER))
  }

  /** The packets that the calls deliver one after the other, and the stream behind the last call. */
  function ReceiveAll(s: seq<byte>, rounds: seq<Round>): (o: (seq<seq<byte>>, seq<byte>))
    decreases |rounds|
  {
    if rounds == [] then ([], s)
    else
      var (packet, n) := Receive(s, rounds[0]);
      var (packets, rest) := ReceiveAll(s[n..], rounds[1..]);
      ((if packet.Some? then [packet.value] else []) + packets, rest)
  }

  /** No header is pending, or its first read returns nothing. */
  predicate NoHeader(a: Answers, available: nat) {
    !a.pending || OneRead(a.offers, HEADER, available) == 0
  }

  /** Every failing call finds no header. */
  predicate Lossless(s: seq<byte>, rounds: seq<Round>)
    decreases |rounds|
  {
    rounds == [] || (
      var (packet, n) := Receive(s, rounds[0]);
      (packet.None? ==> NoHeader(rounds[0].header, |s|)) && Lossless(s[n..], rounds[1..]))
  }

  /** A failing call uses up no bytes exactly when it finds no header. */
  lemma {:induction false} LosesNothing(s: seq<byte>, r: Round)
    requires Receive(s, r).0.None?
    ensures Receive(s, r).1 == 0 <==> NoHeader(r.header, |s|)
  {
    assert Taken(r.header.offers, HEADER, |s|) == 0 <==> OneRead(r.header.offers, HEADER, |s|) == 0;
  }

  function TotalLength(ps: seq<seq<byte>>): nat {
    if ps == [] then 0 else |ps[0]| + TotalLength(ps[1..])
  }

  lemma {:induction false} TotalLengthAppend(a: seq<seq<byte>>, b: seq<seq<byte>>)
    ensures TotalLength(a + b) == TotalLength(a) + TotalLength(b)
  {
    if a == [] {
      assert a + b == b;
    } else {
      assert (a + b)[1..] == a[1..] + b;
      TotalLengthAppend(a[1..], b);
    }
  }

  lemma {:induction false} SplitLength(s: seq<byte>)
    ensures TotalLength(Split(s).0) + |Split(s).1| == |s|
    decreases |s|
  {
    if NextPacket(s).Some? {
      var (p, rest) := NextPacket(s).value;
      SplitLength(rest);
      assert Split(s).0[1..] == Split(rest).0;
    }
  }

  lemma {:induction false} ReceivedLength(s: seq<byte>, rounds: seq<Round>)
    ensures var (packets, rest) := ReceiveAll(s, rounds);
      && TotalLength(packets) + |rest| <= |s|
      && (TotalLength(packets) + |rest| == |s| <==> Lossless(s, rounds))
    decreases |rounds|
  {
    hide Receive, NoHeader;
    if rounds != [] {
      var (packet, n) := Receive(s, rounds[0]);
      var (packets, rest) := ReceiveAll(s[n..], rounds[1..]);
      ReceivedLength(s[n..], rounds[1..]);
      TotalLengthAppend(if packet.Some? then [packet.value] else [], packets);
      if packet.Some? { assert [packet.value][1..] == []; } else { LosesNothing(s, rounds[0]); }
    }
  }

  /** The packets received are the beginning of the packets of the stream, complete and in order, if and only if every
      failing call finds no header. */
  lemma {:induction false} ReceivedExactly(s: seq<byte>, rounds: seq<Round>)
    ensures var (packets, rest) := ReceiveAll(s, rounds);
      Split(s) == (packets + Split(rest).0, Split(rest).1) <==> Lossless(s, rounds)
  {
    var (packets, rest) := ReceiveAll(s, rounds);
    if Lossless(s, rounds) {
      ReceivedInOrder(s, rounds);
    } else {
      ReceivedLength(s, rounds);
      SplitLength(s);
      SplitLength(rest);
      TotalLengthAppend(packets, Split(rest).0);
    }
  }

  lemma {:induction false} ReceivedInOrder(s: seq<byte>, rounds: seq<Round>)
    requires Lossless(s, rounds)
    ensures var (packets, rest) := ReceiveAll(s, rounds); Split(s) == (packets + Split(rest).0, Split(rest).1)
    decreases |rounds|
  {
    hide Receive, Split, NextPacket, NoHeader;
    if rounds == [] {
      assert [] + Split(s).0 == Split(s).0;
    } else {
      var (packet, n) := Receive(s, rounds[0]);
      var (packets, rest) := ReceiveAll(s[n..], rounds[1..]);
      ReceivedInOrder(s[n..], rounds[1..]);
      if packet.None? {
        LosesNothing(s, rounds[0]);
        assert s[n..] == s && [] + packets == packets;
      } else {
        SplitNext(s, packet.value, s[n..]);
        assert [packet.value] + (packets + Split(rest).0) == ([packet.value] + packets) + Split(rest).0;
      }
    }
  }

  lemma {:induction false} SplitNext(s: seq<byte>, p: seq<byte>, rest: seq<byte>)
    requires NextPacket(s) == Some((p, rest))
    ensures Split(s) == ([p] + Split(rest).0, Split(rest).1)
  {}

  /** A call that gets whatever it asks for. */
  const FULL := Round(Answers(true, [HEADER]), Answers(true, [0x1_0000]))

  function Times(n: nat): (rounds: seq<Round>)
    ensures |rounds| == n && forall i | 0 <= i < n :: rounds[i] == FULL
  {
    seq(n, _ => FULL)
  }

  /** Calls that get whatever they ask for deliver every packet of the stream, and leave what is no packet. */
  lemma {:induction false} EverythingReceived(s: seq<byte>)
    ensures ReceiveAll(s, Times(|Split(s).0|)) == Split(s)
    decreases |s|
  {
    hide Receive, NextPacket;
    match NextPacket(s) {
      case None =>
      case Some((p, rest)) =>
        ReceiveFull(s, p, rest);
        EverythingReceived(rest);
        var n := |Split(rest).0|;
        assert Times(n + 1)[1..] == Times(n);
    }
  }

  lemma {:induction false} ReceiveFull(s: seq<byte>, p: seq<byte>, rest: seq<byte>)
    requires NextPacket(s) == Some((p, rest))
    ensures Receive(s, FULL) == (Some(p), |p|) && s[|p|..] == rest
  {
    hide SizeOf;
    FullRead(HEADER, HEADER, |s|);
    if SizeOf(s) > HEADER { FullRead(0x1_0000, SizeOf(s) - HEADER, |s| - HEADER); }
  }

  lemma {:induction false} FullRead(offer: nat, size: nat, available: nat)
    requires size <= offer && size <= available
    ensures Taken([offer], size, available) == size
  {}

  /** A header is lost when its payload is not pending yet: of two complete packets neither is left, because
      what follows begins like a packet of 1031 bytes. */
  lemma {:induction false} HeaderLost()
    ensures var s: seq<byte> := [5, 0, 233, 3, 7] + [4, 0, 233, 3];
      var round := Round(Answers(true, [HEADER]), Answers(false, []));
      && Split(s).0 == [[5, 0, 233, 3, 7], [4, 0, 233, 3]]
      && !Lossless(s, [round])
      && ReceiveAll(s, [round]) == ([], s[HEADER..]) && Split(s[HEADER..]).0 == []
  {
    var s: seq<byte> := [5, 0, 233, 3, 7] + [4, 0, 233, 3];
    var round := Round(Answers(true, [HEADER]), Answers(false, []));
    TwoPackets(s);
    assert SizeOf(s) == 5;
    assert Taken([HEADER], HEADER, |s|) == HEADER by {
      assert OneRead([HEADER], HEADER, |s|) == HEADER;
    }
    assert Receive(s, round) == (None, HEADER);
    var t := s[HEADER..];
    assert t == [7, 4, 0, 233, 3];
    assert SizeOf(t) == 1031;
    assert [round][1..] == [];
    assert Lossless(t, []) && ReceiveAll(t, []) == ([], t);
    var none: seq<seq<byte>> := [];
    assert none + none == none && ReceiveAll(s, [round]) == (none + ReceiveAll(t, []).0, t);
  }

  lemma {:induction false} TwoPackets(s: seq<byte>)
    requires s == [5, 0, 233, 3, 7] + [4, 0, 233, 3]
    ensures Split(s).0 == [[5, 0, 233, 3, 7], [4, 0, 233, 3]]
  {
    var t := s[5..];
    assert SizeOf(s) == 5 && s[..5] == [5, 0, 233, 3, 7] && t == [4, 0, 233, 3];
    assert SizeOf(t) == 4 && t[..4] == t && t[4..] == [];
    assert Split([]) == ([], []);
    assert NextPacket(t) == Some((t, []));
    assert [t] + [] == [t];
    assert Split(t) == ([t] + Split([]).0, Split([]).1);
    assert NextPacket(s) == Some((s[..5], t));
    assert Split(s) == ([s[..5]] + [t], []);
  }

  lemma {:induction false} NoOffers(size: nat, available: nat)
    ensures Taken([], size, available) == 0
  {}

  /** One more read of the loop. */
  lemma {:induction false} TakenNext(offers: seq<nat>, turns: nat, size: nat, available: nat)
    requires turns < |offers| && size > 0
    ensures var n := Min(offers[turns], Min(size, available));
      Taken(offers[turns..], size, available)
        == if n == 0 then 0 else n + Taken(offers[turns + 1..], size - n, available - n)
  {
    assert offers[turns..][1..] == offers[turns + 1..];
  }

  /** The ways a call of ReceivePacket may end. */
  lemma {:induction false} ReceiveCases(s: seq<byte>, r: Round)
    ensures !Completes(r.header, HEADER, |s|) ==> Receive(s, r) == (None, Used(r.header, HEADER, |s|))
    ensures Completes(r.header, HEADER, |s|) ==> Used(r.header, HEADER, |s|) == HEADER <= |s|
    ensures Completes(r.header, HEADER, |s|) ==>
      var size := SizeOf(s);
      if size == HEADER then Receive(s, r) == (Some(s[..HEADER]), HEADER)
      else if size < HEADER then Receive(s, r) == (None, HEADER)
      else
        var used := Used(r.payload, size - HEADER, |s| - HEADER);
        if Completes(r.payload, size - HEADER, |s| - HEADER) then
          size <= |s| && used == size - HEADER && Receive(s, r) == (Some(s[..size]), size)
        else Receive(s, r) == (None, HEADER + used)
  {
    hide SizeOf;
  }

  /** The receive worker of a session: stream is what the peer has sent and nobody has read. */
  class RecvWorker {
    var stream: seq<byte>

    constructor (s: seq<byte>)
      ensures stream == s
    {
      stream := s;
    }

    /** A read of at most size bytes, of which the socket offers no more than offer. */
    method Recv(results: array<byte>, offset: nat, size: nat, offer: nat) returns (numRead: nat)
      requires offset + size <= results.Length
      modifies this, results
      ensures numRead == Min(offer, Min(size, |old(stream)|))
      ensures stream == old(stream)[numRead..]
      ensures results[offset..offset + numRead] == old(stream)[..numRead]
      ensures results[..offset] == old(results[..offset])
    {
      numRead := Min(offer, Min(size, |stream|));
      var i := 0;
      while i < numRead
        invariant 0 <= i <= numRead && stream == old(stream)
        invariant results[offset..offset + i] == stream[..i] && results[..offset] == old(results[..offset])
      {
        results[offset + i] := stream[i];
        i := i + 1;
      }
      stream := stream[numRead..];
    }

    /** Reads until size bytes are there. A failure has used up what was read before. */
    method ReceiveDesiredBytes(results: array<byte>, offset: nat, size: nat, a: Answers) returns (ok: bool)
      requires offset + size <= results.Length
      modifies this, results
      ensures ok == Completes(a, size, |old(stream)|)
      ensures stream == old(stream)[Used(a, size, |old(stream)|)..]
      ensures results[..offset] == old(results[..offset])
      ensures ok ==> size <= |old(stream)| && results[offset..offset + size] == old(stream)[..size]
    {
      hide Taken, Min, Holds;
      ghost var first := results[..];
      HoldsNothing(first, offset, stream);
      if !a.pending { return false; }
      var done, turns := 0, 0;
      assert a.offers[0..] == a.offers;
      while done < size
        invariant 0 <= done <= size && done <= |old(stream)| && stream == old(stream)[done..] && turns <= |a.offers|
        invariant Taken(a.offers, size, |old(stream)|)
          == done + Taken(a.offers[turns..], size - done, |old(stream)| - done)
        invariant Holds(first, results[..], offset, done, old(stream))
      {
        ghost var before := results[..];
        var numRead := 0;
        if turns == |a.offers| {
          NoOffers(size - done, |stream|);
          assert a.offers[turns..] == [];
        } else {
          TakenNext(a.offers, turns, size - done, |stream|);
          numRead := Recv(results, offset + done, size - done, a.offers[turns]);
          Extended(first, before, results[..], offset, done, numRead, old(stream));
        }
        if numRead == 0 {
          HoldsAll(first, results[..], offset, done, old(stream));
          return false;
        }
        done, turns := done + numRead, turns + 1;
      }
      HoldsAll(first, results[..], offset, size, old(stream));
      return true;
    }

    /** ReceivePacket: the header, then as many bytes as its size announces. */
    method ReceivePacket(r: Round) returns (packet: Option<seq<byte>>)
      modifies this
      ensures packet == Receive(old(stream), r).0
      ensures stream == old(stream)[Receive(old(stream), r).1..]
    {
      hide Used, Completes, SizeOf, Receive, NextPacket;
      ghost var s := stream;
      ReceiveCases(s, r);
      var header := new byte[HEADER];
      var ok := ReceiveDesiredBytes(header, 0, HEADER, r.header);
      if !ok { return None; }
      var size := SizeOf(header[..]);
      Whole(header[..], s);
      if size == HEADER { return Some(header[..]); }
      if size < HEADER { return None; }
      var buffer := new byte[size];
      CopyHeader(header, buffer);
      ok := ReceiveDesiredBytes(buffer, HEADER, size - HEADER, r.payload);
      Skip(s, HEADER, Used(r.payload, size - HEADER, |s| - HEADER));
      if !ok { return None; }
      Together(buffer[..], s, size);
      return Some(buffer[..]);
    }

    method CopyHeader(header: array<byte>, buffer: array<byte>)
      requires header.Length == HEADER <= buffer.Length && header != buffer
      modifies buffer
      ensures buffer[..HEADER] == header[..]
    {
      var i := 0;
      while i < HEADER
        invariant 0 <= i <= HEADER && buffer[..i] == header[..i]
      {
        buffer[i] := header[i];
        i := i + 1;
      }
    }

    /** Run: every packet received goes to the queue. */
    method Run(rounds: seq<Round>) returns (queue: seq<seq<byte>>)
      modifies this
      ensures (queue, stream) == ReceiveAll(old(stream), rounds)
      ensures Split(old(stream)) == (queue + Split(stream).0, Split(stream).1) <==> Lossless(old(stream), rounds)
    {
      hide Receive, Lossless, Split;
      queue := [];
      var n := 0;
      assert rounds[0..] == rounds && [] + ReceiveAll(stream, rounds).0 == ReceiveAll(stream, rounds).0;
      while n < |rounds|
        invariant 0 <= n <= |rounds|
        invariant ReceiveAll(old(stream), rounds) ==
          (queue + ReceiveAll(stream, rounds[n..]).0, ReceiveAll(stream, rounds[n..]).1)
      {
        var packet := ReceivePacket(rounds[n]);
        assert rounds[n..][1..] == rounds[n + 1..];
        ghost var more := ReceiveAll(stream, rounds[n + 1..]).0;
        if packet.Some? {
          assert queue + ([packet.value] + more) == (queue + [packet.value]) + more;
          queue := queue + [packet.value];
        } else {
          assert [] + more == more;
        }
        n := n + 1;
      }
      assert rounds[n..] == [] && ReceiveAll(stream, []) == ([], stream) && queue + [] == queue;
      ReceivedExactly(old(stream), rounds);
    }
  }

  lemma {:induction false} Whole(header: seq<byte>, s: seq<byte>)
    requires |header| == HEADER <= |s| && header[0..0 + HEADER] == s[..HEADER]
    ensures header == s[..HEADER] && SizeOf(header) == SizeOf(s)
  {
    assert header == header[0..0 + HEADER];
  }

  lemma {:induction false} Skip(s: seq<byte>, a: nat, b: nat)
    requires a + b <= |s|
    ensures s[a..][b..] == s[a + b..]
  {}

  lemma {:induction false} Together(b: seq<byte>, s: seq<byte>, size: nat)
    requires HEADER <= |b| == size <= |s|
    requires b[..HEADER] == s[..HEADER] && b[HEADER..HEADER + (size - HEADER)] == s[HEADER..][..size - HEADER]
    ensures b == s[..size]
  {
    assert b == b[..HEADER] + b[HEADER..HEADER + (size - HEADER)];
    assert s[..size] == s[..HEADER] + s[HEADER..][..size - HEADER];
  }

  /** Of the array before, the part from offset on has been filled with the first n bytes of s. */
  ghost predicate Holds(before: seq<byte>, after: seq<byte>, offset: nat, n: nat, s: seq<byte>) {
    && |after| == |before| && offset + n <= |after| && n <= |s|
    && after[..offset] == before[..offset] && after[offset..offset + n] == s[..n]
  }

  lemma {:induction false} HoldsNothing(before: seq<byte>, offset: nat, s: seq<byte>)
    requires offset <= |before|
    ensures Holds(before, before, offset, 0, s)
  {}

  lemma {:induction false} HoldsAll(before: seq<byte>, after: seq<byte>, offset: nat, n: nat, s: seq<byte>)
    requires Holds(before, after, offset, n, s)
    ensures |after| == |before| && offset + n <= |after| && n <= |s|
    ensures after[..offset] == before[..offset] && after[offset..offset + n] == s[..n]
  {}

  /** A read of n bytes behind the first done bytes. */
  lemma {:induction false} Extended(first: seq<byte>, before: seq<byte>, after: seq<byte>, offset: nat, done: nat,
                                     n: nat, s: seq<byte>)
    requires Holds(first, before, offset, done, s)
    requires |before| == |after| && offset + done + n <= |after| && done + n <= |s|
    requires after[..offset + done] == before[..offset + done]
    requires after[offset + done..offset + done + n] == s[done..][..n]
    ensures Holds(first, after, offset, done + n, s) && s[done..][n..] == s[done + n..]
  {
    assert after[..offset] == after[..offset + done][..offset];
    assert before[..offset] == before[..offset + done][..offset];
    assert after[offset..offset + done] == after[..offset + done][offset..];
    assert before[offset..offset + done] == before[..offset + done][offset..];
    assert after[offset..offset + (done + n)] == after[offset..offset + done] + after[offset + done..offset + done + n];
    assert s[..done + n] == s[..done] + s[done..][..n];
  }
}
