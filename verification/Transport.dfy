/** The sending loop with its partial sends, and the path of packets from one end to the other. */
module Transport {
  import opened Common
  import opened Wire
  import opened Protocol
  import F = Framing

  /** What one `send` call does: take up to `count` bytes, ask to be called again, or fail. */
  datatype Reply = Wrote(count: nat) | WouldBlock | Broken

  /** All bytes sent; an error returned; or still in the loop when the observed replies end. */
  datatype SendResult = Sent | Lost | Waiting

  /** The bytes that reach the wire, and how the loop ends. */
  function Push(data: seq<byte>, replies: seq<Reply>): (r: (seq<byte>, SendResult))
    ensures |r.0| <= |data| && r.0 == data[..|r.0|]
    ensures r.1.Sent? <==> |r.0| == |data|
    decreases |replies|
  {
    if data == [] then ([], Sent)
    else if replies == [] then ([], Waiting)
    else match replies[0]
      case Wrote(count) =>
        var n := Min(count, |data|);
        var rest := Push(data[n..], replies[1..]);
        (data[..n] + rest.0, rest.1)
      case WouldBlock => Push(data, replies[1..])
      case Broken => ([], Lost)
  }

  /** How many bytes the replies take before one of them fails. */
  function Room(replies: seq<Reply>): nat {
    if replies == [] then 0 else
    match replies[0]
    case Wrote(count) => count + Room(replies[1..])
    case WouldBlock => Room(replies[1..])
    case Broken => 0
  }

  /**
   The outcome of a send, from the replies alone: as many bytes go out as the
   replies take before the first failure; all sent if that is enough; else lost
   if there was a failure, and else still waiting. Requests to try again change
   nothing.
   */
  lemma {:induction false} PushExact(data: seq<byte>, replies: seq<Reply>)
    ensures var n := if Room(replies) < |data| then Room(replies) else |data|;
            Push(data, replies).0 == data[..n]
    ensures Push(data, replies).1 ==
            if Room(replies) >= |data| then Sent else if Broken in replies then Lost else Waiting
    decreases |replies|
  {
    if data != [] && replies != [] {
      assert replies == [replies[0]] + replies[1..];
      match replies[0]
      case Wrote(count) =>
        var n := if count < |data| then count else |data|;
        PushExact(data[n..], replies[1..]);
      case WouldBlock => PushExact(data, replies[1..]);
      case Broken =>
    }
  }

  /** The whole of a send of which `sent` bytes are done and the rest went as `r`. */
  function Onward(data: seq<byte>, sent: nat, r: (seq<byte>, SendResult)): (seq<byte>, SendResult)
    requires sent <= |data|
  {
    (data[..sent] + r.0, r.1)
  }

  /** One reply further. */
  lemma PushStep(data: seq<byte>, sent: nat, replies: seq<Reply>, i: nat)
    requires sent < |data| && i < |replies|
    ensures var whole := Onward(data, sent, Push(data[sent..], replies[i..]));
            match replies[i]
            case Wrote(count) =>
              var n := Min(count, |data| - sent); whole == Onward(data, sent + n, Push(data[sent + n..], replies[i + 1..]))
            case WouldBlock => whole == Onward(data, sent, Push(data[sent..], replies[i + 1..]))
            case Broken => whole == (data[..sent], Lost)
  {
    var rest, later := data[sent..], replies[i..];
    assert later[0] == replies[i] && later[1..] == replies[i + 1..];
    match replies[i]
    case Wrote(count) =>
      var n := Min(count, |rest|);
      assert rest[n..] == data[sent + n..] && data[..sent] + rest[..n] == data[..sent + n];
      Assoc(data[..sent], rest[..n], Push(rest[n..], later[1..]).0);
    case WouldBlock =>
    case Broken => assert data[..sent] + [] == data[..sent];
  }

  class MasterConnection {
    var connected: bool
    var socketOpen: bool
    /** Every byte handed to the socket so far. */
    var wire: seq<byte>

    constructor ()
      ensures !connected && !socketOpen && wire == []
    {
      connected, socketOpen, wire := false, false, [];
    }

    /** Sends one encoded packet; without a connection nothing is sent. */
    method SendPacket(data: seq<byte>, replies: seq<Reply>) returns (rc: int, result: SendResult)
      modifies this`wire
      ensures !(connected && socketOpen) ==> rc == -1 && result == Lost && wire == old(wire)
      ensures connected && socketOpen ==> result == Push(data, replies).1 && wire == old(wire) + Push(data, replies).0
      ensures rc == if result.Sent? then |data| else -1
    {
      if !connected || !socketOpen { return -1, Lost; }
      var sent: nat, i: nat := 0, 0;
      assert data[..0] + Push(data, replies).0 == Push(data, replies).0;
      assert data[0..] == data && replies[0..] == replies;
      while sent < |data| && i < |replies|
        invariant sent <= |data| && i <= |replies|
        invariant wire == old(wire) + data[..sent]
        invariant Push(data, replies) == Onward(data, sent, Push(data[sent..], replies[i..]))
        decreases |replies| - i
      {
        PushStep(data, sent, replies, i);
        match replies[i] {
          case Wrote(count) =>
            var n := Min(count, |data| - sent);
            assert data[..sent] + data[sent..sent + n] == data[..sent + n];
            Assoc(old(wire), data[..sent], data[sent..sent + n]);
            wire := wire + data[sent..sent + n];
            sent := sent + n;
          case WouldBlock =>
          case Broken => return -1, Lost;
        }
        i := i + 1;
      }
      assert sent == |data| ==> data[sent..] == [] && data[..sent] == data;
      if sent == |data| { return sent, Sent; }
      return -1, Waiting;
    }
  }

  /** A packet offered to the sending loop, with the replies its `send` calls get. */
  datatype Offer = Offer(packet: Packet, replies: seq<Reply>)

  predicate Fit(offers: seq<Offer>) {
    forall i | 0 <= i < |offers| :: offers[i].packet.InRange()
  }

  /** What one offer puts on the wire, and how it ends. */
  function Attempt(o: Offer): (seq<byte>, SendResult)
    requires o.packet.InRange()
  {
    Push(Image(o.packet), o.replies)
  }

  /** A sender may offer its next packet after one that was sent, or of which nothing was. */
  predicate GoesOn(r: (seq<byte>, SendResult)) {
    r.1.Sent? || (r.1.Lost? && r.0 == [])
  }

  /** No packet is torn. */
  predicate Intact(offers: seq<Offer>)
    requires Fit(offers)
  {
    forall i | 0 <= i < |offers| :: GoesOn(Attempt(offers[i]))
  }

  /** What a sender puts on the wire if it ignores failures, but stops at the first torn packet. */
  function Wired(offers: seq<Offer>): seq<byte>
    requires Fit(offers)
  {
    if offers == [] then [] else
    var first := Attempt(offers[0]);
    if GoesOn(first) then first.0 + Wired(offers[1..]) else first.0
  }

  /** The packets that went through. */
  function Through(offers: seq<Offer>): (ps: seq<Packet>)
    requires Fit(offers)
    ensures AllInRange(ps) && |ps| <= |offers|
  {
    if offers == [] || !GoesOn(Attempt(offers[0])) then [] else
    (if Attempt(offers[0]).1.Sent? then [offers[0].packet] else []) + Through(offers[1..])
  }

  /** The wire carries the images of those packets, and then a proper part of at most one more. */
  lemma {:induction false} WireContents(offers: seq<Offer>) returns (part: seq<byte>, next: Packet)
    requires Fit(offers)
    ensures Wired(offers) == Stream(Through(offers)) + part
    ensures next.InRange() && |part| < |Image(next)| && part == Image(next)[..|part|]
    ensures part != [] ==> exists i :: 0 <= i < |offers| && offers[i].packet == next
    ensures Intact(offers) ==> part == []
    decreases |offers|
  {
    part, next := [], Packet(0, []);
    if offers == [] {
      return;
    }
    var first, p := Attempt(offers[0]), offers[0].packet;
    if !GoesOn(first) {
      return first.0, p;
    }
    part, next := WireContents(offers[1..]);
    if first.1.Sent? {
      F.StreamCons(p, Through(offers[1..]));
      assert first.0 == Image(p);
      Assoc(first.0, Stream(Through(offers[1..])), part);
    } else {
      assert [] + Through(offers[1..]) == Through(offers[1..]);
    }
    if part != [] {
      var i :| 0 <= i < |offers[1..]| && offers[1..][i].packet == next;
      assert offers[i + 1].packet == next;
    }
  }

  /**
   End to end: for every list of packets, every pattern of partial, refused and
   failing sends, and every way the receiver's Read calls cut the bytes, the
   receiver dispatches exactly the packets that went through, in order and once
   each; and if no packet was torn, it ends in its initial state.
   */
  lemma {:induction false} EndToEnd(offers: seq<Offer>, chunks: seq<seq<byte>>)
    requires Fit(offers) && Flatten(chunks) == Wired(offers)
    ensures F.ReadAll(F.Ready, chunks, true).log == Through(offers)
    ensures Intact(offers) ==> F.ReadAll(F.Ready, chunks, true).d == F.Ready
    ensures !F.ReadAll(F.Ready, chunks, true).d.Fault?
  {
    var part, next := WireContents(offers);
    var ps := Through(offers);
    F.PartialStream(ps, next, |part|);
    F.ReadForward(F.Ready, Wired(offers), true);
    F.AnyChunking(F.Ready, chunks);
    if part == [] {
      assert Stream(ps) + [] == Stream(ps);
      F.RoundTrip(ps, chunks);
    }
  }

  /** A received chunk goes to the decoder as a whole. */
  method Receive(protocol: RyuLdnProtocol, chunk: seq<byte>)
    requires protocol.Valid()
    modifies protocol, protocol.headerBuffer, protocol.pool, protocol.pool.slots, protocol.pool.storage
    ensures protocol.Valid() && protocol.CanLend() == old(protocol.CanLend()) && protocol.Others() == old(protocol.Others())
    ensures protocol.Abs() == F.Read(old(protocol.Abs()), chunk, old(protocol.CanLend())).d
    ensures protocol.log == old(protocol.log) + F.Read(old(protocol.Abs()), chunk, old(protocol.CanLend())).log
  {
    assert chunk[0..0 + |chunk|] == chunk;
    protocol.Read(chunk, 0, |chunk|);
  }

  /** The receiving side of a session: each received chunk goes to the decoder. */
  method ReceiveLoop(protocol: RyuLdnProtocol, chunks: seq<seq<byte>>)
    requires protocol.Valid()
    modifies protocol, protocol.headerBuffer, protocol.pool, protocol.pool.slots, protocol.pool.storage
    ensures protocol.Valid()
    ensures protocol.Abs() == F.ReadAll(old(protocol.Abs()), chunks, old(protocol.CanLend())).d
    ensures protocol.log == old(protocol.log) + F.ReadAll(old(protocol.Abs()), chunks, old(protocol.CanLend())).log
    ensures protocol.Others() == old(protocol.Others())
  {
    ghost var lend, start := protocol.CanLend(), protocol.Abs();
    ghost var goal := F.ReadAll(start, chunks, lend);
    var i := 0;
    assert chunks[0..] == chunks;
    while i < |chunks|
      invariant i <= |chunks| && protocol.Valid() && protocol.CanLend() == lend
      invariant Due(goal, old(protocol.log), protocol.log, protocol.Abs(), chunks[i..], lend)
      invariant protocol.Others() == old(protocol.Others())
    {
      NextChunk(goal, old(protocol.log), protocol.log, protocol.Abs(), chunks, i, lend);
      Receive(protocol, chunks[i]);
      i := i + 1;
    }
    NothingDue(goal, old(protocol.log), protocol.log, protocol.Abs(), chunks[i..], lend);
  }

  lemma NothingDue(goal: F.Outcome, logAtStart: seq<Packet>, log: seq<Packet>, d: F.Decoder, rest: seq<seq<byte>>, lend: bool)
    requires d.Coherent() && rest == [] && Due(goal, logAtStart, log, d, rest, lend)
    ensures goal.d == d && logAtStart + goal.log == log
  {
  }

  /** With `rest` still to be read from `d`, the log will come to be that of `goal`. */
  ghost predicate Due(goal: F.Outcome, logAtStart: seq<Packet>, log: seq<Packet>, d: F.Decoder, rest: seq<seq<byte>>, lend: bool)
    requires d.Coherent()
  {
    goal.d == F.ReadAll(d, rest, lend).d && logAtStart + goal.log == log + F.ReadAll(d, rest, lend).log
  }

  lemma NextChunk(goal: F.Outcome, logAtStart: seq<Packet>, log: seq<Packet>, d: F.Decoder, chunks: seq<seq<byte>>, i: nat, lend: bool)
    requires d.Coherent() && i < |chunks| && Due(goal, logAtStart, log, d, chunks[i..], lend)
    ensures var first := F.Read(d, chunks[i], lend);
            Due(goal, logAtStart, log + first.log, first.d, chunks[i + 1..], lend)
  {
    var first := F.Read(d, chunks[i], lend);
    assert chunks[i..][0] == chunks[i] && chunks[i..][1..] == chunks[i + 1..];
    Assoc(log, first.log, F.ReadAll(first.d, chunks[i + 1..], lend).log);
  }
}
