/** What becomes of packets sent after one of which only a part was sent. */
module TornPackets {
  import opened Common
  import opened Wire
  import F = Framing

  /** Packets `ps`, stray bytes and packets `qs`, cut into chunks. */
  ghost predicate Cuts(chunks: seq<seq<byte>>, ps: seq<Packet>, stray: seq<byte>, qs: seq<Packet>)
    requires AllInRange(ps) && AllInRange(qs)
  {
    Flatten(chunks) == Stream(ps) + (stray + Stream(qs))
  }

  /** However the bytes are cut, `ps` and `qs` are dispatched and nothing else. */
  ghost predicate AlwaysArrive(ps: seq<Packet>, stray: seq<byte>, qs: seq<Packet>)
    requires AllInRange(ps) && AllInRange(qs)
  {
    forall chunks | Cuts(chunks, ps, stray, qs) :: F.ReadAll(F.Ready, chunks, true).log == ps + qs
  }

  /** However the bytes are cut, that is not what is dispatched. */
  ghost predicate NeverArrive(ps: seq<Packet>, stray: seq<byte>, qs: seq<Packet>)
    requires AllInRange(ps) && AllInRange(qs)
  {
    forall chunks | Cuts(chunks, ps, stray, qs) :: F.ReadAll(F.Ready, chunks, true).log != ps + qs
  }

  /**
   Why a sender must stop at a torn packet: whatever it sends next arrives, for
   every cutting, if and only if nothing of the failed packet was sent; and
   otherwise there is a packet that arrives in no cutting.
   */
  lemma GoingOnExact(ps: seq<Packet>, p: Packet, n: nat)
    requires AllInRange(ps) && p.InRange() && n < |Image(p)|
    ensures (forall qs | AllInRange(qs) :: AlwaysArrive(ps, Image(p)[..n], qs)) <==> n == 0
    ensures (exists qs :: AllInRange(qs) && NeverArrive(ps, Image(p)[..n], qs)) <==> n > 0
  {
    var part, qs := Image(p)[..n], [Packet(0, [])];
    assert AllInRange(qs);
    if n == 0 {
      forall rs | AllInRange(rs) ensures AlwaysArrive(ps, part, rs) && !NeverArrive(ps, part, rs) {
        NothingTorn(ps, part, rs);
      }
    } else {
      forall chunks | Cuts(chunks, ps, part, qs) ensures F.ReadAll(F.Ready, chunks, true).log != ps + qs {
        NeverRecovers(ps, p, n, chunks);
      }
      assert Cuts([Stream(ps) + (part + Stream(qs))], ps, part, qs);
    }
  }

  lemma NothingTorn(ps: seq<Packet>, part: seq<byte>, qs: seq<Packet>)
    requires AllInRange(ps) && AllInRange(qs) && part == []
    ensures AlwaysArrive(ps, part, qs) && !NeverArrive(ps, part, qs)
  {
    StreamAppend(ps, qs);
    assert part + Stream(qs) == Stream(qs);
    forall chunks | Cuts(chunks, ps, part, qs) ensures F.ReadAll(F.Ready, chunks, true).log == ps + qs {
      F.RoundTrip(ps + qs, chunks);
    }
    var whole := [Stream(ps) + (part + Stream(qs))];
    assert Cuts(whole, ps, part, qs);
  }

  /** An empty packet behind a torn one is not dispatched as such, however the bytes are cut. */
  lemma NeverRecovers(ps: seq<Packet>, p: Packet, n: nat, chunks: seq<seq<byte>>)
    requires AllInRange(ps) && p.InRange() && 0 < n < |Image(p)| && AllInRange([Packet(0, [])])
    requires Cuts(chunks, ps, Image(p)[..n], [Packet(0, [])])
    ensures F.ReadAll(F.Ready, chunks, true).log != ps + [Packet(0, [])]
  {
    var q := Packet(0, []);
    F.StreamCons(q, []);
    assert [q] + [] == [q] && Stream([q]) == Image(q);
    var bytes := Image(p)[..n] + Image(q);
    BehindPackets(ps, bytes, chunks);
    var qs, tail := F.Decomposed(bytes, true);
    NotFirst(p, n, bytes, qs, tail);
    if qs != [] {
      OtherNext(ps, qs, q, F.ReadAll(F.Ready, chunks, true).log);
    } else {
      TornEnding(ps, p, n, bytes, chunks);
    }
  }

  /** What is found behind whole packets is dispatched behind them, however the bytes are cut; all of it, unless a header is bad. */
  lemma BehindPackets(ps: seq<Packet>, bytes: seq<byte>, chunks: seq<seq<byte>>)
    requires AllInRange(ps) && Flatten(chunks) == Stream(ps) + bytes
    ensures var o, log := F.Sweep(F.Ready, bytes, true), F.ReadAll(F.Ready, chunks, true).log;
            && ps + o.log <= log && (!o.ending.Rejected? ==> log == ps + o.log)
            && F.Sweep(F.Ready, Flatten(chunks), true).ending == o.ending
  {
    F.SweepStream(ps, bytes);
    F.ReadForward(F.Ready, Stream(ps) + bytes, true);
    F.AnyChunking(F.Ready, chunks);
  }

  lemma OtherNext(ps: seq<Packet>, qs: seq<Packet>, q: Packet, log: seq<Packet>)
    requires qs != [] && qs[0] != q && ps + qs <= log
    ensures log != ps + [q]
  {
    assert log[|ps|] == (ps + qs)[|ps|] == qs[0] && (ps + [q])[|ps|] == q;
  }

  /** The first packet found behind the torn one is not the one that was sent. */
  lemma NotFirst(p: Packet, n: nat, bytes: seq<byte>, qs: seq<Packet>, tail: seq<byte>)
    requires p.InRange() && 0 < n < |Image(p)| && bytes == Image(p)[..n] + Image(Packet(0, []))
    requires AllInRange(qs) && bytes == Stream(qs) + tail
    ensures qs != [] ==> qs[0] != Packet(0, [])
  {
    if qs != [] {
      var q := Packet(0, []);
      EmptyImage(q);
      TornNot(p, n, q, bytes);
      Assoc(Image(qs[0]), Stream(qs[1..]), tail);
      OtherFront(bytes, Image(q), Stream(qs[1..]) + tail);
    }
  }

  /** If no packet is found behind the torn one, the pass ends there, or rejects a header and with it ten bytes. */
  lemma TornEnding(ps: seq<Packet>, p: Packet, n: nat, bytes: seq<byte>, chunks: seq<seq<byte>>)
    requires AllInRange(ps) && p.InRange() && 0 < n < |Image(p)| && bytes == Image(p)[..n] + Image(Packet(0, []))
    requires Flatten(chunks) == Stream(ps) + bytes && F.Sweep(F.Ready, bytes, true).log == []
    requires F.FrontOf(bytes, true) == F.StoppedAt(F.Sweep(F.Ready, bytes, true))
    ensures F.ReadAll(F.Ready, chunks, true).log != ps + [Packet(0, [])]
  {
    BehindPackets(ps, bytes, chunks);
    if F.Sweep(F.Ready, bytes, true).ending.Rejected? {
      var q := Packet(0, []);
      RejectionCosts(F.Ready, chunks);
      GoodHeader(p, n, bytes);
      StreamAppend(ps, [q]);
      EmptyImage(q);
      F.StreamCons(q, []);
      assert [q] + [] == [q];
    }
  }

  /** A torn packet of ten bytes or more starts with a header that is not refused. */
  lemma GoodHeader(p: Packet, n: nat, bytes: seq<byte>)
    requires p.InRange() && 0 < n < |Image(p)| && bytes == Image(p)[..n] + Image(Packet(0, []))
    ensures n >= HEADER_SIZE ==> !F.FrontOf(bytes, true).BadHeader?
  {
    if n >= HEADER_SIZE {
      HeaderRoundTrip(PacketHeader(p.kind, |p.payload|));
      assert bytes[..HEADER_SIZE] == HeaderBytes(PacketHeader(p.kind, |p.payload|));
    }
  }

  // ---------------------------------------------------------------- counting bytes

  lemma {:induction false} StreamAppend(a: seq<Packet>, b: seq<Packet>)
    requires AllInRange(a) && AllInRange(b)
    ensures AllInRange(a + b) && Stream(a + b) == Stream(a) + Stream(b)
  {
    if a == [] {
      assert a + b == b;
    } else {
      assert (a + b)[1..] == a[1..] + b;
      StreamAppend(a[1..], b);
      Assoc(Image(a[0]), Stream(a[1..]), Stream(b));
    }
  }

  /** A call pays for what it dispatches and keeps with the bytes it gets, and for a bad header with ten more. */
  lemma CallCosts(d: F.Decoder, chunk: seq<byte>)
    requires d.Coherent() && !d.Fault?
    ensures var o := F.Read(d, chunk, true);
            |Stream(o.log)| + |o.d.Pending()| + (if o.ending.Rejected? then HEADER_SIZE else 0) <= |d.Pending()| + |chunk|
  {
    F.ReadForward(d, chunk, true);
    F.FromBoundary(d, chunk, true);
    var ps, tail := F.Decomposed(d.Pending() + chunk, true);
    var o := F.Sweep(d, chunk, true);
    if o.ending.Clean? && !o.d.Fault? { F.NothingLost(d, chunk); }
  }

  lemma {:induction false} RunCosts(d: F.Decoder, chunks: seq<seq<byte>>)
    requires d.Coherent()
    ensures AllInRange(F.ReadAll(d, chunks, true).log)
    ensures |Stream(F.ReadAll(d, chunks, true).log)| <= |d.Pending()| + |Flatten(chunks)|
    decreases |chunks|
  {
    if chunks != [] {
      var first := F.Read(d, chunks[0], true);
      if d.Fault? {
        F.FaultForever(d.why, chunks[0], true);
        F.ReadForward(d, chunks[0], true);
      } else {
        CallCosts(d, chunks[0]);
      }
      RunCosts(first.d, chunks[1..]);
      StreamAppend(first.log, F.ReadAll(first.d, chunks[1..], true).log);
    }
  }

  /** Bytes that run into a bad header lose ten of them, however they are cut. */
  lemma {:induction false} RejectionCosts(d: F.Decoder, chunks: seq<seq<byte>>)
    requires d.Coherent() && F.Sweep(d, Flatten(chunks), true).ending.Rejected?
    ensures AllInRange(F.ReadAll(d, chunks, true).log)
    ensures |Stream(F.ReadAll(d, chunks, true).log)| + HEADER_SIZE <= |d.Pending()| + |Flatten(chunks)|
    decreases |chunks|
  {
    var c, rest := chunks[0], Flatten(chunks[1..]);
    var first := F.Read(d, c, true);
    F.ReadForward(d, c, true);
    CallCosts(d, c);
    if first.ending.Rejected? {
      RunCosts(first.d, chunks[1..]);
    } else {
      F.SweepSplit(d, c, rest, true);
      RejectionCosts(first.d, chunks[1..]);
    }
    StreamAppend(first.log, F.ReadAll(first.d, chunks[1..], true).log);
  }

  // ---------------------------------------------------------------- bytes of a torn packet

  lemma OtherFront(bytes: seq<byte>, front: seq<byte>, tail: seq<byte>)
    requires |front| <= |bytes| && bytes[..|front|] != front
    ensures bytes != front + tail
  {
    assert (front + tail)[..|front|] == front;
  }

  lemma EmptyImage(q: Packet)
    requires q == Packet(0, [])
    ensures |Image(q)| == HEADER_SIZE && Image(q)[0] == 0x52
    ensures forall k | 0 < k < HEADER_SIZE :: Image(q)[k] != 0x52
  {
    assert LeBytes(MAGIC) == [0x52, 0x4C, 0x44, 0x4E];
    assert LeBytes(0) == [0, 0, 0, 0];
  }

  /** The first ten bytes are no empty packet's, wherever the packet before was torn. */
  lemma TornNot(p: Packet, n: nat, q: Packet, bytes: seq<byte>)
    requires p.InRange() && 0 < n < |Image(p)| && q == Packet(0, []) && bytes == Image(p)[..n] + Image(q)
    ensures |bytes| >= HEADER_SIZE && bytes[..HEADER_SIZE] != Image(q)
  {
    EmptyImage(q);
    if n < HEADER_SIZE {
      assert bytes[n] == Image(q)[0];
      assert bytes[..HEADER_SIZE][n] != Image(q)[n];
    } else {
      var header := PacketHeader(p.kind, |p.payload|);
      assert HeaderBytes(header) == Image(p)[..HEADER_SIZE] == bytes[..HEADER_SIZE];
      HeaderRoundTrip(header);
      HeaderRoundTrip(PacketHeader(0, 0));
      assert HeaderBytes(PacketHeader(0, 0)) == Image(q);
    }
  }
}
