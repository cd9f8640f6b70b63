/**
 What the stream decoder means, one byte at a time, and the theorems about
 chunking and round trips. The block-copying loop of the program is proved to
 refine `Read` in module Protocol.
 */
module Framing {
  import opened Common
  import opened BufferPools
  import opened Wire

  /**
   Where a negative size leads. The program checks sizes only from above. With
   a buffer in hand it copies a negative number of bytes. Without one it skips
   a negative number of bytes, that is, steps back: to before the chunk, or
   round and round within it for ever - or to bytes it then simply reads again.
   */
  datatype Misstep = Overrun | Underrun | Spin

  /** The decoder between two bytes: collecting a header, filling a borrowed buffer, or past a misstep. */
  datatype Decoder =
    | Idle(header: seq<byte>)
    | Filling(header: seq<byte>, body: seq<byte>)
    | Fault(why: Misstep)
  {
    predicate Coherent() {
      match this
      case Idle(h) => |h| < HEADER_SIZE
      case Filling(h, body) => |h| == HEADER_SIZE && Judge(ParseHeader(h)).Wanted? && |body| < ParseHeader(h).dataSize
      case Fault(_) => true
    }

    /** The bytes taken in since the last packet boundary. */
    function Pending(): seq<byte> {
      match this
      case Idle(h) => h
      case Filling(h, body) => h + body
      case Fault(_) => []
    }
  }

  const Ready := Idle([])

  datatype Verdict = Refused | Whole | Wanted(size: int)

  /** The checks on a complete header, in the program's order; a wanted size may be negative. */
  function Judge(h: LdnHeader): (v: Verdict)
    ensures v.Wanted? ==> v.size != 0 && v.size == h.dataSize
  {
    if h.magic != MAGIC || h.version != PROTOCOL_VERSION || h.dataSize >= MAX_PACKET_SIZE - HEADER_SIZE then Refused
    else if h.dataSize == 0 then Whole
    else Wanted(h.dataSize)
  }

  datatype Reaction = Go(next: Decoder) | Emit(packet: Packet) | Reject | Skip(count: int)

  /** One byte. `lend` says whether the buffer pool can lend during this call of Read. */
  function Feed(d: Decoder, b: byte, lend: bool): (r: Reaction)
    requires d.Coherent()
    ensures d.Fault? ==> r == Go(d)
    ensures r.Go? ==> r.next.Coherent() && (r.next.Fault? ==> d.Fault? || (lend && r.next.why.Overrun?))
    ensures r.Emit? ==> r.packet.InRange()
    ensures r.Skip? ==> r.count != 0 && !lend
  {
    match d
    case Fault(_) => Go(d)
    case Idle(h) =>
      var header := h + [b];
      if |header| < HEADER_SIZE then Go(Idle(header)) else
      (match Judge(ParseHeader(header))
       case Refused => Reject
       case Whole => Emit(Packet(header[4], []))
       case Wanted(n) => if !lend then Skip(n) else if n < 0 then Go(Fault(Overrun)) else Go(Filling(header, [])))
    case Filling(h, body) =>
      if |body| + 1 < ParseHeader(h).dataSize then Go(Filling(h, body + [b]))
      else Emit(Packet(h[4], body + [b]))
  }

  /**
   How a pass over bytes ended: at a byte it understood, at a bad header,
   inside a payload it could not store, or at a step back by `steps` bytes with
   `left` bytes unread.
   */
  datatype Ending = Clean | Rejected | CutShort | Back(left: nat, steps: nat)

  datatype Outcome = Outcome(d: Decoder, log: seq<Packet>, ending: Ending) {
    function After(earlier: seq<Packet>): Outcome {
      Outcome(d, earlier + log, ending)
    }
  }

  /**
   One forward pass of the receive loop. A bad header resets the decoder and
   discards the rest of the chunk; a packet for which no buffer can be borrowed
   is skipped, but only as far as the chunk reaches.
   */
  function Sweep(d: Decoder, chunk: seq<byte>, lend: bool): (o: Outcome)
    requires d.Coherent()
    ensures o.d.Coherent() && AllInRange(o.log)
    ensures lend ==> !o.ending.CutShort? && !o.ending.Back?
    ensures o.ending != Clean ==> o.d == Ready
    ensures o.ending.Back? ==> o.ending.left < |chunk|
    ensures d.Fault? ==> o.d == d
    ensures o.d.Fault? ==> d.Fault? || (lend && o.d.why.Overrun?)
    decreases |chunk|
  {
    if chunk == [] then Outcome(d, [], Clean) else
    var tail := chunk[1..];
    match Feed(d, chunk[0], lend)
    case Go(d') => Sweep(d', tail, lend)
    case Emit(p) => Sweep(Ready, tail, lend).After([p])
    case Reject => Outcome(Ready, [], Rejected)
    case Skip(n) =>
      if n < 0 then Outcome(Ready, [], Back(|tail|, -n))
      else if n <= |tail| then Sweep(Ready, tail[n..], lend)
      else Outcome(Ready, [], CutShort)
  }

  ghost function UpTo(n: nat): (s: set<nat>)
    ensures forall i: nat :: i in s <==> i <= n
  {
    if n == 0 then {0} else UpTo(n - 1) + {n}
  }

  /**
   The receive loop from position `from` on. Positions it has stepped back to
   are in `landed`; back at one of them it is in the same state as before, and
   will be for ever.
   */
  ghost function Resume(d: Decoder, chunk: seq<byte>, from: nat, lend: bool, landed: set<nat>): (o: Outcome)
    requires d.Coherent() && from <= |chunk|
    ensures o.d.Coherent() && AllInRange(o.log) && !o.ending.Back?
    decreases UpTo(|chunk|) - landed, 1
  {
    Follow(Sweep(d, chunk[from..], lend), chunk, lend, landed)
  }

  /** The position a step back leads to. */
  function Landing(o: Outcome, chunk: seq<byte>): int
    requires o.ending.Back?
  {
    |chunk| - o.ending.left - o.ending.steps
  }

  /** What becomes of a pass that ended as `o`. */
  ghost function Follow(o: Outcome, chunk: seq<byte>, lend: bool, landed: set<nat>): (r: Outcome)
    requires o.d.Coherent() && AllInRange(o.log)
    ensures r.d.Coherent() && AllInRange(r.log) && !r.ending.Back?
    decreases UpTo(|chunk|) - landed, 0
  {
    if !o.ending.Back? then o else
    var to := Landing(o, chunk);
    if to < 0 then Outcome(Fault(Underrun), o.log, Clean)
    else if to in landed then Outcome(Fault(Spin), o.log, Clean)
    else
      assert to in UpTo(|chunk|);
      Resume(Ready, chunk, to, lend, landed + {to}).After(o.log)
  }

  /** One call of Read. */
  ghost function Read(d: Decoder, chunk: seq<byte>, lend: bool): (o: Outcome)
    requires d.Coherent()
    ensures o.d.Coherent() && AllInRange(o.log)
  {
    Follow(Sweep(d, chunk, lend), chunk, lend, {})
  }

  /** Without a step back, and so whenever a buffer can be lent, the call is one forward pass. */
  lemma ReadForward(d: Decoder, chunk: seq<byte>, lend: bool)
    requires d.Coherent()
    ensures lend || !Sweep(d, chunk, lend).ending.Back? ==> Read(d, chunk, lend) == Sweep(d, chunk, lend)
  {
  }

  /** A run of Read calls. */
  ghost function ReadAll(d: Decoder, chunks: seq<seq<byte>>, lend: bool): (o: Outcome)
    requires d.Coherent()
    ensures o.d.Coherent()
    decreases |chunks|
  {
    if chunks == [] then Outcome(d, [], Clean) else
    var first := Read(d, chunks[0], lend);
    ReadAll(first.d, chunks[1..], lend).After(first.log)
  }

  // ---------------------------------------------------------------- chunk independence

  /** A call that ended cleanly can be continued by a second call as if it were one. */
  lemma {:induction false} SweepSplit(d: Decoder, a: seq<byte>, b: seq<byte>, lend: bool)
    requires d.Coherent() && Sweep(d, a, lend).ending.Clean?
    ensures Sweep(d, a + b, lend) == Sweep(Sweep(d, a, lend).d, b, lend).After(Sweep(d, a, lend).log)
    decreases |a|
  {
    if a == [] {
      assert a + b == b;
      assert Sweep(d, b, lend).After([]) == Sweep(d, b, lend);
    } else {
      assert (a + b)[0] == a[0] && (a + b)[1..] == a[1..] + b;
      match Feed(d, a[0], lend)
      case Go(d') => SweepSplit(d', a[1..], b, lend);
      case Emit(p) =>
        SweepSplit(Ready, a[1..], b, lend);
        var rest := Sweep(Ready, a[1..], lend);
        var tail := Sweep(rest.d, b, lend);
        Assoc([p], rest.log, tail.log);
      case Reject =>
      case Skip(n) =>
        assert (a[1..] + b)[n..] == a[1..][n..] + b;
        SweepSplit(Ready, a[1..][n..], b, lend);
    }
  }

  /** A rejected call stays rejected, with the same packets, however much is appended to its chunk. */
  lemma {:induction false} RejectSwallows(d: Decoder, a: seq<byte>, b: seq<byte>, lend: bool)
    requires d.Coherent() && Sweep(d, a, lend).ending.Rejected?
    ensures Sweep(d, a + b, lend) == Sweep(d, a, lend)
    decreases |a|
  {
    assert (a + b)[0] == a[0] && (a + b)[1..] == a[1..] + b;
    match Feed(d, a[0], lend)
    case Go(d') => RejectSwallows(d', a[1..], b, lend);
    case Emit(p) => RejectSwallows(Ready, a[1..], b, lend);
    case Reject =>
    case Skip(n) =>
      assert (a[1..] + b)[n..] == a[1..][n..] + b;
      RejectSwallows(Ready, a[1..][n..], b, lend);
  }

  /** A skip that ran past the chunk would have swallowed one more byte. */
  lemma {:induction false} CutShortSwallows(d: Decoder, a: seq<byte>, x: byte, lend: bool)
    requires d.Coherent() && Sweep(d, a, lend).ending.CutShort?
    ensures Sweep(d, a + [x], lend).d == Ready && !Sweep(d, a + [x], lend).ending.Back?
    decreases |a|
  {
    var c := a + [x];
    assert c[0] == a[0] && c[1..] == a[1..] + [x];
    match Feed(d, a[0], lend)
    case Go(d') => CutShortSwallows(d', a[1..], x, lend);
    case Emit(p) => CutShortSwallows(Ready, a[1..], x, lend);
    case Skip(n) =>
      if n <= |a[1..]| {
        assert (a[1..] + [x])[n..] == a[1..][n..] + [x];
        CutShortSwallows(Ready, a[1..][n..], x, lend);
      }
  }

  /** A step back is the same step back with more bytes behind it. */
  lemma {:induction false} BackSwallows(d: Decoder, a: seq<byte>, b: seq<byte>, lend: bool)
    requires d.Coherent() && Sweep(d, a, lend).ending.Back?
    ensures var o := Sweep(d, a, lend);
            Sweep(d, a + b, lend) == o.(ending := Back(o.ending.left + |b|, o.ending.steps))
    decreases |a|
  {
    assert (a + b)[0] == a[0] && (a + b)[1..] == a[1..] + b;
    match Feed(d, a[0], lend)
    case Go(d') => BackSwallows(d', a[1..], b, lend);
    case Emit(p) => BackSwallows(Ready, a[1..], b, lend);
    case Reject =>
    case Skip(n) =>
      if n >= 0 {
        assert (a[1..] + b)[n..] == a[1..][n..] + b;
        BackSwallows(Ready, a[1..][n..], b, lend);
      }
  }

  /** Two calls on `a` then `b` do what one call on their concatenation does. */
  ghost predicate SplitsAt(d: Decoder, a: seq<byte>, b: seq<byte>, lend: bool)
    requires d.Coherent()
  {
    var one, first := Read(d, a + b, lend), Read(d, a, lend);
    var second := Read(first.d, b, lend);
    one.d == second.d && one.log == first.log + second.log
  }

  /** After a clean pass the boundary is invisible, unless the continuation makes the one call step back. */
  lemma SplitsClean(d: Decoder, a: seq<byte>, b: seq<byte>, lend: bool)
    requires d.Coherent() && Sweep(d, a, lend).ending.Clean? && !Sweep(d, a + b, lend).ending.Back?
    ensures SplitsAt(d, a, b, lend)
  {
    SweepSplit(d, a, b, lend);
    ReadForward(d, a, lend);
    ReadForward(d, a + b, lend);
    ReadForward(Sweep(d, a, lend).d, b, lend);
  }

  /** After a bad header, or a skip past the chunk, a byte is swallowed in the same call and kept in the next. */
  lemma SplitsNot(d: Decoder, a: seq<byte>, lend: bool)
    requires d.Coherent() && (Sweep(d, a, lend).ending.Rejected? || Sweep(d, a, lend).ending.CutShort?)
    ensures !SplitsAt(d, a, [0], lend) && !Sweep(d, a + [0], lend).ending.Back?
  {
    var b: seq<byte> := [0];
    if Sweep(d, a, lend).ending.Rejected? {
      RejectSwallows(d, a, b, lend);
    } else {
      CutShortSwallows(d, a, 0, lend);
    }
    ReadForward(d, a, lend);
    ReadForward(d, a + b, lend);
    ReadForward(Ready, b, lend);
    assert Feed(Ready, 0, lend) == Go(Idle([] + [0]));
    assert b[1..] == [];
    assert Sweep(Ready, b, lend).d == Idle([] + [0]);
  }

  /**
   Whatever the chunking, the packets before the first bad header are
   dispatched, and dispatched first; without a bad header nothing else is and
   the decoder ends in the same state.
   */
  lemma {:induction false} AnyChunking(d: Decoder, chunks: seq<seq<byte>>)
    requires d.Coherent()
    ensures Read(d, Flatten(chunks), true).log <= ReadAll(d, chunks, true).log
    ensures Read(d, Flatten(chunks), true).ending.Clean? ==> ReadAll(d, chunks, true) == Read(d, Flatten(chunks), true)
    decreases |chunks|
  {
    ReadForward(d, Flatten(chunks), true);
    if chunks != [] {
      var c, rest := chunks[0], Flatten(chunks[1..]);
      var first := Read(d, c, true);
      ReadForward(d, c, true);
      if first.ending.Rejected? {
        RejectSwallows(d, c, rest, true);
      } else {
        SweepSplit(d, c, rest, true);
        ReadForward(first.d, rest, true);
        AnyChunking(first.d, chunks[1..]);
      }
    }
  }

  // ---------------------------------------------------------------- round trips

  /** Reading the image of a packet emits that packet and returns to the start. */
  lemma {:induction false} SweepImage(p: Packet, tail: seq<byte>)
    requires p.InRange()
    ensures Sweep(Ready, Image(p) + tail, true) == Sweep(Ready, tail, true).After([p])
  {
    var header := HeaderBytes(PacketHeader(p.kind, |p.payload|));
    HeaderRoundTrip(PacketHeader(p.kind, |p.payload|));
    assert Image(p) + tail == header + (p.payload + tail) && [] + header == header;
    SweepHeaderDone([], header, p.payload + tail, true);
    if p.payload == [] {
      assert p.payload + tail == tail;
    } else {
      SweepBody(header, [], p.payload, tail, true);
      assert [] + p.payload == p.payload;
    }
  }

  /** Header bytes that do not complete the header are only stored. */
  lemma {:induction false} SweepHeaderPart(h: seq<byte>, part: seq<byte>, tail: seq<byte>, lend: bool)
    requires |h| + |part| < HEADER_SIZE
    ensures Sweep(Idle(h), part + tail, lend) == Sweep(Idle(h + part), tail, lend)
    decreases |part|
  {
    if part == [] {
      assert part + tail == tail && h + part == h;
    } else {
      var c := part + tail;
      assert c[0] == part[0] && c[1..] == part[1..] + tail;
      assert (h + [part[0]]) + part[1..] == h + part;
      SweepHeaderPart(h + [part[0]], part[1..], tail, lend);
    }
  }

  /** What a complete header makes of the bytes after it. */
  function AfterHeader(header: seq<byte>, tail: seq<byte>, lend: bool): Outcome
    requires |header| == HEADER_SIZE
  {
    match Judge(ParseHeader(header))
    case Refused => Outcome(Ready, [], Rejected)
    case Whole => Sweep(Ready, tail, lend).After([Packet(header[4], [])])
    case Wanted(n) =>
      if lend then (if n < 0 then Outcome(Fault(Overrun), [], Clean) else Sweep(Filling(header, []), tail, lend))
      else if n < 0 then Outcome(Ready, [], Back(|tail|, -n))
      else if n <= |tail| then Sweep(Ready, tail[n..], lend)
      else Outcome(Ready, [], CutShort)
  }

  /** The bytes that complete a header are judged at once, even at the end of a chunk. */
  lemma {:induction false} SweepHeaderDone(h: seq<byte>, part: seq<byte>, tail: seq<byte>, lend: bool)
    requires |h| < HEADER_SIZE && |h| + |part| == HEADER_SIZE
    ensures Sweep(Idle(h), part + tail, lend) == AfterHeader(h + part, tail, lend)
  {
    var n := |part| - 1;
    var last := [part[n]] + tail;
    assert part + tail == part[..n] + last;
    SweepHeaderPart(h, part[..n], last, lend);
    assert last[0] == part[n] && last[1..] == tail;
    assert (h + part[..n]) + [part[n]] == h + part;
    FaultForever(Overrun, tail, lend);
  }

  /** Payload bytes that do not complete the payload are only stored. */
  lemma {:induction false} SweepBodyPart(h: seq<byte>, body: seq<byte>, part: seq<byte>, tail: seq<byte>, lend: bool)
    requires Filling(h, body).Coherent() && |body| + |part| < ParseHeader(h).dataSize
    ensures Sweep(Filling(h, body), part + tail, lend) == Sweep(Filling(h, body + part), tail, lend)
    decreases |part|
  {
    if part == [] {
      assert part + tail == tail && body + part == body;
    } else {
      var c := part + tail;
      assert c[0] == part[0] && c[1..] == part[1..] + tail;
      assert (body + [part[0]]) + part[1..] == body + part;
      SweepBodyPart(h, body + [part[0]], part[1..], tail, lend);
    }
  }

  /** The bytes that complete the payload make the packet. */
  lemma {:induction false} SweepBody(h: seq<byte>, body: seq<byte>, part: seq<byte>, tail: seq<byte>, lend: bool)
    requires Filling(h, body).Coherent() && |body| + |part| == ParseHeader(h).dataSize
    ensures Sweep(Filling(h, body), part + tail, lend) == Sweep(Ready, tail, lend).After([Packet(h[4], body + part)])
  {
    var n := |part| - 1;
    var last := [part[n]] + tail;
    assert part + tail == part[..n] + last;
    SweepBodyPart(h, body, part[..n], last, lend);
    assert last[0] == part[n] && last[1..] == tail;
    assert (body + part[..n]) + [part[n]] == body + part;
  }

  /** Decoding a stream of packets in one call. */
  lemma {:induction false} SweepStream(ps: seq<Packet>, tail: seq<byte>)
    requires AllInRange(ps)
    ensures Sweep(Ready, Stream(ps) + tail, true) == Sweep(Ready, tail, true).After(ps)
    decreases |ps|
  {
    if ps == [] {
      assert Stream(ps) + tail == tail;
      assert Sweep(Ready, tail, true).After([]) == Sweep(Ready, tail, true);
    } else {
      assert Stream(ps) + tail == Image(ps[0]) + (Stream(ps[1..]) + tail);
      SweepImage(ps[0], Stream(ps[1..]) + tail);
      SweepStream(ps[1..], tail);
      assert forall s: seq<Packet> :: [ps[0]] + (ps[1..] + s) == ps + s;
    }
  }

  /**
   The round trip: however the stream of any list of packets is cut into Read
   calls, exactly those packets are dispatched, in order and once each, and the
   decoder ends where it began.
   */
  lemma {:induction false} RoundTrip(ps: seq<Packet>, chunks: seq<seq<byte>>)
    requires AllInRange(ps) && Flatten(chunks) == Stream(ps)
    ensures ReadAll(Ready, chunks, true) == Outcome(Ready, ps, Clean)
  {
    SweepStream(ps, []);
    assert Stream(ps) + [] == Stream(ps);
    assert Sweep(Ready, [], true).After(ps) == Outcome(Ready, ps, Clean);
    ReadForward(Ready, Stream(ps), true);
    AnyChunking(Ready, chunks);
  }

  /**
   The converse: whatever bytes arrive, if no bad header is met, they are the
   images of the dispatched packets followed by what the decoder still holds.
   */
  lemma {:induction false} NothingLost(d: Decoder, chunk: seq<byte>)
    requires d.Coherent() && Sweep(d, chunk, true).ending.Clean? && !Sweep(d, chunk, true).d.Fault?
    ensures d.Pending() + chunk == Stream(Sweep(d, chunk, true).log) + Sweep(d, chunk, true).d.Pending()
    decreases |chunk|
  {
    var o := Sweep(d, chunk, true);
    if chunk == [] {
      assert d.Pending() + chunk == d.Pending();
    } else {
      var b, rest := chunk[0], chunk[1..];
      assert chunk == [b] + rest;
      match Feed(d, b, true)
      case Go(d') =>
        if d'.Fault? {
          FaultForever(d'.why, rest, true);
        } else {
          NothingLost(d', rest);
          FeedPending(d, b, true);
          Regroup(d.Pending(), b, rest, d'.Pending(), [], rest);
        }
      case Emit(p) =>
        NothingLost(Ready, rest);
        EmitImage(d, b);
        assert Ready.Pending() + rest == rest;
        StreamRegroup(d.Pending(), b, rest, p, Sweep(Ready, rest, true).log, o.d.Pending());
    }
  }

  lemma Regroup(x: seq<byte>, b: byte, rest: seq<byte>, y: seq<byte>, s: seq<byte>, e: seq<byte>)
    requires x + [b] == y && rest == s + e
    ensures x + ([b] + rest) == (y + s) + e
  {
  }

  lemma StreamRegroup(x: seq<byte>, b: byte, rest: seq<byte>, p: Packet, ps: seq<Packet>, e: seq<byte>)
    requires p.InRange() && AllInRange(ps) && x + [b] == Image(p) && rest == Stream(ps) + e
    ensures AllInRange([p] + ps) && x + ([b] + rest) == Stream([p] + ps) + e
  {
    StreamCons(p, ps);
    Regroup(x, b, rest, Image(p), Stream(ps), e);
  }

  lemma StreamCons(p: Packet, ps: seq<Packet>)
    requires p.InRange() && AllInRange(ps)
    ensures AllInRange([p] + ps) && Stream([p] + ps) == Image(p) + Stream(ps)
  {
    assert ([p] + ps)[1..] == ps;
  }

  lemma FeedPending(d: Decoder, b: byte, lend: bool)
    requires d.Coherent() && Feed(d, b, lend).Go? && !Feed(d, b, lend).next.Fault?
    ensures Feed(d, b, lend).next.Pending() == d.Pending() + [b]
  {
    match d
    case Idle(h) => assert (h + [b]) + [] == h + [b];
    case Filling(h, body) => assert h + (body + [b]) == (h + body) + [b];
    case Fault(_) =>
  }

  /** A packet is emitted exactly when its image has been taken in. */
  lemma EmitImage(d: Decoder, b: byte)
    requires d.Coherent() && Feed(d, b, true).Emit?
    ensures d.Pending() + [b] == Image(Feed(d, b, true).packet)
  {
    match d
    case Idle(h) =>
      HeaderInverse(h + [b]);
      assert (h + [b]) + [] == h + [b];
    case Filling(h, body) =>
      HeaderInverse(h);
      assert (h + body) + [b] == h + (body + [b]);
  }

  lemma {:induction false} FaultForever(why: Misstep, chunk: seq<byte>, lend: bool)
    ensures Sweep(Fault(why), chunk, lend) == Outcome(Fault(why), [], Clean)
    decreases |chunk|
  {
    if chunk != [] { FaultForever(why, chunk[1..], lend); }
  }

  /** The stream is uniquely decodable: two packet lists with the same bytes are the same list. */
  lemma StreamInjective(a: seq<Packet>, b: seq<Packet>)
    requires AllInRange(a) && AllInRange(b) && Stream(a) == Stream(b)
    ensures a == b
  {
    assert Flatten([Stream(a)]) == Stream(a);
    RoundTrip(a, [Stream(a)]);
    RoundTrip(b, [Stream(a)]);
  }

  /**
   A sender that stops in the middle of a packet, at any byte, leaves every
   earlier packet dispatched, nothing else dispatched, and the decoder holding
   exactly the unfinished packet's bytes.
   */
  lemma {:induction false} PartialStream(ps: seq<Packet>, p: Packet, n: nat)
    requires AllInRange(ps) && p.InRange() && n < |Image(p)|
    ensures var o := Sweep(Ready, Stream(ps) + Image(p)[..n], true);
            o.log == ps && o.ending.Clean? && !o.d.Fault? && o.d.Pending() == Image(p)[..n]
  {
    SweepStream(ps, Image(p)[..n]);
    SweepImagePart(p, n);
    assert ps + [] == ps;
  }

  lemma {:induction false} SweepImagePart(p: Packet, n: nat)
    requires p.InRange() && n < |Image(p)|
    ensures var o := Sweep(Ready, Image(p)[..n], true);
            o.log == [] && o.ending.Clean? && !o.d.Fault? && o.d.Pending() == Image(p)[..n]
  {
    var header := HeaderBytes(PacketHeader(p.kind, |p.payload|));
    var part := Image(p)[..n];
    if n < HEADER_SIZE {
      assert part + [] == part && [] + part == part;
      SweepHeaderPart([], part, [], true);
    } else {
      HeaderRoundTrip(PacketHeader(p.kind, |p.payload|));
      var body := p.payload[..n - HEADER_SIZE];
      assert part == header + body && [] + header == header;
      SweepHeaderDone([], header, body, true);
      assert body + [] == body && [] + body == body;
      SweepBodyPart(header, [], body, [], true);
    }
  }

  // ---------------------------------------------------------------- the ending, read off the bytes

  /** What a string of bytes that starts at a packet boundary begins with. */
  datatype Front = Partial | BadHeader | NegativeSize | TooLong | Complete

  /** A packet without a buffer to store it is too long when the bytes end before it does. */
  function FrontOf(bytes: seq<byte>, lend: bool): Front {
    if |bytes| < HEADER_SIZE then Partial else
    match Judge(ParseHeader(bytes[..HEADER_SIZE]))
    case Refused => BadHeader
    case Whole => Complete
    case Wanted(n) =>
      if n < 0 then NegativeSize
      else if n <= |bytes| - HEADER_SIZE then Complete
      else if lend then Partial else TooLong
  }

  /** Behind some whole packets, the bytes go on with such a front. */
  ghost predicate Reaches(bytes: seq<byte>, lend: bool, f: Front) {
    exists ps: seq<Packet>, tail: seq<byte> :: AllInRange(ps) && bytes == Stream(ps) + tail && FrontOf(tail, lend) == f
  }

  /** The front at which a pass with this outcome stopped. */
  function StoppedAt(o: Outcome): Front {
    match o.ending
    case Clean => if o.d.Fault? then NegativeSize else Partial
    case Rejected => BadHeader
    case CutShort => TooLong
    case Back(_, _) => NegativeSize
  }

  /** The packet a complete front is. */
  lemma SplitFront(bytes: seq<byte>, lend: bool) returns (p: Packet, rest: seq<byte>)
    requires FrontOf(bytes, lend).Complete?
    ensures p.InRange() && bytes == Image(p) + rest
  {
    var header := bytes[..HEADER_SIZE];
    var size := ParseHeader(header).dataSize;
    p, rest := Packet(header[4], bytes[HEADER_SIZE..HEADER_SIZE + size]), bytes[HEADER_SIZE + size..];
    HeaderInverse(header);
    assert ParseHeader(header) == PacketHeader(p.kind, |p.payload|);
    assert bytes == (header + p.payload) + rest;
  }

  /** Without a buffer to lend, a whole packet is skipped, or dispatched if it is empty. */
  lemma SweepPast(p: Packet, tail: seq<byte>, lend: bool)
    requires p.InRange()
    ensures StoppedAt(Sweep(Ready, Image(p) + tail, lend)) == StoppedAt(Sweep(Ready, tail, lend))
  {
    if lend {
      SweepImage(p, tail);
    } else {
      var header := HeaderBytes(PacketHeader(p.kind, |p.payload|));
      HeaderRoundTrip(PacketHeader(p.kind, |p.payload|));
      assert Image(p) + tail == header + (p.payload + tail) && [] + header == header;
      SweepHeaderDone([], header, p.payload + tail, false);
      assert (p.payload + tail)[|p.payload|..] == tail;
    }
  }

  /** At any front but a whole packet the pass stops. */
  lemma SweepStops(bytes: seq<byte>, lend: bool)
    requires !FrontOf(bytes, lend).Complete?
    ensures StoppedAt(Sweep(Ready, bytes, lend)) == FrontOf(bytes, lend) && Sweep(Ready, bytes, lend).log == []
  {
    if |bytes| < HEADER_SIZE {
      assert bytes + [] == bytes;
      SweepHeaderPart([], bytes, [], lend);
    } else {
      var header, tail := bytes[..HEADER_SIZE], bytes[HEADER_SIZE..];
      assert bytes == header + tail && [] + header == header;
      SweepHeaderDone([], header, tail, lend);
      if FrontOf(bytes, lend).Partial? {
        assert tail + [] == tail;
        SweepBodyPart(header, [], tail, [], lend);
      }
    }
  }

  /** Every string of bytes is some whole packets and then a front at which the pass stops. */
  lemma {:induction false} Decomposed(bytes: seq<byte>, lend: bool) returns (ps: seq<Packet>, tail: seq<byte>)
    ensures AllInRange(ps) && bytes == Stream(ps) + tail
    ensures FrontOf(tail, lend) == StoppedAt(Sweep(Ready, bytes, lend))
    ensures lend ==> ps == Sweep(Ready, bytes, lend).log
    decreases |bytes|
  {
    if FrontOf(bytes, lend).Complete? {
      var p, rest := SplitFront(bytes, lend);
      var qs;
      qs, tail := Decomposed(rest, lend);
      ps := [p] + qs;
      SweepPast(p, rest, lend);
      if lend { SweepImage(p, rest); }
      StreamCons(p, qs);
      Assoc(Image(p), Stream(qs), tail);
    } else {
      SweepStops(bytes, lend);
      ps, tail := [], bytes;
    }
  }

  /** And where it stops does not depend on how the bytes are taken apart. */
  lemma {:induction false} Determined(ps: seq<Packet>, tail: seq<byte>, lend: bool)
    requires AllInRange(ps) && !FrontOf(tail, lend).Complete?
    ensures StoppedAt(Sweep(Ready, Stream(ps) + tail, lend)) == FrontOf(tail, lend)
    decreases |ps|
  {
    if ps == [] {
      assert Stream(ps) + tail == tail;
      SweepStops(tail, lend);
    } else {
      Assoc(Image(ps[0]), Stream(ps[1..]), tail);
      SweepPast(ps[0], Stream(ps[1..]) + tail, lend);
      Determined(ps[1..], tail, lend);
    }
  }

  /** A decoder at a byte is a decoder that started at the last packet boundary. */
  lemma FromBoundary(d: Decoder, a: seq<byte>, lend: bool)
    requires d.Coherent() && !d.Fault? && (d.Filling? ==> lend)
    ensures Sweep(d, a, lend) == Sweep(Ready, d.Pending() + a, lend)
  {
    match d
    case Idle(h) =>
      SweepHeaderPart([], h, a, lend);
      assert [] + h == h;
    case Filling(h, body) =>
      assert d.Pending() + a == h + (body + a) && [] + h == h && [] + body == body;
      SweepHeaderDone([], h, body + a, lend);
      SweepBodyPart(h, [], body, a, lend);
  }

  /**
   How a pass ends, on the bytes alone: it stops at a front of some kind
   exactly when the bytes since the last packet boundary are whole packets
   followed by such a front. A decoder inside a packet holds a buffer that it
   gives back before it borrows, so there `lend` is true.
   */
  lemma EndingExact(d: Decoder, a: seq<byte>, lend: bool, f: Front)
    requires d.Coherent() && !d.Fault? && (d.Filling? ==> lend) && !f.Complete?
    ensures StoppedAt(Sweep(d, a, lend)) == f <==> Reaches(d.Pending() + a, lend, f)
  {
    var bytes := d.Pending() + a;
    FromBoundary(d, a, lend);
    var qs, rest := Decomposed(bytes, lend);
    if Reaches(bytes, lend, f) {
      var ps: seq<Packet>, tail: seq<byte> :| AllInRange(ps) && bytes == Stream(ps) + tail && FrontOf(tail, lend) == f;
      Determined(ps, tail, lend);
    }
  }

  /** The decoder is not without a buffer before bytes that run into a negative size. */
  ghost predicate Onward(d: Decoder, bytes: seq<byte>, lend: bool) {
    lend || !Reaches(d.Pending() + bytes, lend, NegativeSize)
  }

  /** On bytes without a negative size, and always when a buffer can be lent, no pass steps back. */
  lemma OnwardExact(d: Decoder, a: seq<byte>, lend: bool)
    requires d.Coherent() && !d.Fault? && (d.Filling? ==> lend)
    ensures Sweep(d, a, lend).ending.Back? <==> !Onward(d, a, lend)
  {
    EndingExact(d, a, lend, NegativeSize);
  }

  /**
   Chunk independence, exactly: a chunk boundary after `a` is invisible for
   every continuation that, without a buffer to lend, runs into no negative
   size, if and only if the bytes so far do not run into a bad header, nor into
   a packet that can be neither stored nor skipped to its end. The continuations
   left out do see the boundary: StepBack.BoundaryStopsStepBack.
   */
  lemma ChunkIndependence(d: Decoder, a: seq<byte>, lend: bool)
    requires d.Coherent() && !d.Fault? && (d.Filling? ==> lend)
    ensures (forall b | Onward(d, a + b, lend) :: SplitsAt(d, a, b, lend)) <==>
            !Reaches(d.Pending() + a, lend, BadHeader) && !Reaches(d.Pending() + a, lend, TooLong)
  {
    EndingExact(d, a, lend, BadHeader);
    EndingExact(d, a, lend, TooLong);
    var o := Sweep(d, a, lend);
    if o.ending.Rejected? || o.ending.CutShort? {
      SplitsNot(d, a, lend);
      OnwardExact(d, a + [0], lend);
    } else {
      forall b | Onward(d, a + b, lend) ensures SplitsAt(d, a, b, lend) {
        OnwardExact(d, a + b, lend);
        if o.ending.Back? { BackSwallows(d, a, b, lend); }
        SplitsClean(d, a, b, lend);
      }
    }
  }

  /** With a buffer to lend, a call goes wrong exactly when the bytes run into a negative size. */
  lemma OverrunExact(d: Decoder, a: seq<byte>)
    requires d.Coherent() && !d.Fault?
    ensures Read(d, a, true).d.Fault? <==> Reaches(d.Pending() + a, true, NegativeSize)
  {
    ReadForward(d, a, true);
    EndingExact(d, a, true, NegativeSize);
  }
}
