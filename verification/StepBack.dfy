/**
 What a negative size does when no buffer can be lent: the receive loop steps
 back in its chunk. Exactly when that leaves the chunk, and exactly when it
 goes on for ever.
 */
module StepBack {
  import opened Common
  import opened Wire
  import opened Framing

  // ---------------------------------------------------------------- where a step back leads

  /** Behind whole packets, a header with a negative size is where the pass steps back, by that size. */
  lemma {:induction false} BackOnBytes(ps: seq<Packet>, tail: seq<byte>)
    requires AllInRange(ps) && FrontOf(tail, false).NegativeSize?
    ensures Sweep(Ready, Stream(ps) + tail, false).ending == Back(|tail| - HEADER_SIZE, -SizeIn(tail))
    decreases |ps|
  {
    if ps == [] {
      assert Stream(ps) + tail == tail;
      var header, rest := tail[..HEADER_SIZE], tail[HEADER_SIZE..];
      assert tail == header + rest && [] + header == header;
      SweepHeaderDone([], header, rest, false);
    } else {
      Assoc(Image(ps[0]), Stream(ps[1..]), tail);
      SkipsPast(ps[0], Stream(ps[1..]) + tail);
      BackOnBytes(ps[1..], tail);
    }
  }

  /** The size announced by the header in front. */
  function SizeIn(bytes: seq<byte>): int
    requires |bytes| >= HEADER_SIZE
  {
    ParseHeader(bytes[..HEADER_SIZE]).dataSize
  }

  /** Without a buffer to lend, a pass over a whole packet ends as it would without the packet. */
  lemma SkipsPast(p: Packet, tail: seq<byte>)
    requires p.InRange()
    ensures Sweep(Ready, Image(p) + tail, false).ending == Sweep(Ready, tail, false).ending
  {
    var header := HeaderBytes(PacketHeader(p.kind, |p.payload|));
    HeaderRoundTrip(PacketHeader(p.kind, |p.payload|));
    assert Image(p) + tail == header + (p.payload + tail) && [] + header == header;
    SweepHeaderDone([], header, p.payload + tail, false);
    assert (p.payload + tail)[|p.payload|..] == tail;
  }

  /**
   What a call does that runs into a negative size, wherever in the stream that
   is: a negative copy exactly when a buffer can be lent; else a step back by
   that size from behind the header, to before the chunk, or to bytes that are
   read again.
   */
  lemma NegativeSizeExact(d: Decoder, chunk: seq<byte>, lend: bool, ps: seq<Packet>, tail: seq<byte>)
    requires d.Coherent() && !d.Fault? && (d.Filling? ==> lend)
    requires AllInRange(ps) && d.Pending() + chunk == Stream(ps) + tail && FrontOf(tail, lend).NegativeSize?
    ensures var o, r := Sweep(d, chunk, lend), Read(d, chunk, lend);
            var to := |chunk| - |tail| + HEADER_SIZE + SizeIn(tail);
            && (lend <==> r.d == Fault(Overrun))
            && (!lend ==> o.ending.Back? && Landing(o, chunk) == to)
            && (!lend && to < 0 ==> r == Outcome(Fault(Underrun), o.log, Clean))
            && (!lend && to >= 0 ==> r == Resume(Ready, chunk, to, false, {to}).After(o.log))
  {
    var to := |chunk| - |tail| + HEADER_SIZE + SizeIn(tail);
    if lend {
      assert Reaches(d.Pending() + chunk, true, NegativeSize);
      EndingExact(d, chunk, true, NegativeSize);
      ReadForward(d, chunk, true);
    } else {
      FromBoundary(d, chunk, false);
      BackOnBytes(ps, tail);
      if to >= 0 {
        assert {} + {to} == {to};
        NoOverrun(Ready, chunk, to, {to});
      }
    }
  }

  /** Without a buffer in hand nothing is copied, whatever the sizes. */
  lemma {:induction false} NoOverrun(d: Decoder, chunk: seq<byte>, from: nat, landed: set<nat>)
    requires d.Coherent() && !d.Fault? && from <= |chunk|
    ensures Resume(d, chunk, from, false, landed).d != Fault(Overrun)
    decreases UpTo(|chunk|) - landed
  {
    var o := Sweep(d, chunk[from..], false);
    if o.ending.Back? {
      var to := Landing(o, chunk);
      if to >= 0 && to !in landed {
        assert to in UpTo(|chunk|);
        NoOverrun(Ready, chunk, to, landed + {to});
      }
    }
  }

  // ---------------------------------------------------------------- going round

  /** Where a pass from position `i` steps back to, if it does and stays in the chunk. */
  function Hop(chunk: seq<byte>, i: nat): (r: Option<nat>)
    requires i <= |chunk|
    ensures r.Some? ==> r.value <= |chunk|
  {
    var o := Sweep(Ready, chunk[i..], false);
    if o.ending.Back? && Landing(o, chunk) >= 0
    then Some(Landing(o, chunk)) else None
  }

  /** Where `k` passes lead. */
  function Hops(chunk: seq<byte>, i: nat, k: nat): (r: Option<nat>)
    requires i <= |chunk|
    ensures r.Some? ==> r.value <= |chunk|
    decreases k
  {
    if k == 0 then Some(i)
    else if Hop(chunk, i).None? then None
    else Hops(chunk, Hop(chunk, i).value, k - 1)
  }

  /** However many passes are made, another one follows. */
  ghost predicate Endless(chunk: seq<byte>, i: nat)
    requires i <= |chunk|
  {
    forall k: nat :: Hops(chunk, i, k).Some?
  }

  /** The pass from position `i` steps back to before the chunk. */
  predicate FallsOut(chunk: seq<byte>, i: nat)
    requires i <= |chunk|
  {
    var o := Sweep(Ready, chunk[i..], false);
    o.ending.Back? && Landing(o, chunk) < 0
  }

  /** After at most `n` passes, the next one steps back to before the chunk. */
  predicate FallsWithin(chunk: seq<byte>, i: nat, n: nat)
    requires i <= |chunk|
  {
    exists k: nat | k <= n :: Hops(chunk, i, k).Some? && FallsOut(chunk, Hops(chunk, i, k).value)
  }

  lemma {:induction false} HopsAdd(chunk: seq<byte>, i: nat, a: nat, b: nat)
    requires i <= |chunk| && Hops(chunk, i, a).Some?
    ensures Hops(chunk, i, a + b) == Hops(chunk, Hops(chunk, i, a).value, b)
    decreases a
  {
    if a > 0 { HopsAdd(chunk, Hop(chunk, i).value, a - 1, b); }
  }

  /** Passes before one that is made are made. */
  lemma HopsBefore(chunk: seq<byte>, i: nat, a: nat, b: nat)
    requires i <= |chunk| && a <= b && Hops(chunk, i, b).Some?
    ensures Hops(chunk, i, a).Some?
    decreases a
  {
    if a > 0 { HopsBefore(chunk, Hop(chunk, i).value, a - 1, b - 1); }
  }

  lemma {:induction false} CycleAt(chunk: seq<byte>, i: nat, n: nat, k: nat)
    requires i <= |chunk| && n > 0 && Hops(chunk, i, n) == Some(i)
    ensures Hops(chunk, i, k).Some?
    decreases k
  {
    if k < n {
      HopsBefore(chunk, i, k, n);
    } else {
      HopsAdd(chunk, i, n, k - n);
      CycleAt(chunk, i, n, k - n);
    }
  }

  /** Every position landed on before leads here. */
  ghost predicate Leads(chunk: seq<byte>, landed: set<nat>, i: nat) {
    forall v <- landed :: v <= |chunk| && exists k: nat :: Hops(chunk, v, k) == Some(i)
  }

  lemma LeadsOn(chunk: seq<byte>, landed: set<nat>, i: nat)
    requires i <= |chunk| && Leads(chunk, landed, i) && Hop(chunk, i).Some?
    ensures Leads(chunk, landed + {Hop(chunk, i).value}, Hop(chunk, i).value)
  {
    var to := Hop(chunk, i).value;
    assert Hops(chunk, to, 0) == Some(to);
    forall v <- landed ensures exists k: nat :: Hops(chunk, v, k) == Some(to) {
      var k: nat :| Hops(chunk, v, k) == Some(i);
      HopsAdd(chunk, v, k, 1);
      assert Hops(chunk, i, 1) == Hops(chunk, to, 0);
      assert Hops(chunk, v, k + 1) == Some(to);
    }
  }

  lemma EndlessFrom(chunk: seq<byte>, i: nat)
    requires i <= |chunk| && Hop(chunk, i).Some? && Endless(chunk, Hop(chunk, i).value)
    ensures Endless(chunk, i)
  {
    forall k: nat ensures Hops(chunk, i, k).Some? {
      if k > 0 { assert Hops(chunk, Hop(chunk, i).value, k - 1).Some?; }
    }
  }

  /** The loop from a position, hop by hop. */
  lemma ResumeHop(chunk: seq<byte>, i: nat, landed: set<nat>)
    requires i <= |chunk|
    ensures var d := Resume(Ready, chunk, i, false, landed).d;
            if Hop(chunk, i).None? then (d.Fault? <==> FallsOut(chunk, i)) && (d.Fault? ==> d == Fault(Underrun))
            else if Hop(chunk, i).value in landed then d == Fault(Spin)
            else d == Resume(Ready, chunk, Hop(chunk, i).value, false, landed + {Hop(chunk, i).value}).d
  {
  }

  /** Where the model says that the loop spins, it does. */
  lemma {:induction false} SpinIsEndless(chunk: seq<byte>, i: nat, landed: set<nat>)
    requires i <= |chunk| && Leads(chunk, landed, i) && Resume(Ready, chunk, i, false, landed).d == Fault(Spin)
    ensures Endless(chunk, i)
    decreases UpTo(|chunk|) - landed
  {
    ResumeHop(chunk, i, landed);
    var to := Hop(chunk, i).value;
    if to in landed {
      var k: nat :| Hops(chunk, to, k) == Some(i);
      HopsAdd(chunk, to, k, 1);
      assert Hops(chunk, i, 1) == Hops(chunk, to, 0) == Some(to);
      forall m: nat ensures Hops(chunk, to, m).Some? { CycleAt(chunk, to, k + 1, m); }
    } else {
      assert to in UpTo(|chunk|);
      LeadsOn(chunk, landed, i);
      SpinIsEndless(chunk, to, landed + {to});
    }
    EndlessFrom(chunk, i);
  }

  /** And where it does not, some pass is the last: the positions not landed on yet run out. */
  lemma {:induction false} OtherwiseEnds(chunk: seq<byte>, i: nat, landed: set<nat>, left: nat) returns (k: nat)
    requires i <= |chunk| && left == Left(chunk, landed) && Resume(Ready, chunk, i, false, landed).d != Fault(Spin)
    ensures k <= left + 1 && Hops(chunk, i, k).None?
    decreases left
  {
    ResumeHop(chunk, i, landed);
    if Hop(chunk, i).None? {
      return 1;
    }
    var to := Hop(chunk, i).value;
    OneLess(chunk, landed, to);
    var m := OtherwiseEnds(chunk, to, landed + {to}, left - 1);
    k := m + 1;
    assert Hops(chunk, i, k) == Hops(chunk, to, m);
  }

  /** How many positions have not been landed on. */
  ghost function Left(chunk: seq<byte>, landed: set<nat>): nat {
    |UpTo(|chunk|) - landed|
  }

  lemma OneLess(chunk: seq<byte>, landed: set<nat>, to: nat)
    requires to <= |chunk| && to !in landed
    ensures Left(chunk, landed + {to}) == Left(chunk, landed) - 1
  {
    assert to in UpTo(|chunk|);
    assert UpTo(|chunk|) - (landed + {to}) == (UpTo(|chunk|) - landed) - {to};
  }

  lemma {:induction false} UpToSize(n: nat)
    ensures |UpTo(n)| == n + 1
  {
    if n > 0 { UpToSize(n - 1); }
  }

  lemma RoomAt(chunk: seq<byte>, to: nat)
    requires to <= |chunk|
    ensures Left(chunk, {to}) == |chunk|
  {
    UpToSize(|chunk|);
    OneLess(chunk, {}, to);
    assert {} + {to} == {to} && UpTo(|chunk|) - {} == UpTo(|chunk|);
  }

  /**
   From a position stepped back to, the loop spins if and only if every pass
   steps back again within the chunk, if and only if as many passes do as the
   chunk has positions.
   */
  lemma SpinFrom(chunk: seq<byte>, to: nat)
    requires to <= |chunk|
    ensures Resume(Ready, chunk, to, false, {to}).d == Fault(Spin) <==> Endless(chunk, to)
    ensures Endless(chunk, to) <==> Hops(chunk, to, |chunk| + 1).Some?
  {
    if Resume(Ready, chunk, to, false, {to}).d == Fault(Spin) {
      assert Hops(chunk, to, 0) == Some(to);
      SpinIsEndless(chunk, to, {to});
    } else {
      RoomAt(chunk, to);
      var k := OtherwiseEnds(chunk, to, {to}, |chunk|);
      if Hops(chunk, to, |chunk| + 1).Some? { HopsBefore(chunk, to, k, |chunk| + 1); }
    }
  }

  /**
   The call never returns if and only if its first pass steps back to a
   position from which every pass steps back again, within the chunk; and that
   shows in as many passes as the chunk has positions.
   */
  lemma SpinExact(d: Decoder, chunk: seq<byte>)
    requires d.Coherent() && !d.Fault?
    ensures var o := Sweep(d, chunk, false);
            && (Read(d, chunk, false).d == Fault(Spin) <==>
                  o.ending.Back? && Landing(o, chunk) >= 0 && Endless(chunk, Landing(o, chunk)))
            && (Read(d, chunk, false).d == Fault(Spin) <==>
                  o.ending.Back? && Landing(o, chunk) >= 0 && Hops(chunk, Landing(o, chunk), |chunk| + 1).Some?)
  {
    var o := Sweep(d, chunk, false);
    if o.ending.Back? && Landing(o, chunk) >= 0 {
      var to := Landing(o, chunk);
      assert {} + {to} == {to};
      SpinFrom(chunk, to);
    }
  }

  // ---------------------------------------------------------------- leaving the chunk

  /** Where the model says that the loop leaves the chunk, some pass does. */
  lemma {:induction false} UnderrunFalls(chunk: seq<byte>, i: nat, landed: set<nat>, left: nat) returns (k: nat)
    requires i <= |chunk| && left == Left(chunk, landed) && Resume(Ready, chunk, i, false, landed).d == Fault(Underrun)
    ensures k <= left && Hops(chunk, i, k).Some? && FallsOut(chunk, Hops(chunk, i, k).value)
    decreases left
  {
    ResumeHop(chunk, i, landed);
    if Hop(chunk, i).None? {
      return 0;
    }
    var to := Hop(chunk, i).value;
    OneLess(chunk, landed, to);
    var m := UnderrunFalls(chunk, to, landed + {to}, left - 1);
    k := m + 1;
    assert Hops(chunk, i, k) == Hops(chunk, to, m);
  }

  /** And if some pass does, the loop gets there: it cannot have come round before. */
  lemma {:induction false} FallsUnderrun(chunk: seq<byte>, i: nat, landed: set<nat>, k: nat)
    requires i <= |chunk| && Leads(chunk, landed, i)
    requires Hops(chunk, i, k).Some? && FallsOut(chunk, Hops(chunk, i, k).value)
    ensures Resume(Ready, chunk, i, false, landed).d == Fault(Underrun)
    decreases k
  {
    ResumeHop(chunk, i, landed);
    if k > 0 {
      var to := Hop(chunk, i).value;
      if to in landed {
        NoWayRound(chunk, i, landed, k);
      } else {
        LeadsOn(chunk, landed, i);
        FallsUnderrun(chunk, to, landed + {to}, k - 1);
      }
    }
  }

  lemma NoWayRound(chunk: seq<byte>, i: nat, landed: set<nat>, k: nat)
    requires i <= |chunk| && Leads(chunk, landed, i)
    requires Hops(chunk, i, k).Some? && FallsOut(chunk, Hops(chunk, i, k).value)
    ensures Resume(Ready, chunk, i, false, landed).d != Fault(Spin)
  {
    var at := Hops(chunk, i, k).value;
    HopsAdd(chunk, i, k, 1);
    assert Hop(chunk, at).None? && Hops(chunk, at, 1).None?;
    if Resume(Ready, chunk, i, false, landed).d == Fault(Spin) {
      SpinIsEndless(chunk, i, landed);
    }
  }

  lemma UnderrunFrom(chunk: seq<byte>, to: nat)
    requires to <= |chunk|
    ensures Resume(Ready, chunk, to, false, {to}).d == Fault(Underrun) <==> FallsWithin(chunk, to, |chunk|)
  {
    if Resume(Ready, chunk, to, false, {to}).d == Fault(Underrun) {
      RoomAt(chunk, to);
      var k := UnderrunFalls(chunk, to, {to}, |chunk|);
    } else if FallsWithin(chunk, to, |chunk|) {
      var k: nat :| k <= |chunk| && Hops(chunk, to, k).Some? && FallsOut(chunk, Hops(chunk, to, k).value);
      assert Hops(chunk, to, 0) == Some(to);
      FallsUnderrun(chunk, to, {to}, k);
    }
  }

  /**
   The call reads before its chunk if and only if its first pass steps back to
   there, or back to a position from which a later pass does; and that shows in
   as many passes as the chunk has positions.
   */
  lemma UnderrunExact(d: Decoder, chunk: seq<byte>)
    requires d.Coherent() && !d.Fault?
    ensures var o := Sweep(d, chunk, false);
            Read(d, chunk, false).d == Fault(Underrun) <==>
              o.ending.Back? && (Landing(o, chunk) < 0 || FallsWithin(chunk, Landing(o, chunk), |chunk|))
  {
    var o := Sweep(d, chunk, false);
    if o.ending.Back? && Landing(o, chunk) >= 0 {
      var to := Landing(o, chunk);
      assert {} + {to} == {to};
      UnderrunFrom(chunk, to);
    }
  }

  // ---------------------------------------------------------------- examples

  /** A fresh chunk that starts with a header of size -10 is read for ever. */
  lemma MinusTenSpins(kind: byte, tail: seq<byte>)
    ensures Read(Ready, HeaderBytes(PacketHeader(kind, -10)) + tail, false).d == Fault(Spin)
  {
    var header := HeaderBytes(PacketHeader(kind, -10));
    var chunk := header + tail;
    HeaderRoundTrip(PacketHeader(kind, -10));
    assert [] + header == header;
    SweepHeaderDone([], header, tail, false);
    assert chunk[0..] == chunk;
    assert Hop(chunk, 0) == Some(0);
    forall k: nat ensures Hops(chunk, 0, k).Some? { CycleAt(chunk, 0, 1, k); }
    SpinExact(Ready, chunk);
  }

  lemma LastOfMinusOne(kind: byte)
    ensures HeaderBytes(PacketHeader(kind, -1))[9..] == [0xFF]
  {
    assert LeBytes(ToUnsigned(-1))[3] == 0xFF;
  }

  lemma LoneByte(b: byte)
    ensures Sweep(Ready, [b], false) == Outcome(Idle([b]), [], Clean)
  {
    assert [b][1..] == [] && [] + [b] == [b];
    assert Feed(Ready, b, false) == Go(Idle([b]));
  }

  /** Size -1 without a buffer: the last header byte is read again, as the first of the next header. */
  lemma MinusOneRereads(kind: byte)
    ensures Read(Ready, HeaderBytes(PacketHeader(kind, -1)), false).d == Idle([0xFF])
  {
    var header := HeaderBytes(PacketHeader(kind, -1));
    HeaderRoundTrip(PacketHeader(kind, -1));
    assert [] + header == header && header + [] == header;
    assert Stream([]) + header == header && header[..HEADER_SIZE] == header;
    NegativeSizeExact(Ready, header, false, [], header);
    LastOfMinusOne(kind);
    LoneByte(header[9]);
  }

  /**
   Without a buffer a chunk boundary stops a step back: behind an empty packet,
   a header of size -11 makes one call read on from the packet's last byte,
   while a call that gets only the header reads before its chunk.
   */
  lemma BoundaryStopsStepBack(p: Packet, kind: byte)
    requires p.payload == []
    ensures var a, b := Image(p), HeaderBytes(PacketHeader(kind, -11));
            && !Reaches(a, false, BadHeader) && !Reaches(a, false, TooLong)
            && Read(Ready, a, false).d == Ready && Read(Ready, b, false).d == Fault(Underrun)
            && Read(Ready, a + b, false).d == Ready && !SplitsAt(Ready, a, b, false)
  {
    FirstAlone(p);
    SecondAlone(kind);
    BothTogether(p, kind);
  }

  lemma SecondAlone(kind: byte)
    ensures Read(Ready, HeaderBytes(PacketHeader(kind, -11)), false).d == Fault(Underrun)
  {
    var b := HeaderBytes(PacketHeader(kind, -11));
    HeaderRoundTrip(PacketHeader(kind, -11));
    assert b[..HEADER_SIZE] == b && [] + b == b && Stream([]) + b == b;
    NegativeSizeExact(Ready, b, false, [], b);
  }

  lemma BothTogether(p: Packet, kind: byte)
    requires p.payload == []
    ensures Read(Ready, Image(p) + HeaderBytes(PacketHeader(kind, -11)), false).d == Ready
  {
    var a, b := Image(p), HeaderBytes(PacketHeader(kind, -11));
    HeaderRoundTrip(PacketHeader(kind, -11));
    StreamCons(p, []);
    assert [p] + [] == [p] && Stream([p]) == a && [] + (a + b) == a + b && b[..HEADER_SIZE] == b;
    NegativeSizeExact(Ready, a + b, false, [p], b);
    RereadRejected(p, b);
  }

  lemma FirstAlone(p: Packet)
    requires p.payload == []
    ensures Read(Ready, Image(p), false).d == Ready
    ensures !Reaches(Image(p), false, BadHeader) && !Reaches(Image(p), false, TooLong)
  {
    var a := Image(p);
    HeaderRoundTrip(PacketHeader(p.kind, 0));
    assert a == HeaderBytes(PacketHeader(p.kind, 0)) && a + [] == a && [] + a == a;
    SweepHeaderDone([], a, [], false);
    ReadForward(Ready, a, false);
    EndingExact(Ready, a, false, BadHeader);
    EndingExact(Ready, a, false, TooLong);
  }

  /** What is read from the packet's last byte on is no header. */
  lemma RereadRejected(p: Packet, b: seq<byte>)
    requires p.payload == [] && |b| == HEADER_SIZE
    ensures Resume(Ready, Image(p) + b, 9, false, {9}).d == Ready
  {
    var chunk := Image(p) + b;
    var header: seq<byte>, rest := [0] + b[..9], [b[9]];
    EndsInZero(p);
    assert chunk[9..] == header + rest && [] + header == header;
    NoMagic(header);
    SweepHeaderDone([], header, rest, false);
    assert Sweep(Ready, chunk[9..], false) == Outcome(Ready, [], Rejected);
  }

  lemma EndsInZero(p: Packet)
    requires p.payload == []
    ensures Image(p)[9] == 0
  {
    assert LeBytes(0) == [0, 0, 0, 0];
  }

  lemma NoMagic(header: seq<byte>)
    requires |header| == HEADER_SIZE && header[0] == 0
    ensures Judge(ParseHeader(header)).Refused?
  {
    var m := header[..4];
    assert LeValue(m) == 256 * (m[1] as int + 256 * m[2] as int + 65536 * m[3] as int);
  }
}
