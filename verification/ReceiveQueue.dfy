/** The receive queue of a virtual socket: what a read takes from it, and what is conserved. */
module ReceiveQueue {
  import opened Common
  import opened Sockets

  datatype Datagram = Datagram(source: Endpoint, data: seq<byte>)

  /** A read returns bytes and their source, or an error. */
  datatype Pulled = Pulled(bytes: Option<seq<byte>>, source: Endpoint, queue: seq<Datagram>)

  /** A read that finds data at once. On TCP an oversized packet is split, whether or not the caller only peeks. */
  function Pull(proto: Proto, queue: seq<Datagram>, size: nat, peek: bool): Pulled
    requires queue != []
  {
    var d := queue[0];
    var popped := if peek then queue else queue[1..];
    if |d.data| <= size then Pulled(Some(d.data), d.source, popped)
    else if proto.Udp? then Pulled(None, d.source, popped)
    else Pulled(Some(d.data[..size]), d.source, [d.(data := d.data[size..])] + queue[1..])
  }

  /** A read that had to wait first: an oversized packet is cut off on either protocol. */
  function PullLate(queue: seq<Datagram>, size: nat, peek: bool): Pulled
    requires queue != []
  {
    var d := queue[0];
    Pulled(Some(d.data[..Min(size, |d.data|)]), d.source, if peek then queue else queue[1..])
  }

  /** The bytes waiting in a queue, in order. */
  function Bytes(queue: seq<Datagram>): seq<byte> {
    if queue == [] then [] else queue[0].data + Bytes(queue[1..])
  }

  lemma {:induction false} BytesAppend(a: seq<Datagram>, b: seq<Datagram>)
    ensures Bytes(a + b) == Bytes(a) + Bytes(b)
  {
    if a == [] {
      assert a + b == b;
    } else {
      assert (a + b)[1..] == a[1..] + b;
      BytesAppend(a[1..], b);
    }
  }

  // ---------------------------------------------------------------- single calls, exactly

  /**
   What a read hands over, peeking or not, at once or after a wait: the front of
   the oldest packet as far as the buffer goes, and that packet's source; only an
   immediate UDP read of an oversized datagram is an error. And what it leaves:
   a peek at a packet that fits leaves all, other reads leave the later packets,
   on TCP behind what did not fit.
   */
  lemma ReadMeaning(proto: Proto, queue: seq<Datagram>, size: nat, peek: bool)
    requires queue != []
    ensures var d, now, late := queue[0].data, Pull(proto, queue, size, peek), PullLate(queue, size, peek);
            && now.source == queue[0].source && late.source == queue[0].source
            && (now.bytes == None <==> proto == Udp && |d| > size)
            && (now.bytes != None ==> now.bytes == Some(if |d| <= size then d else d[..size]))
            && late.bytes == Some(if |d| <= size then d else d[..size])
            && late.queue == (if peek then queue else queue[1..])
            && (|d| <= size || proto == Udp ==> now.queue == if peek then queue else queue[1..])
            && (|d| > size && proto == Tcp ==> now.queue == [Datagram(queue[0].source, d[size..])] + queue[1..])
  {
    assert queue[0].data[..|queue[0].data|] == queue[0].data;
  }

  /** Nothing is lost: a peek leaves the queue, and a read takes exactly the bytes it returns. */
  predicate Lossless(queue: seq<Datagram>, r: Pulled, peek: bool) {
    if peek then r.queue == queue else r.bytes.Some? && r.bytes.value + Bytes(r.queue) == Bytes(queue)
  }

  /** A TCP read that finds data loses none, except by peeking into a packet larger than a non-empty buffer. */
  lemma TcpPullExact(queue: seq<Datagram>, size: nat, peek: bool)
    requires queue != []
    ensures Lossless(queue, Pull(Tcp, queue, size, peek), peek) <==> !peek || |queue[0].data| <= size || size == 0
  {
    var d, r := queue[0], Pull(Tcp, queue, size, peek);
    if |d.data| > size {
      assert d.data == d.data[..size] + d.data[size..];
      assert r.queue[1..] == queue[1..];
      assert r.queue[0].data == d.data[size..];
      if size == 0 { assert r.queue == queue; }
    }
  }

  /** A read that had to wait loses the tail of a packet larger than the buffer, unless it only peeks. */
  lemma LatePullExact(queue: seq<Datagram>, size: nat, peek: bool)
    requires queue != []
    ensures Lossless(queue, PullLate(queue, size, peek), peek) <==> peek || |queue[0].data| <= size
  {
    var d, r := queue[0], PullLate(queue, size, peek);
    if !peek && |d.data| > size {
      assert |r.bytes.value + Bytes(r.queue)| < |Bytes(queue)|;
    }
  }

  // ---------------------------------------------------------------- runs

  /**
   Packets come in, and reads of any size take from the front when there is
   something; `late` marks a read that had to wait for it.
   */
  datatype Event = Comes(packet: Datagram) | Read(size: nat, peek: bool, late: bool)

  predicate Possible(queue: seq<Datagram>, e: Event) {
    e.Read? ==> queue != []
  }

  function Reading(proto: Proto, queue: seq<Datagram>, e: Event): Pulled
    requires e.Read? && queue != []
  {
    if e.late then PullLate(queue, e.size, e.peek) else Pull(proto, queue, e.size, e.peek)
  }

  function Next(proto: Proto, queue: seq<Datagram>, e: Event): seq<Datagram>
    requires Possible(queue, e)
  {
    if e.Comes? then queue + [e.packet] else Reading(proto, queue, e).queue
  }

  predicate IsRun(proto: Proto, queue: seq<Datagram>, es: seq<Event>)
    decreases |es|
  {
    es == [] || (Possible(queue, es[0]) && IsRun(proto, Next(proto, queue, es[0]), es[1..]))
  }

  function After(proto: Proto, queue: seq<Datagram>, es: seq<Event>): seq<Datagram>
    requires IsRun(proto, queue, es)
    decreases |es|
  {
    if es == [] then queue else After(proto, Next(proto, queue, es[0]), es[1..])
  }

  function Accepted(es: seq<Event>): seq<Datagram> {
    if es == [] then [] else (if es[0].Comes? then [es[0].packet] else []) + Accepted(es[1..])
  }

  // ---------------------------------------------------------------- TCP

  /** A read that loses nothing, by TcpPullExact and LatePullExact: the packet fits, or neither the peek nor the wait matters. */
  predicate Gentle(queue: seq<Datagram>, e: Event)
    requires Possible(queue, e)
  {
    e.Read? ==> |queue[0].data| <= e.size || (if e.late then e.peek else !e.peek || e.size == 0)
  }

  predicate AlwaysGentle(queue: seq<Datagram>, es: seq<Event>)
    requires IsRun(Tcp, queue, es)
    decreases |es|
  {
    es == [] || (Gentle(queue, es[0]) && AlwaysGentle(Next(Tcp, queue, es[0]), es[1..]))
  }

  /** The bytes a step hands to the reader for good. */
  function Got(queue: seq<Datagram>, e: Event): seq<byte>
    requires Possible(queue, e)
  {
    if e.Read? && !e.peek then Reading(Tcp, queue, e).bytes.value else []
  }

  function Came(e: Event): seq<byte> {
    if e.Comes? then e.packet.data else []
  }

  /** The bytes a TCP run hands to the reader. */
  function Returned(queue: seq<Datagram>, es: seq<Event>): seq<byte>
    requires IsRun(Tcp, queue, es)
    decreases |es|
  {
    if es == [] then [] else Got(queue, es[0]) + Returned(Next(Tcp, queue, es[0]), es[1..])
  }

  lemma {:induction false} TcpStep(queue: seq<Datagram>, e: Event)
    requires Possible(queue, e) && Gentle(queue, e)
    ensures Bytes(queue) + Came(e) == Got(queue, e) + Bytes(Next(Tcp, queue, e))
  {
    if e.Comes? {
      BytesAppend(queue, [e.packet]);
      assert Bytes([e.packet]) == e.packet.data + [];
    } else {
      TcpPullExact(queue, e.size, e.peek);
      LatePullExact(queue, e.size, e.peek);
    }
  }

  /**
   TCP conservation: over every run whose reads are gentle, whatever the buffer
   sizes, with peeks and waits among them, the bytes returned followed by the
   bytes still queued are the bytes that were queued or came in, in order.
   */
  lemma {:induction false} TcpConservation(queue: seq<Datagram>, es: seq<Event>)
    requires IsRun(Tcp, queue, es) && AlwaysGentle(queue, es)
    ensures Returned(queue, es) + Bytes(After(Tcp, queue, es)) == Bytes(queue) + Bytes(Accepted(es))
    decreases |es|
  {
    if es == [] {
      assert Bytes(queue) + Bytes(Accepted(es)) == Bytes(queue);
      assert Returned(queue, es) + Bytes(queue) == Bytes(queue);
    } else {
      var e, next := es[0], Next(Tcp, queue, es[0]);
      TcpStep(queue, e);
      TcpConservation(next, es[1..]);
      var first := if e.Comes? then [e.packet] else [];
      BytesAppend(first, Accepted(es[1..]));
      assert Bytes(first) == Came(e);
      Assoc(Got(queue, e), Returned(next, es[1..]), Bytes(After(Tcp, next, es[1..])));
      Assoc(Got(queue, e), Bytes(next), Bytes(Accepted(es[1..])));
      Assoc(Bytes(queue), Came(e), Bytes(Accepted(es[1..])));
    }
  }

  // ---------------------------------------------------------------- UDP

  /** What a UDP run did with each datagram it removed, oldest first: handed over whole, dropped, or cut off after a wait. */
  datatype Handled = Whole(datagram: Datagram) | TooLarge(datagram: Datagram, buffer: nat) | Cut(datagram: Datagram, buffer: nat)

  function Fate(queue: seq<Datagram>, e: Event): Handled
    requires e.Read? && queue != []
  {
    var r := Reading(Udp, queue, e);
    if r.bytes.None? then TooLarge(queue[0], e.size)
    else if |r.bytes.value| < |queue[0].data| then Cut(queue[0], e.size)
    else Whole(Datagram(r.source, r.bytes.value))
  }

  /** The fates of the datagrams that left the queue; a peek moves none. */
  function Fates(queue: seq<Datagram>, es: seq<Event>): seq<Handled>
    requires IsRun(Udp, queue, es)
    decreases |es|
  {
    if es == [] then [] else
    (if es[0].Read? && !es[0].peek then [Fate(queue, es[0])] else []) + Fates(Next(Udp, queue, es[0]), es[1..])
  }

  function Datagrams(hs: seq<Handled>): seq<Datagram> {
    if hs == [] then [] else [hs[0].datagram] + Datagrams(hs[1..])
  }

  /** A datagram is handed over whole exactly when it fits, and a fate that is not whole shows that it did not. */
  predicate Fair(h: Handled) {
    !h.Whole? ==> |h.datagram.data| > h.buffer
  }

  lemma FateIs(queue: seq<Datagram>, e: Event)
    requires e.Read? && queue != []
    ensures Fate(queue, e).datagram == queue[0] && Fair(Fate(queue, e)) && (Fate(queue, e).Whole? <==> |queue[0].data| <= e.size)
    ensures Next(Udp, queue, e) == if e.peek then queue else queue[1..]
  {
  }

  /**
   UDP: over every run, peeks and waits included, the datagrams handed over,
   cut or dropped, followed by those still queued, are the datagrams that were
   queued or came in, in order and with their source; and a datagram is cut or
   dropped only when it exceeds the buffer.
   */
  lemma {:induction false} UdpConservation(queue: seq<Datagram>, es: seq<Event>)
    requires IsRun(Udp, queue, es)
    ensures Datagrams(Fates(queue, es)) + After(Udp, queue, es) == queue + Accepted(es)
    ensures forall k | 0 <= k < |Fates(queue, es)| :: Fair(Fates(queue, es)[k])
    decreases |es|
  {
    if es == [] {
      assert Datagrams(Fates(queue, es)) + queue == queue + Accepted(es);
    } else {
      var e, next := es[0], Next(Udp, queue, es[0]);
      UdpConservation(next, es[1..]);
      var later := Fates(next, es[1..]);
      if e.Read? {
        FateIs(queue, e);
        assert [] + Accepted(es[1..]) == Accepted(es[1..]) && [] + later == later;
        if !e.peek {
          assert ([Fate(queue, e)] + later)[1..] == later;
          Assoc([queue[0]], Datagrams(later), After(Udp, next, es[1..]));
          Assoc([queue[0]], next, Accepted(es[1..]));
          assert [queue[0]] + next == queue;
        }
      } else {
        assert [] + later == later;
        Assoc(queue, [e.packet], Accepted(es[1..]));
      }
    }
  }
}
