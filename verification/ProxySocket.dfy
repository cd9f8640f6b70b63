/** The proxy and its virtual sockets as objects, each method proved against the value it stands for. */
module ProxySockets {
  import opened Common
  import opened Ports
  import opened Sockets
  import opened ReceiveQueue

  datatype Mail = Request(info: Info) | Response(info: Info) | End(info: Info)

  class LdnProxy {
    const localIp: Ip
    const broadcast: Ip
    const tcpPorts: EphemeralPortPool
    const udpPorts: EphemeralPortPool
    /** Registered sockets; one that registers twice is listed twice. */
    var sockets: seq<LdnProxySocket>
    /** Control messages handed to the connection, oldest first. */
    var sent: seq<Mail>

    ghost predicate Valid()
      reads this, tcpPorts, udpPorts
    {
      tcpPorts != udpPorts && tcpPorts.Valid() && udpPorts.Valid()
    }

    function PoolOf(proto: Proto): EphemeralPortPool {
      if proto.Tcp? then tcpPorts else udpPorts
    }

    constructor (localIp: Ip, broadcast: Ip)
      ensures Valid() && sockets == [] && sent == []
      ensures this.localIp == localIp && this.broadcast == broadcast
      ensures fresh(tcpPorts) && fresh(udpPorts) && tcpPorts.Allocated() == udpPorts.Allocated() == {}
    {
      this.localIp, this.broadcast := localIp, broadcast;
      tcpPorts := new EphemeralPortPool();
      udpPorts := new EphemeralPortPool();
      sockets, sent := [], [];
    }

    method RegisterSocket(socket: LdnProxySocket)
      modifies this`sockets
      ensures sockets == old(sockets) + [socket]
    {
      sockets := sockets + [socket];
    }

    /** Removes every listing of the socket and keeps the others in order. */
    method UnregisterSocket(socket: LdnProxySocket)
      modifies this`sockets
      ensures socket !in sockets
      ensures forall s: LdnProxySocket | s != socket :: multiset(sockets)[s] == multiset(old(sockets))[s]
    {
      var kept: seq<LdnProxySocket>, i := [], 0;
      while i < |sockets|
        invariant i <= |sockets| && socket !in kept
        invariant forall s: LdnProxySocket | s != socket :: multiset(kept)[s] == multiset(sockets[..i])[s]
      {
        assert sockets[..i + 1] == sockets[..i] + [sockets[i]];
        if sockets[i] != socket { kept := kept + [sockets[i]]; }
        i := i + 1;
      }
      assert sockets[..i] == sockets;
      sockets := kept;
    }

    /** How often `s` is among the first `n` registrations. */
    ghost function Listings(n: nat, s: LdnProxySocket): nat
      requires n <= |sockets|
      reads this`sockets
    {
      if n == 0 then 0 else Listings(n - 1, s) + if sockets[n - 1] == s then 1 else 0
    }

    /** A connection request goes to every socket on its port, once for each time the socket is registered. */
    method HandleConnectionRequest(m: Info)
      modifies set s | s in sockets :: s`connectRequests
      ensures forall s | s in sockets ::
                s.connectRequests == old(s.connectRequests) +
                  if s.proto == m.proto && s.localEndPoint.port == m.dest.port then Copies(m, Listings(|sockets|, s)) else []
    {
      var i := 0;
      while i < |sockets|
        invariant i <= |sockets|
        invariant forall s | s in sockets ::
          s.connectRequests == old(s.connectRequests) + if s.Matches(m) then Copies(m, Listings(i, s)) else []
      {
        var socket := sockets[i];
        if socket.Matches(m) {
          Assoc(old(socket.connectRequests), Copies(m, Listings(i, socket)), [m]);
          socket.connectRequests := socket.connectRequests + [m];
        }
        i := i + 1;
      }
    }

    /** A response goes to every socket on its port; however often a socket is registered, it acts once. */
    method HandleConnectionResponse(m: Info)
      modifies set s | s in sockets :: s
      ensures forall s | s in sockets :: s.View() == Reaction(old(s.View()), m)
    {
      var i := 0;
      while i < |sockets|
        invariant i <= |sockets|
        invariant forall s | s in sockets ::
          s.View() == if Listings(i, s) > 0 then Reaction(old(s.View()), m) else old(s.View())
      {
        var socket := sockets[i];
        ReactsOnce(old(socket.View()), m);
        socket.React(m);
        assert socket.View() == Reaction(old(socket.View()), m);
        i := i + 1;
      }
      forall s | s in sockets ensures Listings(|sockets|, s) > 0 { ListedOnce(|sockets|, s); }
    }

    lemma {:induction false} ListedOnce(n: nat, s: LdnProxySocket)
      requires n <= |sockets| && s in sockets[..n]
      ensures Listings(n, s) > 0
      decreases n
    {
      if sockets[n - 1] != s {
        assert sockets[..n] == sockets[..n - 1] + [sockets[n - 1]];
        ListedOnce(n - 1, s);
      }
    }
  }

  /** What a response does to a socket it may or may not be routed to. */
  function Reaction(s: Socket, m: Info): Socket {
    if s.proto == m.proto && s.local.port == m.dest.port then HandleResponse(s, m) else s
  }

  /**
   A response is for a pending connect of the same protocol and port, and for
   nothing else: it completes it, unless it comes from address 0 and refuses it.
   */
  lemma ReactionExact(s: Socket, m: Info)
    ensures var t := Reaction(s, m);
            && (t != s <==> s.connecting && s.proto == m.proto && s.local.port == m.dest.port)
            && (t != s ==> !t.connecting && t.local == s.local && t.bound == s.bound && t.requests == s.requests)
            && (t != s && m.source.ip != 0 ==> t.connected && t.remote == m.source && t.refusals == s.refusals)
            && (t != s && m.source.ip == 0 ==> t.connected == s.connected && t.remote == s.remote && t.refusals == s.refusals + 1)
  {
  }

  lemma ReactsOnce(s: Socket, m: Info)
    ensures Reaction(Reaction(s, m), m) == Reaction(s, m)
  {
  }

  function Copies<T>(x: T, n: nat): seq<T> {
    if n == 0 then [] else Copies(x, n - 1) + [x]
  }

  class LdnProxySocket {
    const proxy: LdnProxy
    const proto: Proto
    const blocking: bool
    var localEndPoint: Endpoint
    var remoteEndPoint: Endpoint
    var isBound: bool
    var isListening: bool
    var connecting: bool
    var connected: bool
    var closed: bool
    var broadcast: bool
    var readShutdown: bool
    var errors: nat
    var connectRequests: seq<Info>
    var receiveQueue: seq<Datagram>
    ghost var birth: Option<Info>
    ghost var moved: bool
    ghost var link: Option<Info>

    ghost function View(): Socket
      reads this
    {
      Socket(proto, localEndPoint, remoteEndPoint, isBound, isListening, connecting, connected, !closed,
             connectRequests, errors, birth, moved, link)
    }

    predicate IsReadable()
      reads this
    {
      if isListening then connectRequests != [] else readShutdown || receiveQueue != []
    }

    predicate IsWritable()
      reads this`connected
    {
      connected || proto.Udp?
    }

    predicate HasError()
      reads this`errors
    {
      errors > 0
    }

    predicate Matches(m: Info)
      reads this`localEndPoint
    {
      proto == m.proto && localEndPoint.port == m.dest.port
    }

    ghost function Pool(): EphemeralPortPool {
      proxy.PoolOf(proto)
    }

    constructor (proxy: LdnProxy, proto: Proto, blocking: bool)
      modifies proxy`sockets
      ensures View() == NewSocket(proto) && receiveQueue == [] && !broadcast && !readShutdown
      ensures this.proxy == proxy && this.proto == proto && this.blocking == blocking
      ensures proxy.sockets == old(proxy.sockets) + [this]
      ensures !IsReadable() && (IsWritable() <==> proto.Udp?) && !HasError()
    {
      this.proxy, this.proto, this.blocking := proxy, proto, blocking;
      localEndPoint, remoteEndPoint := Nowhere, Nowhere;
      isBound, isListening, connecting, connected, closed := false, false, false, false, false;
      broadcast, readShutdown, errors := false, false, 0;
      connectRequests, receiveQueue := [], [];
      birth, moved, link := None, false, None;
      new;
      proxy.RegisterSocket(this);
    }

    method EnsureLocalEndpoint(replace: bool) returns (local: Endpoint)
      requires proxy.Valid()
      modifies this`localEndPoint, this`moved, this`link, Pool()
      ensures proxy.Valid() && local == localEndPoint
      ensures Pool().Allocated() == EnsureLocal(proxy.localIp, old(Pool().Allocated()), old(View()), replace).0
      ensures View() == EnsureLocal(proxy.localIp, old(Pool().Allocated()), old(View()), replace).1
    {
      var ports := proxy.PoolOf(proto);
      if isBound && localEndPoint.port != 0 {
        if !replace { return localEndPoint; }
        ports.ReturnPort(localEndPoint.port);
      }
      var port := ports.AllocatePort();
      localEndPoint := Endpoint(proxy.localIp, port);
      moved, link := true, None;
      return localEndPoint;
    }

    method Bind(want: Endpoint)
      requires proxy.Valid()
      modifies this`localEndPoint, this`isBound, this`moved, this`link, Pool()
      ensures proxy.Valid()
      ensures Pool().Allocated() == Sockets.Bind(old(Pool().Allocated()), old(View()), want).0
      ensures View() == Sockets.Bind(old(Pool().Allocated()), old(View()), want).1
    {
      var ports := proxy.PoolOf(proto);
      if isBound && localEndPoint.port != 0 {
        ports.ReturnPort(localEndPoint.port);
      }
      var endpoint := want;
      if endpoint.port == 0 {
        var port := ports.AllocatePort();
        endpoint := Endpoint(want.ip, port);
      }
      localEndPoint, isBound := endpoint, true;
      moved, link := true, None;
    }

    /** Everything up to the wait for the response. */
    method Connect(remote: Endpoint)
      requires proxy.Valid()
      modifies this, Pool(), proxy`sent
      ensures proxy.Valid() && receiveQueue == old(receiveQueue)
      ensures Pool().Allocated() == Sockets.Connect(proxy.localIp, old(Pool().Allocated()), old(View())).0
      ensures View() == Sockets.Connect(proxy.localIp, old(Pool().Allocated()), old(View())).1
      ensures proxy.sent == old(proxy.sent) +
                if old(MayConnect(View())) then [Request(Info(localEndPoint, remote, proto))] else []
    {
      if isListening || !isBound { return; }
      var local := EnsureLocalEndpoint(true);
      connecting := true;
      proxy.sent := proxy.sent + [Request(Info(local, remote, proto))];
    }

    method HandleConnectResponse(m: Info)
      modifies this
      ensures View() == HandleResponse(old(View()), m) && receiveQueue == old(receiveQueue)
    {
      if !connecting { return; }
      connecting := false;
      if m.source.ip != 0 {
        remoteEndPoint, connected := m.source, true;
        link := Some(m);
      } else {
        errors := errors + 1;
      }
    }

    method React(m: Info)
      modifies this
      ensures View() == Reaction(old(View()), m)
    {
      if Matches(m) { HandleConnectResponse(m); }
    }

    /**
     Accept: nothing unless listening; else requests are taken until one is
     addressed here, and if there is memory for a new socket it announces itself
     to the requester. With no such request the program goes on waiting.
     */
    method Accept(memory: bool) returns (socket: LdnProxySocket?)
      requires proxy.Valid()
      modifies this`connectRequests, Pool(), proxy`sockets, proxy`sent
      ensures proxy.Valid()
      ensures connectRequests == if isListening then Scan(localEndPoint, old(connectRequests)).1 else old(connectRequests)
      ensures socket != null <==> isListening && memory && Scan(localEndPoint, old(connectRequests)).0.Some?
      ensures socket == null ==>
                && proxy.sent == old(proxy.sent) && proxy.sockets == old(proxy.sockets)
                && Pool().Allocated() == old(Pool().Allocated())
      ensures socket != null ==>
                && fresh(socket) && proxy.sockets == old(proxy.sockets) + [socket]
                && (Pool().Allocated(), socket.View()) ==
                   Sockets.Accepted(proxy.localIp, old(Pool().Allocated()), Scan(localEndPoint, old(connectRequests)).0.value, proto)
                && proxy.sent == old(proxy.sent) + [Response(socket.birth.value)]
    {
      if !isListening { return null; }
      while connectRequests != []
        invariant Scan(localEndPoint, connectRequests) == Scan(localEndPoint, old(connectRequests))
        invariant proxy.Valid() && proxy.sent == old(proxy.sent) && proxy.sockets == old(proxy.sockets)
        invariant Pool().Allocated() == old(Pool().Allocated())
        decreases |connectRequests|
      {
        var request := connectRequests[0];
        connectRequests := connectRequests[1..];
        if request.dest == localEndPoint {
          if !memory { return null; }
          socket := new LdnProxySocket(proxy, proto, blocking);
          socket.AsAccepted(request.source);
          return;
        }
      }
      return null;
    }

    /** Turns a new socket into the local end of an accepted connection. */
    method AsAccepted(remote: Endpoint)
      requires proxy.Valid() && View() == NewSocket(proto)
      modifies this, Pool(), proxy`sent
      ensures proxy.Valid()
      ensures forall q: Info | q.source == remote ::
                (Pool().Allocated(), View()) == Sockets.Accepted(proxy.localIp, old(Pool().Allocated()), q, proto)
      ensures birth.Some? && proxy.sent == old(proxy.sent) + [Response(birth.value)]
    {
      connected, remoteEndPoint := true, remote;
      var local := EnsureLocalEndpoint(true);
      moved, birth := false, Some(Info(local, remote, proto));
      proxy.sent := proxy.sent + [Response(Info(local, remote, proto))];
    }

    method Listen()
      modifies this`isListening
      ensures View() == if old(isBound) then old(View()).(listening := true) else old(View())
    {
      if isBound { isListening := true; }
    }

    /** The endpoint a datagram or connected stream is sent from; an unbound socket moves to a new port each time. */
    method SendTo() returns (from: Option<Endpoint>)
      requires proxy.Valid()
      modifies this`localEndPoint, this`moved, this`link, Pool()
      ensures proxy.Valid()
      ensures Pool().Allocated() == SendFrom(proxy.localIp, old(Pool().Allocated()), old(View())).0
      ensures View() == SendFrom(proxy.localIp, old(Pool().Allocated()), old(View())).1
      ensures from == if !connected && proto.Tcp? then None else Some(localEndPoint)
      ensures from.Some? <==> old(IsWritable())
    {
      if !connected && proto.Tcp? { return None; }
      var local := EnsureLocalEndpoint(false);
      return Some(local);
    }

    /** Tells the other end, once. */
    method Disconnect()
      modifies this, proxy`sent
      ensures View() == Sockets.Disconnect(old(View())) && receiveQueue == old(receiveQueue)
      ensures proxy.sent == old(proxy.sent) +
                if old(connected) then [End(Info(old(localEndPoint), old(remoteEndPoint), proto))] else []
    {
      if connected {
        proxy.sent := proxy.sent + [End(Info(localEndPoint, remoteEndPoint, proto))];
        remoteEndPoint, connected := Nowhere, false;
        link := None;
      }
    }

    /** Unregisters and disconnects; the port is not given back. */
    method Close()
      modifies this, proxy`sent, proxy`sockets
      ensures View() == Sockets.Close(old(View()))
      ensures !old(closed) ==> this !in proxy.sockets
      ensures proxy.sent == old(proxy.sent) +
                if old(connected && !closed) then [End(Info(old(localEndPoint), old(remoteEndPoint), proto))] else []
    {
      if closed { return; }
      closed := true;
      proxy.UnregisterSocket(this);
      if connected { Disconnect(); }
      isListening := false;
    }

    /** Broadcast data is kept only where the socket asked for it. */
    method IncomingData(packet: Datagram, destIp: Ip)
      modifies this`receiveQueue
      ensures receiveQueue == old(receiveQueue) +
                if !closed && (broadcast || destIp != proxy.broadcast) then [packet] else []
    {
      var isBroadcast := destIp == proxy.broadcast;
      if !closed && (broadcast || !isBroadcast) {
        receiveQueue := receiveQueue + [packet];
      }
    }

    /** A read into `buffer`; the returned count is -1 for an error. `meanwhile` is what happens if it has to wait. */
    method ReceiveFrom(buffer: array<byte>, peek: bool, meanwhile: Meanwhile) returns (count: int, source: Endpoint)
      modifies this, proxy`sent, buffer
      ensures old(!isListening && blocking && IsWritable()) ==> (old(Waits()) <==> !old(IsReadable()))
      ensures old(Waits()) ==> Woken(old(connected), proto, meanwhile, buffer.Length, peek, count, source, buffer[..], receiveQueue)
      ensures !old(Waits()) ==> View() == old(View()) && readShutdown == old(readShutdown) && proxy.sent == old(proxy.sent)
      ensures !old(connected) && proto.Tcp? ==> count == -1 && receiveQueue == old(receiveQueue)
      ensures (old(connected) || proto.Udp?) && old(receiveQueue) != [] ==>
                Reads(Pull(proto, old(receiveQueue), buffer.Length, peek), count, source, buffer[..], receiveQueue)
      ensures (old(connected) || proto.Udp?) && old(receiveQueue) == [] && (old(readShutdown) || !blocking) ==>
                count == (if old(readShutdown) then 0 else -1) && receiveQueue == []
    {
      source := Nowhere;
      if !connected && proto.Tcp? { return -1, source; }
      if receiveQueue != [] {
        count, source := ReceiveNow(buffer, peek);
        return;
      }
      if readShutdown { return 0, source; }
      if !blocking { return -1, source; }
      Wait(meanwhile);
      if !connected && proto.Tcp? { return -1, source; }
      if receiveQueue != [] {
        var packet := receiveQueue[0];
        source := packet.source;
        count := Min(buffer.Length, |packet.data|);
        Copy(packet.data[..count], buffer);
        if !peek { receiveQueue := receiveQueue[1..]; }
        return;
      }
      return if readShutdown then 0 else -1, source;
    }

    /** A read has to wait. */
    predicate Waits()
      reads this
    {
      (connected || proto.Udp?) && receiveQueue == [] && !readShutdown && blocking
    }

    /** What others do to the socket while a read waits. */
    method Wait(meanwhile: Meanwhile)
      requires Waits()
      modifies this, proxy`sent
      ensures receiveQueue == meanwhile.arrivals
      ensures connected == (old(connected) && !meanwhile.disconnected) && readShutdown == meanwhile.shutdown
    {
      if meanwhile.disconnected { Disconnect(); }
      readShutdown := meanwhile.shutdown;
      receiveQueue := meanwhile.arrivals;
    }

    /** A read that finds a packet at once. */
    method ReceiveNow(buffer: array<byte>, peek: bool) returns (count: int, source: Endpoint)
      requires receiveQueue != []
      modifies this`receiveQueue, buffer
      ensures Reads(Pull(proto, old(receiveQueue), buffer.Length, peek), count, source, buffer[..], receiveQueue)
    {
      var packet := receiveQueue[0];
      source := packet.source;
      if |packet.data| > buffer.Length {
        count := buffer.Length;
        Copy(packet.data[..count], buffer);
        if proto.Udp? {
          if !peek { receiveQueue := receiveQueue[1..]; }
          return -1, source;
        }
        receiveQueue := [packet.(data := packet.data[count..])] + receiveQueue[1..];
      } else {
        count := |packet.data|;
        Copy(packet.data, buffer);
        if !peek { receiveQueue := receiveQueue[1..]; }
      }
    }

    method Copy(data: seq<byte>, buffer: array<byte>)
      requires |data| <= buffer.Length
      modifies buffer
      ensures buffer[..|data|] == data && buffer[|data|..] == old(buffer[|data|..])
    {
      forall k | 0 <= k < |data| { buffer[k] := data[k]; }
    }
  }

  /** While a read waits, packets come in, and the socket may be disconnected or shut down for reading. */
  datatype Meanwhile = Meanwhile(arrivals: seq<Datagram>, disconnected: bool, shutdown: bool)

  /** What a read that had to wait does: an error if disconnected, else the first arrival, else the end or a timeout. */
  ghost predicate Woken(wasConnected: bool, proto: Proto, meanwhile: Meanwhile, size: nat, peek: bool,
                        count: int, source: Endpoint, buffer: seq<byte>, queue: seq<Datagram>)
  {
    if proto.Tcp? && (!wasConnected || meanwhile.disconnected) then count == -1 && queue == meanwhile.arrivals
    else if meanwhile.arrivals != [] then Reads(PullLate(meanwhile.arrivals, size, peek), count, source, buffer, queue)
    else count == (if meanwhile.shutdown then 0 else -1) && queue == []
  }

  /** A call's results are those of `r`: its bytes at the front of the buffer, its source, its queue. */
  ghost predicate Reads(r: Pulled, count: int, source: Endpoint, buffer: seq<byte>, queue: seq<Datagram>) {
    && source == r.source && queue == r.queue
    && (r.bytes.None? ==> count == -1)
    && (r.bytes.Some? ==> 0 <= count <= |buffer| && buffer[..count] == r.bytes.value)
  }
}
