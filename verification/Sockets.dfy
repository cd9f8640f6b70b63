/** Virtual sockets as values: endpoints, ports, and what each socket operation does to them. */
module Sockets {
  import opened Common
  import opened Ports

  /** The two protocols the proxy supports. */
  datatype Proto = Tcp | Udp

  datatype Endpoint = Endpoint(ip: Ip, port: Port)

  const Nowhere := Endpoint(0, 0)

  /** The routing block of a connection request or response. */
  datatype Info = Info(source: Endpoint, dest: Endpoint, proto: Proto)

  /**
   The connection state of a socket. The last three fields record history that
   the program does not keep: the response an accepted socket announced itself
   with, whether its local endpoint has changed since, and the response that
   completed this socket's own connect, until one of its endpoints changes.
   */
  datatype Socket = Socket(
    proto: Proto, local: Endpoint, remote: Endpoint,
    bound: bool, listening: bool, connecting: bool, connected: bool, open: bool,
    requests: seq<Info>, refusals: nat,
    birth: Option<Info>, moved: bool, link: Option<Info>)

  function NewSocket(proto: Proto): Socket {
    Socket(proto, Nowhere, Nowhere, false, false, false, false, true, [], 0, None, false, None)
  }

  /** The ports left after a socket gives back its own; an unbound socket's port is not given back. */
  function GivenBack(used: set<Port>, s: Socket): set<Port> {
    if s.bound && s.local.port != 0 then used - {s.local.port} else used
  }

  function Take(used: set<Port>, p: Port): set<Port> {
    if p == 0 then used else used + {p}
  }

  function Moved(s: Socket, local: Endpoint): Socket {
    s.(local := local, moved := true, link := None)
  }

  /** EnsureLocalEndpoint: `replace` trades the port in; it never marks the socket bound. */
  function EnsureLocal(ip: Ip, used: set<Port>, s: Socket, replace: bool): (set<Port>, Socket) {
    if s.bound && s.local.port != 0 && !replace then (used, s) else
    var rest := GivenBack(used, s);
    var p := LeastFree(rest);
    (Take(rest, p), Moved(s, Endpoint(ip, p)))
  }

  /** Bind: the old port is given back, and port 0 asks for an ephemeral one. */
  function Bind(used: set<Port>, s: Socket, want: Endpoint): (set<Port>, Socket) {
    var rest := GivenBack(used, s);
    if want.port != 0 then (rest, Moved(s, want).(bound := true)) else
    var p := LeastFree(rest);
    (Take(rest, p), Moved(s, Endpoint(want.ip, p)).(bound := true))
  }

  predicate MayConnect(s: Socket) {
    !s.listening && s.bound
  }

  /** Connect, up to the wait: a fresh port, and a request from there to `remote`. */
  function Connect(ip: Ip, used: set<Port>, s: Socket): (set<Port>, Socket) {
    if !MayConnect(s) then (used, s) else
    var (rest, moved) := EnsureLocal(ip, used, s, true);
    (rest, moved.(connecting := true))
  }

  /** Only the first response to a pending connect has any effect. */
  function HandleResponse(s: Socket, r: Info): Socket {
    if !s.connecting then s
    else if r.source.ip != 0
    then s.(connecting := false, connected := true, remote := r.source, link := Some(r))
    else s.(connecting := false, refusals := s.refusals + 1)
  }

  /** Requests are taken off the queue until one is addressed to this socket. */
  function Scan(local: Endpoint, requests: seq<Info>): (r: (Option<Info>, seq<Info>))
    ensures r.0.Some? ==> r.0.value in requests && r.0.value.dest == local
    ensures r.0.None? ==> r.1 == [] && forall q <- requests :: q.dest != local
    ensures forall q <- r.1 :: q in requests
  {
    if requests == [] then (None, [])
    else if requests[0].dest == local then (Some(requests[0]), requests[1..])
    else Scan(local, requests[1..])
  }

  /** The request taken is the first one addressed to this socket, and those after it stay. */
  lemma {:induction false} ScanExact(local: Endpoint, before: seq<Info>, q: Info, after: seq<Info>)
    requires q.dest == local && forall k | 0 <= k < |before| :: before[k].dest != local
    ensures Scan(local, before + [q] + after) == (Some(q), after)
  {
    var all := before + [q] + after;
    if before == [] {
      assert all[0] == q && all[1..] == after;
    } else {
      assert all[0] == before[0] && all[1..] == before[1..] + [q] + after;
      ScanExact(local, before[1..], q, after);
    }
  }

  /** The socket Accept builds for a request, and the response it sends from there. */
  function Accepted(ip: Ip, used: set<Port>, q: Info, proto: Proto): (set<Port>, Socket) {
    var (rest, s) := EnsureLocal(ip, used, NewSocket(proto).(connected := true, remote := q.source), true);
    (rest, s.(moved := false, birth := Some(Info(s.local, s.remote, proto))))
  }

  function Disconnect(s: Socket): Socket {
    if s.connected then s.(connected := false, remote := Nowhere, link := None) else s
  }

  function Close(s: Socket): Socket {
    if !s.open then s else Disconnect(s).(open := false, listening := false)
  }

  /** A datagram or connected stream may be sent from; that may change the local endpoint. */
  function SendFrom(ip: Ip, used: set<Port>, s: Socket): (set<Port>, Socket) {
    if !s.connected && s.proto.Tcp? then (used, s) else EnsureLocal(ip, used, s, false)
  }

  /** Routing within one host looks at protocol and port only. */
  predicate Routed(s: Socket, m: Info) {
    s.open && s.proto == m.proto && s.local.port == m.dest.port
  }
}
