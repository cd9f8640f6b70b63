/**
 Hosts with virtual sockets exchanging connection requests and responses. Any
 message once sent may be delivered at any later time, any number of times, or
 never, to the host that has the destination address.
 */
module VirtualNet {
  import opened Common
  import opened Ports
  import opened Sockets

  datatype Host = Host(ip: Ip, tcp: set<Port>, udp: set<Port>, sockets: seq<Socket>) {
    function Used(p: Proto): set<Port> {
      if p.Tcp? then tcp else udp
    }

    /** Socket `i` replaced, together with the pool of its protocol. */
    function Put(i: nat, used: set<Port>, s: Socket): Host
      requires i < |sockets|
    {
      var h := this.(sockets := sockets[i := s]);
      if s.proto.Tcp? then h.(tcp := used) else h.(udp := used)
    }
  }

  /** Every message ever sent. */
  datatype Mail = Mail(requests: set<Info>, responses: set<Info>)

  datatype Net = Net(hosts: seq<Host>, mail: Mail)

  datatype Op =
    | Bind(want: Endpoint)
    | Listen
    | Connect(remote: Endpoint)
    | Accept
    | Send
    | Disconnect
    | Close

  datatype Event =
    | Create(x: nat, proto: Proto)
    | Call(x: nat, i: nat, op: Op)
    | DeliverRequest(x: nat, m: Info)
    | DeliverResponse(x: nat, m: Info)

  /** Explicit binds keep out of the ephemeral range; messages arrive where they are addressed. */
  predicate Enabled(n: Net, e: Event) {
    match e
    case Create(x, _) => x < |n.hosts|
    case Call(x, i, op) =>
      && x < |n.hosts| && i < |n.hosts[x].sockets|
      && (op.Bind? ==> !Ephemeral(op.want.port))
    case DeliverRequest(x, m) => x < |n.hosts| && m in n.mail.requests && n.hosts[x].ip == m.dest.ip
    case DeliverResponse(x, m) => x < |n.hosts| && m in n.mail.responses && n.hosts[x].ip == m.dest.ip
  }

  /** A call on one socket: the host after it, and the request or response it sends. */
  function CallOn(h: Host, i: nat, op: Op): (Host, Option<Info>, Option<Info>)
    requires i < |h.sockets|
  {
    var s := h.sockets[i];
    var used := h.Used(s.proto);
    match op
    case Bind(want) => var (u, t) := Sockets.Bind(used, s, want); (h.Put(i, u, t), None, None)
    case Listen => (h.Put(i, used, if s.bound then s.(listening := true) else s), None, None)
    case Connect(remote) =>
      var (u, t) := Sockets.Connect(h.ip, used, s);
      (h.Put(i, u, t), if MayConnect(s) then Some(Info(t.local, remote, s.proto)) else None, None)
    case Accept =>
      if !s.listening then (h, None, None) else
      var (q, rest) := Scan(s.local, s.requests);
      var g := h.Put(i, used, s.(requests := rest));
      if q.None? then (g, None, None) else
      var (u, a) := Accepted(h.ip, used, q.value, s.proto);
      (g.(sockets := g.sockets + [NewSocket(s.proto)]).Put(|g.sockets|, u, a), None, a.birth)
    case Send => var (u, t) := SendFrom(h.ip, used, s); (h.Put(i, u, t), None, None)
    case Disconnect => (h.Put(i, used, Sockets.Disconnect(s)), None, None)
    case Close => (h.Put(i, used, Sockets.Close(s)), None, None)
  }

  /** What an incoming message does to one socket. */
  function Arrive(s: Socket, m: Info, response: bool): Socket {
    if !Routed(s, m) then s
    else if response then HandleResponse(s, m)
    else s.(requests := s.requests + [m])
  }

  function Deliver(sockets: seq<Socket>, m: Info, response: bool): (r: seq<Socket>)
    ensures |r| == |sockets| && forall i | 0 <= i < |r| :: r[i] == Arrive(sockets[i], m, response)
  {
    seq(|sockets|, i requires 0 <= i < |sockets| => Arrive(sockets[i], m, response))
  }

  function With(n: Net, x: nat, h: Host): Net
    requires x < |n.hosts|
  {
    n.(hosts := n.hosts[x := h])
  }

  function Posted(s: set<Info>, m: Option<Info>): set<Info> {
    if m.Some? then s + {m.value} else s
  }

  function Post(mail: Mail, request: Option<Info>, response: Option<Info>): Mail {
    Mail(Posted(mail.requests, request), Posted(mail.responses, response))
  }

  function Step(n: Net, e: Event): Net
    requires Enabled(n, e)
  {
    match e
    case Create(x, proto) => With(n, x, n.hosts[x].(sockets := n.hosts[x].sockets + [NewSocket(proto)]))
    case Call(x, i, op) =>
      var (h, request, response) := CallOn(n.hosts[x], i, op);
      With(n, x, h).(mail := Post(n.mail, request, response))
    case DeliverRequest(x, m) => With(n, x, n.hosts[x].(sockets := Deliver(n.hosts[x].sockets, m, false)))
    case DeliverResponse(x, m) => With(n, x, n.hosts[x].(sockets := Deliver(n.hosts[x].sockets, m, true)))
  }

  // ---------------------------------------------------------------- the invariant

  /** The port an accepted socket announced. */
  function BirthPort(s: Socket): Port {
    if s.birth.Some? then s.birth.value.source.port else 0
  }

  /** Ports of one host: allocated while in use, and never shared. */
  ghost predicate PortSound(s: Socket, used: set<Port>) {
    && (Ephemeral(s.local.port) ==> s.local.port in used)
    && (BirthPort(s) != 0 ==> Ephemeral(BirthPort(s)) && BirthPort(s) in used)
    && (BirthPort(s) != 0 && (s.bound || s.moved) ==> s.local.port != BirthPort(s))
  }

  ghost predicate Apart(s: Socket, t: Socket) {
    s.proto == t.proto ==>
      && (Ephemeral(s.local.port) ==> s.local.port != t.local.port)
      && (BirthPort(s) != 0 ==> BirthPort(s) != t.local.port && BirthPort(s) != BirthPort(t))
  }

  /** What the recorded history says about a socket's endpoints. */
  ghost predicate StorySound(s: Socket, ip: Ip, responses: set<Info>) {
    && (s.connecting ==> s.bound) && (s.connected ==> s.open) && (!s.connected ==> s.remote == Nowhere)
    && (s.birth.Some? ==>
          var r := s.birth.value;
          && r in responses && r.source.ip == ip && r.proto == s.proto
          && (!s.moved ==> s.local == r.source)
          && (s.connected && !s.bound ==> s.remote == r.dest))
    && (s.link.Some? ==>
          var r := s.link.value;
          && r in responses && r.proto == s.proto && r.dest.ip == ip && s.bound
          && s.connected && s.remote == r.source && s.local.port == r.dest.port)
  }

  ghost predicate SocketSound(s: Socket, h: Host, mail: Mail) {
    && PortSound(s, h.Used(s.proto))
    && StorySound(s, h.ip, mail.responses)
    && (forall q <- s.requests :: q in mail.requests)
  }

  ghost predicate HostSound(h: Host, mail: Mail) {
    && (forall q <- h.tcp :: Ephemeral(q)) && (forall q <- h.udp :: Ephemeral(q))
    && (forall i | 0 <= i < |h.sockets| :: SocketSound(h.sockets[i], h, mail))
    && (forall i, j | 0 <= i < |h.sockets| && 0 <= j < |h.sockets| && i != j :: Apart(h.sockets[i], h.sockets[j]))
  }

  /** Host x has the accepted socket that sent response r. */
  ghost predicate Announced(n: Net, r: Info, x: nat, j: nat) {
    x < |n.hosts| && j < |n.hosts[x].sockets| && n.hosts[x].sockets[j].birth == Some(r)
  }

  ghost predicate Inv(n: Net) {
    && (forall x | 0 <= x < |n.hosts| :: HostSound(n.hosts[x], n.mail))
    && (forall m <- n.mail.requests :: m.source.port == 0 || Ephemeral(m.source.port))
    && (forall r <- n.mail.responses :: r.dest.port == 0 || Ephemeral(r.dest.port))
    && (forall r <- n.mail.responses :: exists x, j :: Announced(n, r, x, j))
  }

  // ---------------------------------------------------------------- one socket changes

  /** Socket `s` becomes `t`: its port is kept, left behind or given back, and a new one is fresh or not ephemeral. */
  ghost predicate Relocation(used: set<Port>, s: Socket, after: set<Port>, t: Socket) {
    && t.proto == s.proto
    && (forall q <- after :: q in used || (q == t.local.port && Ephemeral(q)))
    && (forall q <- used :: q in after || (s.bound && q == s.local.port))
    && (Ephemeral(t.local.port) ==> t.local.port in after && (t.local.port in used ==> t.local.port == s.local.port))
    && (t.birth == s.birth || BirthPort(t) == t.local.port)
    && (s.birth.Some? ==> t.birth == s.birth)
    && (BirthPort(t) != 0 && (t.bound || t.moved) ==> t.local.port != BirthPort(t))
    && (BirthPort(t) != 0 ==> Ephemeral(BirthPort(t)))
  }

  lemma RelocationKeepsPorts(h: Host, mail: Mail, i: nat, after: set<Port>, t: Socket)
    requires HostSound(h, mail) && i < |h.sockets|
    requires Relocation(h.Used(t.proto), h.sockets[i], after, t)
    ensures (forall q <- h.Put(i, after, t).tcp :: Ephemeral(q)) && (forall q <- h.Put(i, after, t).udp :: Ephemeral(q))
    ensures PortSound(t, after)
    ensures forall j | 0 <= j < |h.sockets| && j != i :: PortSound(h.sockets[j], h.Put(i, after, t).Used(h.sockets[j].proto))
  {
    var s, g := h.sockets[i], h.Put(i, after, t);
    assert SocketSound(s, h, mail);
    assert g.Used(t.proto) == after;
    forall j | 0 <= j < |h.sockets| && j != i ensures PortSound(h.sockets[j], g.Used(h.sockets[j].proto)) {
      assert SocketSound(h.sockets[j], h, mail) && Apart(h.sockets[j], s);
    }
  }

  lemma RelocationKeepsApart(h: Host, mail: Mail, i: nat, after: set<Port>, t: Socket, j: nat)
    requires HostSound(h, mail) && i < |h.sockets| && j < |h.sockets| && i != j
    requires Relocation(h.Used(t.proto), h.sockets[i], after, t)
    ensures Apart(h.sockets[j], t) && Apart(t, h.sockets[j])
  {
    assert SocketSound(h.sockets[j], h, mail) && SocketSound(h.sockets[i], h, mail);
    assert Apart(h.sockets[j], h.sockets[i]) && Apart(h.sockets[i], h.sockets[j]);
  }

  lemma RelocationKeeps(h: Host, mail: Mail, i: nat, after: set<Port>, t: Socket)
    requires HostSound(h, mail) && i < |h.sockets|
    requires Relocation(h.Used(t.proto), h.sockets[i], after, t) && StorySound(t, h.ip, mail.responses)
    requires forall q <- t.requests :: q in mail.requests
    ensures HostSound(h.Put(i, after, t), mail)
  {
    var g := h.Put(i, after, t);
    RelocationKeepsPorts(h, mail, i, after, t);
    forall j | 0 <= j < |g.sockets| ensures SocketSound(g.sockets[j], g, mail) {
      assert SocketSound(h.sockets[j], h, mail);
    }
    forall j, k | 0 <= j < |g.sockets| && 0 <= k < |g.sockets| && j != k ensures Apart(g.sockets[j], g.sockets[k]) {
      if j == i { RelocationKeepsApart(h, mail, i, after, t, k); }
      else if k == i { RelocationKeepsApart(h, mail, i, after, t, j); }
      else { assert Apart(h.sockets[j], h.sockets[k]); }
    }
  }

  /** Messages only accumulate, so what held of a host still does. */
  lemma MoreMail(h: Host, mail: Mail, more: Mail)
    requires HostSound(h, mail) && mail.requests <= more.requests && mail.responses <= more.responses
    ensures HostSound(h, more)
  {
    forall i | 0 <= i < |h.sockets| ensures SocketSound(h.sockets[i], h, more) {
      assert SocketSound(h.sockets[i], h, mail);
    }
  }

  // ---------------------------------------------------------------- each operation

  lemma EnsureRelocates(ip: Ip, used: set<Port>, s: Socket, replace: bool)
    requires PortSound(s, used) && forall q <- used :: Ephemeral(q)
    ensures var (u, t) := EnsureLocal(ip, used, s, replace); Relocation(used, s, u, t)
  {
  }

  lemma BindRelocates(used: set<Port>, s: Socket, want: Endpoint)
    requires PortSound(s, used) && (forall q <- used :: Ephemeral(q)) && !Ephemeral(want.port)
    ensures var (u, t) := Sockets.Bind(used, s, want); Relocation(used, s, u, t)
  {
    GivenBackIs(used, s);
    if want.port == 0 {
      var rest := GivenBack(used, s);
      var p := LeastFree(rest);
      assert forall q <- Take(rest, p) :: q in rest || q == p;
    }
  }

  lemma GivenBackIs(used: set<Port>, s: Socket)
    ensures forall q <- GivenBack(used, s) :: q in used
    ensures forall q <- used :: q in GivenBack(used, s) || (s.bound && q == s.local.port)
  {
  }

  lemma StandingRelocates(used: set<Port>, s: Socket, t: Socket)
    requires PortSound(s, used) && t.proto == s.proto && t.local == s.local && t.birth == s.birth && t.bound == s.bound && t.moved == s.moved
    ensures Relocation(used, s, used, t)
  {
  }

  lemma UsedEphemeral(h: Host, mail: Mail, p: Proto)
    requires HostSound(h, mail)
    ensures forall q <- h.Used(p) :: Ephemeral(q)
  {
  }

  lemma MovedStory(s: Socket, local: Endpoint, ip: Ip, responses: set<Info>)
    requires StorySound(s, ip, responses)
    ensures StorySound(Moved(s, local).(bound := true), ip, responses)
  {
  }

  /** Bind and the calls that ensure a local endpoint keep a socket's story. */
  lemma BindStory(used: set<Port>, s: Socket, want: Endpoint, ip: Ip, responses: set<Info>)
    requires StorySound(s, ip, responses)
    ensures var t := Sockets.Bind(used, s, want).1;
            StorySound(t, ip, responses) && t.requests == s.requests && t.proto == s.proto
  {
    var t := Sockets.Bind(used, s, want).1;
    assert t == Moved(s, t.local).(bound := true);
    MovedStory(s, t.local, ip, responses);
  }

  lemma ConnectStory(used: set<Port>, s: Socket, ip: Ip, responses: set<Info>)
    requires StorySound(s, ip, responses)
    ensures var t := Sockets.Connect(ip, used, s).1;
            StorySound(t, ip, responses) && t.requests == s.requests && t.proto == s.proto
  {
  }

  lemma ConnectRelocates(ip: Ip, used: set<Port>, s: Socket)
    requires PortSound(s, used) && forall q <- used :: Ephemeral(q)
    ensures var (u, t) := Sockets.Connect(ip, used, s); Relocation(used, s, u, t)
  {
    if MayConnect(s) { EnsureRelocates(ip, used, s, true); } else { StandingRelocates(used, s, s); }
  }

  lemma BindKeeps(h: Host, mail: Mail, i: nat, want: Endpoint)
    requires HostSound(h, mail) && i < |h.sockets| && !Ephemeral(want.port)
    ensures HostSound(CallOn(h, i, Bind(want)).0, mail)
  {
    var s := h.sockets[i];
    assert SocketSound(s, h, mail);
    UsedEphemeral(h, mail, s.proto);
    BindRelocates(h.Used(s.proto), s, want);
    BindStory(h.Used(s.proto), s, want, h.ip, mail.responses);
    var (u, t) := Sockets.Bind(h.Used(s.proto), s, want);
    RelocationKeeps(h, mail, i, u, t);
  }

  lemma ConnectKeeps(h: Host, mail: Mail, i: nat, remote: Endpoint)
    requires HostSound(h, mail) && i < |h.sockets|
    ensures HostSound(CallOn(h, i, Connect(remote)).0, mail)
    ensures CallOn(h, i, Connect(remote)).1.Some? ==>
              var p := CallOn(h, i, Connect(remote)).1.value.source.port; p == 0 || Ephemeral(p)
  {
    var s := h.sockets[i];
    assert SocketSound(s, h, mail);
    UsedEphemeral(h, mail, s.proto);
    ConnectRelocates(h.ip, h.Used(s.proto), s);
    ConnectStory(h.Used(s.proto), s, h.ip, mail.responses);
    var (u, t) := Sockets.Connect(h.ip, h.Used(s.proto), s);
    RelocationKeeps(h, mail, i, u, t);
  }

  lemma SendKeeps(h: Host, mail: Mail, i: nat)
    requires HostSound(h, mail) && i < |h.sockets|
    ensures HostSound(CallOn(h, i, Send).0, mail)
  {
    var s := h.sockets[i];
    assert SocketSound(s, h, mail);
    UsedEphemeral(h, mail, s.proto);
    EnsureRelocates(h.ip, h.Used(s.proto), s, false);
    StandingRelocates(h.Used(s.proto), s, s);
    var (u, t) := SendFrom(h.ip, h.Used(s.proto), s);
    RelocationKeeps(h, mail, i, u, t);
  }

  lemma StandKeeps(h: Host, mail: Mail, i: nat, t: Socket)
    requires HostSound(h, mail) && i < |h.sockets|
    requires var s := h.sockets[i]; t == s.(listening := t.listening) || t == Sockets.Disconnect(s) || t == Sockets.Close(s)
    ensures HostSound(h.Put(i, h.Used(t.proto), t), mail)
  {
    var s := h.sockets[i];
    assert SocketSound(s, h, mail);
    StandingRelocates(h.Used(s.proto), s, t);
    RelocationKeeps(h, mail, i, h.Used(s.proto), t);
  }

  lemma CreateKeeps(h: Host, mail: Mail, proto: Proto)
    requires HostSound(h, mail)
    ensures HostSound(h.(sockets := h.sockets + [NewSocket(proto)]), mail)
  {
    var g := h.(sockets := h.sockets + [NewSocket(proto)]);
    forall i | 0 <= i < |g.sockets| ensures SocketSound(g.sockets[i], g, mail) {
      if i < |h.sockets| { assert SocketSound(h.sockets[i], h, mail); }
    }
    forall i, j | 0 <= i < |g.sockets| && 0 <= j < |g.sockets| && i != j ensures Apart(g.sockets[i], g.sockets[j]) {
      if i < |h.sockets| && j < |h.sockets| { assert Apart(h.sockets[i], h.sockets[j]); }
    }
  }

  /** The new socket of an Accept, on a host that already has room for it. */
  lemma AcceptedKeeps(k: Host, mail: Mail, j: nat, q: Info)
    requires HostSound(k, mail) && j < |k.sockets| && k.sockets[j] == NewSocket(q.proto)
    ensures var (u, a) := Accepted(k.ip, k.Used(q.proto), q, q.proto);
            HostSound(k.Put(j, u, a), Post(mail, None, a.birth))
  {
    var (u, a) := Accepted(k.ip, k.Used(q.proto), q, q.proto);
    var more := Post(mail, None, a.birth);
    MoreMail(k, mail, more);
    UsedEphemeral(k, more, q.proto);
    assert Relocation(k.Used(q.proto), k.sockets[j], u, a);
    RelocationKeeps(k, more, j, u, a);
  }

  /** Accept keeps the host sound once its response counts as sent. */
  lemma AcceptKeeps(h: Host, mail: Mail, i: nat)
    requires HostSound(h, mail) && i < |h.sockets|
    ensures HostSound(CallOn(h, i, Accept).0, Post(mail, None, CallOn(h, i, Accept).2))
  {
    var s := h.sockets[i];
    if s.listening {
      var used := h.Used(s.proto);
      var (q, rest) := Scan(s.local, s.requests);
      assert SocketSound(s, h, mail);
      var t := s.(requests := rest);
      StandingRelocates(used, s, t);
      RelocationKeeps(h, mail, i, used, t);
      if q.Some? {
        var g := h.Put(i, used, t);
        CreateKeeps(g, mail, s.proto);
        var k := g.(sockets := g.sockets + [NewSocket(s.proto)]);
        AcceptedKeeps(k, mail, |g.sockets|, q.value.(proto := s.proto));
      }
    }
  }

  /** An accepted socket answers where the request came from, and stands at the end of the list. */
  lemma AcceptAnswers(h: Host, mail: Mail, i: nat)
    requires HostSound(h, mail) && i < |h.sockets| && CallOn(h, i, Accept).2.Some?
    ensures var g, r := CallOn(h, i, Accept).0, CallOn(h, i, Accept).2;
            && |g.sockets| == |h.sockets| + 1 && g.sockets[|h.sockets|].birth == r
            && exists q <- mail.requests :: q.source == r.value.dest
  {
    var s := h.sockets[i];
    assert SocketSound(s, h, mail);
    var (q, rest) := Scan(s.local, s.requests);
    assert q.value in mail.requests;
  }

  lemma ArriveKeeps(s: Socket, h: Host, mail: Mail, m: Info, response: bool)
    requires SocketSound(s, h, mail) && m.dest.ip == h.ip && (if response then m in mail.responses else m in mail.requests)
    ensures var t := Arrive(s, m, response);
            && t.proto == s.proto && t.local == s.local && t.birth == s.birth && t.bound == s.bound && t.moved == s.moved
            && PortSound(t, h.Used(t.proto)) && StorySound(t, h.ip, mail.responses)
            && forall q <- t.requests :: q in mail.requests
  {
  }

  lemma DeliverKeeps(h: Host, mail: Mail, m: Info, response: bool)
    requires HostSound(h, mail) && m.dest.ip == h.ip && (if response then m in mail.responses else m in mail.requests)
    ensures HostSound(h.(sockets := Deliver(h.sockets, m, response)), mail)
  {
    var after := Deliver(h.sockets, m, response);
    var g := h.(sockets := after);
    forall i | 0 <= i < |after| ensures SocketSound(after[i], g, mail) {
      assert SocketSound(h.sockets[i], h, mail);
      ArriveKeeps(h.sockets[i], h, mail, m, response);
    }
    forall i, j | 0 <= i < |after| && 0 <= j < |after| && i != j ensures Apart(after[i], after[j]) {
      assert Apart(h.sockets[i], h.sockets[j]);
      ArriveFixed(h.sockets[i], m, response);
      ArriveFixed(h.sockets[j], m, response);
    }
  }

  lemma ArriveFixed(s: Socket, m: Info, response: bool)
    ensures var t := Arrive(s, m, response);
            t.proto == s.proto && t.local == s.local && t.birth == s.birth && t.bound == s.bound && t.moved == s.moved
  {
  }

  // ---------------------------------------------------------------- every step, every run

  lemma CallBirths(h: Host, i: nat, op: Op, j: nat)
    requires i < |h.sockets| && j < |h.sockets|
    ensures j < |CallOn(h, i, op).0.sockets| && CallOn(h, i, op).0.sockets[j].birth == h.sockets[j].birth
  {
    if op.Accept? {
      AcceptBirths(h, i, j);
    } else {
      assert |CallOn(h, i, op).0.sockets| == |h.sockets|;
      CallKeepsBirth(h, i, op);
    }
  }

  lemma CallKeepsBirth(h: Host, i: nat, op: Op)
    requires i < |h.sockets| && !op.Accept?
    ensures CallOn(h, i, op).0.sockets == h.sockets[i := CallOn(h, i, op).0.sockets[i]]
    ensures CallOn(h, i, op).0.sockets[i].birth == h.sockets[i].birth
  {
  }

  lemma AcceptBirths(h: Host, i: nat, j: nat)
    requires i < |h.sockets| && j < |h.sockets|
    ensures j < |CallOn(h, i, Accept).0.sockets| && CallOn(h, i, Accept).0.sockets[j].birth == h.sockets[j].birth
  {
  }

  /** A step never removes a socket or rewrites its birth. */
  lemma BirthsStay(n: Net, e: Event, x: nat, j: nat)
    requires Enabled(n, e) && x < |n.hosts| && j < |n.hosts[x].sockets|
    ensures |Step(n, e).hosts| == |n.hosts| && j < |Step(n, e).hosts[x].sockets|
    ensures Step(n, e).hosts[x].sockets[j].birth == n.hosts[x].sockets[j].birth
  {
    if e.Call? && e.x == x { CallBirths(n.hosts[x], e.i, e.op, j); }
  }

  /** A call keeps its host sound, given the mail it adds. */
  lemma CallKeeps(h: Host, mail: Mail, i: nat, op: Op)
    requires HostSound(h, mail) && i < |h.sockets| && (op.Bind? ==> !Ephemeral(op.want.port))
    ensures HostSound(CallOn(h, i, op).0, Post(mail, CallOn(h, i, op).1, CallOn(h, i, op).2))
  {
    var s := h.sockets[i];
    match op {
      case Bind(want) => BindKeeps(h, mail, i, want);
      case Listen => StandKeeps(h, mail, i, if s.bound then s.(listening := true) else s);
      case Connect(remote) => ConnectKeeps(h, mail, i, remote);
      case Accept => AcceptKeeps(h, mail, i);
      case Send => SendKeeps(h, mail, i);
      case Disconnect => StandKeeps(h, mail, i, Sockets.Disconnect(s));
      case Close => StandKeeps(h, mail, i, Sockets.Close(s));
    }
    if !op.Accept? { MoreMail(CallOn(h, i, op).0, mail, Post(mail, CallOn(h, i, op).1, None)); }
  }

  /** The mail a call adds: requests come from ephemeral ports, responses go to where a request came from. */
  lemma CallMail(n: Net, e: Event)
    requires Inv(n) && Enabled(n, e) && e.Call?
    ensures forall m <- Step(n, e).mail.requests :: m.source.port == 0 || Ephemeral(m.source.port)
    ensures forall r <- Step(n, e).mail.responses :: r.dest.port == 0 || Ephemeral(r.dest.port)
    ensures forall r <- Step(n, e).mail.responses | r !in n.mail.responses ::
              Announced(Step(n, e), r, e.x, |n.hosts[e.x].sockets|)
  {
    var h := n.hosts[e.x];
    assert HostSound(h, n.mail);
    match e.op
    case Connect(remote) => ConnectKeeps(h, n.mail, e.i, remote);
    case Accept =>
      if CallOn(h, e.i, Accept).2.Some? { AcceptAnswers(h, n.mail, e.i); }
    case _ =>
  }

  lemma StepHost(n: Net, e: Event)
    requires Inv(n) && Enabled(n, e)
    ensures HostSound(Step(n, e).hosts[e.x], Step(n, e).mail)
    ensures n.mail.requests <= Step(n, e).mail.requests && n.mail.responses <= Step(n, e).mail.responses
  {
    var h := n.hosts[e.x];
    assert HostSound(h, n.mail);
    match e
    case Create(x, proto) => CreateKeeps(h, n.mail, proto);
    case DeliverRequest(x, m) => DeliverKeeps(h, n.mail, m, false);
    case DeliverResponse(x, m) => DeliverKeeps(h, n.mail, m, true);
    case Call(x, i, op) => CallKeeps(h, n.mail, i, op);
  }

  lemma StepAnnounced(n: Net, e: Event, r: Info)
    requires Inv(n) && Enabled(n, e) && r in Step(n, e).mail.responses
    ensures exists x, j :: Announced(Step(n, e), r, x, j)
  {
    if r in n.mail.responses {
      var x, j :| Announced(n, r, x, j);
      BirthsStay(n, e, x, j);
      assert Announced(Step(n, e), r, x, j);
    } else {
      CallMail(n, e);
      assert Announced(Step(n, e), r, e.x, |n.hosts[e.x].sockets|);
    }
  }

  /** Every step of every host keeps the invariant. */
  lemma StepKeeps(n: Net, e: Event)
    requires Inv(n) && Enabled(n, e)
    ensures Inv(Step(n, e))
  {
    var m := Step(n, e);
    StepHost(n, e);
    if e.Call? { CallMail(n, e); }
    forall x | 0 <= x < |m.hosts| ensures HostSound(m.hosts[x], m.mail) {
      if x != e.x { MoreMail(n.hosts[x], n.mail, m.mail); }
    }
    forall r <- m.mail.responses ensures exists x, j :: Announced(m, r, x, j) { StepAnnounced(n, e, r); }
  }

  ghost predicate IsRun(n: Net, es: seq<Event>)
    decreases |es|
  {
    es == [] || (Enabled(n, es[0]) && IsRun(Step(n, es[0]), es[1..]))
  }

  ghost function After(n: Net, es: seq<Event>): Net
    requires IsRun(n, es)
    decreases |es|
  {
    if es == [] then n else After(Step(n, es[0]), es[1..])
  }

  predicate Quiet(n: Net) {
    n.mail == Mail({}, {}) && forall x | 0 <= x < |n.hosts| ::
      n.hosts[x].tcp == {} && n.hosts[x].udp == {} && n.hosts[x].sockets == []
  }

  lemma {:induction false} RunKeeps(n: Net, es: seq<Event>)
    requires Inv(n) && IsRun(n, es)
    ensures Inv(After(n, es))
    decreases |es|
  {
    if es != [] {
      StepKeeps(n, es[0]);
      RunKeeps(Step(n, es[0]), es[1..]);
    }
  }

  /**
   Port ownership: in every reachable state, a socket's ephemeral local port is
   allocated in its protocol's pool, and no other socket of that protocol on
   that host has it.
   */
  lemma PortOwnership(n: Net, es: seq<Event>, x: nat, i: nat)
    requires Quiet(n) && IsRun(n, es)
    requires x < |After(n, es).hosts| && i < |After(n, es).hosts[x].sockets|
    ensures var h := After(n, es).hosts[x];
            var s := h.sockets[i];
            Ephemeral(s.local.port) ==>
              && s.local.port in h.Used(s.proto)
              && forall j | 0 <= j < |h.sockets| && j != i && h.sockets[j].proto == s.proto ::
                   h.sockets[j].local.port != s.local.port
  {
    RunKeeps(n, es);
    var h := After(n, es).hosts[x];
    assert HostSound(h, After(n, es).mail) && SocketSound(h.sockets[i], h, After(n, es).mail);
    forall j | 0 <= j < |h.sockets| && j != i ensures Apart(h.sockets[i], h.sockets[j]) { }
  }

  /** An accepted socket completes at most one connect per host, and an announced endpoint is one socket's for good. */
  lemma PairingUnique(n: Net, es: seq<Event>, x: nat, i: nat, k: nat)
    requires Quiet(n) && IsRun(n, es)
    requires x < |After(n, es).hosts| && i < |After(n, es).hosts[x].sockets| && k < |After(n, es).hosts[x].sockets|
    requires var h := After(n, es).hosts[x];
             && i != k && h.sockets[i].proto == h.sockets[k].proto
             && h.sockets[i].link.Some? && h.sockets[i].local.port != 0
    ensures var h := After(n, es).hosts[x]; h.sockets[i].link != h.sockets[k].link
    ensures var h := After(n, es).hosts[x]; BirthPort(h.sockets[i]) != 0 ==> BirthPort(h.sockets[i]) != BirthPort(h.sockets[k])
  {
    RunKeeps(n, es);
    var m := After(n, es);
    var h := m.hosts[x];
    assert HostSound(h, m.mail) && SocketSound(h.sockets[i], h, m.mail) && SocketSound(h.sockets[k], h, m.mail);
    assert Apart(h.sockets[i], h.sockets[k]);
  }

  /** Once a connect is over, no response to it or to anything else changes the socket. */
  lemma LateResponses(n: Net, x: nat, m: Info, i: nat)
    requires Enabled(n, DeliverResponse(x, m)) && i < |n.hosts[x].sockets|
    ensures var s, t := n.hosts[x].sockets[i], Step(n, DeliverResponse(x, m)).hosts[x].sockets[i];
            && (t != s <==> s.connecting && s.open && s.proto == m.proto && s.local.port == m.dest.port)
            && (t != s && m.source.ip != 0 ==> t.connected && t.remote == m.source && !t.connecting)
  {
  }

  /** A request is queued, behind those that wait, at every open socket of its protocol and port, and at no other. */
  lemma RequestsQueued(n: Net, x: nat, m: Info, i: nat)
    requires Enabled(n, DeliverRequest(x, m)) && i < |n.hosts[x].sockets|
    ensures var s, t := n.hosts[x].sockets[i], Step(n, DeliverRequest(x, m)).hosts[x].sockets[i];
            t == s.(requests := s.requests + if s.open && s.proto == m.proto && s.local.port == m.dest.port then [m] else [])
  {
  }
}
