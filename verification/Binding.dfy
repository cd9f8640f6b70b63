/** Exactly which explicit binds keep the ports of a host in order. */
module Binding {
  import opened Common
  import opened Ports
  import opened Sockets
  import opened VirtualNet

  /**
   An ephemeral port may be bound explicitly only if it is marked as taken once
   this socket's own port is given back, and yet is nobody's: no other socket
   of the protocol has it or announced it, and this one did not announce it.
   */
  predicate BindSafe(h: Host, i: nat, want: Endpoint)
    requires i < |h.sockets|
  {
    var s := h.sockets[i];
    Ephemeral(want.port) ==>
      && want.port in GivenBack(h.Used(s.proto), s) && want.port != BirthPort(s)
      && forall j | 0 <= j < |h.sockets| && j != i && h.sockets[j].proto == s.proto ::
           h.sockets[j].local.port != want.port && BirthPort(h.sockets[j]) != want.port
  }

  /**
   What happens to ports: a bound socket that binds or connects gives its old
   port back, an unbound one leaves it taken, and an ephemeral port that is
   asked for is the least one then free.
   */
  lemma PortsTraded(h: Host, i: nat, ip: Ip, p: Port)
    requires i < |h.sockets| && p != 0
    ensures var s := h.sockets[i];
            var used, fixed := h.Used(s.proto), CallOn(h, i, Bind(Endpoint(ip, p))).0;
            && fixed.sockets[i].local == Endpoint(ip, p) && fixed.sockets[i].bound
            && fixed.Used(s.proto) == if s.bound && s.local.port != 0 then used - {s.local.port} else used
    ensures var s := h.sockets[i];
            var used, any := h.Used(s.proto), CallOn(h, i, Bind(Endpoint(ip, 0))).0;
            var rest := if s.bound && s.local.port != 0 then used - {s.local.port} else used;
            && any.sockets[i].local == Endpoint(ip, LeastFree(rest)) && any.sockets[i].bound
            && any.Used(s.proto) == if LeastFree(rest) == 0 then rest else rest + {LeastFree(rest)}
    ensures var s, g := h.sockets[i], CallOn(h, i, Connect(Endpoint(ip, p))).0;
            s.bound && !s.listening && s.local.port != 0 ==>
              var rest := h.Used(s.proto) - {s.local.port};
              && g.sockets[i].local == Endpoint(h.ip, LeastFree(rest))
              && g.Used(s.proto) == if LeastFree(rest) == 0 then rest else rest + {LeastFree(rest)}
  {
  }

  /** Bind keeps its host sound if and only if it is safe in that sense. */
  lemma BindExact(h: Host, mail: Mail, i: nat, want: Endpoint)
    requires HostSound(h, mail) && i < |h.sockets|
    ensures HostSound(CallOn(h, i, Bind(want)).0, mail) <==> BindSafe(h, i, want)
  {
    if !Ephemeral(want.port) {
      BindKeeps(h, mail, i, want);
    } else if BindSafe(h, i, want) {
      SafeBindKeeps(h, mail, i, want);
    } else {
      UnsafeBindBreaks(h, mail, i, want);
    }
  }

  lemma UnsafeBindBreaks(h: Host, mail: Mail, i: nat, want: Endpoint)
    requires HostSound(h, mail) && i < |h.sockets| && Ephemeral(want.port) && !BindSafe(h, i, want)
    ensures !HostSound(CallOn(h, i, Bind(want)).0, mail)
  {
    var s, g := h.sockets[i], CallOn(h, i, Bind(want)).0;
    if want.port in GivenBack(h.Used(s.proto), s) && want.port != BirthPort(s) {
      var j :| 0 <= j < |h.sockets| && j != i && h.sockets[j].proto == s.proto
               && (h.sockets[j].local.port == want.port || BirthPort(h.sockets[j]) == want.port);
      assert g.sockets[j] == h.sockets[j];
      assert !Apart(g.sockets[i], g.sockets[j]) || !Apart(g.sockets[j], g.sockets[i]);
    } else {
      assert !PortSound(g.sockets[i], g.Used(s.proto));
      assert !SocketSound(g.sockets[i], g, mail);
    }
  }

  lemma SafeBindKeeps(h: Host, mail: Mail, i: nat, want: Endpoint)
    requires HostSound(h, mail) && i < |h.sockets| && Ephemeral(want.port) && BindSafe(h, i, want)
    ensures HostSound(CallOn(h, i, Bind(want)).0, mail)
  {
    var s, g := h.sockets[i], CallOn(h, i, Bind(want)).0;
    assert SocketSound(s, h, mail);
    GivenBackIs(h.Used(s.proto), s);
    forall j | 0 <= j < |g.sockets| ensures SocketSound(g.sockets[j], g, mail) {
      SafeBindSocket(h, mail, i, want, j);
    }
    forall j, k | 0 <= j < |g.sockets| && 0 <= k < |g.sockets| && j != k ensures Apart(g.sockets[j], g.sockets[k]) {
      assert Apart(h.sockets[j], h.sockets[k]);
    }
  }

  lemma SafeBindSocket(h: Host, mail: Mail, i: nat, want: Endpoint, j: nat)
    requires HostSound(h, mail) && i < |h.sockets| && Ephemeral(want.port) && BindSafe(h, i, want) && j < |h.sockets|
    ensures var g := CallOn(h, i, Bind(want)).0; j < |g.sockets| && SocketSound(g.sockets[j], g, mail)
  {
    assert SocketSound(h.sockets[i], h, mail) && SocketSound(h.sockets[j], h, mail);
    if j != i { assert Apart(h.sockets[j], h.sockets[i]); }
  }

  /**
   What an unsafe bind leads to: whoever binds to another socket's port and
   then anywhere else returns that port to the pool while its owner uses it.
   */
  lemma EphemeralBindSteals(h: Host, mail: Mail, i: nat, j: nat, ip: Ip, elsewhere: Endpoint)
    requires HostSound(h, mail) && i < |h.sockets| && j < |h.sockets| && i != j
    requires h.sockets[i].proto == h.sockets[j].proto && Ephemeral(h.sockets[j].local.port) && elsewhere.port != 0
    ensures var p := h.sockets[j].local.port;
            var once := CallOn(h, i, Bind(Endpoint(ip, p))).0;
            var twice := CallOn(once, i, Bind(elsewhere)).0;
            && once.sockets[i].local.port == once.sockets[j].local.port
            && twice.sockets[j].local.port == p && p !in twice.Used(h.sockets[j].proto)
  {
    assert SocketSound(h.sockets[j], h, mail) && Apart(h.sockets[i], h.sockets[j]);
  }

  /** And a bind to a free port: the next socket that asks for a port can be given the same one. */
  lemma FreePortSharedLater(h: Host, i: nat, j: nat, want: Endpoint)
    requires i < |h.sockets| && j < |h.sockets| && i != j && h.sockets[i].proto == h.sockets[j].proto
    requires want.port != 0 && want.port == LeastFree(GivenBack(h.Used(h.sockets[i].proto), h.sockets[i]))
    requires !h.sockets[j].bound
    ensures var once := CallOn(h, i, Bind(want)).0;
            var twice := CallOn(once, j, Bind(Endpoint(want.ip, 0))).0;
            twice.sockets[i].local == twice.sockets[j].local == want
  {
  }
}
