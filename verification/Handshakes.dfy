/** When the two ends of a virtual connection are each other's remote ends, and exactly what parts them. */
module Handshakes {
  import opened Common
  import opened Ports
  import opened Sockets
  import opened VirtualNet

  /** Socket i of host x exists. */
  predicate Has(n: Net, x: nat, i: nat) {
    x < |n.hosts| && i < |n.hosts[x].sockets|
  }

  function At(n: Net, x: nat, i: nat): Socket
    requires Has(n, x, i)
  {
    n.hosts[x].sockets[i]
  }

  /** Endpoints x:i and y:j see each other as their remote ends. */
  predicate Paired(n: Net, x: nat, i: nat, y: nat, j: nat)
    requires Has(n, x, i) && Has(n, y, j)
  {
    At(n, x, i).remote == At(n, y, j).local && At(n, y, j).remote == At(n, x, i).local
  }

  // ---------------------------------------------------------------- what a step does to one socket

  predicate CallsOn(e: Event, x: nat, i: nat) {
    e.Call? && e.x == x && e.i == i
  }

  /** Socket i after a call on it. */
  function Called(h: Host, i: nat, op: Op): Socket
    requires i < |h.sockets|
  {
    var s := h.sockets[i];
    var used := h.Used(s.proto);
    match op
    case Bind(want) => Sockets.Bind(used, s, want).1
    case Listen => if s.bound then s.(listening := true) else s
    case Connect(_) => Sockets.Connect(h.ip, used, s).1
    case Accept => if s.listening then s.(requests := Scan(s.local, s.requests).1) else s
    case Send => SendFrom(h.ip, used, s).1
    case Disconnect => Sockets.Disconnect(s)
    case Close => Sockets.Close(s)
  }

  lemma CalledIs(h: Host, i: nat, op: Op, j: nat)
    requires i < |h.sockets| && j < |h.sockets|
    ensures j < |CallOn(h, i, op).0.sockets|
    ensures CallOn(h, i, op).0.sockets[j] == if i == j then Called(h, i, op) else h.sockets[j]
  {
    if op.Accept? { AcceptCalled(h, i, j); } else { OtherCalled(h, i, op, j); }
  }

  lemma AcceptCalled(h: Host, i: nat, j: nat)
    requires i < |h.sockets| && j < |h.sockets|
    ensures j < |CallOn(h, i, Accept).0.sockets|
    ensures CallOn(h, i, Accept).0.sockets[j] == if i == j then Called(h, i, Accept) else h.sockets[j]
  {
  }

  lemma OtherCalled(h: Host, i: nat, op: Op, j: nat)
    requires i < |h.sockets| && j < |h.sockets| && !op.Accept?
    ensures j < |CallOn(h, i, op).0.sockets|
    ensures CallOn(h, i, op).0.sockets[j] == if i == j then Called(h, i, op) else h.sockets[j]
  {
  }

  /** A socket changes by a call on it or a message routed to it, and otherwise not at all. */
  lemma StepAt(n: Net, e: Event, x: nat, i: nat)
    requires Enabled(n, e) && Has(n, x, i)
    ensures Has(Step(n, e), x, i)
    ensures CallsOn(e, x, i) ==> At(Step(n, e), x, i) == Called(n.hosts[x], i, e.op)
    ensures e.DeliverRequest? && e.x == x ==> At(Step(n, e), x, i) == Arrive(At(n, x, i), e.m, false)
    ensures e.DeliverResponse? && e.x == x ==> At(Step(n, e), x, i) == Arrive(At(n, x, i), e.m, true)
    ensures e.x != x || e.Create? || (e.Call? && e.i != i) ==> At(Step(n, e), x, i) == At(n, x, i)
  {
    if e.Call? && e.x == x { CalledIs(n.hosts[x], e.i, e.op, i); }
  }

  // ---------------------------------------------------------------- the accepted end

  /** An accepted socket that is where it announced itself, connected to whom it answered. */
  predicate AsBorn(s: Socket) {
    s.birth.Some? && s.connected && !s.bound && s.local == s.birth.value.source && s.remote == s.birth.value.dest
  }

  /** That is what Accept makes. */
  lemma AcceptIsBorn(h: Host, i: nat)
    requires i < |h.sockets| && CallOn(h, i, Accept).2.Some?
    ensures var g := CallOn(h, i, Accept).0;
            |g.sockets| == |h.sockets| + 1 && AsBorn(g.sockets[|h.sockets|]) && g.sockets[|h.sockets|].birth == CallOn(h, i, Accept).2
  {
  }

  /** The calls that disturb an accepted socket. */
  predicate Disturbs(e: Event, y: nat, j: nat) {
    CallsOn(e, y, j) && (e.op.Send? || e.op.Bind? || e.op.Disconnect? || e.op.Close?)
  }

  /** No step of the run disturbs y:j. */
  predicate Undisturbed(es: seq<Event>, y: nat, j: nat) {
    forall k | 0 <= k < |es| :: !Disturbs(es[k], y, j)
  }

  lemma UndisturbedCons(es: seq<Event>, y: nat, j: nat)
    requires es != []
    ensures Undisturbed(es, y, j) <==> !Disturbs(es[0], y, j) && Undisturbed(es[1..], y, j)
  {
    assert forall k | 0 < k < |es| :: es[k] == es[1..][k - 1];
    if Undisturbed(es, y, j) {
      assert forall k | 0 <= k < |es[1..]| :: es[1..][k] == es[k + 1];
    }
  }

  lemma BornInv(n: Net, y: nat, j: nat)
    requires Inv(n) && Has(n, y, j)
    ensures SocketSound(At(n, y, j), n.hosts[y], n.mail)
  {
    assert HostSound(n.hosts[y], n.mail);
  }

  lemma DisturbExact(n: Net, e: Event, y: nat, j: nat)
    requires Inv(n) && Enabled(n, e) && Has(n, y, j) && AsBorn(At(n, y, j)) && BirthPort(At(n, y, j)) != 0
    ensures Has(Step(n, e), y, j) && At(Step(n, e), y, j).birth == At(n, y, j).birth
    ensures AsBorn(At(Step(n, e), y, j)) <==> !Disturbs(e, y, j)
  {
    StepAt(n, e, y, j);
    BornInv(n, y, j);
    if CallsOn(e, y, j) { BornCalled(n.hosts[y], n.mail, j, e.op); }
  }

  lemma BornCalled(h: Host, mail: Mail, j: nat, op: Op)
    requires j < |h.sockets| && SocketSound(h.sockets[j], h, mail) && AsBorn(h.sockets[j]) && BirthPort(h.sockets[j]) != 0
    ensures Called(h, j, op).birth == h.sockets[j].birth
    ensures AsBorn(Called(h, j, op)) <==> !(op.Send? || op.Bind? || op.Disconnect? || op.Close?)
  {
  }

  /** Once disturbed, an accepted socket is never again as it was born. */
  lemma NeverReborn(n: Net, e: Event, y: nat, j: nat)
    requires Inv(n) && Enabled(n, e) && Has(n, y, j) && !AsBorn(At(n, y, j)) && BirthPort(At(n, y, j)) != 0
    ensures Has(Step(n, e), y, j) && At(Step(n, e), y, j).birth == At(n, y, j).birth && !AsBorn(At(Step(n, e), y, j))
  {
    StepAt(n, e, y, j);
    BornInv(n, y, j);
    var h := n.hosts[y];
    if CallsOn(e, y, j) { NeverRebornByCall(h, n.mail, j, e.op); }
  }

  lemma NeverRebornByCall(h: Host, mail: Mail, j: nat, op: Op)
    requires j < |h.sockets| && SocketSound(h.sockets[j], h, mail) && !AsBorn(h.sockets[j]) && BirthPort(h.sockets[j]) != 0
    ensures Called(h, j, op).birth == h.sockets[j].birth && !AsBorn(Called(h, j, op))
  {
    match op
    case Bind(want) =>
    case Connect(_) =>
    case Send =>
    case _ =>
  }

  lemma {:induction false} NeverRebornInRun(n: Net, es: seq<Event>, y: nat, j: nat)
    requires Inv(n) && IsRun(n, es) && Has(n, y, j) && !AsBorn(At(n, y, j)) && BirthPort(At(n, y, j)) != 0
    ensures Has(After(n, es), y, j) && !AsBorn(At(After(n, es), y, j))
    decreases |es|
  {
    if es != [] {
      NeverReborn(n, es[0], y, j);
      StepKeeps(n, es[0]);
      NeverRebornInRun(Step(n, es[0]), es[1..], y, j);
    }
  }

  /**
   Over every run, an accepted socket is still where it announced itself if and
   only if nobody has sent from it, bound it, disconnected it or closed it.
   */
  lemma {:induction false} UndisturbedExact(n: Net, es: seq<Event>, y: nat, j: nat)
    requires Inv(n) && IsRun(n, es) && Has(n, y, j) && AsBorn(At(n, y, j)) && BirthPort(At(n, y, j)) != 0
    ensures Has(After(n, es), y, j) && At(After(n, es), y, j).birth == At(n, y, j).birth
    ensures AsBorn(At(After(n, es), y, j)) <==> Undisturbed(es, y, j)
    decreases |es|
  {
    RunBirth(n, es, y, j);
    if es != [] {
      DisturbExact(n, es[0], y, j);
      StepKeeps(n, es[0]);
      UndisturbedCons(es, y, j);
      if Disturbs(es[0], y, j) {
        NeverRebornInRun(Step(n, es[0]), es[1..], y, j);
      } else {
        UndisturbedExact(Step(n, es[0]), es[1..], y, j);
      }
    }
  }

  lemma {:induction false} RunBirth(n: Net, es: seq<Event>, y: nat, j: nat)
    requires IsRun(n, es) && Has(n, y, j)
    ensures Has(After(n, es), y, j) && At(After(n, es), y, j).birth == At(n, y, j).birth
    decreases |es|
  {
    if es != [] {
      BirthsStay(n, es[0], y, j);
      RunBirth(Step(n, es[0]), es[1..], y, j);
    }
  }

  // ---------------------------------------------------------------- agreement

  /**
   Handshake agreement: in every interleaving of calls and deliveries, a socket
   whose connect was completed has as its remote end the endpoint announced by
   an accepted socket on the host of that address, which was accepted for this
   socket's port on this host. The two are each other's remote ends exactly
   when that accepted socket is as it was born and this side has its host's
   address locally, as connecting leaves it.
   */
  lemma HandshakeAgreement(n: Net, es: seq<Event>, x: nat, i: nat) returns (y: nat, j: nat)
    requires Quiet(n) && IsRun(n, es) && Has(After(n, es), x, i) && At(After(n, es), x, i).link.Some?
    ensures var m := After(n, es);
            Has(m, y, j) &&
            var s, a := At(m, x, i), At(m, y, j);
            && s.connected && a.birth == s.link
            && s.remote == s.link.value.source && s.remote.ip == m.hosts[y].ip
            && s.link.value.dest == Endpoint(m.hosts[x].ip, s.local.port)
            && (AsBorn(a) && s.local.ip == m.hosts[x].ip ==> Paired(m, x, i, y, j))
            && (Paired(m, x, i, y, j) && s.local.port != 0 && BirthPort(a) != 0 ==> AsBorn(a) && s.local.ip == m.hosts[x].ip)
  {
    RunKeeps(n, es);
    var m := After(n, es);
    BornInv(m, x, i);
    y, j :| Announced(m, At(m, x, i).link.value, y, j);
    BornInv(m, y, j);
  }

  /**
   The same in calls alone: from the moment y:j was accepted, through any run,
   a connect that it completed agrees with it if and only if nobody has since
   sent from y:j, bound it, disconnected it or closed it.
   */
  lemma AgreementExact(n: Net, es: seq<Event>, x: nat, i: nat, y: nat, j: nat)
    requires Inv(n) && IsRun(n, es) && Has(n, y, j) && AsBorn(At(n, y, j)) && BirthPort(At(n, y, j)) != 0
    requires Has(After(n, es), x, i) && At(After(n, es), x, i).link == At(n, y, j).birth
    requires At(After(n, es), x, i).local.port != 0 && At(After(n, es), x, i).local.ip == After(n, es).hosts[x].ip
    ensures Has(After(n, es), y, j)
    ensures Paired(After(n, es), x, i, y, j) <==> Undisturbed(es, y, j)
  {
    UndisturbedExact(n, es, y, j);
    RunKeeps(n, es);
    BornInv(After(n, es), x, i);
    BornInv(After(n, es), y, j);
  }

  // ---------------------------------------------------------------- staying paired

  /** A lower ephemeral port than `p` is free. */
  ghost predicate LowerFree(used: set<Port>, p: Port) {
    exists q: Port :: BASE <= q < p && q !in used
  }

  /** The connecting end x:i and the accepted end y:j of a standing connection, on ephemeral ports. */
  predicate Joined(n: Net, x: nat, i: nat, y: nat, j: nat)
    requires Has(n, x, i) && Has(n, y, j)
  {
    var s, a := At(n, x, i), At(n, y, j);
    && Paired(n, x, i, y, j)
    && s.bound && s.connected && Ephemeral(s.local.port)
    && !a.bound && a.connected && Ephemeral(a.local.port)
  }

  /**
   What parts two joined ends. On the accepted end: any Send, Bind, Disconnect
   or Close. On the connecting end: Disconnect, Close, a Bind or a new Connect
   that does not happen to be given the same endpoint again, and, after such a
   new Connect, a response from somebody else.
   */
  ghost predicate Parts(n: Net, e: Event, x: nat, i: nat, y: nat, j: nat)
    requires Has(n, x, i)
  {
    var h, s := n.hosts[x], At(n, x, i);
    || Disturbs(e, y, j)
    || (CallsOn(e, x, i) && (e.op.Disconnect? || e.op.Close?))
    || (CallsOn(e, x, i) && e.op.Bind? &&
        (e.op.want.port != 0 || e.op.want.ip != s.local.ip || LowerFree(h.Used(s.proto), s.local.port)))
    || (CallsOn(e, x, i) && e.op.Connect? && !s.listening &&
        (h.ip != s.local.ip || LowerFree(h.Used(s.proto), s.local.port)))
    || (e.DeliverResponse? && e.x == x && s.connecting && Routed(s, e.m) && e.m.source.ip != 0 && e.m.source != s.remote)
  }

  /** A bound socket that trades its port in gets the same one exactly when no lower one is free. */
  lemma SamePort(used: set<Port>, s: Socket)
    requires s.bound && Ephemeral(s.local.port) && s.local.port in used
    ensures LeastFree(GivenBack(used, s)) == s.local.port <==> !LowerFree(used, s.local.port)
  {
    var p, rest := s.local.port, GivenBack(used, s);
    var least := LeastFree(rest);
    assert rest == used - {p};
    assert least != 0 && least <= p;
    if LowerFree(used, p) {
      var q: Port :| BASE <= q < p && q !in used;
      assert q !in rest;
    } else if least < p {
      assert least !in rest;
    }
  }

  /** The connecting end after a step that is no step of the accepted end. */
  lemma ConnectingEnd(n: Net, e: Event, x: nat, i: nat, y: nat, j: nat)
    requires Inv(n) && Enabled(n, e) && Has(n, x, i) && Has(n, y, j) && Joined(n, x, i, y, j)
    ensures Has(Step(n, e), x, i)
    ensures var s, t := At(n, x, i), At(Step(n, e), x, i);
            if Parts(n, e, x, i, y, j) && !Disturbs(e, y, j) then t.local != s.local || t.remote != s.remote
            else t.local == s.local && t.remote == s.remote && t.bound && t.connected
  {
    StepAt(n, e, x, i);
    BornInv(n, x, i);
    BornInv(n, y, j);
    var h := n.hosts[x];
    if CallsOn(e, x, i) { ConnectingCalled(h, i, e.op); }
  }

  /** The connecting end after a call on it. */
  lemma ConnectingCalled(h: Host, i: nat, op: Op)
    requires i < |h.sockets|
    requires var s := h.sockets[i];
             && s.bound && s.connected && s.open && Ephemeral(s.local.port) && s.local.port in h.Used(s.proto)
             && s.remote.port != 0 && (op.Bind? ==> !Ephemeral(op.want.port))
    ensures var s, t := h.sockets[i], Called(h, i, op);
            var lower := LowerFree(h.Used(s.proto), s.local.port);
            if op.Disconnect? || op.Close? then t.remote != s.remote
            else if op.Bind? && (op.want.port != 0 || op.want.ip != s.local.ip || lower) then t.local != s.local
            else if op.Connect? && !s.listening && (h.ip != s.local.ip || lower) then t.local != s.local
            else t.local == s.local && t.remote == s.remote && t.bound && t.connected
  {
    var s := h.sockets[i];
    SamePort(h.Used(s.proto), s);
  }

  /** The accepted end after a step. */
  lemma AcceptedEnd(n: Net, e: Event, y: nat, j: nat)
    requires Inv(n) && Enabled(n, e) && Has(n, y, j)
    requires var a := At(n, y, j); !a.bound && a.connected && Ephemeral(a.local.port) && a.remote.port != 0
    ensures Has(Step(n, e), y, j)
    ensures var a, b := At(n, y, j), At(Step(n, e), y, j);
            if Disturbs(e, y, j) then b.local != a.local || b.remote != a.remote
            else b.local == a.local && b.remote == a.remote && !b.bound && b.connected
  {
    StepAt(n, e, y, j);
    BornInv(n, y, j);
    if CallsOn(e, y, j) { AcceptedCalled(n.hosts[y], n.mail, j, e.op); }
  }

  lemma AcceptedCalled(h: Host, mail: Mail, j: nat, op: Op)
    requires j < |h.sockets| && SocketSound(h.sockets[j], h, mail) && (op.Bind? ==> !Ephemeral(op.want.port))
    requires var a := h.sockets[j]; !a.bound && a.connected && Ephemeral(a.local.port) && a.remote.port != 0
    ensures var a, b := h.sockets[j], Called(h, j, op);
            if op.Send? || op.Bind? || op.Disconnect? || op.Close? then b.local != a.local || b.remote != a.remote
            else b.local == a.local && b.remote == a.remote && !b.bound && b.connected
  {
  }

  /** A step leaves two joined ends joined, or parts them, exactly as `Parts` says. */
  lemma PartsExact(n: Net, e: Event, x: nat, i: nat, y: nat, j: nat)
    requires Inv(n) && Enabled(n, e) && Has(n, x, i) && Has(n, y, j) && Joined(n, x, i, y, j)
    ensures Has(Step(n, e), x, i) && Has(Step(n, e), y, j)
    ensures !Parts(n, e, x, i, y, j) ==> Joined(Step(n, e), x, i, y, j)
    ensures Parts(n, e, x, i, y, j) ==> !Paired(Step(n, e), x, i, y, j)
  {
    ConnectingEnd(n, e, x, i, y, j);
    AcceptedEnd(n, e, y, j);
  }

  /** In particular the first send of the accepted end does, whatever else is going on. */
  lemma FirstSendParts(n: Net, x: nat, i: nat, y: nat, j: nat)
    requires Inv(n) && Has(n, x, i) && Has(n, y, j) && Joined(n, x, i, y, j)
    ensures Enabled(n, Call(y, j, Send)) && Has(Step(n, Call(y, j, Send)), x, i) && Has(Step(n, Call(y, j, Send)), y, j)
    ensures !Paired(Step(n, Call(y, j, Send)), x, i, y, j)
  {
    PartsExact(n, Call(y, j, Send), x, i, y, j);
  }

  ghost predicate AlwaysPaired(n: Net, es: seq<Event>, x: nat, i: nat, y: nat, j: nat)
    requires IsRun(n, es)
    decreases |es|
  {
    && Has(n, x, i) && Has(n, y, j) && Paired(n, x, i, y, j)
    && (es != [] ==> AlwaysPaired(Step(n, es[0]), es[1..], x, i, y, j))
  }

  ghost predicate NeverParts(n: Net, es: seq<Event>, x: nat, i: nat, y: nat, j: nat)
    requires IsRun(n, es)
    decreases |es|
  {
    es == [] ||
    (Has(n, x, i) && !Parts(n, es[0], x, i, y, j) && NeverParts(Step(n, es[0]), es[1..], x, i, y, j))
  }

  /** Through any run, two joined ends stay each other's remote ends if and only if no step of it parts them. */
  lemma {:induction false} StayPairedExact(n: Net, es: seq<Event>, x: nat, i: nat, y: nat, j: nat)
    requires Inv(n) && IsRun(n, es) && Has(n, x, i) && Has(n, y, j) && Joined(n, x, i, y, j)
    ensures AlwaysPaired(n, es, x, i, y, j) <==> NeverParts(n, es, x, i, y, j)
    decreases |es|
  {
    if es != [] {
      PartsExact(n, es[0], x, i, y, j);
      StepKeeps(n, es[0]);
      if !Parts(n, es[0], x, i, y, j) { StayPairedExact(Step(n, es[0]), es[1..], x, i, y, j); }
    }
  }

  /** Calls that may part the connecting end. */
  predicate Unsettles(e: Event, x: nat, i: nat) {
    CallsOn(e, x, i) && (e.op.Bind? || e.op.Connect? || e.op.Disconnect? || e.op.Close?)
  }

  predicate NeverUnsettled(es: seq<Event>, x: nat, i: nat) {
    forall k | 0 <= k < |es| :: !Unsettles(es[k], x, i)
  }

  lemma SettledStep(n: Net, e: Event, x: nat, i: nat, y: nat, j: nat)
    requires Inv(n) && Enabled(n, e) && Has(n, x, i) && Has(n, y, j) && Joined(n, x, i, y, j)
    requires !At(n, x, i).connecting && !Unsettles(e, x, i)
    ensures Parts(n, e, x, i, y, j) <==> Disturbs(e, y, j)
    ensures Has(Step(n, e), x, i) && !At(Step(n, e), x, i).connecting
  {
    StepAt(n, e, x, i);
  }

  /**
   In calls alone: once a connect is over, and as long as the connecting end is
   only sent from, listened on or accepted on, the two ends stay each other's
   remote ends throughout a run if and only if nobody sends from the accepted
   end, binds it, disconnects it or closes it.
   */
  lemma {:induction false} StayPairedInCalls(n: Net, es: seq<Event>, x: nat, i: nat, y: nat, j: nat)
    requires Inv(n) && IsRun(n, es) && Has(n, x, i) && Has(n, y, j) && Joined(n, x, i, y, j) && !At(n, x, i).connecting
    requires NeverUnsettled(es, x, i)
    ensures AlwaysPaired(n, es, x, i, y, j) <==> Undisturbed(es, y, j)
    decreases |es|
  {
    if es != [] {
      var rest := es[1..];
      assert !Unsettles(es[0], x, i) && forall k | 0 <= k < |rest| :: rest[k] == es[k + 1];
      SettledStep(n, es[0], x, i, y, j);
      PartsExact(n, es[0], x, i, y, j);
      UndisturbedCons(es, y, j);
      if !Disturbs(es[0], y, j) {
        StepKeeps(n, es[0]);
        StayPairedInCalls(Step(n, es[0]), rest, x, i, y, j);
      }
    }
  }

  // ---------------------------------------------------------------- a handshake goes through

  /** A socket bound outside the ephemeral range and told to listen does, there; an unbound one does not. */
  lemma ListenerOpens(h: Host, l: nat, port: Port)
    requires l < |h.sockets| && port != 0 && !Ephemeral(port)
    ensures var once := CallOn(h, l, Bind(Endpoint(h.ip, port))).0;
            l < |once.sockets| &&
            var twice := CallOn(once, l, Listen).0;
            l < |twice.sockets| &&
            var s, t := h.sockets[l], twice.sockets[l];
            && t.listening && t.bound && t.local == Endpoint(h.ip, port) && t.proto == s.proto
            && t.open == s.open && t.requests == s.requests && t.remote == s.remote && t.connected == s.connected
    ensures !h.sockets[l].bound ==> CallOn(h, l, Listen).0.sockets[l] == h.sockets[l]
  {
  }

  /** A closed socket neither listens nor is connected, keeps its port, and closing it again changes nothing. */
  lemma CloseExact(h: Host, i: nat)
    requires i < |h.sockets|
    ensures var s, t := h.sockets[i], Called(h, i, Close);
            && !t.open && t.local == s.local && t.bound == s.bound && t.requests == s.requests
            && (s.open ==> !t.listening && !t.connected) && (s.open && s.connected ==> t.remote == Nowhere)
            && (!s.open ==> t == s)
    ensures CallOn(h, i, Close).0.Used(h.sockets[i].proto) == h.Used(h.sockets[i].proto)
  {
  }

  /** A request is sent exactly by a bound socket that does not listen: to the end asked for, from the host's address. */
  lemma ConnectExact(h: Host, i: nat, remote: Endpoint)
    requires i < |h.sockets|
    ensures var (g, q, r) := CallOn(h, i, Connect(remote));
            && (q.Some? <==> h.sockets[i].bound && !h.sockets[i].listening) && r == None
            && (q.None? ==> g.sockets[i] == h.sockets[i])
            && (q.Some? ==> q.value.dest == remote && q.value.source.ip == h.ip && q.value.proto == h.sockets[i].proto
                            && g.sockets[i].local == q.value.source && g.sockets[i].connecting)
  {
  }

  /** A listener at its host's address with nothing queued, and a bound socket of the same protocol that may connect to it. */
  predicate CanMeet(n: Net, x: nat, i: nat, y: nat, l: nat) {
    && Has(n, x, i) && Has(n, y, l)
    && var s, t := At(n, x, i), At(n, y, l);
       && s.bound && !s.listening && s.open && s.proto == t.proto
       && t.listening && t.open && t.requests == [] && t.local.ip == n.hosts[y].ip
       && n.hosts[x].ip != 0 && n.hosts[y].ip != 0
  }

  /** At least two ephemeral ports are free. */
  ghost predicate TwoFree(used: set<Port>) {
    exists a: Port, b: Port :: a != b && Ephemeral(a) && Ephemeral(b) && a !in used && b !in used
  }

  lemma OneStillFree(used: set<Port>, after: set<Port>, p: Port)
    requires TwoFree(used) && forall q <- after :: q in used || q == p
    ensures LeastFree(after) != 0
  {
    var a: Port, b: Port :| a != b && Ephemeral(a) && Ephemeral(b) && a !in used && b !in used;
    assert a !in after || b !in after;
  }

  /** The connecting end after its connect: at its host's address, on the least free port, waiting for an answer. */
  lemma Asks(n: Net, x: nat, i: nat, y: nat, l: nat)
    requires Inv(n) && CanMeet(n, x, i, y, l)
    requires TwoFree(n.hosts[x].Used(At(n, x, i).proto)) && TwoFree(n.hosts[y].Used(At(n, x, i).proto))
    ensures var e := Call(x, i, Connect(At(n, y, l).local));
            Enabled(n, e) && LeastFree(Step(n, e).hosts[y].Used(At(n, x, i).proto)) != 0 &&
            var m := Step(n, e);
            && Has(m, x, i) && Has(m, y, l) && At(m, y, l) == At(n, y, l)
            && m.hosts[x].ip == n.hosts[x].ip && m.hosts[y].ip == n.hosts[y].ip
            && var s := At(m, x, i);
               && s.local.ip == n.hosts[x].ip && Ephemeral(s.local.port) && s.connecting && s.bound && s.open
               && s.proto == At(n, x, i).proto
               && Info(s.local, At(n, y, l).local, s.proto) in m.mail.requests
  {
    var e := Call(x, i, Connect(At(n, y, l).local));
    StepAt(n, e, x, i);
    StepAt(n, e, y, l);
    var s, used := At(n, x, i), n.hosts[x].Used(At(n, x, i).proto);
    GivenBackIs(used, s);
    OneStillFree(used, GivenBack(used, s), 0);
    var p := LeastFree(GivenBack(used, s));
    if x == y {
      OneStillFree(used, Take(GivenBack(used, s), p), p);
    } else {
      OneStillFree(n.hosts[y].Used(s.proto), n.hosts[y].Used(s.proto), 0);
    }
  }

  /** The listener has the request in its queue. */
  lemma Hears(n: Net, y: nat, l: nat, q: Info)
    requires Has(n, y, l) && q in n.mail.requests && n.hosts[y].ip == q.dest.ip
    requires At(n, y, l).open && At(n, y, l).proto == q.proto && At(n, y, l).local == q.dest && At(n, y, l).requests == []
    ensures Enabled(n, DeliverRequest(y, q))
    ensures var m := Step(n, DeliverRequest(y, q));
            && Has(m, y, l) && At(m, y, l) == At(n, y, l).(requests := [q])
            && m.mail == n.mail && |m.hosts| == |n.hosts|
  {
    StepAt(n, DeliverRequest(y, q), y, l);
    assert [] + [q] == [q];
  }

  /** A request passes by the connecting end. */
  lemma PassesBy(n: Net, y: nat, q: Info, x: nat, i: nat)
    requires Has(n, x, i) && Enabled(n, DeliverRequest(y, q))
    ensures var m := Step(n, DeliverRequest(y, q));
            && Has(m, x, i) && At(m, x, i).(requests := At(n, x, i).requests) == At(n, x, i) && m.hosts[x].ip == n.hosts[x].ip
            && (forall z | 0 <= z < |n.hosts| :: m.hosts[z].ip == n.hosts[z].ip && m.hosts[z].Used(Tcp) == n.hosts[z].Used(Tcp)
                                                 && m.hosts[z].Used(Udp) == n.hosts[z].Used(Udp))
  {
    StepAt(n, DeliverRequest(y, q), x, i);
  }

  /** The listener accepts: a new socket, connected to the requester, has announced itself. */
  lemma Answers(n: Net, y: nat, l: nat, q: Info)
    requires Has(n, y, l) && At(n, y, l).listening && At(n, y, l).requests == [q] && q.dest == At(n, y, l).local
    requires q.proto == At(n, y, l).proto && LeastFree(n.hosts[y].Used(q.proto)) != 0
    ensures var e, j := Call(y, l, Accept), |n.hosts[y].sockets|;
            Enabled(n, e) &&
            var m := Step(n, e);
            && Has(m, y, j)
            && var a := At(m, y, j);
               && AsBorn(a) && a.remote == q.source && a.local.ip == n.hosts[y].ip && Ephemeral(a.local.port) && a.proto == q.proto
               && Info(a.local, q.source, q.proto) in m.mail.responses
  {
    var h := n.hosts[y];
    assert [q][1..] == [] && Scan(q.dest, [q]) == (Some(q), []);
    AcceptIsBorn(h, l);
  }

  /** The answer reaches the connecting end and completes its connect. */
  lemma Completes(n: Net, x: nat, i: nat, y: nat, j: nat, r: Info)
    requires Inv(n) && Has(n, x, i) && Has(n, y, j) && r in n.mail.responses && n.hosts[x].ip == r.dest.ip
    requires var s, a := At(n, x, i), At(n, y, j);
             && s.connecting && s.bound && s.open && s.proto == r.proto && s.local == r.dest && Ephemeral(s.local.port)
             && AsBorn(a) && a.local == r.source && a.remote == r.dest && Ephemeral(a.local.port) && r.source.ip != 0
    ensures Enabled(n, DeliverResponse(x, r))
    ensures Has(Step(n, DeliverResponse(x, r)), x, i) && Has(Step(n, DeliverResponse(x, r)), y, j)
    ensures Joined(Step(n, DeliverResponse(x, r)), x, i, y, j)
  {
    StepAt(n, DeliverResponse(x, r), x, i);
    StepAt(n, DeliverResponse(x, r), y, j);
    BornInv(n, y, j);
  }

  /** The request is in the listener's queue, its sender is waiting, and the listener's host has a port free. */
  ghost predicate Waiting(n: Net, x: nat, i: nat, y: nat, l: nat, q: Info) {
    && Inv(n) && Has(n, x, i) && Has(n, y, l)
    && var s, t := At(n, x, i), At(n, y, l);
       && s.connecting && s.bound && s.open && s.proto == q.proto && s.local == q.source && Ephemeral(s.local.port)
       && s.local.ip == n.hosts[x].ip && n.hosts[y].ip != 0
       && t.listening && t.requests == [q] && t.local == q.dest && t.proto == q.proto
       && LeastFree(n.hosts[y].Used(q.proto)) != 0
  }

  lemma FirstHalf(n: Net, x: nat, i: nat, y: nat, l: nat) returns (q: Info)
    requires Inv(n) && CanMeet(n, x, i, y, l)
    requires TwoFree(n.hosts[x].Used(At(n, x, i).proto)) && TwoFree(n.hosts[y].Used(At(n, x, i).proto))
    ensures var e1, e2 := Call(x, i, Connect(At(n, y, l).local)), DeliverRequest(y, q);
            && Enabled(n, e1) && Enabled(Step(n, e1), e2) && Waiting(Step(Step(n, e1), e2), x, i, y, l, q)
            && y < |Step(Step(n, e1), e2).hosts| && |Step(Step(n, e1), e2).hosts[y].sockets| == |n.hosts[y].sockets|
  {
    var e1 := Call(x, i, Connect(At(n, y, l).local));
    Asks(n, x, i, y, l);
    StepKeeps(n, e1);
    var n1 := Step(n, e1);
    q := Info(At(n1, x, i).local, At(n, y, l).local, At(n1, x, i).proto);
    Hears(n1, y, l, q);
    PassesBy(n1, y, q, x, i);
    StepKeeps(n1, DeliverRequest(y, q));
  }

  lemma SecondHalf(n: Net, x: nat, i: nat, y: nat, l: nat, q: Info) returns (r: Info)
    requires Waiting(n, x, i, y, l, q)
    ensures var e3, e4, j := Call(y, l, Accept), DeliverResponse(x, r), |n.hosts[y].sockets|;
            && Enabled(n, e3) && Enabled(Step(n, e3), e4)
            && var m := Step(Step(n, e3), e4); Has(m, x, i) && Has(m, y, j) && Joined(m, x, i, y, j)
  {
    var e3, j := Call(y, l, Accept), |n.hosts[y].sockets|;
    Answers(n, y, l, q);
    StepAt(n, e3, x, i);
    StepKeeps(n, e3);
    var n3 := Step(n, e3);
    if x == y { CalledIs(n.hosts[x], l, Accept, i); }
    r := Info(At(n3, y, j).local, q.source, q.proto);
    Completes(n3, x, i, y, j, r);
  }

  lemma RunCons(n: Net, e: Event, es: seq<Event>)
    requires Enabled(n, e) && IsRun(Step(n, e), es)
    ensures IsRun(n, [e] + es) && After(n, [e] + es) == After(Step(n, e), es)
  {
    assert ([e] + es)[1..] == es;
  }

  /**
   A handshake goes through: from any reachable situation in which the two can
   meet and ports are free on either side, Connect, the delivery of its request,
   Accept and the delivery of its response join the connecting socket and a new
   one.
   */
  lemma HandshakeCompletes(n: Net, x: nat, i: nat, y: nat, l: nat) returns (q: Info, r: Info)
    requires Inv(n) && CanMeet(n, x, i, y, l)
    requires TwoFree(n.hosts[x].Used(At(n, x, i).proto)) && TwoFree(n.hosts[y].Used(At(n, x, i).proto))
    ensures var es := [Call(x, i, Connect(At(n, y, l).local))] + ([DeliverRequest(y, q)] + ([Call(y, l, Accept)] + ([DeliverResponse(x, r)] + [])));
            && IsRun(n, es)
            && var m, j := After(n, es), |n.hosts[y].sockets|; Has(m, x, i) && Has(m, y, j) && Joined(m, x, i, y, j)
  {
    var e1, e3 := Call(x, i, Connect(At(n, y, l).local)), Call(y, l, Accept);
    q := FirstHalf(n, x, i, y, l);
    var e2 := DeliverRequest(y, q);
    var n1 := Step(n, e1);
    var n2 := Step(n1, e2);
    r := SecondHalf(n2, x, i, y, l, q);
    var e4 := DeliverResponse(x, r);
    RunCons(Step(n2, e3), e4, []);
    RunCons(n2, e3, [e4] + []);
    RunCons(n1, e2, [e3] + ([e4] + []));
    RunCons(n, e1, [e2] + ([e3] + ([e4] + [])));
  }
}
