/** The relay server object: its handlers update the state in place, and its routing loop fans messages out. */
module P2pServers {
  import opened Common
  import opened FreeList
  import opened Relay
  import opened SessionPools

  const LOCAL_BROADCAST: Ip := 0xC0A8_00FF  // 192.168.0.255

  /** The routing part of every proxied message, and the rest of it. */
  datatype Message = Message(sourceIp: Ip, destIp: Ip, payload: seq<byte>)

  /** A message handed to a session for sending. */
  datatype Delivery = Delivery(to: Ptr, message: Message)

  /** What the relay reports: its new address to a client, a lost address to the master. */
  datatype Notice = Assigned(to: Ptr, ip: Ip) | Gone(ip: Ip)

  /** What a step reports, if a send buffer can be borrowed. */
  function Told(r: RelayState, e: Event, buffer: bool): seq<Notice> {
    match e
    case Authenticates(who, peer, secret) =>
      var i := Match(r, peer, secret);
      if buffer && i.Some? then [Assigned(who, GrantedIp(r.tokens, i.value))] else []
    case ClientLeaves(who) =>
      if buffer && who in r.sessions && !r.sessions[who].masterClosed
         && r.sessions[who].virtualIp in r.players && r.players[r.sessions[who].virtualIp] == who
      then [Gone(r.sessions[who].virtualIp)] else []
    case _ => []
  }

  /**
   With a buffer at hand, a client is told an address exactly when it is
   registered under it in this step, the master of an address exactly when a
   departure frees it, and nobody of anything else.
   */
  lemma ToldExact(r: RelayState, e: Event, p: Ptr, ip: Ip)
    requires Steppable(r) && Enabled(r, e)
    ensures Assigned(p, ip) in Told(r, e, true) <==>
              && e.Authenticates? && e.who == p && Step(r, e).tokens != r.tokens
              && ip == Step(r, e).sessions[p].virtualIp
    ensures Gone(ip) in Told(r, e, true) <==> e.ClientLeaves? && ip in r.players && ip !in Step(r, e).players
    ensures |Told(r, e, true)| <= 1 && Told(r, e, false) == []
  {
    if e.Authenticates? && Match(r, e.peer, e.secret).Some? {
      assert |Without(r.tokens, Match(r, e.peer, e.secret).value)| == |r.tokens| - 1;
    }
  }

  // ---------------------------------------------------------------- routing, specified

  /** A sender may leave its address open or state its own. */
  predicate Honest(senderIp: Ip, m: Message) {
    m.sourceIp == 0 || m.sourceIp == senderIp
  }

  predicate ToEveryone(r: RelayState, m: Message) {
    m.destIp == LOCAL_BROADCAST || m.destIp == r.broadcast
  }

  /** The addresses a message goes to. */
  function Addressed(r: RelayState, senderIp: Ip, m: Message): set<Ip> {
    if !Honest(senderIp, m) then {}
    else if ToEveryone(r, m) then r.players.Keys
    else if m.destIp in r.players then {m.destIp}
    else {}
  }

  /** `order` lists the members of `keys`, each once. */
  ghost predicate Enumerates(order: seq<Ip>, keys: set<Ip>) {
    && (forall k | 0 <= k < |order| :: order[k] in keys)
    && (forall ip <- keys :: ip in order)
    && (forall j, k | 0 <= j < k < |order| :: order[j] != order[k])
  }

  /** One copy per address, except where no send buffer can be borrowed for it. */
  function Copies(order: seq<Ip>, players: map<Ip, Ptr>, buffer: Ptr -> bool, m: Message): (ds: seq<Delivery>)
    requires forall k | 0 <= k < |order| :: order[k] in players
    ensures |ds| <= |order|
  {
    if order == [] then [] else
    var last := |order| - 1;
    Copies(order[..last], players, buffer, m) +
    if buffer(players[order[last]]) then [Delivery(players[order[last]], m)] else []
  }

  /** Each session in `who` appears exactly once among the deliveries, with message `m`, and nobody else does. */
  ghost predicate DeliversTo(ds: seq<Delivery>, who: set<Ptr>, m: Message) {
    && (forall k | 0 <= k < |ds| :: ds[k].to in who && ds[k].message == m)
    && (forall p <- who :: Delivery(p, m) in ds)
    && (forall j, k | 0 <= j < k < |ds| :: ds[j].to != ds[k].to)
  }

  /** The sessions a message is for, in terms of the sessions' own addresses. */
  ghost function Audience(r: RelayState, senderIp: Ip, m: Message, buffer: Ptr -> bool): set<Ptr> {
    set p | p in r.sessions && p in r.players.Values && Honest(senderIp, m) && buffer(p)
            && (ToEveryone(r, m) || r.sessions[p].virtualIp == m.destIp)
  }

  lemma {:induction false} CopiesAt(order: seq<Ip>, players: map<Ip, Ptr>, buffer: Ptr -> bool, m: Message)
    requires forall k | 0 <= k < |order| :: order[k] in players
    requires forall j, k | 0 <= j < k < |order| :: players[order[j]] != players[order[k]]
    ensures var ds := Copies(order, players, buffer, m);
            && (forall d <- ds :: d.message == m && buffer(d.to) && d.to in Reached(order, players))
            && (forall p <- Reached(order, players) | buffer(p) :: Delivery(p, m) in ds)
            && (forall j, k | 0 <= j < k < |ds| :: ds[j].to != ds[k].to)
  {
    if order != [] {
      var last := |order| - 1;
      var init, p := order[..last], players[order[last]];
      CopiesAt(init, players, buffer, m);
      assert order == init + [order[last]];
      assert Reached(order, players) == Reached(init, players) + {p};
      assert p !in Reached(init, players);
      var ds, prev := Copies(order, players, buffer, m), Copies(init, players, buffer, m);
      assert ds == if buffer(p) then prev + [Delivery(p, m)] else prev;
    }
  }

  ghost function Reached(order: seq<Ip>, players: map<Ip, Ptr>): set<Ptr> {
    set ip | ip in order && ip in players :: players[ip]
  }

  /**
   Fan-out: whichever order the table is walked in, each session of the
   audience gets exactly one copy and nobody else gets any. A forged source has
   no audience, a broadcast everybody, and any other destination only the
   session that carries it.
   */
  lemma FanOut(r: RelayState, senderIp: Ip, m: Message, order: seq<Ip>, buffer: Ptr -> bool)
    requires Inv(r) && Enumerates(order, Addressed(r, senderIp, m))
    ensures var copy := m.(sourceIp := senderIp);
            DeliversTo(Copies(order, r.players, buffer, copy), Audience(r, senderIp, m, buffer), copy)
  {
    var copy := m.(sourceIp := senderIp);
    var ds := Copies(order, r.players, buffer, copy);
    forall j, k | 0 <= j < k < |order| ensures r.players[order[j]] != r.players[order[k]] {
      if r.players[order[j]] == r.players[order[k]] { PlayersInjective(r, order[j], order[k]); }
    }
    CopiesAt(order, r.players, buffer, copy);
    forall p <- Audience(r, senderIp, m, buffer) ensures Delivery(p, copy) in ds {
      var ip :| ip in r.players && r.players[ip] == p;
      assert EntrySound(r, ip) && ip in order;
    }
    forall k | 0 <= k < |ds| ensures ds[k].to in Audience(r, senderIp, m, buffer) {
      var ip :| ip in order && ip in r.players && r.players[ip] == ds[k].to;
      assert EntrySound(r, ip);
    }
  }

  /** A message that is not a broadcast is for one session at most. */
  lemma UnicastAlone(r: RelayState, senderIp: Ip, m: Message, buffer: Ptr -> bool, p: Ptr, q: Ptr)
    requires Inv(r) && !ToEveryone(r, m) && p in Audience(r, senderIp, m, buffer) && q in Audience(r, senderIp, m, buffer)
    ensures p == q && m.destIp in r.players && r.players[m.destIp] == p
  {
    var a :| a in r.players && r.players[a] == p;
    var b :| b in r.players && r.players[b] == q;
    assert EntrySound(r, a) && EntrySound(r, b);
  }

  /** How many copies go to session p. */
  function CopiesTo(ds: seq<Delivery>, p: Ptr): nat {
    if ds == [] then 0 else (if ds[0].to == p then 1 else 0) + CopiesTo(ds[1..], p)
  }

  lemma {:induction false} CopiesToIs(ds: seq<Delivery>, p: Ptr)
    requires forall j, k | 0 <= j < k < |ds| :: ds[j].to != ds[k].to
    ensures CopiesTo(ds, p) == if exists k :: 0 <= k < |ds| && ds[k].to == p then 1 else 0
  {
    if ds != [] {
      var rest := ds[1..];
      CopiesToIs(rest, p);
      assert forall k | 0 < k < |ds| :: ds[k] == rest[k - 1];
      if k :| 0 <= k < |rest| && rest[k].to == p { assert ds[k + 1].to == p; }
    }
  }

  /**
   Who gets a message, from its addresses alone: nobody if the source is
   another's; every registered session if the destination is 192.168.0.255 or
   the relay's broadcast address; else the registered session that carries the
   destination. Each gets one copy if a send buffer can be borrowed, with the
   sender's address as source, and the destination and payload as they came.
   */
  ghost predicate Fanned(r: RelayState, senderIp: Ip, m: Message, buffer: Ptr -> bool, ds: seq<Delivery>) {
    && (forall p: Ptr :: CopiesTo(ds, p) ==
          if && p in r.sessions && p in r.players.Values && buffer(p)
             && (m.sourceIp == 0 || m.sourceIp == senderIp)
             && (m.destIp == 0xC0A8_00FF || m.destIp == r.broadcast || m.destIp == r.sessions[p].virtualIp)
          then 1 else 0)
    && (forall k | 0 <= k < |ds| :: ds[k].message == Message(senderIp, m.destIp, m.payload))
  }

  lemma RoutingExact(r: RelayState, senderIp: Ip, m: Message, order: seq<Ip>, buffer: Ptr -> bool)
    requires Inv(r) && Enumerates(order, Addressed(r, senderIp, m))
    ensures Fanned(r, senderIp, m, buffer, Copies(order, r.players, buffer, m.(sourceIp := senderIp)))
  {
    var copy := m.(sourceIp := senderIp);
    var ds := Copies(order, r.players, buffer, copy);
    FanOut(r, senderIp, m, order, buffer);
    forall p: Ptr ensures CopiesTo(ds, p) == if p in Audience(r, senderIp, m, buffer) then 1 else 0 {
      CopiesToIs(ds, p);
      if p in Audience(r, senderIp, m, buffer) {
        assert Delivery(p, copy) in ds;
      }
    }
  }

  class P2pProxyServer {
    var waitingTokens: seq<Token>
    var players: map<Ip, Ptr>
    var broadcastAddress: Ip
    const sessionPool: SessionPool
    /** The session objects in memory. */
    var sessions: map<Ptr, Session>
    var running: bool
    /** Messages handed to sessions for sending, oldest first. */
    var outbox: seq<Delivery>
    /** Reports handed to clients and to the master, oldest first. */
    var notices: seq<Notice>

    /** Nothing is sent. */
    twostate predicate Silent()
      reads this
    {
      outbox == old(outbox) && notices == old(notices)
    }

    ghost function View(): RelayState
      reads this, sessionPool, sessionPool.slots
    {
      RelayState(waitingTokens, players, broadcastAddress, sessionPool.View(), sessions, running)
    }

    ghost predicate Valid()
      reads this, sessionPool, sessionPool.slots
    {
      sessionPool.Valid() && Steppable(View())
    }

    constructor (capacity: nat)
      requires capacity > 0
      ensures Valid() && View() == Initial(capacity) && outbox == [] && notices == []
      ensures fresh(sessionPool) && fresh(sessionPool.slots)
    {
      waitingTokens, players, broadcastAddress, sessions, running, outbox, notices := [], map[], 0, map[], false, [], [];
      sessionPool := new SessionPool(capacity);
      new;
      HeadInRange(sessionPool.View());
    }

    method Start()
      requires Valid()
      modifies this
      ensures Valid() && View() == Step(old(View()), ServerStarts) && Silent()
    {
      running := true;
    }

    method HandleToken(token: Token)
      requires Valid()
      modifies this
      ensures Valid() && View() == Step(old(View()), TokenArrives(token)) && Silent()
    {
      waitingTokens := waitingTokens + [token];
    }

    /** Removes every waiting token for one address, keeping the others in order. */
    method EraseTokens(ip: Ip)
      modifies this`waitingTokens
      ensures waitingTokens == Keep(old(waitingTokens), ip)
    {
      var kept, i := [], 0;
      assert waitingTokens[0..] == waitingTokens;
      while i < |waitingTokens|
        invariant i <= |waitingTokens| && Keep(waitingTokens, ip) == kept + Keep(waitingTokens[i..], ip)
      {
        assert waitingTokens[i..][1..] == waitingTokens[i + 1..];
        if waitingTokens[i].virtualIp != ip { kept := kept + [waitingTokens[i]]; }
        i := i + 1;
      }
      waitingTokens := kept;
    }

    /** On a disconnect, drops the waiting tokens for the address and shuts down the session registered there. */
    method HandleStateChange(ip: Ip, connected: bool)
      requires Valid()
      modifies this, sessionPool, sessionPool.slots
      ensures Valid() && View() == Step(old(View()), StateChange(ip, connected)) && Silent()
    {
      if connected { return; }
      EraseTokens(ip);
      if ip in players {
        var session := players[ip];
        sessions := sessions[session := Shut(sessions[session])];
        sessionPool.Release(session);
        players := players - {ip};
        HeadInRange(sessionPool.View());
      }
    }

    /** One turn of the accept loop: acquire a session and start it, or give it back. */
    method AcceptClient(memory: Option<Ptr>, started: bool) returns (session: Option<Ptr>)
      requires Valid() && Enabled(View(), ClientArrives(memory, started))
      modifies this, sessionPool, sessionPool.slots
      ensures Valid() && View() == Step(old(View()), ClientArrives(memory, started)) && Silent()
    {
      session := sessionPool.Acquire(memory);
      HeadInRange(sessionPool.View());
      if session.None? { return; }
      sessions := sessions[session.value := FreshSession];
      if !started {
        sessionPool.Release(session.value);
        HeadInRange(sessionPool.View());
        return None;
      }
      sessions := sessions[session.value := FreshSession.(running := true, live := true)];
    }

    /** The token scan, and the registration under whatever address is read after the erasure. */
    method TryRegisterUser(session: Ptr, peer: Option<Peer>, secret: seq<byte>, buffer: bool) returns (ok: bool)
      requires Valid() && session in sessions
      modifies this
      ensures ok == Match(old(View()), peer, secret).Some? && outbox == old(outbox)
      ensures ok ==> View() == Register(old(View()), session, Match(old(View()), peer, secret).value)
      ensures !ok ==> View() == old(View())
      ensures notices == old(notices) + Told(old(View()), Authenticates(session, peer, secret), buffer)
    {
      if peer.None? { return false; }
      var i := FindToken(peer.value, secret);
      if i == |waitingTokens| { return false; }
      var virtualIp := GrantedIp(waitingTokens, i);
      waitingTokens := waitingTokens[..i] + waitingTokens[i + 1..];
      sessions := sessions[session := sessions[session].(virtualIp := virtualIp)];
      if players == map[] { broadcastAddress := Broadcast16(virtualIp); }
      players := players[virtualIp := session];
      if buffer { notices := notices + [Assigned(session, virtualIp)]; }
      return true;
    }

    /** The scan for the first waiting token that fits, or the number of tokens. */
    method FindToken(peer: Peer, secret: seq<byte>) returns (i: nat)
      ensures i == FirstFit(waitingTokens, peer, secret)
    {
      i := 0;
      while i < |waitingTokens|
        invariant i <= |waitingTokens|
        invariant forall j | 0 <= j < i :: !Fits(waitingTokens[j], peer, secret)
      {
        var waitToken := waitingTokens[i];
        var isPrivate := AllZero(waitToken.physicalIp);
        var ipEqual := isPrivate || (waitToken.family == peer.family && waitToken.physicalIp == peer.address);
        var tokenEqual := waitToken.secret == secret;
        if ipEqual && tokenEqual { return; }
        i := i + 1;
      }
    }

    method AllZero(address: Bytes16) returns (isPrivate: bool)
      ensures isPrivate <==> forall k | 0 <= k < |address| :: address[k] == 0
    {
      isPrivate := true;
      var j := 0;
      while j < 16 && isPrivate
        invariant j <= 16 && (isPrivate <==> forall k | 0 <= k < j :: address[k] == 0)
      {
        if address[j] != 0 { isPrivate := false; }
        j := j + 1;
      }
    }

    method HandleAuthentication(session: Ptr, peer: Option<Peer>, secret: seq<byte>, buffer: bool)
      requires Valid() && Enabled(View(), Authenticates(session, peer, secret))
      modifies this
      ensures Valid() && View() == Step(old(View()), Authenticates(session, peer, secret)) && outbox == old(outbox)
      ensures notices == old(notices) + Told(old(View()), Authenticates(session, peer, secret), buffer)
    {
      var ok := TryRegisterUser(session, peer, secret, buffer);
      if !ok {
        sessions := sessions[session := Shut(sessions[session])];
      }
    }

    /** The end of a session's receive loop: unless the master closed it, the server is told. */
    method ReceiveLoopEnds(session: Ptr, buffer: bool)
      requires Valid() && Enabled(View(), ClientLeaves(session))
      modifies this, sessionPool, sessionPool.slots
      ensures Valid() && View() == Step(old(View()), ClientLeaves(session)) && outbox == old(outbox)
      ensures notices == old(notices) + Told(old(View()), ClientLeaves(session), buffer)
    {
      sessions := sessions[session := sessions[session].(live := false)];
      if !sessions[session].masterClosed {
        DisconnectProxyClient(session, buffer);
        HeadInRange(sessionPool.View());
      }
    }

    /** Removes the entry for the session's address only if the entry is this very session. */
    method DisconnectProxyClient(session: Ptr, buffer: bool)
      requires sessionPool.Valid() && session in sessions
      modifies this`players, this`notices, sessionPool, sessionPool.slots
      ensures sessionPool.Valid()
      ensures var ip := sessions[session].virtualIp;
              if ip in old(players) && old(players)[ip] == session
              then
                && players == old(players) - {ip} && sessionPool.View() == Relay.Release(old(sessionPool.View()), session)
                && notices == old(notices) + if buffer then [Gone(ip)] else []
              else players == old(players) && sessionPool.View() == old(sessionPool.View()) && notices == old(notices)
    {
      var virtualIp := sessions[session].virtualIp;
      if virtualIp in players && players[virtualIp] == session {
        players := players - {virtualIp};
        sessionPool.Release(session);
        if buffer { notices := notices + [Gone(virtualIp)]; }
      }
    }

    method Stop()
      requires Valid()
      modifies this, sessionPool, sessionPool.slots
      ensures Valid() && View() == Step(old(View()), ServerStops) && Silent()
    {
      if !running { return; }
      running := false;
      sessionPool.Clear();
      sessions, players := map[], map[];
      HeadInRange(sessionPool.View());
    }

    /**
     Routes one message: a forged source is dropped, an open source is filled
     in, and every addressed entry for which a send buffer can be borrowed gets
     one copy, with the payload as it came. `order` is the order in which the
     table happens to be walked.
     */
    method RouteMessage(sender: Ptr, message: Message, buffer: Ptr -> bool) returns (ghost order: seq<Ip>)
      requires Valid() && sender in sessions
      modifies this`outbox
      ensures Enumerates(order, Addressed(View(), sessions[sender].virtualIp, message))
      ensures outbox == old(outbox) + Copies(order, players, buffer, message.(sourceIp := sessions[sender].virtualIp))
      ensures Inv(View()) ==>
                && outbox[..|old(outbox)|] == old(outbox)
                && Fanned(View(), sessions[sender].virtualIp, message, buffer, outbox[|old(outbox)|..])
    {
      order := RouteCopies(sender, message, buffer);
      if Inv(View()) {
        RoutingExact(View(), sessions[sender].virtualIp, message, order, buffer);
        assert outbox[|old(outbox)|..] == Copies(order, players, buffer, message.(sourceIp := sessions[sender].virtualIp));
      }
    }

    method RouteCopies(sender: Ptr, message: Message, buffer: Ptr -> bool) returns (ghost order: seq<Ip>)
      requires Valid() && sender in sessions
      modifies this`outbox
      ensures Enumerates(order, Addressed(View(), sessions[sender].virtualIp, message))
      ensures outbox == old(outbox) + Copies(order, players, buffer, message.(sourceIp := sessions[sender].virtualIp))
    {
      order := [];
      var routed := message;
      if routed.sourceIp == 0 {
        routed := routed.(sourceIp := sessions[sender].virtualIp);
      } else if routed.sourceIp != sessions[sender].virtualIp {
        return;
      }
      var destIp := message.destIp;
      if destIp == LOCAL_BROADCAST { destIp := broadcastAddress; }
      if destIp == broadcastAddress {
        order := SendToAll(routed, buffer);
      } else if destIp in players {
        Send(players[destIp], routed, buffer);
        order := [destIp];
        assert order[..0] == [];
      }
    }

    method SendToAll(routed: Message, buffer: Ptr -> bool) returns (ghost order: seq<Ip>)
      modifies this`outbox
      ensures Enumerates(order, players.Keys)
      ensures outbox == old(outbox) + Copies(order, players, buffer, routed)
    {
      order := [];
      var left := players.Keys;
      while left != {}
        invariant left <= players.Keys && Enumerates(order, players.Keys - left)
        invariant outbox == old(outbox) + Copies(order, players, buffer, routed)
      {
        var ip :| ip in left;
        Send(players[ip], routed, buffer);
        assert (order + [ip])[..|order|] == order;
        left, order := left - {ip}, order + [ip];
      }
    }

    method Send(target: Ptr, message: Message, buffer: Ptr -> bool)
      modifies this`outbox
      ensures outbox == old(outbox) + if buffer(target) then [Delivery(target, message)] else []
    {
      if buffer(target) { outbox := outbox + [Delivery(target, message)]; }
    }
  }
}
