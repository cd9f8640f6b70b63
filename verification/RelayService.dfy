/** What the relay does for its clients, event by event and over whole runs. */
module RelayService {
  import opened Common
  import opened FreeList
  import opened Subnet
  import opened Relay
  import opened RelayRuns
  import opened RelayBroadcast
  import opened P2pServers

  // ---------------------------------------------------------------- arrival

  /**
   A client that arrives gets a session that was nobody's, with a running
   thread, no address and no closing mark, and nothing to tell the master if it
   leaves at once; it gets none exactly when the pool has no free slot or the
   slot needs memory that is not there.
   */
  lemma ArrivalMeaning(r: RelayState, memory: Option<Ptr>)
    requires Inv(r) && Steppable(r) && Enabled(r, ClientArrives(memory, true))
    ensures var s := Step(r, ClientArrives(memory, true));
            && s.players == r.players && s.tokens == r.tokens && s.broadcast == r.broadcast
            && (s.sessions == r.sessions && s.pool == r.pool <==>
                  r.pool.head.None? || (r.pool.slots[r.pool.head.value].item.None? && memory.None?))
    ensures var s, got := Step(r, ClientArrives(memory, true)), Acquire(r.pool, memory).1;
            got.Some? ==>
              && got.value !in r.players.Values && !InUse(r.pool, got.value) && InUse(s.pool, got.value)
              && s.sessions == r.sessions[got.value := Session(0, false, true, true)]
              && Told(s, ClientLeaves(got.value), true) == []
  {
    AcquireEffect(r.pool, r.sessions.Keys, memory);
    ArrivalKeeps(r, memory, true);
  }

  /** A session that cannot be started is given back: nobody new is in use. */
  lemma FailedStart(r: RelayState, memory: Option<Ptr>, p: Ptr)
    requires Inv(r) && Steppable(r) && Enabled(r, ClientArrives(memory, false))
    ensures var s := Step(r, ClientArrives(memory, false));
            s.players == r.players && s.tokens == r.tokens && (InUse(s.pool, p) <==> InUse(r.pool, p))
  {
    AcquireEffect(r.pool, r.sessions.Keys, memory);
    var got := Acquire(r.pool, memory);
    if got.1.Some? { ReleaseEffect(got.0, r.sessions.Keys + {got.1.value}, got.1.value); }
  }

  // ---------------------------------------------------------------- departure

  /**
   A registered client that leaves frees its address and its slot, and no other,
   and with a buffer at hand exactly its address is reported to the master.
   */
  lemma DepartureMeaning(r: RelayState, who: Ptr, ip: Ip, other: Ip)
    requires Inv(r) && Steppable(r) && who in r.sessions && r.sessions[who].live && ip in r.players && r.players[ip] == who
    ensures Enabled(r, ClientLeaves(who))
    ensures var s := Step(r, ClientLeaves(who));
            && ip !in s.players && !InUse(s.pool, who) && !s.sessions[who].live && s.tokens == r.tokens
            && (other != ip ==> (other in s.players <==> other in r.players)
                                && (other in r.players ==> s.players[other] == r.players[other]))
            && Told(r, ClientLeaves(who), true) == [Gone(ip)] && Told(r, ClientLeaves(who), false) == []
  {
    assert EntrySound(r, ip);
    ReleaseEffect(r.pool, r.sessions.Keys, who);
  }

  /**
   When the master reports an address gone, its waiting tokens go, the session
   there is closed and its slot freed; when it reports one connected, nothing
   happens. Everybody else stays.
   */
  lemma StateChangeMeaning(r: RelayState, ip: Ip, other: Ip)
    requires Inv(r) && Steppable(r)
    ensures Step(r, StateChange(ip, true)) == r
    ensures var s := Step(r, StateChange(ip, false));
            && ip !in s.players && (forall i | 0 <= i < |s.tokens| :: s.tokens[i].virtualIp != ip)
            && (other != ip ==> (other in s.players <==> other in r.players)
                                && (other in r.players ==> s.players[other] == r.players[other]))
            && (ip in r.players ==>
                  var p := r.players[ip];
                  p in s.sessions && s.sessions[p].masterClosed && !s.sessions[p].live && !InUse(s.pool, p))
  {
    KeptOrDropped(r.tokens, ip);
    if ip in r.players {
      assert EntrySound(r, ip);
      ReleaseEffect(r.pool, r.sessions.Keys, r.players[ip]);
    }
    var kept := Keep(r.tokens, ip);
    forall i | 0 <= i < |kept| ensures kept[i].virtualIp != ip { assert kept[i] in kept; }
  }

  /** The tokens that stay keep their order: a token at the end stays at the end. */
  lemma {:induction false} KeepInOrder(tokens: seq<Token>, t: Token, ip: Ip)
    ensures Keep(tokens + [t], ip) == Keep(tokens, ip) + if t.virtualIp == ip then [] else [t]
  {
    if tokens == [] {
      assert tokens + [t] == [t] && [t][1..] == [];
    } else {
      var all := tokens + [t];
      assert all[0] == tokens[0] && all[1..] == tokens[1..] + [t];
      KeepInOrder(tokens[1..], t, ip);
      Assoc(if tokens[0].virtualIp == ip then [] else [tokens[0]], Keep(tokens[1..], ip), if t.virtualIp == ip then [] else [t]);
    }
  }

  /** A stop of a running server leaves no player, no session and no slot in use; the waiting tokens stay. */
  lemma StopMeaning(r: RelayState, p: Ptr)
    requires Inv(r) && Steppable(r) && r.listening
    ensures var s := Step(r, ServerStops);
            && s.players == map[] && s.sessions == map[] && !InUse(s.pool, p) && !s.listening
            && |s.pool.slots| == |r.pool.slots| && s.tokens == r.tokens
    ensures Step(r.(listening := false), ServerStops) == r.(listening := false)
  {
  }

  // ---------------------------------------------------------------- broadcasts over whole runs

  /**
   In every run with addresses of one /16, a message that a player sends to the
   broadcast address of its own subnet, computed from any player's address,
   reaches every player, once each.
   */
  lemma SubnetBroadcast(r: RelayState, es: seq<Event>, net: int, ip: Ip, senderIp: Ip, payload: seq<byte>, order: seq<Ip>, p: Ptr)
    requires Inv(r) && IsRun(r, es) && OnNetwork(r, net)
    requires forall i | 0 <= i < |es| && es[i].TokenArrives? :: es[i].token.virtualIp / 65536 == net
    requires var s := After(r, es); ip in s.players && p in s.players.Values
    requires var m := Message(senderIp, Broadcast(ip, FIXED_MASK), payload);
             Enumerates(order, Addressed(After(r, es), senderIp, m))
    ensures var s, m := After(r, es), Message(senderIp, Broadcast(ip, FIXED_MASK), payload);
            CopiesTo(Copies(order, s.players, q => true, m), p) == 1
  {
    BroadcastAgreement(r, es, net);
    var s, m := After(r, es), Message(senderIp, Broadcast(ip, FIXED_MASK), payload);
    RoutingExact(s, senderIp, m, order, q => true);
    assert m.(sourceIp := senderIp) == m;
    var a :| a in s.players && s.players[a] == p;
    assert EntrySound(s, a);
  }
}
