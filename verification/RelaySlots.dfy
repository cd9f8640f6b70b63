/** When a session's slot goes back to the pool, and when it is lost. */
module RelaySlots {
  import opened Common
  import opened FreeList
  import opened Relay
  import opened RelayRuns

  // ---------------------------------------------------------------- a thread ends

  /** In this step the session's receive thread ends. */
  predicate ThreadEnds(r: RelayState, e: Event, who: Ptr)
    requires Enabled(r, e) && Steppable(r)
  {
    && who in r.sessions && r.sessions[who].live
    && (who !in Step(r, e).sessions || !Step(r, e).sessions[who].live)
  }

  /** The address the session carries leads to it. */
  predicate Registered(r: RelayState, who: Ptr) {
    who in r.sessions && r.sessions[who].virtualIp in r.players && r.players[r.sessions[who].virtualIp] == who
  }

  /** A departing client's slot goes back only if it is registered; one that fails to authenticate never gives it back. */
  predicate GivesBack(r: RelayState, e: Event, who: Ptr)
    requires who in r.sessions
  {
    match e
    case ClientLeaves(_) => Registered(r, who)
    case StateChange(_, _) => true
    case ServerStops => true
    case _ => false
  }

  /** Whatever ends a session's thread, its slot is free afterwards exactly in these cases. */
  lemma ReturnExact(r: RelayState, e: Event, who: Ptr)
    requires Inv(r) && Enabled(r, e) && Steppable(r) && ThreadEnds(r, e, who)
    ensures !InUse(Step(r, e).pool, who) <==> GivesBack(r, e, who)
  {
    match e
    case StateChange(ip, connected) => ReleaseEffect(r.pool, r.sessions.Keys, who);
    case ClientArrives(memory, started) => AcquireEffect(r.pool, r.sessions.Keys, memory);
    case ClientLeaves(_) => ReleaseEffect(r.pool, r.sessions.Keys, who);
    case _ =>
  }

  // ---------------------------------------------------------------- lost slots

  /** A session that is in use, under no address, and whose thread has ended. */
  ghost predicate Stranded(r: RelayState, p: Ptr) {
    p in r.sessions && !r.sessions[p].live && InUse(r.pool, p) && p !in r.players.Values
  }

  /**
   The steps that lose the slot of session `p`: it leaves, or fails to
   authenticate, while under no address; or its address goes to a newcomer
   after its thread has ended.
   */
  predicate Loses(r: RelayState, e: Event, p: Ptr)
    requires Steppable(r)
  {
    match e
    case ClientLeaves(who) => p == who && who !in r.players.Values
    case Authenticates(who, peer, secret) =>
      var i := Match(r, peer, secret);
      if i.None? then p == who && who !in r.players.Values else
      var ip := GrantedIp(r.tokens, i.value);
      ip in r.players && r.players[ip] == p != who && !r.sessions[p].live
    case _ => false
  }

  /** Exactly these steps strand a session that was not stranded. */
  lemma StrandedExact(r: RelayState, e: Event, p: Ptr)
    requires Inv(r) && Enabled(r, e) && Proper(r, e) && Steppable(r) && !Stranded(r, p)
    ensures Stranded(Step(r, e), p) <==> Loses(r, e, p)
  {
    match e
    case StateChange(ip, connected) =>
      if ip in r.players {
        ReleaseEffect(r.pool, r.sessions.Keys, r.players[ip]);
        if r.players[ip] != p { ValuesWithout(r.players, ip, p); }
      }
    case ClientArrives(memory, started) =>
      AcquireEffect(r.pool, r.sessions.Keys, memory);
      var got := Acquire(r.pool, memory);
      if got.1.Some? && !started { ReleaseEffect(got.0, r.sessions.Keys + {got.1.value}, got.1.value); }
    case ClientLeaves(who) => LeavingStrands(r, who, p);
    case Authenticates(who, peer, secret) =>
      if Match(r, peer, secret).Some? { DisplacementStrands(r, e, p); }
    case _ =>
  }

  lemma LeavingStrands(r: RelayState, who: Ptr, p: Ptr)
    requires Inv(r) && Enabled(r, ClientLeaves(who)) && Steppable(r) && !Stranded(r, p)
    ensures Stranded(Step(r, ClientLeaves(who)), p) <==> p == who && who !in r.players.Values
  {
    ReleaseEffect(r.pool, r.sessions.Keys, who);
    var ip := r.sessions[who].virtualIp;
    if who in r.players.Values {
      var a :| a in r.players && r.players[a] == who;
      assert EntrySound(r, a);
      if p != who { ValuesWithout(r.players, ip, p); }
    } else {
      assert InUse(r.pool, who);
    }
  }

  lemma ValuesWithout(players: map<Ip, Ptr>, ip: Ip, p: Ptr)
    requires ip in players && players[ip] != p
    ensures p in players.Values <==> p in (players - {ip}).Values
  {
    if a :| a in players && players[a] == p {
      assert (players - {ip})[a] == p;
    }
  }

  lemma DisplacementStrands(r: RelayState, e: Event, p: Ptr)
    requires Inv(r) && Enabled(r, e) && Steppable(r) && !Stranded(r, p)
    requires e.Authenticates? && Match(r, e.peer, e.secret).Some?
    ensures Stranded(Step(r, e), p) <==> Loses(r, e, p)
  {
    var ip, after := GrantedIp(r.tokens, Match(r, e.peer, e.secret).value), Step(r, e);
    assert forall a <- r.players :: EntrySound(r, a);
    assert after.players[ip] == e.who;
    if p in r.players.Values {
      var a :| a in r.players && r.players[a] == p;
      assert a != ip ==> after.players[a] == p;
    }
  }

  /**
   A displaced session that leaves does not take its replacement's entry with
   it - but neither does it give its own slot back.
   */
  lemma DisplacedLeaves(r: RelayState, who: Ptr)
    requires Inv(r) && Enabled(r, ClientLeaves(who)) && who !in r.players.Values && Steppable(r)
    ensures Step(r, ClientLeaves(who)).players == r.players && Step(r, ClientLeaves(who)).pool == r.pool
    ensures Stranded(Step(r, ClientLeaves(who)), who)
  {
    assert InUse(r.pool, who);
  }

  lemma StepStaysStranded(r: RelayState, e: Event, p: Ptr)
    requires Inv(r) && Enabled(r, e) && Steppable(r) && Stranded(r, p) && !e.ServerStops?
    ensures Stranded(Step(r, e), p)
  {
    match e
    case StateChange(ip, connected) =>
      if ip in r.players { ReleaseEffect(r.pool, r.sessions.Keys, r.players[ip]); }
    case ClientArrives(memory, started) =>
      AcquireEffect(r.pool, r.sessions.Keys, memory);
      var got := Acquire(r.pool, memory);
      if got.1.Some? && !started { ReleaseEffect(got.0, r.sessions.Keys + {got.1.value}, got.1.value); }
    case ClientLeaves(who) => ReleaseEffect(r.pool, r.sessions.Keys, who);
    case _ =>
  }

  /** A stranded session never returns to the pool while the server runs: its slot is lost. */
  lemma {:induction false} StrandedForever(r: RelayState, es: seq<Event>, p: Ptr)
    requires Inv(r) && IsRun(r, es) && Stranded(r, p)
    requires forall i | 0 <= i < |es| :: !es[i].ServerStops?
    ensures Stranded(After(r, es), p)
    decreases |es|
  {
    if es != [] {
      StepKeeps(r, es[0]);
      StepStaysStranded(r, es[0], p);
      StrandedForever(Step(r, es[0]), es[1..], p);
    }
  }

  ghost predicate NoneStranded(r: RelayState) {
    forall p :: !Stranded(r, p)
  }

  /** No step of the run loses a slot. */
  ghost predicate NeverLoses(r: RelayState, es: seq<Event>)
    requires Inv(r) && IsRun(r, es)
    decreases |es|
  {
    es == [] ||
    (StepKeeps(r, es[0]);
     (forall p :: !Loses(r, es[0], p)) && NeverLoses(Step(r, es[0]), es[1..]))
  }

  /** A run without a stop of the server ends without lost slots if and only if no step of it loses one. */
  lemma {:induction false} LeakExact(r: RelayState, es: seq<Event>)
    requires Inv(r) && IsRun(r, es) && NoneStranded(r)
    requires forall i | 0 <= i < |es| :: !es[i].ServerStops?
    ensures NoneStranded(After(r, es)) <==> NeverLoses(r, es)
    decreases |es|
  {
    if es != [] {
      StepKeeps(r, es[0]);
      var next := Step(r, es[0]);
      if p :| Loses(r, es[0], p) {
        StrandedExact(r, es[0], p);
        StrandedForever(next, es[1..], p);
      } else {
        forall p ensures !Stranded(next, p) { StrandedExact(r, es[0], p); }
        LeakExact(next, es[1..]);
        assert After(r, es) == After(next, es[1..]);
        assert NeverLoses(r, es) <==> NeverLoses(next, es[1..]);
      }
    }
  }
}
