/** What holds in every run of the relay. */
module RelayRuns {
  import opened Common
  import opened FreeList
  import opened Relay

  // ---------------------------------------------------------------- every step keeps the invariant

  lemma DepartureKeeps(r: RelayState, ip: Ip, s: Session)
    requires Inv(r) && ip in r.players && !s.live && s.virtualIp == ip
    ensures var p := r.players[ip];
            Inv(r.(sessions := r.sessions[p := s], pool := Release(r.pool, p), players := r.players - {ip}))
  {
    var p := r.players[ip];
    ReleaseEffect(r.pool, r.sessions.Keys, p);
    var after := r.(sessions := r.sessions[p := s], pool := Release(r.pool, p), players := r.players - {ip});
    assert after.sessions.Keys == r.sessions.Keys;
    assert EntrySound(r, ip);
    forall a <- after.players ensures EntrySound(after, a) {
      assert EntrySound(r, a) && r.players[a] != p;
    }
    forall q <- after.sessions | after.sessions[q].live ensures InUse(after.pool, q) {
      assert q != p && InUse(r.pool, q);
    }
  }

  lemma ArrivalKeeps(r: RelayState, memory: Option<Ptr>, started: bool)
    requires Inv(r) && Enabled(r, ClientArrives(memory, started)) && Steppable(r)
    ensures Inv(Step(r, ClientArrives(memory, started)))
    ensures Acquire(r.pool, memory).1.Some? ==> Acquire(r.pool, memory).1.value !in r.players.Values
  {
    AcquireEffect(r.pool, r.sessions.Keys, memory);
    var pool, got := Acquire(r.pool, memory).0, Acquire(r.pool, memory).1;
    if got.Some? {
      var p := got.value;
      var after := Step(r, ClientArrives(memory, started));
      assert after.sessions.Keys == r.sessions.Keys + {p};
      if !started { ReleaseEffect(pool, r.sessions.Keys + {p}, p); }
      assert PoolSound(after.pool, after.sessions.Keys);
      forall ip <- r.players ensures r.players[ip] != p && EntrySound(after, ip) { assert EntrySound(r, ip); }
    }
  }

  lemma ShutKeeps(r: RelayState, p: Ptr, s: Session)
    requires Inv(r) && p in r.sessions && s.virtualIp == r.sessions[p].virtualIp && !s.live
    ensures Inv(r.(sessions := r.sessions[p := s]))
  {
    var after := r.(sessions := r.sessions[p := s]);
    assert after.sessions.Keys == r.sessions.Keys;
    forall ip <- after.players ensures EntrySound(after, ip) { assert EntrySound(r, ip); }
  }

  /** Registration keeps the invariant exactly when the session is not already registered under another address. */
  lemma RegistrationExact(r: RelayState, who: Ptr, i: nat)
    requires Inv(r) && who in r.sessions && r.sessions[who].live && i < |r.tokens|
    ensures Inv(Register(r, who, i)) <==>
            forall ip <- r.players | r.players[ip] == who :: ip == GrantedIp(r.tokens, i)
  {
    var after, granted := Register(r, who, i), GrantedIp(r.tokens, i);
    assert after.sessions.Keys == r.sessions.Keys;
    if ip :| ip in r.players && r.players[ip] == who && ip != granted {
      assert ip in after.players && after.players[ip] == who && after.sessions[who].virtualIp == granted;
      assert !EntrySound(after, ip);
    } else {
      forall ip <- after.players ensures EntrySound(after, ip) {
        assert ip != granted ==> EntrySound(r, ip);
      }
    }
  }

  lemma ClientStepKeeps(r: RelayState, e: Event)
    requires Inv(r) && Enabled(r, e) && Proper(r, e) && Steppable(r) && (e.Authenticates? || e.ClientLeaves?)
    ensures Inv(Step(r, e)) && |Step(r, e).pool.slots| == |r.pool.slots|
  {
    if e.Authenticates? {
      var i := Match(r, e.peer, e.secret);
      if i.Some? { RegistrationExact(r, e.who, i.value); } else { ShutKeeps(r, e.who, Shut(r.sessions[e.who])); }
    } else {
      var s := r.sessions[e.who].(live := false);
      ShutKeeps(r, e.who, s);
      if s.virtualIp in r.players && r.players[s.virtualIp] == e.who { DepartureKeeps(r, s.virtualIp, s); }
    }
  }

  /**
   Every step of the relay keeps the invariant: each registered address leads
   to a session in use that carries it. The one proviso is `Proper`, and
   RegistrationExact shows that it cannot be dropped.
   */
  lemma StepKeeps(r: RelayState, e: Event)
    requires Inv(r) && Enabled(r, e) && Proper(r, e)
    ensures Steppable(r) && Inv(Step(r, e)) && |Step(r, e).pool.slots| == |r.pool.slots|
  {
    InvSteppable(r);
    match e
    case ServerStarts =>
    case TokenArrives(token) => assert forall ip <- r.players :: EntrySound(r, ip) ==> EntrySound(Step(r, e), ip);
    case StateChange(ip, connected) =>
      if ip in r.players {
        DepartureKeeps(r, ip, Shut(r.sessions[r.players[ip]]));
      }
    case ClientArrives(memory, started) =>
      ArrivalKeeps(r, memory, started);
      AcquireEffect(r.pool, r.sessions.Keys, memory);
    case Authenticates(_, _, _) => ClientStepKeeps(r, e);
    case ClientLeaves(_) => ClientStepKeeps(r, e);
    case ServerStops =>
  }

  // ---------------------------------------------------------------- runs

  ghost predicate IsRun(r: RelayState, es: seq<Event>)
    requires Inv(r)
    decreases |es|
  {
    es == [] ||
    (Enabled(r, es[0]) && Proper(r, es[0]) &&
     (StepKeeps(r, es[0]); IsRun(Step(r, es[0]), es[1..])))
  }

  ghost function After(r: RelayState, es: seq<Event>): (s: RelayState)
    requires Inv(r) && IsRun(r, es)
    ensures Inv(s) && |s.pool.slots| == |r.pool.slots|
    decreases |es|
  {
    if es == [] then r else
    StepKeeps(r, es[0]);
    After(Step(r, es[0]), es[1..])
  }

  lemma InitialInv(capacity: nat)
    ensures Inv(Initial(capacity))
  {
  }

  /**
   Authenticating twice strands an address: when the session leaves, its first
   address still leads to it although it is free for the next client.
   */
  lemma DoubleRegistrationStrands(r: RelayState, who: Ptr, ip: Ip, i: nat)
    requires Inv(r) && who in r.sessions && r.sessions[who].live && i < |r.tokens|
    requires ip in r.players && r.players[ip] == who && GrantedIp(r.tokens, i) != ip
    ensures var twice := Register(r, who, i);
            Steppable(twice) && Enabled(twice, ClientLeaves(who)) &&
            var left := Step(twice, ClientLeaves(who));
            ip in left.players && left.players[ip] == who && !InUse(left.pool, who)
  {
    InvSteppable(r);
    ReleaseEffect(r.pool, r.sessions.Keys, who);
  }

  // ---------------------------------------------------------------- tokens are conserved

  function Dropped(tokens: seq<Token>, ip: Ip): seq<Token> {
    if tokens == [] then [] else
    (if tokens[0].virtualIp == ip then [tokens[0]] else []) + Dropped(tokens[1..], ip)
  }

  lemma {:induction false} KeptOrDropped(tokens: seq<Token>, ip: Ip)
    ensures multiset(tokens) == multiset(Keep(tokens, ip)) + multiset(Dropped(tokens, ip))
    ensures forall t <- Keep(tokens, ip) :: t in tokens && t.virtualIp != ip
    ensures forall t <- Dropped(tokens, ip) :: t.virtualIp == ip
  {
    if tokens != [] {
      KeptOrDropped(tokens[1..], ip);
      assert tokens == [tokens[0]] + tokens[1..];
    }
  }

  function Received(e: Event): multiset<Token> {
    if e.TokenArrives? then multiset{e.token} else multiset{}
  }

  function Consumed(r: RelayState, e: Event): multiset<Token> {
    if e.Authenticates? && Match(r, e.peer, e.secret).Some?
    then multiset{r.tokens[Match(r, e.peer, e.secret).value]} else multiset{}
  }

  function Revoked(r: RelayState, e: Event): multiset<Token> {
    if e.StateChange? && !e.connected then multiset(Dropped(r.tokens, e.ip)) else multiset{}
  }

  lemma StepConserves(r: RelayState, e: Event)
    requires Enabled(r, e) && Steppable(r)
    ensures multiset(r.tokens) + Received(e) == multiset(Step(r, e).tokens) + Consumed(r, e) + Revoked(r, e)
  {
    match e
    case TokenArrives(token) => assert multiset(r.tokens + [token]) == multiset(r.tokens) + multiset{token};
    case StateChange(ip, connected) => RevocationConserves(r, e);
    case Authenticates(who, peer, secret) => RegistrationConserves(r, e);
    case _ => assert Step(r, e).tokens == r.tokens;
  }

  lemma RevocationConserves(r: RelayState, e: Event)
    requires Enabled(r, e) && Steppable(r) && e.StateChange?
    ensures multiset(r.tokens) == multiset(Step(r, e).tokens) + Revoked(r, e)
  {
    KeptOrDropped(r.tokens, e.ip);
  }

  lemma RegistrationConserves(r: RelayState, e: Event)
    requires Enabled(r, e) && Steppable(r) && e.Authenticates?
    ensures multiset(r.tokens) == multiset(Step(r, e).tokens) + Consumed(r, e)
  {
    var i := Match(r, e.peer, e.secret);
    if i.Some? { WithoutOne(r.tokens, i.value); }
  }

  lemma WithoutOne<T>(s: seq<T>, i: nat)
    requires i < |s|
    ensures multiset(s) == multiset(Without(s, i)) + multiset{s[i]}
    ensures forall j | 0 <= j < |Without(s, i)| :: Without(s, i)[j] in s
  {
    assert s == s[..i] + [s[i]] + s[i + 1..];
  }

  /** What arrived, was used up, and was revoked along a run. */
  ghost function Books(r: RelayState, es: seq<Event>): (b: (multiset<Token>, multiset<Token>, multiset<Token>))
    requires Inv(r) && IsRun(r, es)
    decreases |es|
  {
    if es == [] then (multiset{}, multiset{}, multiset{}) else
    StepKeeps(r, es[0]);
    var rest := Books(Step(r, es[0]), es[1..]);
    (Received(es[0]) + rest.0, Consumed(r, es[0]) + rest.1, Revoked(r, es[0]) + rest.2)
  }

  /** Over every run, tokens received are those still waiting, used up, or revoked: none is lost or used twice. */
  lemma {:induction false} TokensConserved(r: RelayState, es: seq<Event>)
    requires Inv(r) && IsRun(r, es)
    ensures multiset(r.tokens) + Books(r, es).0 == multiset(After(r, es).tokens) + Books(r, es).1 + Books(r, es).2
    decreases |es|
  {
    if es != [] {
      StepKeeps(r, es[0]);
      StepConserves(r, es[0]);
      var next := Step(r, es[0]);
      TokensConserved(next, es[1..]);
      AddUp(multiset(r.tokens), multiset(next.tokens), multiset(After(r, es).tokens),
            (Received(es[0]), Consumed(r, es[0]), Revoked(r, es[0])), Books(next, es[1..]));
    }
  }

  lemma AddUp(a: multiset<Token>, b: multiset<Token>, c: multiset<Token>,
              x: (multiset<Token>, multiset<Token>, multiset<Token>), y: (multiset<Token>, multiset<Token>, multiset<Token>))
    requires a + x.0 == b + x.1 + x.2 && b + y.0 == c + y.1 + y.2
    ensures a + (x.0 + y.0) == c + (x.1 + y.1) + (x.2 + y.2)
  {
    calc {
      a + (x.0 + y.0);
      (a + x.0) + y.0;
      (b + y.0) + (x.1 + x.2);
      c + (x.1 + y.1) + (x.2 + y.2);
    }
  }

  // ---------------------------------------------------------------- revocation

  /** Apart from a token that arrives, a step only takes waiting tokens away. */
  lemma TokensShrink(r: RelayState, e: Event)
    requires Enabled(r, e) && Steppable(r)
    ensures forall i | 0 <= i < |Step(r, e).tokens| ::
              Step(r, e).tokens[i] in r.tokens || (e.TokenArrives? && Step(r, e).tokens[i] == e.token)
  {
    match e
    case StateChange(ip, connected) => KeptOrDropped(r.tokens, ip);
    case Authenticates(who, peer, secret) =>
      if Match(r, peer, secret).Some? { WithoutOne(r.tokens, Match(r, peer, secret).value); }
    case _ =>
  }

  /** Nobody is registered at `ip` and no waiting token could put anybody there. */
  predicate Barred(r: RelayState, ip: Ip) {
    ip !in r.players && forall i | 0 <= i < |r.tokens| :: r.tokens[i].virtualIp != ip
  }

  lemma StepStaysBarred(r: RelayState, e: Event, ip: Ip)
    requires Enabled(r, e) && Steppable(r) && Barred(r, ip)
    requires e.TokenArrives? ==> e.token.virtualIp != ip
    ensures Barred(Step(r, e), ip)
  {
    TokensShrink(r, e);
  }

  lemma {:induction false} StaysBarred(r: RelayState, es: seq<Event>, ip: Ip)
    requires Inv(r) && IsRun(r, es) && Barred(r, ip)
    requires forall i | 0 <= i < |es| && es[i].TokenArrives? :: es[i].token.virtualIp != ip
    ensures Barred(After(r, es), ip)
    decreases |es|
  {
    if es != [] {
      StepKeeps(r, es[0]);
      StepStaysBarred(r, es[0], ip);
      StaysBarred(Step(r, es[0]), es[1..], ip);
    }
  }

  /**
   After the master reports an address gone, whatever happens, nobody is
   registered there until a later token for that address arrives.
   */
  lemma RevocationHolds(r: RelayState, es: seq<Event>, ip: Ip)
    requires Inv(r) && es != [] && es[0] == StateChange(ip, false) && IsRun(r, es)
    requires forall i | 1 <= i < |es| && es[i].TokenArrives? :: es[i].token.virtualIp != ip
    ensures ip !in After(r, es).players
  {
    StepKeeps(r, es[0]);
    KeptOrDropped(r.tokens, ip);
    var kept := Keep(r.tokens, ip);
    assert forall i | 0 <= i < |kept| :: kept[i].virtualIp != ip;
    StaysBarred(Step(r, es[0]), es[1..], ip);
  }
}
