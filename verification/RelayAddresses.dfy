/** Which address a client is given, and when it is the one its token was issued for. */
module RelayAddresses {
  import opened Common
  import opened FreeList
  import opened Relay
  import opened RelayRuns

  /** What is read in place of token `i` after its erasure carries the same address. */
  predicate NextAgrees(tokens: seq<Token>, i: nat)
    requires i < |tokens|
  {
    i + 1 == |tokens| || tokens[i + 1].virtualIp == tokens[i].virtualIp
  }

  /**
   A client is given the address of the token it presented if and only if that
   token is the last one waiting or the next one is for the same address.
   */
  lemma AddressExact(r: RelayState, who: Ptr, peer: Option<Peer>, secret: seq<byte>)
    requires Inv(r) && Steppable(r) && Enabled(r, Authenticates(who, peer, secret)) && Match(r, peer, secret).Some?
    ensures var i, after := Match(r, peer, secret).value, Step(r, Authenticates(who, peer, secret));
            && Fits(r.tokens[i], peer.value, secret)
            && (after.sessions[who].virtualIp == r.tokens[i].virtualIp <==> NextAgrees(r.tokens, i))
  {
  }

  // ---------------------------------------------------------------- runs

  /** The token each session has presented since it was acquired. */
  ghost function Presented(r: RelayState, ledger: map<Ptr, Token>, e: Event): map<Ptr, Token>
    requires Steppable(r)
  {
    match e
    case Authenticates(who, peer, secret) =>
      var i := Match(r, peer, secret);
      if i.Some? then ledger[who := r.tokens[i.value]] else ledger
    case ClientArrives(memory, _) =>
      var got := Acquire(r.pool, memory).1;
      if got.Some? then ledger - {got.value} else ledger
    case _ => ledger
  }

  /** Every registered session is registered under the address of the token it presented. */
  ghost predicate Honoured(r: RelayState, ledger: map<Ptr, Token>) {
    forall ip <- r.players :: r.players[ip] in ledger && ledger[r.players[ip]].virtualIp == ip
  }

  /** An authentication that reads the right address. */
  predicate InOrder(r: RelayState, e: Event) {
    e.Authenticates? && Match(r, e.peer, e.secret).Some? ==> NextAgrees(r.tokens, Match(r, e.peer, e.secret).value)
  }

  lemma HonouredExact(r: RelayState, ledger: map<Ptr, Token>, e: Event)
    requires Inv(r) && Enabled(r, e) && Proper(r, e) && Steppable(r) && Honoured(r, ledger)
    ensures Honoured(Step(r, e), Presented(r, ledger, e)) <==> InOrder(r, e)
  {
    match e
    case Authenticates(who, peer, secret) =>
      if Match(r, peer, secret).Some? { RegistrationHonoured(r, ledger, who, Match(r, peer, secret).value); }
    case ClientArrives(memory, started) =>
      ArrivalKeeps(r, memory, started);
      assert Step(r, e).players == r.players;
    case StateChange(ip, connected) => assert forall a <- Step(r, e).players :: a in r.players && Step(r, e).players[a] == r.players[a];
    case ClientLeaves(who) => assert forall a <- Step(r, e).players :: a in r.players && Step(r, e).players[a] == r.players[a];
    case _ =>
  }

  lemma RegistrationHonoured(r: RelayState, ledger: map<Ptr, Token>, who: Ptr, i: nat)
    requires Honoured(r, ledger) && who in r.sessions && i < |r.tokens|
    requires forall ip <- r.players | r.players[ip] == who :: ip == GrantedIp(r.tokens, i)
    ensures Honoured(Register(r, who, i), ledger[who := r.tokens[i]]) <==> NextAgrees(r.tokens, i)
  {
    assert Register(r, who, i).players[GrantedIp(r.tokens, i)] == who;
  }

  ghost predicate AlwaysHonoured(r: RelayState, ledger: map<Ptr, Token>, es: seq<Event>)
    requires Inv(r) && IsRun(r, es)
    decreases |es|
  {
    && Honoured(r, ledger)
    && (es != [] ==> (StepKeeps(r, es[0]); AlwaysHonoured(Step(r, es[0]), Presented(r, ledger, es[0]), es[1..])))
  }

  ghost predicate AlwaysInOrder(r: RelayState, es: seq<Event>)
    requires Inv(r) && IsRun(r, es)
    decreases |es|
  {
    es == [] || (InOrder(r, es[0]) && (StepKeeps(r, es[0]); AlwaysInOrder(Step(r, es[0]), es[1..])))
  }

  /**
   In every state of a run each session is registered under the address of the
   token it presented, if and only if each authentication of the run finds its
   token last or followed by one for the same address.
   */
  lemma {:induction false} AddressesExact(r: RelayState, ledger: map<Ptr, Token>, es: seq<Event>)
    requires Inv(r) && IsRun(r, es) && Honoured(r, ledger)
    ensures AlwaysHonoured(r, ledger, es) <==> AlwaysInOrder(r, es)
    decreases |es|
  {
    if es != [] {
      StepKeeps(r, es[0]);
      HonouredExact(r, ledger, es[0]);
      if InOrder(r, es[0]) { AddressesExact(Step(r, es[0]), Presented(r, ledger, es[0]), es[1..]); }
    }
  }

  // ---------------------------------------------------------------- a run in which it fails

  lemma RunOfOne(r: RelayState, e: Event)
    requires Inv(r) && Enabled(r, e) && Proper(r, e)
    ensures Steppable(r) && IsRun(r, [e]) && After(r, [e]) == Step(r, e)
  {
    StepKeeps(r, e);
    var rest: seq<Event> := [e][1..];
    assert rest == [] && IsRun(Step(r, e), rest) && After(Step(r, e), rest) == Step(r, e);
  }

  lemma {:induction false} RunAppend(r: RelayState, a: seq<Event>, b: seq<Event>)
    requires Inv(r) && IsRun(r, a) && IsRun(After(r, a), b)
    ensures IsRun(r, a + b) && After(r, a + b) == After(After(r, a), b)
    decreases |a|
  {
    if a == [] {
      assert a + b == b;
    } else {
      StepKeeps(r, a[0]);
      assert (a + b)[1..] == a[1..] + b;
      RunAppend(Step(r, a[0]), a[1..], b);
    }
  }

  /** Two possible steps make a run. */
  lemma RunOfTwo(r: RelayState, e: Event, f: Event)
    requires Inv(r) && Enabled(r, e) && Proper(r, e)
    ensures Steppable(r) && Inv(Step(r, e)) && Steppable(Step(r, e))
    ensures Enabled(Step(r, e), f) && Proper(Step(r, e), f) ==>
              IsRun(r, [e, f]) && After(r, [e, f]) == Step(Step(r, e), f)
  {
    RunOfOne(r, e);
    StepKeeps(r, e);
    var mid := Step(r, e);
    InvSteppable(mid);
    if Enabled(mid, f) && Proper(mid, f) {
      RunOfOne(mid, f);
      RunAppend(r, [e], [f]);
      assert [e] + [f] == [e, f];
    }
  }

  /** The server has started, with the two tokens waiting and no client yet. */
  function Opened(capacity: nat, s: Token, t: Token): RelayState {
    Initial(capacity).(listening := true, tokens := [s, t])
  }

  lemma OpenedReached(capacity: nat, s: Token, t: Token)
    ensures Inv(Initial(capacity)) && Steppable(Initial(capacity))
    ensures var r := Step(Initial(capacity), ServerStarts);
            && Inv(r) && IsRun(r, [TokenArrives(s), TokenArrives(t)])
            && After(r, [TokenArrives(s), TokenArrives(t)]) == Opened(capacity, s, t)
  {
    InitialInv(capacity);
    StepKeeps(Initial(capacity), ServerStarts);
    RunOfTwo(Step(Initial(capacity), ServerStarts), TokenArrives(s), TokenArrives(t));
    assert ([] + [s]) + [t] == [s, t];
  }

  const Clients := [ClientArrives(Some(0), true), ClientArrives(Some(1), true)]

  lemma ClientsArrive(capacity: nat, s: Token, t: Token)
    requires capacity >= 2
    ensures var r := Opened(capacity, s, t);
            Inv(r) && IsRun(r, Clients) && Awaiting(After(r, Clients), s, t)
  {
    var r := Opened(capacity, s, t);
    OpenedReached(capacity, s, t);
    RunOfTwo(r, Clients[0], Clients[1]);
    var mid := Step(r, Clients[0]);
    assert mid.pool.slots[1].item.None? && mid.pool.head == Some(1);
  }

  /** Two clients are connected and not registered. */
  predicate Awaiting(r: RelayState, s: Token, t: Token) {
    && r.tokens == [s, t] && r.players == map[]
    && 0 in r.sessions && 1 in r.sessions && r.sessions[0].live && r.sessions[1].live
  }

  /** Both clients then authenticate, in the order of their tokens. */
  function Closing(s: Token, t: Token, peer: Peer): seq<Event> {
    [Authenticates(0, Some(peer), s.secret), Authenticates(1, Some(peer), t.secret)]
  }

  /** A client that presents the only or the first of two tokens is registered under the last one's address. */
  lemma Joins(r: RelayState, who: Ptr, t: Token, peer: Peer, secret: seq<byte>)
    requires Inv(r) && who in r.sessions && r.sessions[who].live && who !in r.players.Values
    requires r.tokens != [] && Fits(r.tokens[0], peer, secret) && (r.tokens == [t] || r.tokens == [r.tokens[0], t])
    ensures var e := Authenticates(who, Some(peer), secret);
            && Enabled(r, e) && Proper(r, e) && Steppable(r) && Match(r, Some(peer), secret) == Some(0)
            && Step(r, e).tokens == r.tokens[1..] && Step(r, e).players == r.players[t.virtualIp := who]
            && Step(r, e).sessions == r.sessions[who := r.sessions[who].(virtualIp := t.virtualIp)]
  {
    InvSteppable(r);
    assert Match(r, Some(peer), secret) == Some(0) && GrantedIp(r.tokens, 0) == t.virtualIp;
    assert Without(r.tokens, 0) == r.tokens[1..];
  }

  lemma Replaced(players: map<Ip, Ptr>, ip: Ip, p: Ptr, q: Ptr)
    requires players == map[]
    ensures players[ip := p][ip := q] == map[ip := q]
  {
  }

  lemma AfterClosing(r: RelayState, s: Token, t: Token, peer: Peer)
    requires s.virtualIp != t.virtualIp && s.secret != t.secret
    requires Fits(s, peer, s.secret) && Fits(t, peer, t.secret) && Inv(r) && Awaiting(r, s, t)
    ensures IsRun(r, Closing(s, t, peer)) && BothSecond(After(r, Closing(s, t, peer)), t.virtualIp)
  {
    var first, second := Authenticates(0, Some(peer), s.secret), Authenticates(1, Some(peer), t.secret);
    Joins(r, 0, t, peer, s.secret);
    RunOfTwo(r, first, second);
    var mid := Step(r, first);
    assert mid.tokens == [t] && 1 !in mid.players.Values;
    Joins(mid, 1, t, peer, t.secret);
    Replaced(r.players, t.virtualIp, 0, 1);
  }

  /** Sessions 0 and 1 both carry the address, and it leads to session 1; nothing else is registered or waiting. */
  predicate BothSecond(r: RelayState, ip: Ip) {
    && r.players == map[ip := 1] && r.tokens == []
    && 0 in r.sessions && 1 in r.sessions && r.sessions[0].virtualIp == r.sessions[1].virtualIp == ip
  }

  /** The tokens arrive, the clients connect, and each presents its own token. */
  function WholeRun(s: Token, t: Token, peer: Peer): seq<Event> {
    [TokenArrives(s), TokenArrives(t)] + (Clients + Closing(s, t, peer))
  }

  /**
   Two clients that present their own tokens, in the order in which the tokens
   came, both end up with the address of the second token; the first client is
   displaced and the first address is nobody's.
   */
  lemma WrongTokensAddress(capacity: nat, s: Token, t: Token, peer: Peer)
    requires capacity >= 2 && s.virtualIp != t.virtualIp && s.secret != t.secret
    requires Fits(s, peer, s.secret) && Fits(t, peer, t.secret)
    ensures Steppable(Initial(capacity))
    ensures var started := Step(Initial(capacity), ServerStarts);
            && Inv(started) && IsRun(started, WholeRun(s, t, peer))
            && BothSecond(After(started, WholeRun(s, t, peer)), t.virtualIp)
  {
    OpenedReached(capacity, s, t);
    ClientsArrive(capacity, s, t);
    AfterClosing(After(Opened(capacity, s, t), Clients), s, t, peer);
    RunAppend(Opened(capacity, s, t), Clients, Closing(s, t, peer));
    RunAppend(Step(Initial(capacity), ServerStarts), [TokenArrives(s), TokenArrives(t)], Clients + Closing(s, t, peer));
  }
}
