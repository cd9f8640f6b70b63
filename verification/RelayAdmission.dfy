/** Who is let in: the secret and the address a client must present, for one step and over whole runs. */
module RelayAdmission {
  import opened Common
  import opened FreeList
  import Subnet
  import opened Relay
  import opened RelayRuns

  /**
   An authentication succeeds if and only if some waiting token has its secret
   and either no physical address or the peer's own. It then uses up the first
   such token and registers the session; otherwise nobody is registered, no
   token is used, and the session is shut.
   */
  lemma AdmissionExact(r: RelayState, who: Ptr, peer: Peer, secret: seq<byte>)
    requires Steppable(r) && Enabled(r, Authenticates(who, Some(peer), secret))
    ensures var s := Step(r, Authenticates(who, Some(peer), secret));
            && (s.players != r.players || s.tokens != r.tokens <==>
                  exists i: nat :: i < |r.tokens| && r.tokens[i].secret == secret
                    && ((forall k | 0 <= k < 16 :: r.tokens[i].physicalIp[k] == 0)
                        || (r.tokens[i].family == peer.family && r.tokens[i].physicalIp == peer.address)))
            && (s.tokens == r.tokens ==> s.sessions[who].masterClosed && !s.sessions[who].live)
    ensures Step(r, Authenticates(who, Some(peer), secret)).tokens != r.tokens ==> UsesFirst(r, who, peer, secret)
  {
    var i := FirstFit(r.tokens, peer, secret);
    assert Match(r, Some(peer), secret) == if i < |r.tokens| then Some(i) else None;
    if i < |r.tokens| {
      assert |Without(r.tokens, i)| == |r.tokens| - 1;
      FirstUsed(r, who, peer, secret, i);
    }
  }

  lemma FirstUsed(r: RelayState, who: Ptr, peer: Peer, secret: seq<byte>, i: nat)
    requires Steppable(r) && Enabled(r, Authenticates(who, Some(peer), secret))
    requires i == FirstFit(r.tokens, peer, secret) < |r.tokens|
    ensures UsesAt(r, who, peer, secret, i)
  {
    Subnet.FixedMask(GrantedIp(r.tokens, i));
  }

  /** Token i has the secret, and no physical address or the peer's. */
  predicate Opens(t: Token, peer: Peer, secret: seq<byte>) {
    t.secret == secret && (t.physicalIp == seq(16, _ => 0) || (t.physicalIp == peer.address && t.family == peer.family))
  }

  /** Token i opens for this client, none before it does, it is gone, and the session is
      registered under the address read in its place; the first player's subnet gives the broadcast address. */
  ghost predicate UsesAt(r: RelayState, who: Ptr, peer: Peer, secret: seq<byte>, i: nat)
    requires Steppable(r) && Enabled(r, Authenticates(who, Some(peer), secret))
  {
    var s := Step(r, Authenticates(who, Some(peer), secret));
    && i < |r.tokens| && Opens(r.tokens[i], peer, secret) && (forall j | 0 <= j < i :: !Opens(r.tokens[j], peer, secret))
    && s.tokens == r.tokens[..i] + r.tokens[i + 1..]
    && s.sessions[who].virtualIp == r.tokens[if i + 1 < |r.tokens| then i + 1 else i].virtualIp
    && s.sessions[who].virtualIp in s.players && s.players == r.players[s.sessions[who].virtualIp := who]
    && s.sessions[who].live == r.sessions[who].live
    && s.broadcast == if r.players == map[] then Subnet.Broadcast(s.sessions[who].virtualIp, 0xFFFF_0000) else r.broadcast
  }

  ghost predicate UsesFirst(r: RelayState, who: Ptr, peer: Peer, secret: seq<byte>)
    requires Steppable(r) && Enabled(r, Authenticates(who, Some(peer), secret))
  {
    exists i :: UsesAt(r, who, peer, secret, i)
  }

  /** A client whose address cannot be told is let in nowhere. */
  lemma UnknownPeer(r: RelayState, who: Ptr, secret: seq<byte>)
    requires Steppable(r) && Enabled(r, Authenticates(who, None, secret))
    ensures var s := Step(r, Authenticates(who, None, secret));
            s.players == r.players && s.tokens == r.tokens && s.sessions[who].masterClosed && !s.sessions[who].live
  {
  }

  // ---------------------------------------------------------------- runs

  /** Event k is session p presenting the secret of token t, as a peer that the token allows. */
  ghost predicate PresentsAt(es: seq<Event>, k: nat, p: Ptr, t: Token) {
    && k < |es| && es[k].Authenticates? && es[k].who == p && es[k].peer.Some?
    && Opens(t, es[k].peer.value, es[k].secret)
  }

  /** Token t was waiting at first, or arrived before event k. */
  ghost predicate KnownBy(r: RelayState, es: seq<Event>, k: nat, t: Token) {
    t in r.tokens || exists i: nat :: i < k && i < |es| && es[i] == TokenArrives(t)
  }

  ghost predicate LetIn(r: RelayState, es: seq<Event>, p: Ptr) {
    exists k: nat, t: Token :: PresentsAt(es, k, p, t) && KnownBy(r, es, k, t)
  }

  lemma LetInLater(r: RelayState, es: seq<Event>, p: Ptr)
    requires es != [] && Enabled(r, es[0]) && Steppable(r) && LetIn(Step(r, es[0]), es[1..], p)
    ensures LetIn(r, es, p)
  {
    var next, rest := Step(r, es[0]), es[1..];
    var k: nat, t: Token :| PresentsAt(rest, k, p, t) && KnownBy(next, rest, k, t);
    assert es[k + 1] == rest[k];
    TokensShrink(r, es[0]);
    if t in next.tokens {
      assert t in r.tokens || es[0] == TokenArrives(t);
    } else {
      var i: nat :| i < k && i < |rest| && rest[i] == TokenArrives(t);
      assert es[i + 1] == TokenArrives(t);
    }
    assert KnownBy(r, es, k + 1, t);
    assert PresentsAt(es, k + 1, p, t);
  }

  /** A step that puts somebody under an address is that session presenting a waiting token. */
  lemma StepLetsIn(r: RelayState, es: seq<Event>, ip: Ip)
    requires es != [] && Enabled(r, es[0]) && Steppable(r)
    requires ip in Step(r, es[0]).players && !(ip in r.players && r.players[ip] == Step(r, es[0]).players[ip])
    ensures LetIn(r, es, Step(r, es[0]).players[ip])
  {
    var e := es[0];
    var i := Match(r, e.peer, e.secret).value;
    assert Opens(r.tokens[i], e.peer.value, e.secret);
    assert PresentsAt(es, 0, e.who, r.tokens[i]) && KnownBy(r, es, 0, r.tokens[i]);
  }

  /**
   Over every run: whoever is registered was registered at the start, or has
   presented, from an address it allows, the secret of a token that was waiting
   at the start or had arrived.
   */
  lemma {:induction false} OnlyInvited(r: RelayState, es: seq<Event>, ip: Ip)
    requires Inv(r) && IsRun(r, es) && ip in After(r, es).players
    ensures (ip in r.players && r.players[ip] == After(r, es).players[ip]) || LetIn(r, es, After(r, es).players[ip])
    decreases |es|
  {
    if es != [] {
      StepKeeps(r, es[0]);
      var next := Step(r, es[0]);
      OnlyInvited(next, es[1..], ip);
      if ip in next.players && next.players[ip] == After(r, es).players[ip] {
        if !(ip in r.players && r.players[ip] == next.players[ip]) { StepLetsIn(r, es, ip); }
      } else {
        LetInLater(r, es, After(r, es).players[ip]);
      }
    }
  }
}
