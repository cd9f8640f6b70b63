/** Agreement of the relay and its players on the broadcast address. */
module RelayBroadcast {
  import opened Common
  import opened Subnet
  import opened Relay
  import opened RelayRuns

  /** Every player computes the relay's broadcast address from its own. */
  predicate Agreed(r: RelayState) {
    forall ip <- r.players :: Broadcast(ip, FIXED_MASK) == r.broadcast
  }

  /** A registration keeps the agreement exactly when the new address is in the subnet of every player. */
  lemma AgreementExact(r: RelayState, who: Ptr, i: nat)
    requires Agreed(r) && who in r.sessions && i < |r.tokens|
    ensures Agreed(Register(r, who, i)) <==>
            forall ip <- r.players :: SameSubnet(ip, GrantedIp(r.tokens, i), FIXED_MASK)
  {
    var after, granted := Register(r, who, i), GrantedIp(r.tokens, i);
    assert granted in after.players;
    forall ip <- r.players
      ensures SameSubnet(ip, granted, FIXED_MASK) <==> Broadcast(granted, FIXED_MASK) == r.broadcast
    {
      BroadcastIdentifiesSubnet(ip, granted, FIXED_MASK);
    }
    FixedMask(granted);
    if ip :| ip in r.players {
      assert Agreed(after) <==> Broadcast(granted, FIXED_MASK) == r.broadcast;
    }
  }

  /** All addresses, registered or waiting to be, have the same upper sixteen bits. */
  ghost predicate OnNetwork(r: RelayState, net: int) {
    && (forall i | 0 <= i < |r.tokens| :: r.tokens[i].virtualIp / 65536 == net)
    && (forall ip <- r.players :: ip / 65536 == net)
    && (r.players != map[] ==> r.broadcast == net * 65536 + 65535)
  }

  lemma StepOnNetwork(r: RelayState, e: Event, net: int)
    requires Enabled(r, e) && Steppable(r) && OnNetwork(r, net)
    requires e.TokenArrives? ==> e.token.virtualIp / 65536 == net
    ensures OnNetwork(Step(r, e), net)
  {
    TokensShrink(r, e);
  }

  /** If all issued addresses share a /16, then in every reachable state the players and the relay agree on broadcast. */
  lemma {:induction false} BroadcastAgreement(r: RelayState, es: seq<Event>, net: int)
    requires Inv(r) && IsRun(r, es) && OnNetwork(r, net)
    requires forall i | 0 <= i < |es| && es[i].TokenArrives? :: es[i].token.virtualIp / 65536 == net
    ensures OnNetwork(After(r, es), net) && Agreed(After(r, es))
    decreases |es|
  {
    if es == [] {
      forall ip <- r.players ensures Broadcast(ip, FIXED_MASK) == r.broadcast {
        assert r.players != map[];
        FixedMask(ip);
      }
    } else {
      StepKeeps(r, es[0]);
      StepOnNetwork(r, es[0], net);
      BroadcastAgreement(Step(r, es[0]), es[1..], net);
    }
  }
}
