/**
 The peer-to-peer relay as a state machine: waiting tokens, registered players,
 and the pool of session objects. Each handler of the program is one step.
 */
module Relay {
  import opened Common
  import opened FreeList

  /** A session object in memory. */
  type Ptr = nat

  /** `live` says that the session's receive thread has not ended. */
  datatype Session = Session(virtualIp: Ip, masterClosed: bool, running: bool, live: bool)

  const FreshSession := Session(0, false, false, false)

  /** Secrets and physical addresses. */
  type Bytes16 = s: seq<byte> | |s| == 16 witness [0, 0, 0, 0, 0, 0, 0, 0, 0, 0, 0, 0, 0, 0, 0, 0]

  datatype Token = Token(virtualIp: Ip, secret: Bytes16, physicalIp: Bytes16, family: int)

  datatype Peer = Peer(address: Bytes16, family: int)

  datatype RelayState = RelayState(
    tokens: seq<Token>,
    players: map<Ip, Ptr>,
    broadcast: Ip,
    pool: Pool<Option<Ptr>>,
    sessions: map<Ptr, Session>,
    listening: bool)

  function Initial(capacity: nat): RelayState {
    RelayState([], map[], 0, Fresh(Nothing(capacity)), map[], false)
  }

  function Nothing(n: nat): seq<Option<Ptr>> {
    seq<Option<Ptr>>(n, _ => None)
  }

  // ---------------------------------------------------------------- the session pool

  /** The first slot that holds session `p`, or the number of slots. */
  function FindSlot(slots: seq<Slot<Option<Ptr>>>, p: Ptr): (i: nat)
    ensures i <= |slots| && (i < |slots| ==> slots[i].item == Some(p))
    ensures forall j | 0 <= j < i :: slots[j].item != Some(p)
  {
    if slots == [] || slots[0].item == Some(p) then 0 else 1 + FindSlot(slots[1..], p)
  }

  ghost predicate InUse(pool: Pool<Option<Ptr>>, p: Ptr) {
    exists i: nat :: i < |pool.slots| && pool.slots[i].item == Some(p) && pool.slots[i].inUse
  }

  /** Reuses the head slot's session, or builds one in `memory`; without memory the list is as before. */
  function Acquire(pool: Pool<Option<Ptr>>, memory: Option<Ptr>): (Pool<Option<Ptr>>, Option<Ptr>)
    requires pool.head.Some? ==> pool.head.value < |pool.slots|
  {
    if pool.head.None? then (pool, None) else
    var h := pool.head.value;
    var item := if pool.slots[h].item.Some? then pool.slots[h].item else memory;
    if item.None? then (pool, None) else
    var taken := Take(pool);
    (taken.(slots := taken.slots[h := taken.slots[h].(item := item)]), item)
  }

  /** A session of the pool goes back on the list once; any other pointer leaves the pool alone. */
  function Release(pool: Pool<Option<Ptr>>, p: Ptr): Pool<Option<Ptr>> {
    var i := FindSlot(pool.slots, p);
    if i < |pool.slots| then Give(pool, i) else pool
  }

  // ---------------------------------------------------------------- steps

  datatype Event =
    | ServerStarts
    | TokenArrives(token: Token)
    | StateChange(ip: Ip, connected: bool)
    | ClientArrives(memory: Option<Ptr>, started: bool)
    | Authenticates(who: Ptr, peer: Option<Peer>, secret: seq<byte>)
    | ClientLeaves(who: Ptr)
    | ServerStops

  /** Clients act only while their receive thread runs; the allocator hands out memory that is not in use. */
  predicate Enabled(r: RelayState, e: Event) {
    match e
    case ClientArrives(memory, _) => r.listening && (memory.Some? ==> memory.value !in r.sessions)
    case Authenticates(who, _, _) => who in r.sessions && r.sessions[who].live
    case ClientLeaves(who) => who in r.sessions && r.sessions[who].live
    case _ => true
  }

  /** A token without a physical address fits any peer. */
  predicate Fits(t: Token, peer: Peer, secret: seq<byte>) {
    && ((forall i | 0 <= i < |t.physicalIp| :: t.physicalIp[i] == 0)
        || (t.family == peer.family && t.physicalIp == peer.address))
    && t.secret == secret
  }

  /** The first waiting token that fits, or the number of tokens. */
  function FirstFit(tokens: seq<Token>, peer: Peer, secret: seq<byte>): (i: nat)
    ensures i <= |tokens| && (i < |tokens| ==> Fits(tokens[i], peer, secret))
    ensures forall j | 0 <= j < i :: !Fits(tokens[j], peer, secret)
  {
    if tokens == [] || Fits(tokens[0], peer, secret) then 0 else 1 + FirstFit(tokens[1..], peer, secret)
  }

  function Without<T>(s: seq<T>, i: nat): seq<T>
    requires i < |s|
  {
    s[..i] + s[i + 1..]
  }

  /**
   The address granted for token `i`. The program erases the token from its
   vector and only then reads the address through a reference to that place, so
   it sees the following token if there is one; for the last token the vacated
   storage still holds the erased one.
   */
  function GrantedIp(tokens: seq<Token>, i: nat): Ip
    requires i < |tokens|
  {
    if i + 1 < |tokens| then tokens[i + 1].virtualIp else tokens[i].virtualIp
  }

  function Keep(tokens: seq<Token>, ip: Ip): seq<Token> {
    if tokens == [] then [] else
    (if tokens[0].virtualIp == ip then [] else [tokens[0]]) + Keep(tokens[1..], ip)
  }

  /** `ip | ~mask` for the fixed mask 255.255.0.0, by Subnet.FixedMask. */
  function Broadcast16(ip: Ip): Ip {
    ip - ip % 65536 + 65535
  }

  function Shut(s: Session): Session {
    s.(masterClosed := true, running := false, live := false)
  }

  /** The token index an authentication succeeds with, if any. */
  function Match(r: RelayState, peer: Option<Peer>, secret: seq<byte>): Option<nat> {
    if peer.None? then None else
    var i := FirstFit(r.tokens, peer.value, secret);
    if i < |r.tokens| then Some(i) else None
  }

  function Register(r: RelayState, who: Ptr, i: nat): RelayState
    requires who in r.sessions && i < |r.tokens|
  {
    var ip := GrantedIp(r.tokens, i);
    r.(tokens := Without(r.tokens, i),
       sessions := r.sessions[who := r.sessions[who].(virtualIp := ip)],
       broadcast := if r.players == map[] then Broadcast16(ip) else r.broadcast,
       players := r.players[ip := who])
  }

  predicate Steppable(r: RelayState) {
    && (r.pool.head.Some? ==> r.pool.head.value < |r.pool.slots|)
    && forall ip <- r.players :: r.players[ip] in r.sessions
  }

  function Step(r: RelayState, e: Event): RelayState
    requires Enabled(r, e) && Steppable(r)
  {
    match e
    case ServerStarts => r.(listening := true)
    case TokenArrives(token) => r.(tokens := r.tokens + [token])
    case StateChange(ip, connected) =>
      if connected then r else
      var s := r.(tokens := Keep(r.tokens, ip));
      if ip !in r.players then s else
      var p := r.players[ip];
      s.(sessions := r.sessions[p := Shut(r.sessions[p])], pool := Release(r.pool, p), players := r.players - {ip})
    case ClientArrives(memory, started) =>
      var (pool, got) := Acquire(r.pool, memory);
      if got.None? then r.(pool := pool) else
      var p := got.value;
      if started
      then r.(pool := pool, sessions := r.sessions[p := FreshSession.(running := true, live := true)])
      else r.(pool := Release(pool, p), sessions := r.sessions[p := FreshSession])
    case Authenticates(who, peer, secret) =>
      var i := Match(r, peer, secret);
      if i.Some? then Register(r, who, i.value)
      else r.(sessions := r.sessions[who := Shut(r.sessions[who])])
    case ClientLeaves(who) =>
      var s := r.(sessions := r.sessions[who := r.sessions[who].(live := false)]);
      var ip := r.sessions[who].virtualIp;
      if r.sessions[who].masterClosed || ip !in r.players || r.players[ip] != who then s else
      s.(players := r.players - {ip}, pool := Release(r.pool, who))
    case ServerStops =>
      if !r.listening then r else
      r.(listening := false, players := map[], sessions := map[], pool := Fresh(Nothing(|r.pool.slots|)))
  }

  // ---------------------------------------------------------------- the invariant

  /** The pool holds each session object once, and knows every object it has lent; `known` are the live objects. */
  ghost predicate PoolSound(pool: Pool<Option<Ptr>>, known: set<Ptr>) {
    && WellFormed(pool)
    && (forall i, j | 0 <= i < j < |pool.slots| && pool.slots[i].item.Some? :: pool.slots[i].item != pool.slots[j].item)
    && (forall i | 0 <= i < |pool.slots| && pool.slots[i].item.Some? :: pool.slots[i].item.value in known)
    && (forall i | 0 <= i < |pool.slots| && pool.slots[i].inUse :: pool.slots[i].item.Some?)
  }

  /** The entry for `ip` is a session that carries that address and is in use. */
  ghost predicate EntrySound(r: RelayState, ip: Ip)
    requires ip in r.players
  {
    r.players[ip] in r.sessions && r.sessions[r.players[ip]].virtualIp == ip && InUse(r.pool, r.players[ip])
  }

  ghost predicate PlayersSound(r: RelayState) {
    forall ip <- r.players :: EntrySound(r, ip)
  }

  /** A session whose thread runs is in use and has not been closed by the master. */
  ghost predicate LiveSound(r: RelayState) {
    forall p <- r.sessions | r.sessions[p].live :: InUse(r.pool, p) && !r.sessions[p].masterClosed
  }

  ghost predicate Inv(r: RelayState) {
    PoolSound(r.pool, r.sessions.Keys) && PlayersSound(r) && LiveSound(r)
  }

  /** Two addresses never lead to the same session. */
  lemma PlayersInjective(r: RelayState, a: Ip, b: Ip)
    requires Inv(r) && a in r.players && b in r.players && r.players[a] == r.players[b]
    ensures a == b
  {
    assert EntrySound(r, a) && EntrySound(r, b);
  }

  /** A session may authenticate unless it is already registered under another address. */
  predicate Proper(r: RelayState, e: Event) {
    e.Authenticates? && Match(r, e.peer, e.secret).Some? ==>
      forall ip <- r.players | r.players[ip] == e.who :: ip == GrantedIp(r.tokens, Match(r, e.peer, e.secret).value)
  }

  lemma InvSteppable(r: RelayState)
    requires Inv(r)
    ensures Steppable(r)
  {
    HeadInRange(r.pool);
    forall ip <- r.players ensures r.players[ip] in r.sessions { assert EntrySound(r, ip); }
  }

  /** Releasing a session frees it and no other. */
  lemma ReleaseEffect(pool: Pool<Option<Ptr>>, known: set<Ptr>, p: Ptr)
    requires PoolSound(pool, known)
    ensures PoolSound(Release(pool, p), known) && |Release(pool, p).slots| == |pool.slots|
    ensures !InUse(Release(pool, p), p)
    ensures forall q: Ptr | q != p :: InUse(Release(pool, p), q) <==> InUse(pool, q)
  {
    var i := FindSlot(pool.slots, p);
    var after := Release(pool, p);
    if i < |pool.slots| {
      GiveWellFormed(pool, i);
    }
    assert forall j | 0 <= j < |after.slots| :: after.slots[j].item == pool.slots[j].item;
    forall q: Ptr | q != p ensures InUse(after, q) <==> InUse(pool, q) {
      assert forall j: nat | j < |after.slots| && j != i :: after.slots[j].inUse == pool.slots[j].inUse;
    }
  }

  /** An acquired session was in use by nobody; it is the head slot's own if that has one, else newly built. */
  lemma AcquireEffect(pool: Pool<Option<Ptr>>, known: set<Ptr>, memory: Option<Ptr>)
    requires PoolSound(pool, known) && (memory.Some? ==> memory.value !in known)
    ensures pool.head.Some? ==> pool.head.value < |pool.slots|
    ensures Acquire(pool, memory).1.None? ==> Acquire(pool, memory).0 == pool
    ensures pool.head.Some? ==> Acquire(pool, memory).1 == if pool.slots[pool.head.value].item.Some? then pool.slots[pool.head.value].item else memory
    ensures pool.head.None? ==> Acquire(pool, memory).1.None?
    ensures Acquire(pool, memory).1.Some? ==>
              Lends(pool, Acquire(pool, memory).0, known, Acquire(pool, memory).1.value)
  {
    HeadInRange(pool);
    if Acquire(pool, memory).1.Some? {
      TakeWellFormed(pool);
      var after, p := Acquire(pool, memory).0, Acquire(pool, memory).1.value;
      RelabelWellFormed(Take(pool), after);
      LendsAt(pool, after, known, p, pool.head.value);
    }
  }

  /** From `pool` to `after`, session `p` was lent; it was free before and nothing else changed hands. */
  ghost predicate Lends(pool: Pool<Option<Ptr>>, after: Pool<Option<Ptr>>, known: set<Ptr>, p: Ptr) {
    && !InUse(pool, p) && InUse(after, p)
    && (forall q: Ptr | q != p :: InUse(after, q) <==> InUse(pool, q))
    && PoolSound(after, known + {p}) && |after.slots| == |pool.slots|
  }

  lemma LendsAt(pool: Pool<Option<Ptr>>, after: Pool<Option<Ptr>>, known: set<Ptr>, p: Ptr, h: nat)
    requires PoolSound(pool, known) && h < |pool.slots| == |after.slots| && WellFormed(after)
    requires !pool.slots[h].inUse && after.slots[h].inUse && after.slots[h].item == Some(p)
    requires pool.slots[h].item == Some(p) || (pool.slots[h].item.None? && p !in known)
    requires forall j | 0 <= j < |pool.slots| && j != h :: after.slots[j] == pool.slots[j]
    ensures Lends(pool, after, known, p)
  {
    forall q: Ptr | q != p ensures InUse(after, q) <==> InUse(pool, q) {
      if InUse(pool, q) {
        var j: nat :| j < |pool.slots| && pool.slots[j].item == Some(q) && pool.slots[j].inUse;
        assert after.slots[j] == pool.slots[j];
      }
    }
  }

  /** The free list does not depend on what the slots hold. */
  lemma RelabelWellFormed<T>(p: Pool<T>, q: Pool<T>)
    requires WellFormed(p) && |p.slots| == |q.slots| && p.head == q.head
    requires forall i | 0 <= i < |p.slots| :: p.slots[i].inUse == q.slots[i].inUse && p.slots[i].next == q.slots[i].next
    ensures WellFormed(q)
  {
    var free :| Listed(p, free);
    assert forall k: nat | k < |free| :: Cell(p, free, k) ==> Cell(q, free, k);
    assert Listed(q, free);
  }
}
