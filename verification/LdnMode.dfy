/** The local-wireless state machine and its network client, whose disconnect calls back into it. */
module LdnMode {

  datatype CommState = Off | Initialized | AccessPoint | AccessPointCreated | Station | StationConnected | Error

  datatype Reason = NoReason | ByUser | BySystem | DestroyedByUser | DestroyedBySystem | Rejected | SignalLost

  datatype Status = Success | WrongState | NoMemory

  /** Service and client together; `trace` lists every state ever set, including those set within one call. */
  datatype Mode = Mode(
    state: CommState, reason: Reason, hasClient: bool,
    networkConnected: bool, clientReason: Reason, trace: seq<CommState>)

  const Start := Mode(Off, NoReason, false, false, NoReason, [Off])

  // ---------------------------------------------------------------- operations

  function Set(m: Mode, s: CommState): Mode {
    m.(state := s, trace := m.trace + [s])
  }

  /** The callback: a connection promotes an open mode, its loss demotes it and leaves a reason. */
  function OnNetworkChange(m: Mode, connected: bool, reason: Reason): Mode {
    if connected then
      var n := m.(reason := NoReason);
      if m.state.AccessPoint? then Set(n, AccessPointCreated)
      else if m.state.Station? then Set(n, StationConnected)
      else n
    else
      var effective :=
        if reason != NoReason then reason
        else if m.state.AccessPointCreated? then DestroyedBySystem
        else if m.state.StationConnected? then ByUser
        else BySystem;
      var n := m.(reason := effective);
      if m.state.AccessPointCreated? then Set(n, AccessPoint)
      else if m.state.StationConnected? then Set(n, Station)
      else n
  }

  function DisconnectInternal(m: Mode): Mode {
    if !m.networkConnected then m
    else OnNetworkChange(m.(networkConnected := false), false, m.clientReason)
  }

  function DisconnectNetwork(m: Mode): Mode {
    if !m.networkConnected then m else DisconnectInternal(m.(clientReason := ByUser))
  }

  datatype Event =
    | Initialize(memory: bool)
    | Finalize(socketOpen: bool)
    | OpenAccessPoint | CloseAccessPoint | DestroyNetwork
    | OpenStation | CloseStation | Disconnect
    | ServerConnected | ServerSync | ServerDisconnected | ServerRejects(why: Reason)

  /** Messages of the server need a client to receive them. */
  predicate Enabled(m: Mode, e: Event) {
    e.ServerConnected? || e.ServerSync? || e.ServerDisconnected? || e.ServerRejects? ==> m.hasClient
  }

  function Leave(m: Mode): Mode {
    if m.hasClient then DisconnectNetwork(m) else m
  }

  function Do(m: Mode, e: Event): (Mode, Status)
    requires Enabled(m, e)
  {
    match e
    case Initialize(memory) =>
      if !m.hasClient && !memory then (m, NoMemory)
      else if m.hasClient then (Set(m, Initialized), Success)
      else (Set(m.(hasClient := true, networkConnected := false, clientReason := NoReason), Initialized), Success)
    case Finalize(socketOpen) =>
      var n := if m.hasClient && socketOpen then DisconnectInternal(m) else m;
      (Set(n.(hasClient := false, networkConnected := false, clientReason := NoReason), Off), Success)
    case OpenAccessPoint => if m.state.Initialized? then (Set(m, AccessPoint), Success) else (m, WrongState)
    case CloseAccessPoint =>
      var n := if m.state.AccessPointCreated? then Leave(m) else m;
      if n.state.AccessPoint? || n.state.AccessPointCreated? then (Set(n, Initialized), Success) else (n, WrongState)
    case DestroyNetwork =>
      if m.state.AccessPointCreated? then (Set(Leave(m), AccessPoint), Success) else (m, WrongState)
    case OpenStation => if m.state.Initialized? then (Set(m, Station), Success) else (m, WrongState)
    case CloseStation =>
      var n := if m.state.StationConnected? then Leave(m) else m;
      if n.state.Station? || n.state.StationConnected? then (Set(n, Initialized), Success) else (n, WrongState)
    case Disconnect =>
      if m.state.StationConnected? then (Set(Leave(m), Station), Success) else (m, WrongState)
    case ServerConnected => (OnNetworkChange(m.(networkConnected := true, clientReason := NoReason), true, NoReason), Success)
    case ServerSync => (OnNetworkChange(m, true, NoReason), Success)
    case ServerDisconnected => (DisconnectInternal(m), Success)
    case ServerRejects(why) => (m.(clientReason := why), Success)
  }

  // ---------------------------------------------------------------- the modes never mix

  predicate Ap(s: CommState) {
    s.AccessPoint? || s.AccessPointCreated?
  }

  predicate Sta(s: CommState) {
    s.Station? || s.StationConnected?
  }

  predicate Neutral(s: CommState) {
    s.Off? || s.Initialized?
  }

  /** One state may directly follow another. */
  predicate Legal(a: CommState, b: CommState) {
    !(Ap(a) && Sta(b)) && !(Sta(a) && Ap(b)) && !b.Error?
  }

  ghost predicate Sound(m: Mode) {
    && m.trace != [] && m.trace[|m.trace| - 1] == m.state && !m.trace[0].Error?
    && (forall k | 0 <= k < |m.trace| - 1 :: Legal(m.trace[k], m.trace[k + 1]))
    && (!m.hasClient ==> m.state.Off?)
  }

  lemma SetKeeps(m: Mode, s: CommState)
    requires Sound(m) && Legal(m.state, s) && (!m.hasClient ==> s.Off?)
    ensures Sound(Set(m, s)) && m.trace <= Set(m, s).trace
  {
  }

  /** Nested or not, the callback keeps the mode. */
  lemma CallbackKeeps(m: Mode, connected: bool, reason: Reason)
    requires Sound(m) && m.hasClient
    ensures var n := OnNetworkChange(m, connected, reason);
            && Sound(n) && m.trace <= n.trace && n.hasClient
            && (Ap(n.state) <==> Ap(m.state)) && (Sta(n.state) <==> Sta(m.state))
  {
    var n := m.(reason := OnNetworkChange(m, connected, reason).reason);
    match m.state
    case AccessPoint => SetKeeps(n, AccessPointCreated);
    case Station => SetKeeps(n, StationConnected);
    case AccessPointCreated => SetKeeps(n, AccessPoint);
    case StationConnected => SetKeeps(n, Station);
    case _ =>
  }

  /** Leaving the network, with or without the nested callback, keeps the mode. */
  lemma LeaveKeeps(m: Mode)
    requires Sound(m)
    ensures Sound(Leave(m)) && m.trace <= Leave(m).trace && Leave(m).hasClient == m.hasClient
    ensures (Ap(Leave(m).state) <==> Ap(m.state)) && (Sta(Leave(m).state) <==> Sta(m.state))
  {
    if m.hasClient && m.networkConnected {
      CallbackKeeps(m.(clientReason := ByUser, networkConnected := false), false, ByUser);
    }
  }

  lemma DisconnectKeeps(m: Mode)
    requires Sound(m) && m.hasClient
    ensures Sound(DisconnectInternal(m)) && m.trace <= DisconnectInternal(m).trace
  {
    if m.networkConnected {
      CallbackKeeps(m.(networkConnected := false), false, m.clientReason);
    }
  }

  lemma UserCallKeeps(m: Mode, e: Event)
    requires Sound(m) && (e.OpenAccessPoint? || e.CloseAccessPoint? || e.DestroyNetwork? || e.OpenStation? || e.CloseStation? || e.Disconnect?)
    ensures Sound(Do(m, e).0) && m.trace <= Do(m, e).0.trace
  {
    LeaveKeeps(m);
    match e
    case OpenAccessPoint => if m.state.Initialized? { SetKeeps(m, AccessPoint); }
    case OpenStation => if m.state.Initialized? { SetKeeps(m, Station); }
    case CloseAccessPoint =>
      if Ap(m.state) { SetKeeps(if m.state.AccessPointCreated? then Leave(m) else m, Initialized); }
    case CloseStation =>
      if Sta(m.state) { SetKeeps(if m.state.StationConnected? then Leave(m) else m, Initialized); }
    case DestroyNetwork => if m.state.AccessPointCreated? { SetKeeps(Leave(m), AccessPoint); }
    case Disconnect => if m.state.StationConnected? { SetKeeps(Leave(m), Station); }
  }

  lemma DoKeeps(m: Mode, e: Event)
    requires Sound(m) && Enabled(m, e)
    ensures Sound(Do(m, e).0) && m.trace <= Do(m, e).0.trace
  {
    match e
    case Initialize(memory) =>
      var n := if m.hasClient then m else m.(hasClient := true, networkConnected := false, clientReason := NoReason);
      SetKeeps(n, Initialized);
    case Finalize(socketOpen) =>
      if m.hasClient { DisconnectKeeps(m); }
      SetKeeps(if m.hasClient && socketOpen then DisconnectInternal(m) else m, Off);
    case ServerConnected => CallbackKeeps(m.(networkConnected := true, clientReason := NoReason), true, NoReason);
    case ServerSync => CallbackKeeps(m, true, NoReason);
    case ServerDisconnected => DisconnectKeeps(m);
    case ServerRejects(why) =>
    case _ => UserCallKeeps(m, e);
  }

  ghost predicate IsRun(m: Mode, es: seq<Event>)
    decreases |es|
  {
    es == [] || (Enabled(m, es[0]) && IsRun(Do(m, es[0]).0, es[1..]))
  }

  ghost function After(m: Mode, es: seq<Event>): Mode
    requires IsRun(m, es)
    decreases |es|
  {
    if es == [] then m else After(Do(m, es[0]).0, es[1..])
  }

  lemma {:induction false} RunKeeps(m: Mode, es: seq<Event>)
    requires Sound(m) && IsRun(m, es)
    ensures Sound(After(m, es))
    decreases |es|
  {
    if es != [] {
      DoKeeps(m, es[0]);
      RunKeeps(Do(m, es[0]).0, es[1..]);
    }
  }

  /**
   Mode safety: in every run, counting also the states set by callbacks in the
   middle of a call, an access-point state and a station state have Initialized
   or Off between them.
   */
  lemma ModesSeparated(es: seq<Event>, i: nat, j: nat) returns (k: nat)
    requires IsRun(Start, es) && i < j < |After(Start, es).trace|
    requires var t := After(Start, es).trace; (Ap(t[i]) && Sta(t[j])) || (Sta(t[i]) && Ap(t[j]))
    ensures i < k < j && Neutral(After(Start, es).trace[k])
  {
    RunKeeps(Start, es);
    var t := After(Start, es).trace;
    k := i + 1;
    while !Neutral(t[k])
      invariant i < k <= j
      invariant Ap(t[i]) <==> Ap(t[k - 1])
      invariant Sta(t[i]) <==> Sta(t[k - 1])
      decreases j - k
    {
      assert Legal(t[k - 1], t[k]);
      k := k + 1;
    }
  }

  /** Closing succeeds exactly from the mode's own states, ends in Initialized, and leaves no network behind if one was up. */
  lemma CloseEndsInitialized(m: Mode)
    requires Sound(m)
    ensures Do(m, CloseAccessPoint).1.Success? <==> Ap(m.state)
    ensures Ap(m.state) ==> Do(m, CloseAccessPoint).0.state.Initialized?
    ensures m.state.AccessPointCreated? ==> !Do(m, CloseAccessPoint).0.networkConnected
    ensures Do(m, CloseStation).1.Success? <==> Sta(m.state)
    ensures Sta(m.state) ==> Do(m, CloseStation).0.state.Initialized?
    ensures m.state.StationConnected? ==> !Do(m, CloseStation).0.networkConnected
    ensures !Ap(m.state) ==> Do(m, CloseAccessPoint).0 == m
    ensures !Sta(m.state) ==> Do(m, CloseStation).0 == m
  {
    LeaveKeeps(m);
  }

  /** While a network is up there is a client and no reason for its loss. */
  predicate Fresh(m: Mode) {
    m.networkConnected ==> m.hasClient && m.reason == NoReason
  }

  lemma {:induction false} RunStaysFresh(m: Mode, es: seq<Event>)
    requires Fresh(m) && IsRun(m, es)
    ensures Fresh(After(m, es))
    decreases |es|
  {
    if es != [] { RunStaysFresh(Do(m, es[0]).0, es[1..]); }
  }

  /**
   Whenever in any run a network is lost, a reason is left for the game to
   read - except by a Finalize that finds the client's socket closed: it
   deletes the client without the callback, and leaves none.
   */
  lemma LossHasReason(es: seq<Event>, e: Event)
    requires IsRun(Start, es) && Enabled(After(Start, es), e)
    requires After(Start, es).networkConnected && !Do(After(Start, es), e).0.networkConnected
    ensures Do(After(Start, es), e).0.reason != NoReason <==> e != Finalize(false)
  {
    RunStaysFresh(Start, es);
  }

  // ---------------------------------------------------------------- what each event does

  /** A connection promotes an open mode and clears the reason; any other state stays. */
  lemma ConnectionPromotes(m: Mode, reason: Reason)
    ensures var n := OnNetworkChange(m, true, reason);
            && n.reason == NoReason && n.networkConnected == m.networkConnected && n.hasClient == m.hasClient
            && (m.state == AccessPoint ==> n.state == AccessPointCreated)
            && (m.state == Station ==> n.state == StationConnected)
            && (m.state != AccessPoint && m.state != Station ==> n.state == m.state && n.trace == m.trace)
  {
  }

  /** A loss demotes a connected mode, and leaves the given reason or one that depends on the mode. */
  lemma LossDemotes(m: Mode, reason: Reason)
    ensures var n := OnNetworkChange(m, false, reason);
            && (m.state == AccessPointCreated ==> n.state == AccessPoint)
            && (m.state == StationConnected ==> n.state == Station)
            && (m.state != AccessPointCreated && m.state != StationConnected ==> n.state == m.state && n.trace == m.trace)
            && (reason != NoReason ==> n.reason == reason)
            && (reason == NoReason && m.state == AccessPointCreated ==> n.reason == DestroyedBySystem)
            && (reason == NoReason && m.state == StationConnected ==> n.reason == ByUser)
            && (reason == NoReason && m.state != AccessPointCreated && m.state != StationConnected ==> n.reason == BySystem)
  {
  }

  /**
   The server's messages: a connection brings the network up; a disconnect takes
   it down once, with the reason a reject has stored since the connection, or
   else one that depends on the mode; a second disconnect does nothing.
   */
  lemma ServerMessages(m: Mode, why: Reason)
    requires m.hasClient
    ensures var up := Do(m, ServerConnected).0;
            var rejected := Do(up, ServerRejects(why)).0;
            var down := Do(rejected, ServerDisconnected).0;
            && up.networkConnected && up.reason == NoReason
            && rejected.state == up.state && rejected.networkConnected
            && !down.networkConnected && (why != NoReason ==> down.reason == why)
            && (m.state == AccessPoint ==> up.state == AccessPointCreated && down.state == AccessPoint)
            && (m.state == Station ==> up.state == StationConnected && down.state == Station)
            && Do(down, ServerDisconnected).0 == down
    ensures var synced := Do(m, ServerSync).0;
            && synced.networkConnected == m.networkConnected && synced.clientReason == m.clientReason && synced.reason == NoReason
            && (m.state == AccessPoint ==> synced.state == AccessPointCreated)
            && (m.state == Station ==> synced.state == StationConnected)
            && (m.state != AccessPoint && m.state != Station ==> synced.state == m.state)
  {
  }

  /** The calls that open a mode or leave a network: each succeeds from one state only, and changes nothing from any other. */
  lemma CallsExact(m: Mode)
    ensures Do(m, OpenAccessPoint).1 == Success <==> m.state == Initialized
    ensures m.state == Initialized ==> Do(m, OpenAccessPoint).0.state == AccessPoint && Do(m, OpenStation).0.state == Station
    ensures m.state != Initialized ==> Do(m, OpenAccessPoint) == (m, WrongState) && Do(m, OpenStation) == (m, WrongState)
    ensures Do(m, DestroyNetwork).1 == Success <==> m.state == AccessPointCreated
    ensures m.state == AccessPointCreated ==> Do(m, DestroyNetwork).0.state == AccessPoint && Left(m, Do(m, DestroyNetwork).0)
    ensures m.state != AccessPointCreated ==> Do(m, DestroyNetwork) == (m, WrongState)
    ensures Do(m, Disconnect).1 == Success <==> m.state == StationConnected
    ensures m.state == StationConnected ==> Do(m, Disconnect).0.state == Station && Left(m, Do(m, Disconnect).0)
    ensures m.state != StationConnected ==> Do(m, Disconnect) == (m, WrongState)
  {
  }

  /** A network that was up is down, by the user. */
  predicate Left(m: Mode, n: Mode) {
    m.hasClient && m.networkConnected ==> !n.networkConnected && n.reason == ByUser
  }

  /** Initialize fails only for want of memory for a client; it starts at Initialized with the client it had, or a fresh one. */
  lemma InitializeExact(m: Mode, memory: bool)
    ensures var (n, status) := Do(m, Initialize(memory));
            && (status == NoMemory <==> !m.hasClient && !memory) && (status == NoMemory ==> n == m)
            && (status != NoMemory ==> status == Success && n.state == Initialized && n.hasClient && n.reason == m.reason)
            && (m.hasClient ==> n.networkConnected == m.networkConnected && n.clientReason == m.clientReason)
            && (status != NoMemory && !m.hasClient ==> !n.networkConnected && n.clientReason == NoReason)
    ensures var n := Do(m, Finalize(memory)).0; n.state == Off && !n.hasClient && !n.networkConnected
  {
  }
}
