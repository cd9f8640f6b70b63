/** The communication service and the master client as two objects that call each other. */
module LdnService {
  import opened LdnMode

  class LdnMasterProxyClient {
    const service: ICommunicationService
    var networkConnected: bool
    var disconnectReason: Reason

    constructor (service: ICommunicationService)
      ensures this.service == service && !networkConnected && disconnectReason == NoReason
    {
      this.service, networkConnected, disconnectReason := service, false, NoReason;
    }

    /** Drops the network and reports it through the callback, once. */
    method DisconnectInternal()
      requires service.Valid() && service.client == this
      modifies this, service
      ensures service.Valid() && service.client == this
      ensures service.View() == LdnMode.DisconnectInternal(old(service.View()))
    {
      if networkConnected {
        networkConnected := false;
        service.OnNetworkChange(false, disconnectReason);
      }
    }

    method DisconnectNetwork()
      requires service.Valid() && service.client == this
      modifies this, service
      ensures service.Valid() && service.client == this
      ensures service.View() == LdnMode.DisconnectNetwork(old(service.View()))
    {
      if networkConnected {
        disconnectReason := ByUser;
        DisconnectInternal();
      }
    }

    method HandleConnected()
      requires service.Valid() && service.client == this
      modifies this, service
      ensures service.Valid() && service.View() == Do(old(service.View()), ServerConnected).0
    {
      networkConnected, disconnectReason := true, NoReason;
      service.OnNetworkChange(true, NoReason);
    }

    method HandleSyncNetwork()
      requires service.Valid() && service.client == this
      modifies service
      ensures service.Valid() && service.View() == Do(old(service.View()), ServerSync).0
    {
      service.OnNetworkChange(true, NoReason);
    }

    method HandleReject(why: Reason)
      requires service.Valid() && service.client == this
      modifies this
      ensures service.Valid() && service.View() == Do(old(service.View()), ServerRejects(why)).0
    {
      disconnectReason := why;
    }

    method HandleDisconnected()
      requires service.Valid() && service.client == this
      modifies this, service
      ensures service.Valid() && service.View() == Do(old(service.View()), ServerDisconnected).0
    {
      DisconnectInternal();
    }
  }

  class ICommunicationService {
    var currentState: CommState
    var disconnectReason: Reason
    var client: LdnMasterProxyClient?
    ghost var trace: seq<CommState>

    ghost predicate Valid()
      reads this
    {
      client != null ==> client.service == this
    }

    ghost function View(): Mode
      reads this, client
    {
      Mode(currentState, disconnectReason, client != null,
           client != null && client.networkConnected,
           if client != null then client.disconnectReason else NoReason, trace)
    }

    constructor ()
      ensures Valid() && View() == Start
    {
      currentState, disconnectReason, client, trace := Off, NoReason, null, [Off];
    }

    method SetState(state: CommState)
      modifies this`currentState, this`trace
      ensures View() == Set(old(View()), state)
    {
      currentState := state;
      trace := trace + [state];
    }

    method OnNetworkChange(connected: bool, reason: Reason)
      modifies this`currentState, this`disconnectReason, this`trace
      ensures View() == LdnMode.OnNetworkChange(old(View()), connected, reason)
    {
      if connected {
        disconnectReason := NoReason;
        if currentState.AccessPoint? { SetState(AccessPointCreated); }
        else if currentState.Station? { SetState(StationConnected); }
        return;
      }
      var effective := reason;
      if effective == NoReason {
        if currentState.AccessPointCreated? { effective := DestroyedBySystem; }
        else if currentState.StationConnected? { effective := ByUser; }
        else { effective := BySystem; }
      }
      disconnectReason := effective;
      if currentState.AccessPointCreated? { SetState(AccessPoint); }
      else if currentState.StationConnected? { SetState(Station); }
    }

    /** `memory` says whether a client can be built when there is none. */
    method Initialize(memory: bool) returns (status: Status)
      requires Valid()
      modifies this
      ensures Valid() && (View(), status) == Do(old(View()), LdnMode.Initialize(memory))
      ensures client == old(client) || fresh(client)
    {
      if client == null {
        if !memory { return NoMemory; }
        client := new LdnMasterProxyClient(this);
      }
      SetState(Initialized);
      return Success;
    }

    method OpenAccessPoint() returns (status: Status)
      requires Valid()
      modifies this
      ensures Valid() && (View(), status) == Do(old(View()), LdnMode.OpenAccessPoint) && client == old(client)
    {
      if !currentState.Initialized? { return WrongState; }
      SetState(AccessPoint);
      return Success;
    }

    method OpenStation() returns (status: Status)
      requires Valid()
      modifies this
      ensures Valid() && (View(), status) == Do(old(View()), LdnMode.OpenStation) && client == old(client)
    {
      if !currentState.Initialized? { return WrongState; }
      SetState(Station);
      return Success;
    }

    /** The state is looked at again after the network is left: the callback may have changed it. */
    method CloseAccessPoint() returns (status: Status)
      requires Valid()
      modifies this, client
      ensures Valid() && (View(), status) == Do(old(View()), LdnMode.CloseAccessPoint) && client == old(client)
    {
      if currentState.AccessPointCreated? {
        if client != null { client.DisconnectNetwork(); }
      }
      if currentState.AccessPoint? || currentState.AccessPointCreated? {
        SetState(Initialized);
        return Success;
      }
      return WrongState;
    }

    method DestroyNetwork() returns (status: Status)
      requires Valid()
      modifies this, client
      ensures Valid() && (View(), status) == Do(old(View()), LdnMode.DestroyNetwork) && client == old(client)
    {
      if !currentState.AccessPointCreated? { return WrongState; }
      if client != null { client.DisconnectNetwork(); }
      SetState(AccessPoint);
      return Success;
    }

    method CloseStation() returns (status: Status)
      requires Valid()
      modifies this, client
      ensures Valid() && (View(), status) == Do(old(View()), LdnMode.CloseStation) && client == old(client)
    {
      if currentState.StationConnected? {
        if client != null { client.DisconnectNetwork(); }
      }
      if currentState.Station? || currentState.StationConnected? {
        SetState(Initialized);
        return Success;
      }
      return WrongState;
    }

    method Disconnect() returns (status: Status)
      requires Valid()
      modifies this, client
      ensures Valid() && (View(), status) == Do(old(View()), LdnMode.Disconnect) && client == old(client)
    {
      if !currentState.StationConnected? { return WrongState; }
      if client != null { client.DisconnectNetwork(); }
      SetState(Station);
      return Success;
    }

    method Finalize(socketOpen: bool) returns (status: Status)
      requires Valid()
      modifies this, client
      ensures Valid() && (View(), status) == Do(old(View()), LdnMode.Finalize(socketOpen)) && client == null
    {
      if client != null {
        if socketOpen { client.DisconnectInternal(); }
        client := null;
      }
      SetState(Off);
      return Success;
    }
  }
}
