# RyuLDN NX, verified model

RyuLDN NX tunnels the local-wireless traffic of a console over a TCP stream.
This project models its protocol core in Dafny and proves what that core keeps,
conserves and undoes. Run `dafny verify dfyconfig.toml` to check it.

| file | part of the program |
|---|---|
| FreeList, BufferPool, SessionPool | the two intrusive free lists |
| Wire, Framing, WireFormat, StepBack, Protocol, Transport, TornPackets | packets, the incremental decoder, what negative sizes do to it, the sending loop, end to end, and what happens after a torn packet |
| Relay, RelayRuns, RelayAdmission, RelaySlots, RelayAddresses, RelayBroadcast, P2pServer, RelayService | the peer-to-peer relay as a state machine, what its runs keep, whom it lets in, which slots it loses, which addresses it grants, the server object with its routing, and what it does for its clients |
| Ports, Sockets, VirtualNet, Binding, Handshakes, ReceiveQueue, ProxySocket, Subnet | ephemeral ports, virtual sockets, explicit binds, the connect/accept handshake, the receive queue, subnet arithmetic |
| Bsd, BsdPoll | select and poll over virtual and real descriptors |
| IniText, IniConfig | the configuration file |
| LdnMode, LdnService | the wireless mode machine with its re-entrant disconnect callback |

Objects of the program are classes whose methods are proved against functions on
values (`View`, `Abs`, `Allocated` give the value); the theorems are about those
functions, for all inputs and all runs. Each handler is one atomic step; threads,
locks and timing are not modelled. What the environment decides (partial sends,
memory, the real socket service, what arrives during a wait) is a parameter.

## Where the code departs from its intent

The model follows the code. For each departure there is a theorem that says, for
all inputs, exactly when the intended property holds.

- The decoder bounds a packet's size only from above. With a buffer to lend, a call
  goes wrong (a copy of negative length) if and only if the bytes run into a header
  with a negative size: `Framing.OverrunExact`. Without one the loop steps back in its
  chunk, and `StepBack.NegativeSizeExact` says where to. `StepBack.UnderrunExact` says
  exactly when the call comes to read before its chunk, and `StepBack.SpinExact`
  exactly when it never returns; sizes -10 and -1 in a fresh chunk are examples of a
  call that never returns and of one that reads a byte twice. All callers pass offset
  0, so a read before the chunk is out of bounds.
- A bad header discards the rest of its chunk, and a packet that cannot be stored is
  skipped only to the end of the chunk. `Framing.ChunkIndependence`: a chunk boundary
  is invisible exactly when the bytes so far run into neither - with a buffer to lend,
  for every continuation; without one, for every continuation that runs into no
  negative size, since a step back stops at a boundary (`StepBack.BoundaryStopsStepBack`).
- A sender that goes on after a packet of which some bytes were sent is not
  understood, however the bytes are cut: `TornPackets.GoingOnExact`. The program's callers ignore the result of
  SendPacket, so `Transport.EndToEnd` covers senders up to the first torn packet.
- `TryRegisterUser` reads the granted address after erasing the token, so it sees the
  next token's address (for the last token, the vacated storage still holds the old
  one). A client gets the address of its own token if and only if that token is last
  or the next is for the same address: `RelayAddresses.AddressExact`, and
  `RelayAddresses.AddressesExact` for whole runs; `RelayAddresses.WrongTokensAddress`
  is a run in which two clients end up with one address. The relay invariants hold all
  the same.
- A session that authenticates twice strands its first address:
  `RelayRuns.RegistrationExact` and `RelayRuns.DoubleRegistrationStrands`.
- Slots of the session pool leak. A session whose thread ends gives its slot back only
  if it is registered when it leaves, or if the master or the server ends it:
  `RelaySlots.ReturnExact`. A client that leaves unregistered, fails to authenticate,
  or was displaced never does; `RelaySlots.StrandedExact` lists the steps that lose a
  slot, and `RelaySlots.LeakExact` says that as long as the server is not stopped a run
  keeps all slots if and only if it has none of them. The pool's header comment says that releasing resets a session; it
  is reset on reuse.
- An accepted socket is never marked bound, so its port changes on its first send.
  As long as the connecting end keeps its link and both ports are non-zero, the two
  ends agree exactly until the accepted end is sent from, bound, disconnected or
  closed: `Handshakes.AgreementExact`, `Handshakes.FirstSendParts`. What parts them on
  either end is in `Handshakes.StayPairedExact`.
- Explicit binds into the ephemeral range break port ownership, except to a port that
  is allocated and nobody's: `Binding.BindExact`, `Binding.EphemeralBindSteals`.
- A TCP read that only peeks still splits an oversized packet, and a read that had to
  wait drops the tail: `ReceiveQueue.TcpPullExact`, `ReceiveQueue.LatePullExact`.
- A virtual socket registers itself and is then registered again by `GetVirtualSocket`
  (bsd_mitm_service.cpp:119-123), so it is listed twice: it gets every connection
  request once per listing (`ProxySockets.LdnProxy.HandleConnectionRequest`), while a
  response still acts once (`ProxySockets.LdnProxy.HandleConnectionResponse`).
- Saving, loading and saving again changes the text for a level outside 1..5 and for
  hosts that do not fit or are not tidy: `IniConfig.SaveLoadSave`.
- Every loss of a network leaves a reason except a Finalize that finds the client's
  socket closed: `LdnMode.LossHasReason`.
- Comments still speak of 128 KB buffers; the constant is 16384 bytes.

## Model

| member | source | states |
|---|---|---|
| `FreeList.NoSlotTwice` | ryuldn_nx/source/ryuldn/buffer_pool.cpp:38-43 | following the links never meets a slot twice: the list is acyclic |
| `FreeList.ListUnique` | ryuldn_nx/source/ryuldn/buffer_pool.cpp:14-25 | the links determine the free list |
| `FreeList.ListPartition` | ryuldn_nx/source/ryuldn/buffer_pool.cpp:14-93 | every slot is lent or met exactly once on the list, never both; the head is null exactly when all are lent |
| `FreeList.TakeKeeps` | ryuldn_nx/source/ryuldn/buffer_pool.cpp:38-46 | borrowing pops a slot that was lent to nobody and keeps the list |
| `FreeList.GiveKeeps` | ryuldn_nx/source/ryuldn/buffer_pool.cpp:82-90 | returning pushes the slot once; a repeated return changes nothing |
| `FreeList.PlayKeeps` | ryuldn_nx/source/ryuldn/buffer_pool.cpp:31-93 | one move of any borrower keeps the list and the ledger of holders; a slot lent was held by nobody |
| `FreeList.EveryRunBalanced` | ryuldn_nx/source/ryuldn/buffer_pool.cpp:14-93 | over every run of any borrowers on a pool of any size the slots in use are exactly the slots held, each by one borrower |
| `BufferPools.BufferPool.constructor` | ryuldn_nx/source/ryuldn/buffer_pool.cpp:14-29 | all buffers free, each at its own address in one store |
| `BufferPools.BufferPool.BorrowBuffer` | ryuldn_nx/source/ryuldn/buffer_pool.cpp:36-46 | one attempt: fails exactly when the list is empty, else lends the head slot, which was lent to nobody |
| `BufferPools.BufferPool.ReturnBuffer` | ryuldn_nx/source/ryuldn/buffer_pool.cpp:61-93 | the slot with that address goes back once; null, foreign and already returned addresses change nothing |
| `SessionPools.SessionPool.constructor` | ryuldn_nx/source/ryuldn/session_pool.cpp:8-24 | every slot empty and on the list, no session active |
| `SessionPools.SessionPool.Acquire` | ryuldn_nx/source/ryuldn/session_pool.cpp:30-74 | reuses or builds a session in the head slot; a failed allocation leaves the pool as it was; the active count is the number of slots in use |
| `SessionPools.SessionPool.Release` | ryuldn_nx/source/ryuldn/session_pool.cpp:76-113 | the session's slot goes back once; the active count stays the number of slots in use |
| `SessionPools.SessionPool.Clear` | ryuldn_nx/source/ryuldn/session_pool.cpp:115-132 | the pool is as when built |
| `Wire.HeaderRoundTrip` | ryuldn_nx/source/ryuldn/ryu_ldn_protocol.cpp:354-361 | parsing an encoded header gives the header back |
| `Wire.HeaderInverse` | ryuldn_nx/source/ryuldn/ryu_ldn_protocol.cpp:42-43 | encoding a parsed header gives the ten bytes back |
| `Wire.Encode` | ryuldn_nx/source/ryuldn/ryu_ldn_protocol.cpp:368-372 | writes the packet's image and nothing past it |
| `Wire.EncodeWithExtra` | ryuldn_nx/source/ryuldn/ryu_ldn_protocol.hpp:175-188 | a structure and extra bytes make the packet of their concatenation |
| `WireFormat.Layout` | ryuldn_nx/source/ryuldn/types/ldn_header.hpp:9-26 | every packet in literal bytes: the letters RLDN, the type, the version 1, the length little-endian, the payload |
| `WireFormat.VerdictExact` | ryuldn_nx/source/ryuldn/ryu_ldn_protocol.cpp:45-63 | ten bytes are refused if and only if the letters differ, the version is not 1, or the signed size is 16374 or more |
| `WireFormat.RefusedExact` | ryuldn_nx/source/ryuldn/ryu_ldn_protocol.cpp:45-63 | such bytes at a packet boundary reject the pass, and of ten bytes only such |
| `WireFormat.GoodPacket` | ryuldn_nx/source/ryuldn/ryu_ldn_protocol.cpp:65-116 | other ten bytes and as many as they announce are dispatched as that type and those bytes |
| `WireFormat.GoodPacketUnstored` | ryuldn_nx/source/ryuldn/ryu_ldn_protocol.cpp:65-82 | without a buffer an empty packet is dispatched and any other skipped |
| `Framing.Feed` | ryuldn_nx/source/ryuldn/ryu_ldn_protocol.cpp:24-118 | one byte keeps the decoder coherent, emits only packets in range, skips only when nothing can be lent, and goes wrong only with a buffer in hand |
| `Framing.Sweep` | ryuldn_nx/source/ryuldn/ryu_ldn_protocol.cpp:16-120 | a forward pass keeps coherence, dispatches only packets in range, and is back at the start after a reject, a cut-short skip or a step back |
| `Framing.Read` | ryuldn_nx/source/ryuldn/ryu_ldn_protocol.cpp:16-120 | a call keeps coherence and dispatches only packets in range, through any number of steps back |
| `Framing.ReadForward` | ryuldn_nx/source/ryuldn/ryu_ldn_protocol.cpp:76-82 | without a step back, and so whenever a buffer can be lent, the call is one forward pass |
| `Framing.SweepSplit` | ryuldn_nx/source/ryuldn/ryu_ldn_protocol.cpp:24-118 | a pass that ended cleanly continues as if they were one |
| `Framing.RejectSwallows` | ryuldn_nx/source/ryuldn/ryu_ldn_protocol.cpp:45-63 | nothing after a bad header in the same chunk has any effect |
| `Framing.EndingExact` | ryuldn_nx/source/ryuldn/ryu_ldn_protocol.cpp:24-118 | a pass ends in each of its four ways if and only if the bytes since the last packet boundary are whole packets and then a front of that kind |
| `Framing.ChunkIndependence` | ryuldn_nx/source/ryuldn/ryu_ldn_protocol.cpp:24-118 | a chunk boundary is invisible, for every continuation that without a buffer runs into no negative size, if and only if the bytes so far run into no bad header and into no packet that can be neither stored nor skipped |
| `Framing.AnyChunking` | ryuldn_nx/source/ryuldn/ryu_ldn_protocol.cpp:24-118 | whatever the chunks, packets before the first bad header are dispatched first and alike; without a bad header everything is the same |
| `Framing.RoundTrip` | ryuldn_nx/source/ryuldn/ryu_ldn_protocol.cpp:16-120 | any cutting of the stream of any packets dispatches exactly those packets, in order, and ends at the start |
| `Framing.NothingLost` | ryuldn_nx/source/ryuldn/ryu_ldn_protocol.cpp:24-118 | the bytes taken in are the images of the dispatched packets followed by what the decoder holds |
| `Framing.StreamInjective` | ryuldn_nx/source/ryuldn/ryu_ldn_protocol.cpp:354-372 | the stream is uniquely decodable |
| `Framing.PartialStream` | ryuldn_nx/source/ryuldn/ryu_ldn_protocol.cpp:16-120 | a sender that stops inside a packet leaves all earlier packets dispatched, nothing else, and the unfinished bytes held |
| `Framing.OverrunExact` | ryuldn_nx/source/ryuldn/ryu_ldn_protocol.cpp:59-100 | with a buffer to lend, a call copies a negative length if and only if the bytes run into a negative size |
| `StepBack.NegativeSizeExact` | ryuldn_nx/source/ryuldn/ryu_ldn_protocol.cpp:59-100 | wherever in the stream a negative size is met: a negative copy exactly when lending; else a step back by that size from behind the header, to before the chunk or to bytes that are read again |
| `StepBack.BackOnBytes` | ryuldn_nx/source/ryuldn/ryu_ldn_protocol.cpp:76-82 | the bytes say where a pass steps back, and by how much |
| `StepBack.UnderrunExact` | ryuldn_nx/source/ryuldn/ryu_ldn_protocol.cpp:24-82 | the call reads before its chunk if and only if its first pass steps back to there or to a position from which one of the next passes does, no more of them than the chunk has positions |
| `StepBack.SpinExact` | ryuldn_nx/source/ryuldn/ryu_ldn_protocol.cpp:24-82 | the call never returns if and only if it steps back to a position from which every pass steps back again, which shows in as many passes as the chunk has positions |
| `StepBack.MinusTenSpins` | ryuldn_nx/source/ryuldn/ryu_ldn_protocol.cpp:76-82 | size -10 at the start of a chunk is read for ever |
| `StepBack.MinusOneRereads` | ryuldn_nx/source/ryuldn/ryu_ldn_protocol.cpp:76-82 | size -1 re-reads the last header byte as the first of the next header |
| `StepBack.BoundaryStopsStepBack` | ryuldn_nx/source/ryuldn/ryu_ldn_protocol.cpp:76-82 | without a buffer, size -11 behind an empty packet: one call re-reads and ends ready, two calls read before the second chunk |
| `Protocol.RyuLdnProtocol.constructor` | ryuldn_nx/source/ryuldn/ryu_ldn_protocol.hpp:100-112 | starts at the start, holding nothing |
| `Protocol.RyuLdnProtocol.Reset` | ryuldn_nx/source/ryuldn/ryu_ldn_protocol.cpp:6-14 | back at the start with its buffer returned, other buffers as they were |
| `Protocol.RyuLdnProtocol.AcceptHeader` | ryuldn_nx/source/ryuldn/ryu_ldn_protocol.cpp:41-87 | the verdict on each kind of header, with a buffer borrowed exactly when a payload is to be stored, and a negative size handed on as a step back when none is free |
| `Protocol.RyuLdnProtocol.CopyBody` | ryuldn_nx/source/ryuldn/ryu_ldn_protocol.cpp:90-100 | payload bytes land in the held buffer after those already there; no byte of another lent buffer changes |
| `Protocol.RyuLdnProtocol.Complete` | ryuldn_nx/source/ryuldn/ryu_ldn_protocol.cpp:102-116 | dispatches the type and payload received and returns the buffer |
| `Protocol.RyuLdnProtocol.Turn` | ryuldn_nx/source/ryuldn/ryu_ldn_protocol.cpp:24-118 | every turn of the loop consumes at least one byte and does what the byte-wise decoder does with those bytes, steps back included |
| `Protocol.RyuLdnProtocol.Round` | ryuldn_nx/source/ryuldn/ryu_ldn_protocol.cpp:24-118 | where the next turn starts; each turn comes nearer to the end of the chunk or steps back to a new position |
| `Protocol.RyuLdnProtocol.Read` | ryuldn_nx/source/ryuldn/ryu_ldn_protocol.cpp:16-120 | the block-copying loop refines the byte-wise decoder, holds one pool buffer exactly while in a packet, leaks none, and touches no other lent buffer |
| `Protocol.ReadBeside` | ryuldn_nx/source/ryuldn/ryu_ldn_protocol.cpp:16-120 | a Read leaves every other decoder that shares the pool as it was, payload included, and the two never hold the same buffer |
| `Transport.Push` | ryuldn_nx/source/ryuldn/ldn_master_proxy_client.cpp:369-389 | what reaches the wire is a prefix of the data, all of it exactly when the call succeeds |
| `Transport.PushExact` | ryuldn_nx/source/ryuldn/ldn_master_proxy_client.cpp:369-389 | from the replies alone: as many bytes go out as they take before the first failure; sent, lost or waiting accordingly; retries change nothing |
| `Transport.MasterConnection.SendPacket` | ryuldn_nx/source/ryuldn/ldn_master_proxy_client.cpp:345-390 | the loop over partial and refused sends appends exactly those bytes; without a connection none |
| `Transport.WireContents` | ryuldn_nx/source/ryuldn/ldn_master_proxy_client.cpp:369-389 | the wire holds the packets sent and then a proper part of at most one more |
| `Transport.EndToEnd` | ryuldn_nx/source/ryuldn/ldn_master_proxy_client.cpp:369-428 | for all packets, all patterns of partial and failing sends up to a torn packet, and all cuttings into reads, exactly the packets that went through are dispatched, in order |
| `TornPackets.GoingOnExact` | ryuldn_nx/source/ryuldn/ldn_master_proxy_client.cpp:369-389 | whatever is sent after a failed packet arrives in every cutting if and only if nothing of the failed packet was sent; otherwise some packet arrives in no cutting |
| `TornPackets.RejectionCosts` | ryuldn_nx/source/ryuldn/ryu_ldn_protocol.cpp:45-63 | bytes that run into a bad header lose at least ten of them, however they are cut |
| `Transport.ReceiveLoop` | ryuldn_nx/source/ryuldn/proxy/p2p_proxy_session.cpp:143-157 | feeding chunks to the decoder object is the run of reads of the specification |
| `Relay.FindSlot` | ryuldn_nx/source/ryuldn/session_pool.cpp:83-90 | the first slot that holds the session |
| `Relay.FirstFit` | ryuldn_nx/source/ryuldn/proxy/p2p_proxy_server.cpp:478-497 | the first waiting token that fits peer and secret |
| `Relay.PlayersInjective` | ryuldn_nx/source/ryuldn/proxy/p2p_proxy_server.cpp:508-514 | two addresses never lead to one session |
| `Relay.ReleaseEffect` | ryuldn_nx/source/ryuldn/session_pool.cpp:76-113 | releasing frees that session and no other |
| `Relay.AcquireEffect` | ryuldn_nx/source/ryuldn/session_pool.cpp:30-74 | an acquired session was in use by nobody; nothing else changes hands |
| `RelayRuns.ArrivalKeeps` | ryuldn_nx/source/ryuldn/proxy/p2p_proxy_server.cpp:278-293 | a freshly acquired session is under no address; a session that fails to start goes back |
| `RelayRuns.RegistrationExact` | ryuldn_nx/source/ryuldn/proxy/p2p_proxy_server.cpp:497-514 | registering keeps the invariant if and only if the session is not already registered under another address |
| `RelayRuns.StepKeeps` | ryuldn_nx/source/ryuldn/proxy/p2p_proxy_server.cpp:264-580 | every step keeps: each address leads to a session in use that carries it |
| `RelayRuns.After` | ryuldn_nx/source/ryuldn/proxy/p2p_proxy_server.cpp:264-580 | that invariant holds after every run |
| `RelayRuns.DoubleRegistrationStrands` | ryuldn_nx/source/ryuldn/proxy/p2p_proxy_server.cpp:497-566 | after authenticating twice and leaving, the first address leads to a session that is free for the next client |
| `RelayRuns.KeptOrDropped` | ryuldn_nx/source/ryuldn/proxy/p2p_proxy_server.cpp:350-355 | revocation splits the waiting tokens into those for the address and the others |
| `RelayRuns.StepConserves` | ryuldn_nx/source/ryuldn/proxy/p2p_proxy_server.cpp:335-514 | one step: tokens before plus received are tokens after plus consumed plus revoked |
| `RelayRuns.TokensConserved` | ryuldn_nx/source/ryuldn/proxy/p2p_proxy_server.cpp:335-514 | the same over every run |
| `RelayRuns.RevocationHolds` | ryuldn_nx/source/ryuldn/proxy/p2p_proxy_server.cpp:343-369 | after a disconnect for an address nobody is registered there until a later token for it |
| `RelayAdmission.AdmissionExact` | ryuldn_nx/source/ryuldn/proxy/p2p_proxy_server.cpp:478-524 | an authentication registers anybody, or uses a token, if and only if a waiting token has its secret and no physical address or the peer's; it uses the first such token, and otherwise the session is shut |
| `RelayAdmission.UnknownPeer` | ryuldn_nx/source/ryuldn/proxy/p2p_proxy_server.cpp:453-474 | a client whose address cannot be told is not registered |
| `RelayAdmission.OnlyInvited` | ryuldn_nx/source/ryuldn/proxy/p2p_proxy_server.cpp:264-580 | over every run, whoever is registered has presented, from an address it allows, the secret of a token that had arrived |
| `RelayService.ArrivalMeaning` | ryuldn_nx/source/ryuldn/proxy/p2p_proxy_session.cpp:165-176 | a client that arrives gets a session nobody had, with address 0 and no closing mark; none exactly when the pool has no slot or no memory |
| `RelayService.FailedStart` | ryuldn_nx/source/ryuldn/proxy/p2p_proxy_server.cpp:278-293 | a session that fails to start is given back |
| `RelayService.DepartureMeaning` | ryuldn_nx/source/ryuldn/proxy/p2p_proxy_session.cpp:159-162 | a registered client that leaves frees its address and its slot and no other, and exactly its address is reported |
| `RelayService.StateChangeMeaning` | ryuldn_nx/source/ryuldn/proxy/p2p_proxy_server.cpp:343-370 | a disconnect report removes the tokens and the session of that address, closed and freed, and nobody else; a connect report does nothing |
| `RelayService.KeepInOrder` | ryuldn_nx/source/ryuldn/proxy/p2p_proxy_server.cpp:350-355 | the tokens that stay keep their order |
| `RelayService.StopMeaning` | ryuldn_nx/source/ryuldn/proxy/p2p_proxy_server.cpp:132-154 | a stop leaves no player, no session and no slot in use |
| `RelayBroadcast.AgreementExact` | ryuldn_nx/source/ryuldn/proxy/p2p_proxy_server.cpp:503-514 | a registration keeps broadcast agreement if and only if the new address is in every player's subnet |
| `RelayBroadcast.BroadcastAgreement` | ryuldn_nx/source/ryuldn/proxy/p2p_proxy_server.cpp:190-193 | if all issued addresses share a /16, relay and players agree on the broadcast address in every reachable state |
| `RelaySlots.ReturnExact` | ryuldn_nx/source/ryuldn/proxy/p2p_proxy_session.cpp:159-162 | whatever ends a session thread, its slot is free afterwards if and only if it left registered or was ended by the master or the server |
| `RelaySlots.StrandedExact` | ryuldn_nx/source/ryuldn/proxy/p2p_proxy_server.cpp:475-566 | exactly which steps strand a session: leaving or failing to authenticate under no address, or losing the address after its thread has ended |
| `RelaySlots.DisplacedLeaves` | ryuldn_nx/source/ryuldn/proxy/p2p_proxy_server.cpp:550-566 | a displaced session that leaves takes no entry with it, and its own slot is lost |
| `RelaySlots.LeakExact` | ryuldn_nx/source/ryuldn/proxy/p2p_proxy_server.cpp:264-580 | while the server is not stopped, a run ends with no slot lost if and only if none of its steps loses one |
| `RelaySlots.StrandedForever` | ryuldn_nx/source/ryuldn/proxy/p2p_proxy_server.cpp:264-580 | a stranded session never returns to the pool while the server runs |
| `RelayAddresses.AddressExact` | ryuldn_nx/source/ryuldn/proxy/p2p_proxy_server.cpp:497-514 | a client gets the address of the token it presented if and only if that token is the last or the next is for the same address |
| `RelayAddresses.HonouredExact` | ryuldn_nx/source/ryuldn/proxy/p2p_proxy_server.cpp:497-514 | a step keeps every session registered under the address of its own token if and only if it reads the right address |
| `RelayAddresses.AddressesExact` | ryuldn_nx/source/ryuldn/proxy/p2p_proxy_server.cpp:264-580 | the same over every run, in all its states |
| `RelayAddresses.WrongTokensAddress` | ryuldn_nx/source/ryuldn/proxy/p2p_proxy_server.cpp:478-514 | a run in which two clients with their own tokens both get the second address |
| `P2pServers.CopiesAt` | ryuldn_nx/source/ryuldn/proxy/p2p_proxy_server.cpp:399-410 | one copy per reached session, each with the routed message |
| `P2pServers.FanOut` | ryuldn_nx/source/ryuldn/proxy/p2p_proxy_server.cpp:372-411 | each session of the audience gets exactly one copy carrying the sender's address and the payload, nobody else any; forged sources have no audience |
| `P2pServers.RoutingExact` | ryuldn_nx/source/ryuldn/proxy/p2p_proxy_server.cpp:372-411 | from the addresses alone: a foreign source reaches nobody; 192.168.0.255 or the relay's broadcast address reaches every registered session; any other destination the session that carries it; one copy each, source filled in, the rest unchanged |
| `RelayService.SubnetBroadcast` | ryuldn_nx/source/ryuldn/proxy/p2p_proxy_server.cpp:190-193 | in every run with addresses of one /16, a message to the broadcast address of any player's subnet reaches every player once |
| `P2pServers.UnicastAlone` | ryuldn_nx/source/ryuldn/proxy/p2p_proxy_server.cpp:404-410 | a message to one address has at most one recipient, the session registered there |
| `P2pServers.ToldExact` | ryuldn_nx/source/ryuldn/proxy/p2p_proxy_server.cpp:516-580 | a client is told an address exactly when it is registered under it, the master exactly when a departure frees one, and nobody of anything else |
| `P2pServers.P2pProxyServer.HandleToken` | ryuldn_nx/source/ryuldn/proxy/p2p_proxy_server.cpp:335-341 | the handler is the token step |
| `P2pServers.P2pProxyServer.HandleStateChange` | ryuldn_nx/source/ryuldn/proxy/p2p_proxy_server.cpp:343-370 | the handler is the state-change step |
| `P2pServers.P2pProxyServer.AcceptClient` | ryuldn_nx/source/ryuldn/proxy/p2p_proxy_server.cpp:278-293 | one turn of the accept loop is the arrival step |
| `P2pServers.P2pProxyServer.TryRegisterUser` | ryuldn_nx/source/ryuldn/proxy/p2p_proxy_server.cpp:475-526 | the scan registers under the first fitting token, or changes nothing |
| `P2pServers.P2pProxyServer.HandleAuthentication` | ryuldn_nx/source/ryuldn/proxy/p2p_proxy_session.cpp:193-200 | the handler is the authentication step |
| `P2pServers.P2pProxyServer.ReceiveLoopEnds` | ryuldn_nx/source/ryuldn/proxy/p2p_proxy_session.cpp:159-162 | the end of the receive loop is the departure step |
| `P2pServers.P2pProxyServer.DisconnectProxyClient` | ryuldn_nx/source/ryuldn/proxy/p2p_proxy_server.cpp:550-566 | removes the entry and releases the session only if the entry is this session |
| `P2pServers.P2pProxyServer.Stop` | ryuldn_nx/source/ryuldn/proxy/p2p_proxy_server.cpp:132-154 | a running server ends with an empty pool and no players |
| `P2pServers.P2pProxyServer.RouteMessage` | ryuldn_nx/source/ryuldn/proxy/p2p_proxy_server.cpp:372-451 | hands each session the copies that RoutingExact says, and no others |
| `Subnet.BroadcastInSubnet` | ryuldn_nx/source/ryuldn/proxy/ldn_proxy.hpp:81-82 | for any mask the broadcast address lies in the subnet |
| `Subnet.BroadcastIdentifiesSubnet` | ryuldn_nx/source/ryuldn/proxy/ldn_proxy.cpp:18-20 | for any mask two hosts derive the same broadcast address if and only if they share the subnet |
| `Subnet.FixedMask` | ryuldn_nx/source/ryuldn/proxy/p2p_proxy_server.cpp:190-193 | for the mask 255.255.0.0 the word operation rounds up to the end of a block of 65536 addresses |
| `Ports.LeastFree` | ryuldn_nx/source/ryuldn/proxy/ephemeral_port_pool.hpp:28-60 | the least port of the range not in use, or 0 when there is none |
| `Ports.RangeIs` | ryuldn_nx/source/ryuldn/proxy/ephemeral_port_pool.hpp:15-18 | the range is 49152 to 65535 and 49152 is given out first |
| `Ports.ReleasedComesFirst` | ryuldn_nx/source/ryuldn/proxy/ephemeral_port_pool.hpp:62-71 | a released port is never passed over for a higher one |
| `Ports.FullRange` | ryuldn_nx/source/ryuldn/proxy/ephemeral_port_pool.hpp:15-18 | a sorted list has at most 16384 ports, and then it is the whole range |
| `Ports.EphemeralPortPool.AllocatePort` | ryuldn_nx/source/ryuldn/proxy/ephemeral_port_pool.hpp:30-60 | keeps the list sorted, returns the least free port and adds only it, 0 exactly when all are taken, with 16-bit wrap |
| `Ports.EphemeralPortPool.ReturnPort` | ryuldn_nx/source/ryuldn/proxy/ephemeral_port_pool.hpp:63-71 | keeps the list sorted and removes only that port |
| `Sockets.Scan` | ryuldn_nx/source/ryuldn/proxy/ldn_proxy_socket.cpp:166-203 | takes queued requests until one is addressed to this socket |
| `Sockets.ScanExact` | ryuldn_nx/source/ryuldn/proxy/ldn_proxy_socket.cpp:166-203 | the request taken is the first addressed to this socket, and those after it stay |
| `VirtualNet.RelocationKeeps` | ryuldn_nx/source/ryuldn/proxy/ldn_proxy_socket.cpp:65-82 | a socket that trades, keeps or leaves its port keeps the ports of its host apart and allocated |
| `VirtualNet.BindKeeps` | ryuldn_nx/source/ryuldn/proxy/ldn_proxy_socket.cpp:206-224 | Bind keeps its host sound |
| `VirtualNet.ConnectKeeps` | ryuldn_nx/source/ryuldn/proxy/ldn_proxy_socket.cpp:252-265 | Connect keeps its host sound and asks from an ephemeral port |
| `VirtualNet.AcceptKeeps` | ryuldn_nx/source/ryuldn/proxy/ldn_proxy_socket.cpp:162-203 | Accept keeps its host sound, its response counted as sent |
| `VirtualNet.SendKeeps` | ryuldn_nx/source/ryuldn/proxy/ldn_proxy_socket.cpp:391-403 | sending keeps its host sound, although an unbound socket moves |
| `VirtualNet.DeliverKeeps` | ryuldn_nx/source/ryuldn/proxy/ldn_proxy.cpp:107-159 | delivering a request or response by port keeps the host sound |
| `VirtualNet.StepKeeps` | ryuldn_nx/source/ryuldn/proxy/ldn_proxy_socket.cpp:65-403 | every call and delivery on any host keeps the network invariant |
| `VirtualNet.PortOwnership` | ryuldn_nx/source/ryuldn/proxy/ldn_proxy_socket.cpp:65-82 | in every run, a socket's ephemeral port is allocated and no other socket of its protocol on its host has it |
| `VirtualNet.PairingUnique` | ryuldn_nx/source/ryuldn/proxy/ldn_proxy_socket.cpp:125-142 | no two sockets of a host are completed by the same response, no two announce the same port |
| `VirtualNet.LateResponses` | ryuldn_nx/source/ryuldn/proxy/ldn_proxy_socket.cpp:125-142 | a response changes a socket if and only if the socket is open, has a pending connect, and has the response's protocol and port; it then completes the connect unless it is a refusal |
| `VirtualNet.RequestsQueued` | ryuldn_nx/source/ryuldn/proxy/ldn_proxy.cpp:107-153 | a request is queued at every open socket of its protocol and port and at no other |
| `Binding.BindExact` | ryuldn_nx/source/ryuldn/proxy/ldn_proxy_socket.cpp:206-224 | a Bind keeps its host sound if and only if the port is outside the ephemeral range, or allocated and nobody's |
| `Binding.PortsTraded` | ryuldn_nx/source/ryuldn/proxy/ldn_proxy_socket.cpp:65-82 | a bound socket that binds or connects gives its port back, an unbound one does not, and a port asked for is the least free |
| `Binding.EphemeralBindSteals` | ryuldn_nx/source/ryuldn/proxy/ldn_proxy_socket.cpp:206-224 | binding to another socket's ephemeral port and then anywhere else frees that port under its owner |
| `Binding.FreePortSharedLater` | ryuldn_nx/source/ryuldn/proxy/ldn_proxy_socket.cpp:206-224 | a port bound explicitly while free can be allocated to the next socket |
| `Handshakes.HandshakeAgreement` | ryuldn_nx/source/ryuldn/proxy/ldn_proxy_socket.cpp:98-203 | in every interleaving, a completed connect is paired with the accepted socket that announced its remote end; they are each other's remote ends exactly while the accepted socket is as it was born |
| `Handshakes.AcceptIsBorn` | ryuldn_nx/source/ryuldn/proxy/ldn_proxy_socket.cpp:98-107 | what Accept makes is connected to the requester from the port it announces |
| `Handshakes.UndisturbedExact` | ryuldn_nx/source/ryuldn/proxy/ldn_proxy_socket.cpp:65-82 | over every run an accepted socket that was given a port is where it announced itself if and only if it was not sent from, bound, disconnected or closed |
| `Handshakes.AgreementExact` | ryuldn_nx/source/ryuldn/proxy/ldn_proxy_socket.cpp:65-203 | over every run since the accept, with non-zero ports and a connecting end that keeps its link and its host address, the ends agree if and only if none of those calls was made |
| `Handshakes.PartsExact` | ryuldn_nx/source/ryuldn/proxy/ldn_proxy_socket.cpp:65-403 | one step leaves two joined ends joined, or parts them, according to a condition on the call and the free ports |
| `Handshakes.FirstSendParts` | ryuldn_nx/source/ryuldn/proxy/ldn_proxy_socket.cpp:391-403 | the first send of the accepted end parts the two |
| `Handshakes.StayPairedExact` | ryuldn_nx/source/ryuldn/proxy/ldn_proxy_socket.cpp:65-403 | two joined ends stay paired throughout a run if and only if no step of it parts them |
| `Handshakes.StayPairedInCalls` | ryuldn_nx/source/ryuldn/proxy/ldn_proxy_socket.cpp:65-403 | if the connecting end is left alone, that is: if and only if the accepted end is not sent from, bound, disconnected or closed |
| `Handshakes.HandshakeCompletes` | ryuldn_nx/source/ryuldn/proxy/ldn_proxy_socket.cpp:98-265 | from any reachable situation with a listener, a bound socket and free ports, Connect, delivery, Accept and delivery join the connecting socket and a new one |
| `Handshakes.ListenerOpens` | ryuldn_nx/source/ryuldn/proxy/ldn_proxy_socket.cpp:206-301 | a bound socket told to listen does, where it is bound; an unbound one does not |
| `Handshakes.ConnectExact` | ryuldn_nx/source/ryuldn/proxy/ldn_proxy_socket.cpp:252-265 | a request is sent exactly by a bound socket that does not listen, from the host's address to the end asked for |
| `Handshakes.CloseExact` | ryuldn_nx/source/ryuldn/proxy/ldn_proxy_socket.cpp:226-250 | a closed socket neither listens nor is connected, and its port stays taken |
| `ReceiveQueue.TcpPullExact` | ryuldn_nx/source/ryuldn/proxy/ldn_proxy_socket.cpp:315-346 | a TCP read that finds data loses none if and only if it does not peek into a packet larger than a non-empty buffer |
| `ReceiveQueue.LatePullExact` | ryuldn_nx/source/ryuldn/proxy/ldn_proxy_socket.cpp:363-375 | a read that waited is lossless if and only if it peeks or the packet fits |
| `ReceiveQueue.ReadMeaning` | ryuldn_nx/source/ryuldn/proxy/ldn_proxy_socket.cpp:308-375 | every read hands over the front of the oldest packet as far as the buffer goes, with its source, or an error for an oversized UDP datagram; and what it leaves queued |
| `ReceiveQueue.TcpConservation` | ryuldn_nx/source/ryuldn/proxy/ldn_proxy_socket.cpp:109-375 | over every run of reads that TcpPullExact and LatePullExact call lossless, peeks and waits among them, bytes returned followed by bytes queued are the bytes accepted, in order |
| `ReceiveQueue.UdpConservation` | ryuldn_nx/source/ryuldn/proxy/ldn_proxy_socket.cpp:109-375 | over every run, peeks and waits included, datagrams come out in order with their source, whole if they fit, and only oversized ones are cut or dropped |
| `ProxySockets.LdnProxy.UnregisterSocket` | ryuldn_nx/source/ryuldn/proxy/ldn_proxy.cpp:101-105 | removes every listing of the socket and no other |
| `ProxySockets.LdnProxy.HandleConnectionRequest` | ryuldn_nx/source/ryuldn/proxy/ldn_proxy.cpp:107-153 | each socket on the port gets the request once per registration |
| `ProxySockets.LdnProxy.HandleConnectionResponse` | ryuldn_nx/source/ryuldn/proxy/ldn_proxy.cpp:107-159 | each socket on the port reacts once, however often it is registered |
| `ProxySockets.ReactionExact` | ryuldn_nx/source/ryuldn/proxy/ldn_proxy_socket.cpp:125-142 | a response is for a pending connect of its protocol and port; it completes it, or refuses it from address 0 |
| `ProxySockets.LdnProxySocket.EnsureLocalEndpoint` | ryuldn_nx/source/ryuldn/proxy/ldn_proxy_socket.cpp:65-82 | socket and port pool become what the value model says |
| `ProxySockets.LdnProxySocket.Bind` | ryuldn_nx/source/ryuldn/proxy/ldn_proxy_socket.cpp:206-224 | socket and port pool become what the value model says |
| `ProxySockets.LdnProxySocket.Connect` | ryuldn_nx/source/ryuldn/proxy/ldn_proxy_socket.cpp:252-265 | a request leaves from the new endpoint exactly when connecting is allowed |
| `ProxySockets.LdnProxySocket.HandleConnectResponse` | ryuldn_nx/source/ryuldn/proxy/ldn_proxy_socket.cpp:125-142 | only a pending connect reacts: completed, or refused when the source is 0 |
| `ProxySockets.LdnProxySocket.Accept` | ryuldn_nx/source/ryuldn/proxy/ldn_proxy_socket.cpp:148-203 | null unless listening; the first request addressed here yields a registered socket that answers it, if there is memory; others are dropped |
| `ProxySockets.LdnProxySocket.AsAccepted` | ryuldn_nx/source/ryuldn/proxy/ldn_proxy_socket.cpp:98-107 | connected to the requester from a fresh port, announced to it |
| `ProxySockets.LdnProxySocket.SendTo` | ryuldn_nx/source/ryuldn/proxy/ldn_proxy_socket.cpp:391-403 | the endpoint sent from; an unbound socket has moved to it; an unconnected stream sends nothing and stays |
| `ProxySockets.LdnProxySocket.Disconnect` | ryuldn_nx/source/ryuldn/proxy/ldn_proxy_socket.cpp:282-291 | tells the other end, once, and forgets it; what was queued stays |
| `ProxySockets.LdnProxySocket.Close` | ryuldn_nx/source/ryuldn/proxy/ldn_proxy_socket.cpp:226-250 | no longer routed to; the other end is told once; the port stays taken |
| `ProxySockets.LdnProxySocket.IncomingData` | ryuldn_nx/source/ryuldn/proxy/ldn_proxy_socket.cpp:109-117 | queues data unless closed or an unwanted broadcast |
| `ProxySockets.LdnProxySocket.ReceiveFrom` | ryuldn_nx/source/ryuldn/proxy/ldn_proxy_socket.cpp:308-381 | the immediate and the late read of the queue model, with every error path, before the wait and after it |
| `Bsd.SelectMeaning` | ryuldn_nx/source/bsd_mitm_service.cpp:384-515 | each output set is the descriptors asked about, below nfds, that are ready on their own side |
| `Bsd.BehindExact` | ryuldn_nx/source/bsd_mitm_service.cpp:103-126 | the socket behind a descriptor is the one of its virtual entry, or a blank one once there is a proxy |
| `Bsd.CountIsSize` | ryuldn_nx/source/bsd_mitm_service.cpp:428-432 | counting the flags counts the distinct ready descriptors |
| `Bsd.ScannedIs` | ryuldn_nx/source/bsd_mitm_service.cpp:388-426 | the first pass, descriptor by descriptor, computes the sets of the specification |
| `Bsd.BsdMitmService.VirtualPass` | ryuldn_nx/source/bsd_mitm_service.cpp:388-426 | virtual answers, sets left for the real service, and whether it is needed |
| `Bsd.BsdMitmService.MergePass` | ryuldn_nx/source/bsd_mitm_service.cpp:488-501 | adds the reported bits and counts each descriptor once |
| `Bsd.BsdMitmService.Select` | ryuldn_nx/source/bsd_mitm_service.cpp:357-517 | error paths leave the sets alone; success gives the merged sets and the number of distinct descriptors in them |
| `BsdPoll.GatherAt` | ryuldn_nx/source/bsd_mitm_service.cpp:573-577 | a real entry is the one at its rank in the gathered array |
| `BsdPoll.RankDistinct` | ryuldn_nx/source/bsd_mitm_service.cpp:573-577 | two real entries have different slots |
| `BsdPoll.VirtualPass` | ryuldn_nx/source/bsd_mitm_service.cpp:544-579 | virtual entries answered in place, real ones gathered with their positions; unreachable without a proxy |
| `BsdPoll.MergePass` | ryuldn_nx/source/bsd_mitm_service.cpp:614-620 | each reply goes back to the entry its slot was gathered from |
| `BsdPoll.CountsAdd` | ryuldn_nx/source/bsd_mitm_service.cpp:569-620 | virtual and real counts add up to the entries that report something |
| `BsdPoll.Poll` | ryuldn_nx/source/bsd_mitm_service.cpp:519-626 | every entry keeps descriptor and events and gets its own side's result; the value returned counts reporting entries; all error paths |
| `BsdPoll.PollMeaning` | ryuldn_nx/source/bsd_mitm_service.cpp:544-620 | bit by bit: input exactly if asked for and readable, output exactly if asked for and writable, an error exactly if there is one, nothing else; a real entry has the report from its own slot |
| `IniText.TrimFixed` | ryuldn_nx/source/ryuldnnx_config.cpp:15-18 | trimming leaves exactly the strings without white space at their ends alone |
| `IniText.TidyExact` | ryuldn_nx/source/ryuldnnx_config.cpp:15-18 | white space is the blank, the tab, the carriage return and the line feed |
| `IniText.TrimsCommute` | ryuldn_nx/source/ryuldnnx_config.cpp:15-18 | trimming left and right commute |
| `IniText.AtoiDigits` | ryuldn_nx/source/ryuldnnx_config.cpp:97-144 | reading a printed number gives it back |
| `IniText.AtoiSigned` | ryuldn_nx/source/ryuldnnx_config.cpp:97-105 | signs and leading white space are understood |
| `IniText.LowerIs` | ryuldn_nx/source/ryuldnnx_config.cpp:91-92 | capital letters become small, other characters stay |
| `IniConfig.ParseEntry` | ryuldn_nx/source/ryuldnnx_config.cpp:77-110 | a written entry is read back as its key and trimmed value |
| `IniConfig.EntryRead` | ryuldn_nx/source/ryuldnnx_config.cpp:77-110 | a key in any case is read as the same key |
| `IniConfig.FileFormat` | ryuldn_nx/source/ryuldnnx_config.cpp:138-151 | the saved text in literals, with the defaults 0.0.0.0 and 30456 |
| `IniConfig.FlagMeaning` | ryuldn_nx/source/ryuldnnx_config.cpp:101-102 | logging is on exactly for true and 1 |
| `IniConfig.NumberMeaning` | ryuldn_nx/source/ryuldnnx_config.cpp:96-107 | a port counts between 1 and 65535, a level between 1 and 5 |
| `IniConfig.CommentsIgnored` | ryuldn_nx/source/ryuldnnx_config.cpp:77-81 | what follows # or ; has no effect |
| `IniConfig.BlanksIgnored` | ryuldn_nx/source/ryuldnnx_config.cpp:15-18 | blanks in front of a line have no effect |
| `IniConfig.HostLength` | ryuldn_nx/source/ryuldnnx_config.cpp:113-117 | fifteen characters of a host are kept |
| `IniConfig.HostAlone` | ryuldn_nx/source/ryuldnnx_config.cpp:63-125 | a file with only a host sets port 30456, logging off and level 3 |
| `IniConfig.WithoutHost` | ryuldn_nx/source/ryuldnnx_config.cpp:63-125 | an empty file changes nothing, and a file without a host leaves host and port |
| `IniConfig.ParseSaved` | ryuldn_nx/source/ryuldnnx_config.cpp:63-151 | the four settings read from a saved file |
| `IniConfig.ParsedHostClean` | ryuldn_nx/source/ryuldnnx_config.cpp:72-112 | no file yields a host with a line break or comment mark |
| `IniConfig.RoundTripExact` | ryuldn_nx/source/ryuldnnx_config.cpp:35-151 | loading what was saved restores all four settings from every starting point if and only if the configuration is storable |
| `IniConfig.SaveInjective` | ryuldn_nx/source/ryuldnnx_config.cpp:138-151 | a saved file tells its host, port and level |
| `IniConfig.SaveLoadSave` | ryuldn_nx/source/ryuldnnx_config.cpp:63-151 | for a one-line host, saving, loading and saving again gives the same text if and only if the saved values survive a load, also for an empty host or port 0 |
| `IniConfig.LdnConfig.Parse` | ryuldn_nx/source/ryuldnnx_config.cpp:63-112 | the line loop is the parse of the lines |
| `IniConfig.LdnConfig.LoadConfigFromIni` | ryuldn_nx/source/ryuldnnx_config.cpp:63-125 | an empty file changes nothing; without a host, host and port stay |
| `IniConfig.LdnConfig.SaveConfigToIni` | ryuldn_nx/source/ryuldnnx_config.cpp:138-151 | the text written |
| `LdnMode.CallbackKeeps` | ryuldn_nx/source/ldn_icommunication.cpp:61-101 | the callback, nested or not, keeps the mode |
| `LdnMode.ConnectionPromotes` | ryuldn_nx/source/ldn_icommunication.cpp:61-76 | a connection promotes AccessPoint and Station, clears the reason, and leaves other states |
| `LdnMode.LossDemotes` | ryuldn_nx/source/ldn_icommunication.cpp:78-101 | a loss demotes a connected mode and leaves the given reason or the one its mode stands for |
| `LdnMode.ServerMessages` | ryuldn_nx/source/ryuldn/ldn_master_proxy_client.cpp:466-486 | connect, reject and disconnect: up, then down once with the stored reason |
| `LdnMode.CallsExact` | ryuldn_nx/source/ldn_icommunication.cpp:243-327 | opening and leaving succeed from one state each, with the state and reason they leave |
| `LdnMode.InitializeExact` | ryuldn_nx/source/ldn_icommunication.cpp:109-240 | initializing fails only for want of memory; finalizing ends Off without a client |
| `LdnMode.DoKeeps` | ryuldn_nx/source/ldn_icommunication.cpp:56-327 | every call and server message keeps all state changes legal |
| `LdnMode.ModesSeparated` | ryuldn_nx/source/ldn_icommunication.cpp:202-327 | in every run an access-point state and a station state have Initialized or Off between them |
| `LdnMode.CloseEndsInitialized` | ryuldn_nx/source/ldn_icommunication.cpp:254-312 | closing succeeds exactly from its own mode, ends in Initialized whether or not the callback fires, and leaves no network up |
| `LdnMode.LossHasReason` | ryuldn_nx/source/ryuldn/ldn_master_proxy_client.cpp:119-133 | in every run a loss of the network leaves a reason if and only if it is not a Finalize that finds the socket closed |
| `LdnService.LdnMasterProxyClient.DisconnectInternal` | ryuldn_nx/source/ryuldn/ldn_master_proxy_client.cpp:327-343 | drops the network once and calls back |
| `LdnService.LdnMasterProxyClient.DisconnectNetwork` | ryuldn_nx/source/ryuldn/ldn_master_proxy_client.cpp:752-766 | the user's reason, then the drop |
| `LdnService.LdnMasterProxyClient.HandleConnected` | ryuldn_nx/source/ryuldn/ldn_master_proxy_client.cpp:466-477 | the server message of the value model, with the callback nested in it |
| `LdnService.LdnMasterProxyClient.HandleSyncNetwork` | ryuldn_nx/source/ryuldn/ldn_master_proxy_client.cpp:478-481 | the server message of the value model, with the callback nested in it |
| `LdnService.LdnMasterProxyClient.HandleDisconnected` | ryuldn_nx/source/ryuldn/ldn_master_proxy_client.cpp:482-486 | the server message of the value model, with the callback nested in it |
| `LdnService.LdnMasterProxyClient.HandleReject` | ryuldn_nx/source/ryuldn/ldn_master_proxy_client.cpp:552-555 | stores the reason the next loss will report; the service sees nothing yet |
| `LdnService.ICommunicationService.OnNetworkChange` | ryuldn_nx/source/ldn_icommunication.cpp:61-101 | the callback of the value model |
| `LdnService.ICommunicationService.CloseAccessPoint` | ryuldn_nx/source/ldn_icommunication.cpp:254-269 | the call of the value model, through the re-entrant callback |
| `LdnService.ICommunicationService.CloseStation` | ryuldn_nx/source/ldn_icommunication.cpp:297-312 | the call of the value model, through the re-entrant callback |
| `LdnService.ICommunicationService.DestroyNetwork` | ryuldn_nx/source/ldn_icommunication.cpp:271-284 | the call of the value model |
| `LdnService.ICommunicationService.Disconnect` | ryuldn_nx/source/ldn_icommunication.cpp:314-327 | the call of the value model |
| `LdnService.ICommunicationService.Finalize` | ryuldn_nx/source/ldn_icommunication.cpp:213-240 | the call of the value model; the client is gone |

## Left out

- Threads, mutexes, events and timeouts: handlers are atomic steps, a borrow is one attempt, and no liveness is claimed (`TryRegisterUser` waits while holding its token lock; a session that stops itself waits for its own thread).
- Whether the pool can lend is fixed during one call of Read: another thread that takes or returns a buffer in the middle of a call is not modelled.
- Parsing payloads into message structures, and dispatch by packet type: the dispatch log holds type and payload.
- `Protocol.RyuLdnProtocol.Read`: after a copy of negative length or a step to before the chunk nothing is claimed, since the program's behaviour is undefined there.
- `SessionPools.SessionPool.Release`: the deletion of a session that is not from the pool is not modelled; no run of the relay reaches it.
- `Handshakes.HandshakeAgreement`: a closed listener closing the sockets it accepted is a separate Close of each.
- `ProxySockets.LdnProxySocket.Close`: the list of accepted sockets is not modelled; each is closed by a Close of its own.
- `ProxySockets.LdnProxySocket.SendTo`: the bytes sent and the missing destination are not modelled, only where they are sent from.
- `ProxySockets.LdnProxySocket.Accept`: the wait for a request, and the list of accepted sockets, are not modelled; null also stands for a call that still waits.
- `LdnService.LdnMasterProxyClient.DisconnectNetwork`: the Disconnect packet to the server is not modelled.
- `ProxySockets.LdnProxySocket.Connect`: the wait for the response and the stored response are not modelled.
- `Transport.EndToEnd`: what the receiver makes of the bytes after a torn packet is not described beyond `TornPackets.GoingOnExact`.
- `VirtualNet.StepKeeps`: a disconnect message from the network is no event of its own; it is a Disconnect call on each socket it is routed to.
- `IniConfig.SaveLoadSave`: hosts with line breaks or comment marks, which no file yields, are left to `IniConfig.RoundTripExact`.
- `Handshakes.UndisturbedExact`: sockets accepted while all ports were taken, which have port 0.
- `Ports`: protocols other than TCP and UDP, for which the proxy hands out the fixed port 49152.
- `Bsd.BsdMitmService.Select`: descriptor sets are mathematical sets, null sets are empty ones; buffers shorter than a set and counts beyond the set size are not modelled.
- `Bsd.SelectMeaning`: what makes a virtual socket readable, writable or in error is a parameter here; the socket's own answers are in `ProxySockets.LdnProxySocket`.
- `BsdPoll.Poll`: poll masks are sets of named bits; a virtual descriptor always has a socket once there is a proxy.
- `IniText.Atoi`: numbers too large for an int are read as their value.
- UPnP, DNS, socket setup, overlay, logging, start-up, the other BSD commands and the remaining message handlers: foreign code, thin forwarding or easy members.
