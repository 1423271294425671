# Verified model of an MPC wallet node

A Dafny model of the parts of a distributed key-generation and signing node that keep state or
compute by convention with other nodes: the peer-to-peer server, its encrypted transport, the
life of a request from admission to decision, the pool of pre-signed nonces and its barrier, the
JSON-RPC client, and the encodings and identities that all nodes must agree on. `dafny verify
dfyconfig.toml` checks all of it.

Each component has a specification made of functions on values, with the properties proved about
it, and where the program works in place, a class or a method with loops that is proved equal to
that specification.

| file | component |
|---|---|
| `Dialer.dfy`, `DialHistory.dfy`, `DialScheduler.dfy` | dial scheduler: specification, heap of recent dials, in-place scheduler |
| `ServerLoop.dfy`, `Server.dfy` | event loop and peer admission: state machine, in-place loop |
| `Bytes.dfy`, `Rlp.dfy`, `Frames.dfy`, `FrameConn.dfy` | RLPx frames: big-endian numbers, message codes, specification, in-place reader-writer |
| `Multiplex.dfy` | allocation of message codes to subprotocols |
| `Lifecycle.dfy` | request records, nonces, the pending and general databases |
| `Approvals.dfy`, `Quorum.dfy`, `LostDisagreement.dfy` | list of approvals, approval latch and decision, a run that loses a disagreement |
| `Barrier.dfy`, `PreSignPool.dfy`, `PreSignSession.dfy`, `PreSignRuns.dfy` | group barrier, pool of pre-sign entries, both together, and runs in which they disagree |
| `RpcDispatch.dfy`, `RpcReconnect.dfy`, `RpcRuns.dfy` | dispatch loop and subscription forwarding of the RPC client, its reconnects, and runs in which they leave a caller waiting |
| `SaveData.dfy`, `NodeIds.dfy`, `ChildKeys.dfy`, `SignatureString.dfy` | save string, node ids, child keys, signature string |

What is taken as given:

- Concurrency is modelled by state machines whose steps are the atomic handlers; every theorem about
  runs holds for every order of steps. Map iteration order, clock readings, random table nodes,
  storage failures and network behaviour are parameters of the steps.
- Hash, cipher, MAC, snappy, ECDH, HMAC and curve operations are arbitrary functions, with the laws
  that are used stated in a predicate (`ValidCrypto`, `ValidSuite`): output lengths, snappy as an
  inverse pair within its documented size bound, ECDH symmetry, the group law.
- Request keys, nonce keys and announcement texts are hashes or JSON of structured data; they are
  represented by that data, so different data never collide. The two pending databases are one map
  whose keys carry the kind of request.
- Texts that the program compares without regard to case are represented by their case-folded form,
  except where the difference matters (`NodeIds`, and the answer "AGREE" in `Quorum`).
- An approval by an account that is the first field of the group signatures is handled like one without
  an enode; the source indexes before the first field there and panics.
- A dial task returns only after its connection was added or discarded, the resolver returns a node
  with the requested id, and clock readings do not go back.

Results that differ from a first reading of the program; each has its exact condition and a lemma at
an input or run that fails:

- A node that takes part in a failed pre-sign session can keep or use the entry, and a node in a
  successful one can lack it: it holds the entry exactly if its put wrote it, nobody else took or
  overwrote it, and its barrier succeeded or the delete did not go through (`EveryRunSettles`,
  `KeptAfterFailure`, `UsedDespiteFailure`, `LacksDespiteSuccess`).
- A disagreement is final exactly if its record could be read and deleted, or was decided before;
  otherwise the sender can agree later and the request succeed (`DisagreementIsFinal`,
  `DisagreementIsLost`).
- A nonce that cannot be read counts as missing. Nonces stay consecutive and requests unique in
  exactly the runs that admit no nonce 0 in that situation (`Lifecycle.EveryRunKeepsInv`,
  `ReplayExample`).
- A record is deleted from the pending database before it is stored in the general one. A saved
  request is never lost in exactly the runs in which no decision and no cleanup fails between the two
  (`NoRequestIsLost`, `LostExample`), and cleanup times out all pending requests exactly if no
  database call fails on them (`CleanUpTimesOutPending`, `CleanUpFails`).
- A reconnect takes the read error of the old connection itself. Nobody waits on a dead connection in
  exactly the runs in which no reconnect meets a live read loop that somebody waits for
  (`EveryRunServes`, `WaiterIsStranded`), and the loop gets stuck exactly when that read loop has a
  batch to hand over (`StuckIff`, `GetsStuckForEver`).
- `GetTotalCount` is documented as the number of entries; when all slots can be read it is the occupied
  prefix, and equals the number of entries exactly when there is no gap (`TotalCountIffNoGap`,
  `GapIsNotCounted`).
- The frame size is a 32-bit sum of the code length and the size the sender announces; an accepted
  message is delivered exactly if that size is true and the sum does not wrap, or, compressed, if it
  is at most 2^24-1 bytes long (`DeliveredIff`, `WrappedExample`).
- The save string is recovered exactly when no field contains the separator (`RecoveredIff`,
  `SeparatorValueIsLost`); fields are raw bytes of numbers, so nothing in the format excludes it.
- `GetNtildePrivDataByIndexFromSaveData` checks for one field less than it reads; it runs out of range
  exactly for a node count that is too large by an amount fixed by the separators in the fields
  (`PanicsIff`, `FiveSeparatorsPanic`).
- The inbound gate compares enodes of the group without regard to case but hashes them as they are;
  it identifies senders exactly when at most one listed enode lacks its lower-case form
  (`IdentifiesIff`, `UpperCaseIsAmbiguous`).
- The table of key generation is written before a message is checked; it is right exactly if the
  round-0 messages, up to the first one that fails a check, carry their own ids (`KeygenTableRightIff`,
  `ForeignIdStays`).

## Model

| member | source | states |
|---|---|---|
| `Dialer.NewTasksCorrect` | p2p/dial.go:172-261 | One `newTasks` call, for every order of the static map and every answer of the discovery table: the new dial tasks are exactly the new entries of `dialing`, one each; they are for nodes that are neither connected, recently dialed nor this node; history loses exactly the expired entries; at most one lookup starts, and only if none runs; a timer starts only alone on an idle server; with history left an idle server gets a task; dynamic dials stay within `maxDynDials` |
| `Dialer.NewTasksIgnoresMapOrder` | p2p/dial.go:172-261 | The scheduler state after `newTasks` is the same for every iteration order of the static map |
| `Dialer.NewTasksEffect` | p2p/dial.go:172-261 | One `newTasks` call in terms of the states before and after it: expired entries leave the history, exactly the static nodes that may be dialed are, those that are not allowed are dropped, and the bootnode, the random nodes and the lookup results that it tries are all dialed unless connected, recently dialed, this node or outside the whitelist; nobody else is; what is not tried stays buffered, a lookup starts exactly if the buffer does not cover the need, and the timer runs to the least expiry |
| `Dialer.DialStaticClosed` | p2p/dial.go:203-213 | The loop over the static nodes, in any order, reaches a closed form: exactly the dialable static nodes are dialed and exactly the self/not-whitelisted ones are dropped |
| `Dialer.DialStaticKeepsPlan` | p2p/dial.go:203-213 | Dialing static nodes adds one task per new `dialing` entry and spends no dynamic budget |
| `Dialer.DialBootnodeKeepsPlan` | p2p/dial.go:214-225 | The bootnode fallback keeps tasks and `dialing` in correspondence and stays within the dynamic budget |
| `Dialer.DialBootnodeDials` | p2p/dial.go:214-225 | Without peers, with dials needed and after 20 seconds the first bootnode is tried and put last; otherwise none |
| `Dialer.DialRandomKeepsPlan` | p2p/dial.go:226-236 | Dials of random table nodes keep the correspondence and the budget |
| `Dialer.DialRandomDials` | p2p/dial.go:226-236 | Exactly the first half-of-the-need random nodes are tried, each dialed unless it may not be |
| `Dialer.DialLookupKeepsPlan` | p2p/dial.go:237-245 | Dials from the lookup buffer keep the correspondence and the budget |
| `Dialer.DialLookupDials` | p2p/dial.go:237-245 | A prefix of the buffer is tried, each node of it dialed unless it may not be, and the rest stays |
| `Dialer.DialLookupStops` | p2p/dial.go:237-245 | The prefix is everything if dials are still needed, nothing if none was, and else ends with the dial that met the need |
| `Dialer.LaunchLookupKeepsPlan` | p2p/dial.go:246-250 | A lookup is launched exactly when the buffer does not cover the need and none is running, at most once, and the plan is kept |
| `Dialer.LookupResultsAreTried` | p2p/dial.go:288-297 | Every node a lookup found is, after the next call, being dialed, or may not be, or is in the buffer |
| `Dialer.RecentlyDialedIff` | p2p/dial.go:288-297 | A node whose dial completed counts as recently dialed in exactly the calls of the next 30 seconds |
| `Dialer.ReaddedIsDialed` | p2p/dial.go:154-170 | Removing and adding a static node makes the next call dial it at once, however recently it was dialed, unless it is connected or not allowed |
| `Dialer.RemoveStaticEffect` | p2p/dial.go:162-170 | A removed node is neither static nor in the dial history, and everything else stays |
| `Dialer.StaticTable` | p2p/dial.go:130-145 | Exactly the ids of the configured static nodes are keys, each with a configured node of that id |
| `Dialer.StaticTableKeepsLast` | p2p/dial.go:130-145 | Of several configured nodes with one id the last is registered |
| `DialHistory.RootIsMin` | p2p/dial.go:402-404 | The first element of the heap has the least expiry |
| `DialHistory.Up` | p2p/dial.go:405-408 | Sifting up after a push restores heap order and keeps the entries |
| `DialHistory.Down` | p2p/dial.go:409-417 | Sifting down after a removal restores heap order and keeps the entries |
| `DialHistory.RemoveAt` | p2p/dial.go:409-417 | Removing position i of the heap leaves a heap with exactly that entry gone |
| `DialHistory.History.Add` | p2p/dial.go:405-408 | A push keeps a min-heap and adds exactly that entry, also when the id already has one |
| `DialHistory.History.Remove` | p2p/dial.go:409-417 | Keeps the heap and removes exactly the first entry of the id in the heap's order, or reports that there is none |
| `DialHistory.History.Contains` | p2p/dial.go:418-425 | Finds an id exactly when some entry has it |
| `DialHistory.History.Min` | p2p/dial.go:402-404 | Returns an entry with the least expiry of all |
| `DialHistory.History.Expire` | p2p/dial.go:426-431 | Removes exactly the entries with expiry before now |
| `DialScheduler.CountDyn` | p2p/dial.go:187-199 | The counting loops compute the number of dynamically connected or dialing entries |
| `DialScheduler.Scheduler.constructor` | p2p/dial.go:130-145 | A new scheduler holds the configured static nodes and nothing else |
| `DialScheduler.Scheduler.AddStaticNode` | p2p/dial.go:154-160 | In-place registration of a static node equals its specification |
| `DialScheduler.Scheduler.RemoveStaticNode` | p2p/dial.go:162-170 | In-place removal forgets the node in the static map and in the history |
| `DialScheduler.Scheduler.Check` | p2p/dial.go:271-286 | The verdict on dialing a node, with the reasons in the order of the source |
| `DialScheduler.Scheduler.Finish` | p2p/dial.go:288-297 | For every finished task, dialing or not: a dial leaves `dialing` and its entry is pushed with its expiry, a lookup fills the buffer; heap and map of recent dials stay in step unless the id already had an entry |
| `DialScheduler.Scheduler.NextTasks` | p2p/dial.go:172-261 | The in-place, step-by-step `newTasks` computes the plan of the specification: same tasks, same state |
| `DialScheduler.Scheduler.DialStatics` | p2p/dial.go:203-213 | The in-place loop over the static map equals its specification |
| `DialScheduler.Scheduler.DialLookups` | p2p/dial.go:237-245 | The in-place loop over the lookup buffer equals its specification |
| `DialScheduler.Scheduler.AddTimer` | p2p/dial.go:252-259 | The timer for the least expiry is added exactly when nothing else runs or starts and history is not empty |
| `ServerLoop.EveryRunKeepsInv` | p2p/server.go:577-720 | In every reachable state of the server loop: live dial tasks and `dialing` correspond one to one; at most 16 tasks run; at most `maxDialedConns` distinct nodes are dynamically dialed or connected; `inboundCount` is the number of inbound peers; each id has one live peer; both admission limits hold; some task runs while history is not empty |
| `ServerLoop.NextKeepsInv` | p2p/server.go:623-720 | Every event followed by `scheduleTasks` keeps that invariant |
| `ServerLoop.StartedInv` | p2p/server.go:577-625 | The invariant holds after the first scheduling of a started server |
| `ServerLoop.NoNodeDialedTwice` | p2p/server.go:594-621 | No two queued, running or finished-but-unreceived tasks dial the same node |
| `ServerLoop.TaskFinishesKeepsCore` | p2p/server.go:604-612 | A finishing task always finds room in the `taskdone` channel, and the invariant is kept |
| `ServerLoop.NewTasksOnlyWithEmptyQueue` | p2p/server.go:613-621 | `newTasks` is asked only when the queue is empty |
| `ServerLoop.DialSpacing` | p2p/dial.go:288-297 | Between the completion of a node's dial and the creation of its next dial task lie more than 30 seconds, unless the node was removed from the static list in between |
| `ServerLoop.NewDialIsLate` | p2p/dial.go:252-297 | A dial created by a scheduling step is for a node whose recorded completion is more than 30 seconds old |
| `ServerLoop.AdmissionLimits` | p2p/server.go:742-765 | A connection admitted by the checks keeps peers admitted as neither trusted nor static within `MaxPeers` and untrusted inbound peers within `maxInboundConns()` |
| `ServerLoop.AdmittedIff` | p2p/server.go:742-765 | A connection is admitted exactly if its node is new and not this one, and each limit holds or it is exempt: trusted and static from `MaxPeers`, trusted from the inbound limit; and which reason is given |
| `ServerLoop.TrustedAlwaysPasses` | p2p/server.go:672-684 | Connections of trusted nodes, and of static nodes that were dialed, pass however many peers there are |
| `ServerLoop.HandshakeEffect` | p2p/server.go:672-684 | At the first checkpoint a connection goes on, marked as trusted if its node is, exactly if it may connect so marked |
| `ServerLoop.PeersEffect` | p2p/server.go:685-718 | An admitted connection is a peer with its flags and is counted, a dropped peer is gone and uncounted, and no other peer changes |
| `ServerLoop.PeerStays` | p2p/server.go:623-720 | A peer stays connected, with its flags but for the trust in it, until its goroutine reports the end |
| `ServerLoop.ConnectedIff` | p2p/server.go:623-720 | In every run a node is connected exactly if it was at the start or some step admitted its connection, and no later step reported the end of its goroutine |
| `ServerLoop.HandshakingIff` | p2p/server.go:672-711 | The connections between the two checkpoints are those that passed the first, as marked there, until they are added or fail |
| `ServerLoop.StaticIff` | p2p/server.go:631-643 | The static nodes are those added and not removed since, as added or last resolved |
| `ServerLoop.TrustedIff` | p2p/server.go:644-661 | The trusted nodes are those added and not removed since |
| `ServerLoop.TasksEffect` | p2p/server.go:604-671 | A finished task waits once more to be received, a received one is neither waiting nor running, and no other event touches a task |
| `ServerLoop.QueueIsFirstComeFirstServed` | p2p/server.go:604-616 | Queued tasks start in their order, none is lost, and as many start as have room among 16 |
| `ServerLoop.AddedStaticIsDialed` | p2p/server.go:613-636 | A node added to the static list is dialed by the scheduling that follows unless it may not be or 16 tasks run |
| `ServerLoop.AddPeerKeepsCore` | p2p/server.go:685-711 | Admitting or refusing a peer keeps the invariant, also while its node is still counted as dialing |
| `ServerLoop.DelPeerKeepsCore` | p2p/server.go:712-718 | Dropping a peer keeps the invariant |
| `ServerLoop.TaskReceivedKeepsCore` | p2p/server.go:666-671 | Receiving a finished task keeps the invariant |
| `ServerLoop.ScheduleKeepsInv` | p2p/server.go:613-621 | `scheduleTasks` keeps the invariant and leaves the queue empty unless 16 tasks run |
| `ServerLoop.DialShare` | p2p/server.go:771-780 | With discovery and dialing the number n of dialed connections is `MaxPeers` divided by the dial ratio, rounded down, and the inbound connections are the rest |
| `Server.Loop.constructor` | p2p/server.go:577-592 | The loop variables of a starting server |
| `Server.Loop.DelTask` | p2p/server.go:595-602 | Removes the first occurrence of a task from the running list |
| `Server.Loop.StartTasks` | p2p/server.go:604-612 | Starts tasks in order while fewer than 16 run and returns the rest |
| `Server.Loop.ScheduleTasks` | p2p/server.go:613-621 | The in-place scheduling equals the state machine's scheduling |
| `Server.Loop.OnHandshake` | p2p/server.go:672-684 | The trusted flag is set before the checks, and the verdict is that of the checks on the marked connection |
| `Server.Loop.OnNewPeer` | p2p/server.go:685-711 | Adds the peer and counts it when inbound, exactly when the checks pass |
| `Server.Loop.OnDrop` | p2p/server.go:712-718 | Deletes the peer and uncounts it when inbound |
| `Server.Loop.Trust` | p2p/server.go:644-661 | Trust changes update the set and the flag of a connected peer, and nothing else |
| `Server.Loop.Iterate` | p2p/server.go:623-720 | One iteration of the imperative loop is one step of the state machine |
| `Rlp.DecodeEncode` | p2p/rlpx.go:617-618 | The encoded message code is a prefix code: whatever follows, decoding returns the code and exactly what follows |
| `Rlp.TruncatedFails` | p2p/rlpx.go:709-713 | A cut-off message code does not decode |
| `Rlp.DecodesOnlyEncodings` | p2p/rlpx.go:709-713 | Only canonical encodings decode |
| `Frames.CipherTwice` | p2p/rlpx.go:706-708 | Decryption at the same keystream position inverts encryption |
| `Frames.CipherAppend` | p2p/rlpx.go:647-660 | Encrypting in pieces equals encrypting at once |
| `Frames.Int24RoundTrip` | p2p/rlpx.go:751-759 | `readInt24` inverts `putInt24` on all 24-bit sizes |
| `Frames.FrameRoundTrip` | p2p/rlpx.go:631-708 | A reader in the writer's state reads back the content and ends in the writer's next state, leaving the following bytes untouched |
| `Frames.FrameFormat` | p2p/rlpx.go:631-668 | A frame byte by byte: size in 24 bits, C2 80 80 and zeros as header, header and zero-padded body xored with the keystream, and after each the tag, half the sum over what was absorbed and the seed xored with the enciphered half sum |
| `Frames.MacStateBindsSeed` | p2p/rlpx.go:741-749 | Two updates from one state lead to the same state if and only if the first 16 bytes of their seeds are equal |
| `Frames.TagsBindFrame` | p2p/rlpx.go:670-709 | Two wires accepted from one state with the same tags carry the same frame, bit by bit, or the sums of what was absorbed for them collide on 16 bytes |
| `Frames.ForgedHeaderFails` | p2p/rlpx.go:670-685 | A header exchanged under its tag is refused, or the sums collide |
| `Frames.ReadFailures` | p2p/rlpx.go:670-709 | Which error a read ends with, what it has used up and the state it leaves, by the length of the wire and the two tags |
| `Frames.CutOffFails` | p2p/rlpx.go:670-709 | A frame that is cut off anywhere is not read |
| `Frames.MsgRoundTrip` | p2p/rlpx.go:617-737 | A message that is not refused and is sound (compressed and at most 2^24-1 bytes, or of true size without 32-bit wrap) is read back unchanged, and both ends stay in step |
| `Frames.DeliveredIff` | p2p/rlpx.go:617-737 | An accepted message, whatever its size field, is delivered to a reader in step if and only if it is sound |
| `Frames.WrappedExample` | p2p/rlpx.go:631-637 | Code 0 with 2^32-1 bytes and no compression is accepted, is framed with size 0, and its read fails |
| `Frames.WrappedFails` | p2p/rlpx.go:633-713 | A frame whose 32-bit size wrapped around is never read as a message |
| `Frames.RefusedIff` | p2p/rlpx.go:619-636 | A message is refused exactly if the 32-bit sum of code length and size, or with compression the claimed size, does not fit into 24 bits |
| `Frames.UntrueSizeShows` | p2p/rlpx.go:617-668 | A message that announces another size than its payload has is never read back with the payload it had |
| `Frames.ReadExtends` | p2p/rlpx.go:670-737 | Later bytes never change what has been read |
| `Frames.WriteKeepsInFlight` | p2p/rlpx.go:617-668 | A write appends its message to what is in flight, with the reader's state after each message, if and only if the message is sound |
| `Frames.WriteConserves` | p2p/rlpx.go:617-668 | A write keeps delivered plus in flight equal to what was accepted if and only if it is refused or sound |
| `Frames.ReadConserves` | p2p/rlpx.go:670-737 | A read delivers exactly the next accepted message, or nothing when all are delivered, and conserves the rest |
| `Frames.ConservedIff` | p2p/rlpx.go:617-737 | Over every interleaving of writes and reads messages are conserved at all times if and only if every message that is not refused is sound |
| `Frames.EveryChannelDelivers` | p2p/rlpx.go:617-737 | The same for a channel in any conserved state: prefix delivery, lock step after each message, and draining hold throughout exactly for sound writes |
| `Frames.EveryRunDelivers` | p2p/rlpx.go:260-289 | After mirrored handshakes, in either direction, for every interleaving of writes and reads: conserved at all times if and only if all accepted messages are sound; then what is delivered is a prefix of what was accepted, after k deliveries the reader's state is the writer's after its k-th accepted write, and reading on delivers everything and leaves both ends equal |
| `Frames.DrainDeliversAll` | p2p/rlpx.go:670-737 | Reading on delivers everything accepted and leaves both ends with equal positions and MACs |
| `Frames.MirroredSecrets` | p2p/rlpx.go:260-289 | Both ends derive the same keys, and each side's egress MAC is the other's ingress MAC |
| `Frames.SecretsFormat` | p2p/rlpx.go:260-289 | The key schedule, and which nonce and which handshake message each MAC state starts with |
| `FrameConn.FrameRW.Copy` | p2p/rlpx.go:647-655 | Copying a payload in pieces of any size has the effect of one write |
| `FrameConn.FrameRW.WriteMsg` | p2p/rlpx.go:617-668 | The in-place writer equals the specification however the payload is chunked; a refused write changes nothing |
| `FrameConn.FrameRW.ReadMsg` | p2p/rlpx.go:670-737 | The in-place reader returns the specified message or error, and leaves the specified state and unread bytes in both cases |
| `FrameConn.FrameRW.WriteFrame` | p2p/rlpx.go:631-667 | Header, tags, body and padding as specified |
| `FrameConn.FrameRW.ReadFrame` | p2p/rlpx.go:670-709 | Reads and authenticates one frame, or fails at the same check as the specification with the same state and unread bytes |
| `FrameConn.FrameRW.TagEgress` | p2p/rlpx.go:741-749 | The in-place MAC update equals its specification |
| `Multiplex.MatchProtocols` | p2p/peer.go:322-344 | For every list of protocols and capabilities: the result holds, for exactly the shared names, the highest shared version, and ranges that follow each other in the order of the names, in 64-bit arithmetic |
| `Multiplex.FindProtocol` | p2p/peer.go:328-341 | Finds the first listed protocol of a capability, if there is one |
| `Multiplex.SortCaps` | p2p/protocol.go:75-81 | Capabilities sorted by name and version, the same multiset |
| `Multiplex.CapOrderIsTotal` | p2p/protocol.go:79-81 | The order by name and version is a strict total order on capabilities |
| `Multiplex.MatchNewVersion` | p2p/peer.go:331-337 | A higher version takes over the range of the older one: the old length is reverted |
| `Multiplex.MatchNewName` | p2p/peer.go:335-337 | A new name takes the range after the last one |
| `Multiplex.PeersAgree` | p2p/peer.go:322-344 | Two peers that match each other's advertised capabilities arrive at the same protocols, versions and offsets |
| `Multiplex.SharedIsSymmetric` | p2p/server.go:523-526 | A capability is shared from one side exactly when it is shared from the other |
| `Multiplex.RangesDisjoint` | p2p/peer.go:371-378 | No message code belongs to two protocols |
| `Multiplex.RangesCover` | p2p/peer.go:371-378 | A code is handled by some protocol exactly when it lies in [16, end) |
| `Multiplex.GetProto` | p2p/peer.go:371-378 | Returns a protocol that handles the code, or none if there is none |
| `Multiplex.GetProtoIgnoresOrder` | p2p/peer.go:371-378 | The protocol found does not depend on the iteration order of the map |
| `Multiplex.MessageReachesItsProtocol` | p2p/peer.go:390-417 | A message written by protocol X with code c is handled at the remote end by X alone and read there with code c; codes at or above the length are refused |
| `Multiplex.PayloadReachesItsProtocol` | p2p/peer.go:273-307 | Through the frame layer: the payload and code written by X come out at the remote X, with both cipher states equal |
| `Lifecycle.AdmittedIff` | smpc/api_reqaddr.go:190-234 | Exactly the requests that are not pending, carry the next nonce, have their group signatures and can be stored are admitted; an admitted one is pending with the fields it came with and its nonce is the last one |
| `Lifecycle.SavedIff` | smpc/api_reqaddr.go:190-234 | In a run a request is saved exactly when it is so admitted, and nothing else that is pending changes |
| `Lifecycle.EveryRunKeepsInv` | smpc/accept.go:209-355 | In every run of requests, decisions, restarts and failing reads and writes of the databases, at all times: accepted nonces of an account are 0, 1, 2, ..., each request is saved at most once, no key is in both databases, and pending records and only they have status Pending - if and only if no request with nonce 0 is admitted while the nonce of its account exists but cannot be read |
| `Lifecycle.NextKeepsInv` | smpc/accept.go:209-355 | A step keeps that invariant if and only if it is not such an admission |
| `Lifecycle.AlwaysInvIff` | smpc/reqaddr.go:50-67 | The same from every state that satisfies the invariant |
| `Lifecycle.ReplayBreaksInv` | smpc/reqaddr.go:59-63 | Admitting nonce 0 after a failed read of the nonce breaks the invariant |
| `Lifecycle.ReplayExample` | smpc/localdb.go:67-76 | A request is admitted and decided, the nonce read fails, the same request is admitted again: it is saved twice and is in both databases |
| `Lifecycle.AcceptNonce` | smpc/api_reqaddr.go:201-219 | A request with the next nonce is new, and accepting it keeps nonces consecutive and the stored nonce the last one |
| `Lifecycle.NextNonceIsFresh` | smpc/reqsign.go:133-149 | A key that carries the next nonce was never accepted before |
| `Lifecycle.BeginKeepsInv` | smpc/reqsign.go:109-166 | Admission keeps the invariant, also when it fails after the nonce was stored or a read fails, unless the nonce is replayed |
| `Lifecycle.DecideKeepsInv` | smpc/accept.go:430-533 | A decision keeps the invariant, also when a database call fails midway |
| `Lifecycle.ClosedForEver` | smpc/accept.go:247-355 | Once a request has left the pending database, no later step without replay brings it back or changes its record |
| `Lifecycle.DecidedNeverChanges` | smpc/accept.go:247-355 | A record in the general database is the same after every run without replay |
| `Lifecycle.LateDecision` | smpc/accept.go:249-264 | Deciding a decided request has no effect and succeeds exactly when the general database can be read; deciding an unknown one fails without effect |
| `Lifecycle.AlreadyDecided` | smpc/accept.go:249-264 | In any database, a readable general record that is final, or carries a signature, stops the decision with success; any other does not |
| `Lifecycle.CleanUpTimesOutPending` | smpc/localdb.go:745-838 | Startup cleanup turns exactly the visited pending records into Timeout, keeps their other fields and changes nothing else, if and only if on each of them the read, the delete and the put succeed |
| `Lifecycle.CleanUpEffect` | smpc/localdb.go:745-838 | For all databases and storage failures: a visited pending record stays if its read or delete fails, becomes a timeout if all calls succeed, is in neither database if only the put fails, and nothing else changes |
| `Lifecycle.CleanUpFails` | smpc/localdb.go:745-788 | One pending record: a failed delete leaves it pending, a failed put loses it |
| `Lifecycle.NoRequestIsLost` | smpc/accept.go:335-352 | At every time of every run with storage failures, every saved request is pending or decided, if and only if no decision and no cleanup deletes a pending record that it then cannot store |
| `Lifecycle.ConservedIff` | smpc/accept.go:247-355 | The same from every state in which nothing is lost |
| `Lifecycle.NextConservesIff` | smpc/accept.go:335-352 | A step keeps every saved request if and only if it is not such a decision or cleanup |
| `Lifecycle.LostExample` | smpc/accept.go:335-352 | A request is saved and decided, the put after the delete fails, and it is in neither database |
| `Lifecycle.MergeLaws` | smpc/accept.go:271-319 | Two updates in a row are one update in which the later texts win; an update is idempotent, an empty one changes nothing, and the status leaves Pending exactly for a text that is neither empty nor Pending |
| `Lifecycle.MergeTakesGiven` | smpc/accept.go:271-319 | For each of the ten fields: a given text becomes the field's value, and without one the field is kept |
| `Lifecycle.ResultIsStored` | smpc/accept.go:321-352 | A request decided with a final status and a result is in the general database with that status and result, and its unnamed fields are kept |
| `Lifecycle.DecisionIsStored` | smpc/accept.go:321-352 | A decision that takes effect writes the merged record to the database that its status calls for |
| `Lifecycle.RecordIsMerged` | smpc/accept.go:247-355 | At every time of a run without replay a saved request's record is the one it had with all its updates merged in order |
| `Lifecycle.Store.StartRequest` | smpc/api_reqaddr.go:190-234 | In-place admission equals the specification, error by error |
| `Lifecycle.Store.AcceptRequest` | smpc/accept.go:247-355 | In-place decision equals the specification, with its failure paths |
| `Lifecycle.Store.CleanUpAll` | smpc/localdb.go:745-788 | The in-place cleanup loop equals its specification |
| `Approvals.FeedReplacesOlder` | smpc/api_reqaddr.go:661-707 | On a list with one entry per sender, a message replaces the older entry of its sender or changes nothing at all |
| `Approvals.FilterEffect` | smpc/api_reqaddr.go:661-707 | On any list the loop removes the sender's older messages up to the first message it stops at, and succeeds exactly if it stops nowhere |
| `Approvals.FeedKeepsClean` | smpc/api_reqsign.go:1088-1134 | The list keeps at most one entry per sender |
| `Approvals.ListIsNewest` | smpc/api_reqaddr.go:661-707 | For every sequence of arrivals the list holds exactly the newest message of each sender, the first to arrive among equally new ones |
| `Approvals.OrderDoesNotMatter` | smpc/api_reqsign.go:1088-1134 | Arrivals with the same set of messages, in any order and repetition, leave the same entries when each sender's times differ |
| `Approvals.ApprovalList.RemoveOlder` | smpc/api_reqaddr.go:661-707 | The loop that removes list elements while walking equals its specification |
| `Approvals.ApprovalList.Take` | smpc/msg.go:1698-1723 | Look-up, filter and push-back together equal the specification |
| `Quorum.IsValidAccept` | smpc/reqaddr.go:205-243 | True exactly when the account stands behind the enode of a group node in a well-sized signature string |
| `Quorum.ValidAcceptIff` | smpc/reqaddr.go:205-243 | An account may approve exactly if the fields are a count n >= 1 and n pairs and it stands behind the enode of a group node |
| `Quorum.GetENodeByFrom` | smpc/reqaddr.go:245-276 | The field before the first field equal to the account, nothing if there is none, and an index out of range if it is the first field |
| `Quorum.LookupMeans` | smpc/reqaddr.go:245-276 | The outcome by the position of the account's first occurrence |
| `Quorum.LookupFails` | smpc/reqaddr.go:245-276 | An empty account, an unreadable or zero node count, or a signature list of another length gives no enode |
| `Quorum.ApproverHasENode` | smpc/reqaddr.go:205-276 | With well-formed group signatures every valid approver has an enode |
| `Quorum.EverySession` | smpc/reqaddr.go:278-361 | In every session, for any group signatures: the signal is raised at most once; then the list holds at least the quorum (`NodeCnt` for keygen, `ThresHold` for signing) of entries from different senders, of which at least the quorum less the commands are approvals of different accounts bound to group nodes, and there is a reply; the replies are exactly the newest answers, one per account that is found in the group signatures |
| `Quorum.ApprovedIff` | smpc/reqaddr.go:350-361 | The latch is raised exactly if some approval that was taken, of an account with an enode, brought the list to the quorum |
| `Quorum.EveryApproverReplies` | smpc/reqaddr.go:328-350 | With well-formed group signatures every approval in the list has its reply |
| `Quorum.ApproveKeepsInv` | smpc/reqsign.go:372-472 | One approval keeps list, replies and latch consistent |
| `Quorum.ApproveEffect` | smpc/reqaddr.go:278-361 | What an approval that is refused, outdated or taken does to list, record, latch and signal; an empty answer is recorded as DISAGREE, all but AGREE as a failure |
| `Quorum.RepliesAreNewest` | smpc/reqaddr.go:328-350 | A reply is recorded exactly for the newest approval of its sender |
| `Quorum.DisagreementIsFinal` | smpc/reqaddr.go:310-323 | After an answer other than AGREE was taken, no continuation without replay stores the request as anything but Failure if and only if its record was already out of the pending database or could be read and deleted |
| `Quorum.LostCanSucceed` | smpc/reqaddr.go:318-323 | Otherwise one later decision stores it as a success |
| `LostDisagreement.DisagreementIsLost` | smpc/reqaddr.go:278-361 | A run of a session: the delete after a disagreement fails, the sender agrees later, the latch is raised with unanimous replies, and the request is stored as a success |
| `Quorum.Decide` | smpc/api_reqaddr.go:304-315 | One line per reply with its enode, answer, time and whether it initiated; positive exactly when all replies agree, without regard to case |
| `Quorum.DecisionIsUnanimous` | smpc/accept.go:102-124 | The decision is positive exactly when the newest answer of every approver that is found in the group signatures is an agreement |
| `Quorum.AnswerAgreesIff` | smpc/reqaddr.go:310-318 | An answer counts as agreement exactly when it says so itself; an empty answer is a disagreement |
| `Quorum.Worker.ExecApprove` | smpc/reqaddr.go:278-361 | The in-place handler equals the specification of one approval |
| `Quorum.Worker.ReplaceReply` | smpc/reqaddr.go:328-350 | The reply of the sender is replaced where it stands, or appended |
| `Barrier.EveryRunIsSafe` | smpc/api_reqsign.go:258-356 | Under any delay, reordering, duplication or loss a barrier returns true only if all n nodes announced success, so after one announced failure none does; the signal is raised at most once |
| `Barrier.VerdictIsUnanimity` | smpc/api_reqsign.go:304-344 | When the signal is raised, the verdict is true exactly when all n nodes announced success |
| `Barrier.FullListIsEverybody` | smpc/msg.go:599-616 | A full list holds the announcement of every node |
| `Barrier.DeliveredIsCollected` | smpc/msg.go:599-616 | A delivered announcement is in the list |
| `Barrier.AllHeardRaises` | smpc/api_reqsign.go:304-344 | A node that has heard every announcement has its signal raised, and woken returns whether all succeeded |
| `Barrier.TimeoutFails` | smpc/api_reqsign.go:345-356 | A barrier that times out returns false, even if it has heard every success, and no other node changes |
| `Barrier.NextKeepsInv` | smpc/api_reqsign.go:258-356 | Every announcement, delivery, wake-up and timeout keeps the invariant of the barrier |
| `Barrier.WokenBarriersAgree` | smpc/api_reqsign.go:625-671 | Two barriers that were both woken reach the same verdict |
| `PreSignSession.EveryRunSettles` | smpc/api_reqsign.go:625-671 | In every run of put, announcement, barrier and delete on all nodes, among any other use of their pools and with any storage failures: a node at the end holds the entry if and only if its put wrote it, no other session took or overwrote it, and its barrier succeeded or the delete did not go through; after any announced failure only nodes whose delete did not go through hold it |
| `PreSignSession.NextKeepsInv` | smpc/api_reqsign.go:625-671 | Every step of a node, of the network and of other sessions keeps account of where the entry is |
| `PreSignSession.PutWritesIff` | smpc/pre_signdata.go:563-608 | The put of the session writes the entry exactly when the write succeeds and the slot is inside the pool |
| `PreSignSession.FinishDeletesIff` | smpc/api_reqsign.go:657-671 | The delete goes through exactly if the put was announced as a success, the barrier failed, the entry is in a readable slot, and the database delete succeeds |
| `PreSignSession.StepEffect` | smpc/api_reqsign.go:625-671 | What each step changes and on which node: what is announced is what the branch returned, and what another session's operation does to the entry |
| `PreSignSession.OtherOpEffect` | smpc/pre_signdata.go:563-749 | Operations of other sessions never bring the entry back, and hand it out exactly when a pick or take removes it |
| `PreSignRuns.KeptAfterFailure` | smpc/api_reqsign.go:657-671 | A run in which one node fails, the delete of the other fails too, and the entry stays in its pool |
| `PreSignRuns.UsedDespiteFailure` | smpc/api_reqsign.go:643-671 | A run in which the entry is picked by another session before the failure of a node is known |
| `PreSignRuns.LacksDespiteSuccess` | smpc/pre_signdata.go:590-604 | A run in which a forced put does not write: both barriers succeed, and one node does not have the entry |
| `Barrier.Worker.Receive` | smpc/msg.go:599-616 | The in-place push and signal equal their specification |
| `Barrier.Worker.Scan` | smpc/api_reqsign.go:304-344 | The walk over the list is true exactly when no announcement is a failure |
| `PreSignPool.SearchFindsLeast` | smpc/pre_signdata.go:474-503 | The recursive search terminates and returns the least slot that passes its test, or -1 if there is none |
| `PreSignPool.FoundSlots` | smpc/pre_signdata.go:615-723 | The slots found for picking and for a key hold a decodable entry, with that key |
| `PreSignPool.TotalCountIsPrefix` | smpc/pre_signdata.go:529-560 | When all slots can be read, `GetTotalCount` is the length of the occupied prefix |
| `PreSignPool.TotalCountCases` | smpc/pre_signdata.go:529-560 | With any read failures it is the least slot seen to be vacant, or else the number of slots seen to be occupied |
| `PreSignPool.TotalCountIffNoGap` | smpc/pre_signdata.go:528-560 | When all slots can be read, it never exceeds the number of stored entries, and equals it if and only if the occupied slots have no gap |
| `PreSignPool.GapIsNotCounted` | smpc/pre_signdata.go:528-560 | A pool with one entry behind a gap counts zero |
| `PreSignPool.EveryRunHandsOutOnce` | smpc/pre_signdata.go:563-749 | Over every sequence of put, pick, take and drop with fresh keys and any failing reads, writes and deletes, what is handed out was put, is handed out once, and is no longer in the pool |
| `PreSignPool.NextKeepsInv` | smpc/pre_signdata.go:662-749 | Every operation keeps keys distinct and handed-out entries out of the pool |
| `PreSignPool.PickFailsIffEmpty` | smpc/pre_signdata.go:726-749 | A pick gives nothing exactly when its delete fails or no slot that it can read is decodable |
| `PreSignPool.PutEffect` | smpc/pre_signdata.go:563-608 | When a put writes, what it leaves alone, and when it reports success |
| `PreSignPool.PickEffect` | smpc/pre_signdata.go:726-749 | A pick takes the entry of the least readable, decodable slot out, or changes nothing |
| `PreSignPool.TakeByKeyEffect` | smpc/pre_signdata.go:615-684 | A take by key succeeds exactly if a readable slot has the key and the delete succeeds, and then takes that entry out |
| `PreSignPool.HistoryEffect` | smpc/pre_signdata.go:563-749 | A put enters its entry, what a pick or a take returns is handed out, what is dropped is not, and the pool is as the operation leaves it |
| `PreSignPool.Pool.PutPreSignData` | smpc/pre_signdata.go:563-608 | Stores into a vacant slot; a taken or unreadable slot is overwritten only when forced, and then success is reported even when the write failed |
| `PreSignPool.Pool.DeletePreSignData` | smpc/pre_signdata.go:662-684 | Deletes the least slot that is seen to have the key, or reports that there is none |
| `PreSignPool.Pool.PickPreSignData` | smpc/pre_signdata.go:726-749 | Returns the least entry that can be read and decoded after deleting its slot, or nothing |
| `PreSignPool.Pool.GetTotalCount` | smpc/pre_signdata.go:529-560 | The count with its loop equals the specification |
| `RpcDispatch.EveryRunIsSafe` | rpc/client.go:556-711 | In every run with unique ids: at most one writer holds the send lock; no send blocks; no channel is sent on after closing or closed twice; each gets at most one message per id; a waiter whose channel the client closed sees an error |
| `RpcDispatch.NextKeepsInv` | rpc/client.go:556-648 | Every step of the dispatch loop keeps the channel-ownership invariant |
| `RpcDispatch.NobodyIsForgotten` | rpc/client.go:566-580 | After quitting, every operation has all its responses, or a closed channel, or a sender that knows the write failed |
| `RpcDispatch.SubmitKeepsChannels` | rpc/client.go:625-632 | Registering an operation with fresh ids keeps ownership |
| `RpcDispatch.SendDoneKeepsChannels` | rpc/client.go:634-645 | Deregistering a failed send keeps ownership |
| `RpcDispatch.ResponseKeepsChannels` | rpc/client.go:688-711 | A response is put on a channel that is open and has room, or closes a subscription's channel once |
| `RpcDispatch.ResponseIsDelivered` | rpc/client.go:688-711 | The response to an awaited id is in the channel of its call, or closes the channel of its subscription with its error; the id is no longer awaited and nothing else changes |
| `RpcDispatch.BatchDelivers` | rpc/client.go:588-607 | Every response of a batch to an awaited id reaches its call; ids without one stay awaited |
| `RpcDispatch.EveryResponseArrives` | rpc/client.go:556-648 | In every run a call has the response to an id exactly if it had it before or some step read it while it was awaited |
| `RpcDispatch.SendDoneEffect` | rpc/client.go:634-645 | After a failed write its ids are not awaited, after a good one they are; the send lock is free either way |
| `RpcDispatch.SubmitEffect` | rpc/client.go:625-632 | An accepted operation is awaited under each of its ids and holds the send lock |
| `RpcDispatch.EndIsHeard` | rpc/client.go:608-612 | A read error or a quit closes every operation that waits with its error, leaves all others as they were, and ends all waiting |
| `RpcDispatch.FinishWriteEffect` | rpc/client.go:475-494 | A finished write is heard of once, with its error |
| `RpcDispatch.FaultsAreRaised` | rpc/client.go:651-711 | Which sends and closes count as faults: on a closed or full channel, of a closed channel, and into a full `sendDone` |
| `RpcDispatch.RoomForResponse` | rpc/client.go:129-134 | A response that is waited for finds room in the buffer |
| `RpcDispatch.CloseEachClosesOnce` | rpc/client.go:651-668 | Whatever the order of the map, exactly the operations that are waited for are closed, each once |
| `RpcDispatch.CloseKeepsChannels` | rpc/client.go:651-668 | Closing all request operations keeps ownership and leaves nobody waiting |
| `RpcDispatch.FinishWriteKeepsLock` | rpc/client.go:475-494 | A finished write finds room in `sendDone` |
| `RpcDispatch.ForwardDeliversInOrder` | rpc/client.go:831-869 | `forward` delivers a prefix of what came in, in order, loses nothing while it works, and buffers at most 20000 values |
| `RpcDispatch.ForwardOneMore` | rpc/client.go:831-869 | What each event does: queued behind the others up to 20000, delivered from the front, or the end of the loop |
| `RpcDispatch.ForwardLoop` | rpc/client.go:831-869 | The loop with its buffer, the send case offered only while values are queued, the three ways out and the unsubscribe flag delivers what the specification delivers, for every sequence of events |
| `RpcDispatch.Dispatcher.Accept` | rpc/client.go:625-632 | In-place registration equals the step of the state machine |
| `RpcDispatch.Dispatcher.OnSendDone` | rpc/client.go:634-645 | In-place completion of a send equals the step of the state machine |
| `RpcDispatch.Dispatcher.OnResponse` | rpc/client.go:688-711 | In-place response handling equals its specification |
| `RpcDispatch.Dispatcher.OnReadResp` | rpc/client.go:588-607 | A batch is handled message by message, in order |
| `RpcDispatch.Dispatcher.CloseRequests` | rpc/client.go:651-668 | The in-place closing loop equals its specification |
| `RpcReconnect.EveryRunServes` | rpc/client.go:505-543 | At every time of every run with read loops, failing writes and reconnects: whoever waits for the answer to a request that went out waits on a connection that is read, if and only if no reconnect is taken while the old read loop lives and somebody waits for it |
| `RpcReconnect.AfterServedIff` | rpc/client.go:608-624 | A step keeps that if and only if it is not such a reconnect |
| `RpcReconnect.WhoIsTold` | rpc/client.go:608-624 | A read error taken by the loop closes the channel of everybody who waits, with that error; taken by a reconnect it tells nobody |
| `RpcReconnect.AfterKeepsGood` | rpc/client.go:556-648 | Across reconnects the client keeps the channel-ownership invariant |
| `RpcReconnect.ConnectionsEffect` | rpc/client.go:496-543 | What each move does to the connection that is read, its read loop and the connection of the writers |
| `RpcReconnect.ClientEffect` | rpc/client.go:556-648 | Each move is, to the client, the dispatch step of what it takes from its channels, and the moves of the connections are none |
| `RpcReconnect.StuckIff` | rpc/client.go:614-620 | A run never gets stuck if and only if no reconnect finds the old read loop with a batch to hand over, and none is decoded while it waits |
| `RpcReconnect.StuckForEver` | rpc/client.go:614-620 | A stuck client never answers, closes or accepts anything again, and never quits |
| `RpcReconnect.ReconnectEndsIff` | rpc/client.go:614-620 | A waiting reconnect can come to its end if and only if the old read loop has no batch to hand over |
| `RpcRuns.WaiterIsStranded` | rpc/client.go:496-543 | A run in which one caller waits, the write of a second fails and a third reconnects: the first one waits on a dead connection |
| `RpcRuns.GetsStuckForEver` | rpc/client.go:614-620 | A run in which a reconnect meets a read loop with a batch |
| `SaveData.SplitJoinIff` | smpc/reqsign.go:1190-1190 | Splitting a joined string recovers the fields if and only if none contains the separator |
| `SaveData.NoOverlap` | smpc/key_ec.go:573-580 | An occurrence of the separator cannot straddle the start of another one |
| `SaveData.PrintSave` | smpc/key_ec.go:573-605 | The accumulated save string is the specified one, for every number of nodes |
| `SaveData.SaveRoundTrip` | smpc/reqsign.go:1185-1296 | Printing and reading back by index recovers the Paillier secret values, every Paillier public key, every Ntilde triple and the four private values |
| `SaveData.RecoveredIff` | smpc/reqsign.go:1185-1296 | All values are read back if and only if no printed field contains the separator |
| `SaveData.FieldPositions` | smpc/reqsign.go:1185-1202 | The index arithmetic of the readers points at the printed fields |
| `SaveData.FieldTexts` | smpc/key_ec.go:573-605 | Which value stands in which field |
| `SaveData.PrintedIsJoin` | smpc/key_ec.go:573-605 | The string is those fields and NULL, joined by the separator |
| `SaveData.ReadersNeedPieces` | smpc/reqsign.go:1185-1296 | On any string, for each reader: it gives a value exactly if the string has the pieces it looks for, and which count makes the reader of the private values run out of range |
| `SaveData.FirstBadField` | smpc/reqsign.go:1190-1190 | The first field with a separator comes back as a proper prefix of itself |
| `SaveData.PrintedNeverPanics` | smpc/reqsign.go:1278-1296 | On a printed record the reader of the private values never runs out of range when called with at most the node count of the record, nor, without separators in the fields, with any other |
| `SaveData.PanicsIff` | smpc/reqsign.go:1278-1296 | Called with any node count on a printed record of n nodes it runs out of range if and only if the fields contain 7 * (nodeCnt - n) - 2 separators |
| `SaveData.FiveSeparatorsPanic` | smpc/reqsign.go:1278-1296 | A record of one node with five separators in a value, read for two nodes, does |
| `SaveData.SplitAppend` | smpc/reqsign.go:1190-1190 | A separator behind a field cuts there, whatever the field contains |
| `SaveData.SeparatorValueIsLost` | smpc/reqsign.go:1185-1296 | A record whose secret value has the bytes of the separator is not read back |
| `NodeIds.UIDsAreBijection` | smpc/base.go:384-411 | With distinct hashes, node ids are a bijection onto 1..n |
| `NodeIds.UIDIsRank` | smpc/base.go:384-411 | The id of a node is one more than the number of nodes with a smaller hash |
| `NodeIds.StrangersHaveNoUID` | smpc/base.go:384-411 | Who has no name, or a hash that no group node has, has no id |
| `NodeIds.UIDsIgnoreOrder` | smpc/base.go:365-411 | Ids do not depend on the order in which the group is listed |
| `NodeIds.SubgroupIsSorted` | smpc/base.go:415-438 | The ids of a subgroup are the strictly sorted list of its members' ids |
| `NodeIds.TableInvertsUIDs` | smpc/reqsign.go:1303-1319 | `GetMsgToEnode` inverts `GetNodeUID` on the listed nodes and maps nothing else |
| `NodeIds.GateIdentifiesSender` | smpc/key_ec.go:128-165 | Two messages that pass the inbound gate with the same sender id come from the same group node, the one in the table |
| `NodeIds.PassesIff` | smpc/key_ec.go:108-165 | A message passes exactly if it is signed by the key of the enode it names, that enode is in the group, and the sender id is its rank |
| `NodeIds.IdentifiesIff` | smpc/key_ec.go:135-165 | With collision-free hashes the gate identifies senders if and only if at most one listed enode lacks its lower-case form |
| `NodeIds.UpperCaseIsAmbiguous` | smpc/key_ec.go:135-165 | In a group listed as A and B the nodes that print a and b both pass without an id |
| `NodeIds.KeygenTableRightIff` | smpc/key_ec.go:56-165 | The table that key generation fills from round-0 messages before checking them is right after any messages if and only if each message of round 0, up to the first message that is not accepted, carries the id of its enode |
| `NodeIds.FailedIsFirst` | smpc/key_ec.go:56-165 | The message that ends the loop is the first one that fails a check |
| `NodeIds.RunningIff` | smpc/key_ec.go:56-165 | The loop is still running exactly if every message was accepted |
| `NodeIds.KeygenTableComplete` | smpc/key_ec.go:85-88 | When all messages were accepted and every other node was heard in round 0, that table is the one computed from the group |
| `NodeIds.ForeignIdStays` | smpc/key_ec.go:85-88 | A round-0 message with the id of another node ends the loop and leaves its enode under that id |
| `NodeIds.Sort` | smpc-lib/smpc/common.go:31-41 | A sorted permutation |
| `NodeIds.GetIDs` | smpc/base.go:365-380 | The loop and sort equal their specification |
| `NodeIds.GetNodeUID` | smpc/base.go:384-411 | The search equals its specification |
| `NodeIds.GetGroupNodeUIDs` | smpc/base.go:415-438 | The nested loops and sort equal their specification |
| `NodeIds.GetMsgToEnode` | smpc/reqsign.go:1303-1319 | The table-building loop equals its specification |
| `NodeIds.ProcessInbound` | smpc/key_ec.go:56-175 | The loop with its checks in the order of the source equals its specification |
| `ChildKeys.SharesFollowKey` | smpc/pubkeydata.go:407-434 | For every share vector and weights summing to 1 modulo the order, along every path the weighted child shares times the base point are the child public key |
| `ChildKeys.PublicPart` | smpc/pubkeydata.go:407-434 | Child key and chain code depend only on root key, chain code and path, not on the share |
| `ChildKeys.ChildFormat` | smpc/pubkeydata.go:411-434 | One round in terms of HMAC(chain code, x, y, index) alone: its last 32 bytes are the chain code, its first 32 are added to the share modulo the order and, times the base point, to the key |
| `ChildKeys.ChildBindsIndex` | smpc/pubkeydata.go:411-434 | Children under different indexes have different chain codes, or the HMAC of those two inputs collides on its last half |
| `ChildKeys.PathsDiffer` | smpc/api_reqsign.go:584-612 | Different paths of one length lead to different chain codes, or the HMAC collides in some round of them |
| `ChildKeys.TwoSteps` | smpc/pubkeydata.go:411-434 | Deriving a concatenated path equals deriving in two steps |
| `ChildKeys.OneRound` | smpc/api_reqsign.go:584-612 | One round of every node's loop keeps weighted shares and public key together |
| `ChildKeys.TweakedSum` | smpc/api_reqsign.go:606-609 | Adding the tweak to every share modulo the order moves the weighted sum by the tweak times the sum of the weights, up to multiples of the order |
| `ChildKeys.DeriveChild` | smpc/pubkeydata.go:407-434 | The derivation loop equals its specification |
| `SignatureString.LowSInLowerHalf` | smpc/reqsign.go:1621-1635 | For s in 1..N-1 the low-s step yields a value in 1..N/2 that is s or N-s, the same for both |
| `SignatureString.LowSFailsIff` | smpc/reqsign.go:1621-1635 | The step fails exactly for s equal to 0 or N |
| `SignatureString.RightSizeIff` | smpc/reqsign.go:922-936 | The string has 130 digits exactly when r and s both have 31 or 32 bytes |
| `SignatureString.SignStringRoundTrip` | smpc/reqsign.go:1760-1808 | Every string that passes the size check decodes to the same r, s and v |
| `SignatureString.SignedValueIsLow` | smpc/reqsign.go:1621-1635 | What a verifier decodes is r, v and the representative of s in the lower half |
| `SignatureString.HexRoundTrip` | smpc/reqsign.go:1746-1757 | Decoding the hex digits gives back the bytes |
| `SignatureString.ReadBits` | smpc-lib/smpc/common.go:112-125 | For every number, buffer and word size: the last bytes of the slice become the low bytes of the number, as many as the whole words have or the slice holds, and nothing else changes |
| `SignatureString.LowBytesValue` | smpc-lib/smpc/common.go:112-125 | Those bytes are the number modulo 256^k |
| `SignatureString.LowValue` | smpc-lib/smpc/common.go:112-125 | The word taken off a number is the number modulo 256^k |
| `SignatureString.WrittenMeans` | smpc-lib/smpc/common.go:112-125 | The bytes written are those of the fewest whole words that hold the number, or the slice |
| `SignatureString.WrittenIsPadded` | smpc-lib/smpc/common.go:112-125 | In a zeroed slice that is long enough the number stands right-aligned, whatever the word size |
| `SignatureString.FillBuffer` | smpc/reqsign.go:1769-1804 | The buffer holds zero, r, zero, s and v at the given places |
| `SignatureString.GetSignString` | smpc/reqsign.go:1760-1808 | The four cases of the in-place buffer equal the specified string, for any word size |
| `SignatureString.HexString` | smpc/reqsign.go:1746-1757 | The digit loop equals its specification |

## Left out

- Multiplex.MessageReachesItsProtocol: assumes equal lengths per capability on both sides and a total length below 2^64.
- NodeIds.GateIdentifiesSender: assumes enodes listed as they are printed; IdentifiesIff gives the exact condition when hashes do not collide.
- Quorum.DisagreementIsFinal: speaks of continuations without a replayed nonce, which would save the request a second time.
- PreSignPool.TotalCountIsPrefix: for pools whose slots can all be read, and so TotalCountIffNoGap; TotalCountCases says what the count is otherwise.
- PreSignSession.EveryRunSettles: with the barrier switched on; without it the branch ends after the put.
- Timestamps of approvals that are not decimal numbers.
- The list of messages already processed in key generation, which only suppresses repetitions.
- Rounds of the GG20 and EdDSA protocols, Paillier encryption and zero-knowledge proofs.
- Internals of Keccak, ECIES, secp256k1, snappy, zlib, gob, JSON and LevelDB.
- The reshare flow, whose records use a different status text and two different key types.
- `DisMsg`, about thirty copies of a bounded collector like the one of the barrier.
- Signals raised by the `DisAcceptMsg` methods, which bypass the approval latch; only the command entry they put into the list is modelled.
- The buffer for approvals that arrive before their session (`C1Data`), and data races between handlers.
- Inbound handshake slots of the listener, and the shutdown of the server after its loop.
- JSON forms of pre-sign records, and the throttle of pre-signing that uses `GetTotalCount`.
- The order of signatures within a result for several hashes.
- The subscription table of the RPC client and `quitWithError`, and time limits of its callers.
- Configuration, command line, logging, the RPC server and the HTTP transport, which carry no protocol state of their own.
