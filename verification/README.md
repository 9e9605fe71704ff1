# NTAP-A relay: a verified model

NTAP-A relays Ethernet frames and SOCKS streams between authenticated sessions. This project models
the parts of it that hold state and proves what they are for:

- **TapHub** (`TapHub`, `TapRuns`, `TapMacs`, `TapFloods`, `TapMoves`, `TapKnown`, `TapDelivery`,
  `TapRules`, `TapExamples`, `HubServer`): the learning bridge with its session registry, MAC table
  (ageing, move damping, freezing), flood limiter and forwarding, in the shape of the learning and
  forwarding processes of IEEE 802.1Q, clauses 8.6 and 8.7.
- **Writer queues** (`Writer`, `SessionQueues`): two linked queues per session with byte accounting,
  control priority and stop.
- **SOCKS streams** (`Socks`, `SocksRuns`, `SocksClient`, `SocksServer`, `Departure`): the half-close state
  machine, wrapping ids, per-node caps, the accounting row of each stream, the client thread's life, and
  the end of a session across both tables.
- **API nonce cache** (`NonceCache`): a bounded, expiring, oldest-evicting replay cache.
- **Wire protocol** (`Buffer`, `Proto`, `Net`, `Wire`, `Codec`, `ConfigPush`, `Formats`): the growable buffer,
  the message header, framing over a byte stream, the payload codecs, and all formats by offset.
- **Direct tokens** (`DirectToken`, `TokenReader`): printing, signing, cutting and checking.
- **JSON strings** (`Json`): the growing text buffer and the escaping of section 7 of RFC 8259.

`Bytes` holds the integer widths and big-endian layout, `Scan` first matches and counts over tables.

## How it is built

Every mutex-guarded region is one atomic step. Each step is a function on the table's value, and the
class that updates the table in place (`HubServer.Server`, `SessionQueues.ActiveSession`,
`SocksServer.Table`, `NonceCache.Cache`, and so on) has methods whose contracts equate the new value
with that function. Runs are arbitrary finite sequences of steps; a history of accepted frames, moves,
floods, messages or row events grows along with the run, and the theorems relate the tables to that
history in every reachable state. Sockets are streams whose `Send` and `Recv` may move any part of
what is asked, ask for a retry, or fail.

Assumptions:

- The clock is positive, never goes back and stays below 2^64 - 60. `relay_tap_frame` reads it before it
  takes the lock (src/a/node_server.c:1372), so frames of different sessions may take the lock out of the
  order of their stamps. `TapRuns.Legal` allows that; a session's own frames are in order
  (`TapRuns.OwnOrder`) where its own flood limit is concerned, because one thread reads and relays them.
  What the order matters to is stated with its exact condition: the distance between moves
  (`TapMoves.MoveDamping`) and their count (`TapMoves.MoveCountExact`), the network counter
  (`TapFloods.NetworkCounterExact`, `TapFloods.NetworkLimitOfOne`) and the byte window of a target
  (`Writer.WindowExact`). Each condition is about the address, network or target in question alone;
  order on the whole hub (`TapRuns.Ordered`) is enough for all of them. The lemmas named `StaleStamp...`
  are inputs on the other side.
- The API server handles requests one at a time, at nondecreasing times.
- Allocation succeeds.
- At most one active session has a given descriptor: a session joins on a descriptor that no active
  session uses. (`session_register` does not check this itself.)
- The results of the database, of the network, of making a socket nonblocking and of starting a thread
  are parameters or arbitrary.
- `session_unregister`, including the join of its writer thread, is one step.
- The keyed hash of direct tokens is any function to 32 bytes.

Points where the code differs from what one might expect, each settled by a condition that is both
necessary and sufficient, and an input on the other side of it:

- The MAC cap is not consulted when an address moves: at the cap, an entry is gained exactly by a move
  (`TapMacs.MovesIgnoreCap`, `TapMacs.MovesExactly`), as in the run of `TapExamples.MovePassesCap`. The bound
  that does hold counts moves separately (`TapMacs.MacCap`).
- Unicast is not held to the byte budget, so the pending counter is exact if and only if the queue never
  reaches 2^32 bytes (`Writer.PendingExact`, `Writer.PendingWraps`).
- Decoders accept NULs inside strings, encoders stop at them: a payload re-encodes byte for byte if and
  only if its strings hold none (`Wire.HelloReencodes`, `ConfigPush.FullReencodes` and the like;
  `Wire.NulIsLost`, `ConfigPush.NulNameIsLost`).
- The nonce cache forgets live nonces under pressure: it is right about every nonce if and only if at
  most 1024 were accepted in the last 20 seconds (`NonceCache.PromiseKeptExactly`,
  `NonceCache.BurstForgets`). And a signed request can be used twice if and only if it was stamped ahead of
  the clock (`NonceCache.TakenTwiceExactly`).
- A counter of the network flood limiter is never given back, so only the first 128 limited networks to
  flood ever do (`TapFloods.LimiterFollowsHistory`, `TapFloods.ShutOutForever`, `TapExamples.CountersRunOut`).
- A close without the FIN flag is obeyed from any node (`SocksRuns.ForeignClose`, `SocksClient.StrangerCloses`).
- A SOCKS row started for a stream that closes before the row is attached is never ended
  (`SocksClient.RowAttachedIfStillOpen`, `SocksClient.EarlyCloseLosesRow`).
- The reader of messages always applies the default MTU (`Net.TapFrameGetsThrough`,
  `Net.LargeMtuRefused`).

## Model

| member | source | states |
|---|---|---|
| `Writer.Conservation` | src/a/node_server.c:396-536 | over any interleaving of enqueues, sends, failures and stops, and per class: everything accepted is sent, in flight, lost at a stop or still queued, in that order, so what was sent is a prefix of what was accepted |
| `Writer.TapWaitsForControl` | src/a/node_server.c:396-412 | when a TAP message is taken, every control message accepted so far has been sent and the message is the oldest queued TAP message |
| `Writer.StopIsFinal` | src/a/node_server.c:576-590 | once a stop was requested or a send failed, nothing more is ever accepted in either class |
| `Writer.PendingExact` | src/a/node_server.c:438-488 | the pending counter equals the bytes queued at every moment of a run if and only if the bytes queued never reach 2^32 |
| `Writer.PendingWraps` | src/a/node_server.c:480-483 | 2^26 unicasts of 48 bytes, a size the reader lets through, leave 2^32 bytes queued and the counter at zero |
| `Writer.TakeExact` | src/a/node_server.c:405-410 | with an exact counter, taking a message keeps it exact and the clamp to zero is never reached |
| `Writer.QueuedBytesAre` | src/a/node_server.c:317-323 | a message counts 16 bytes more than its payload, saturating at 2^32-1 |
| `Writer.DropsCounted` | src/a/node_server.c:460-471 | the drop counter is the number of floods dropped over budget, modulo 2^32 |
| `Writer.FloodBudget` | src/a/node_server.c:452-483 | in any order of stamps everything pending fits in the limit right after an accepted flood; and as long as no flood is offered in a second that the window left with bytes in it, no second gets more flood bytes than the limit |
| `Writer.WindowExact` | src/a/node_server.c:456-482 | in any order of stamps: the window's counter is the flood bytes of its second at every moment if and only if no flood is ever offered in a second that the window left with bytes in it |
| `Writer.OrderedNeverReopens` | src/a/node_server.c:456-459 | enqueues in stamp order never do that |
| `Writer.StaleStampOverspends` | src/a/node_server.c:456-459 | floods of 60 bytes stamped 11, 10 and 11 put 120 bytes into second 11 under a limit of 100 |
| `SessionQueues.Queue.Append` | src/a/node_server.c:357-366 | the linked list gains the message at its end, everything else kept |
| `SessionQueues.Queue.Pop` | src/a/node_server.c:368-381 | the linked list loses its first message, which is returned; none if it was empty |
| `SessionQueues.ActiveSession.EnqueueControl` | src/a/node_server.c:414-436 | a running session gains exactly that control message; a stopped one refuses and is unchanged |
| `SessionQueues.ActiveSession.EnqueueTap` | src/a/node_server.c:438-488 | takes the step of the writer model and returns its verdict: queued, dropped over budget, or refused |
| `SessionQueues.ActiveSession.QueuePop` | src/a/node_server.c:396-412 | control before TAP, oldest first, with the byte accounting of the writer model |
| `SessionQueues.ActiveSession.QueueClear` | src/a/node_server.c:383-394 | both lists empty and nothing pending |
| `SessionQueues.ActiveSession.Take` | src/a/node_server.c:498-509 | the writer thread's locked step: none after a stop, otherwise the next message |
| `SessionQueues.ActiveSession.FailWriter` | src/a/node_server.c:514-527 | a failed send stops the writer and discards what is queued |
| `SessionQueues.ActiveSession.StopWriter` | src/a/node_server.c:576-590 | the stop request clears the queues and leaves the writer not running |
| `TapMacs.TableAgreesWithHistory` | src/a/node_server.c:1067-1203 | in every reachable state active entries are unique per (network, address), hold nonzero unicast addresses, name a registered session of that network, and carry owner and time of the last accepted frame from that address |
| `TapMacs.UnicastFollowsHistory` | src/a/node_server.c:1166-1192 | a frame forwarded as known unicast goes to the session that last sent from its destination address, heard within the entry's lifetime |
| `TapKnown.AddressStaysKnown` | src/a/node_server.c:1067-1203 | an address whose last accepted frame was stored has an entry, with that session and time, as long as the session has not left and no frame is stamped past its time plus the session's lifetime |
| `TapKnown.UnicastReachesOwner` | src/a/node_server.c:1399-1415 | a frame past the filters, to such an address, is forwarded to that session |
| `TapRules.ForgottenIsFlooded` | src/a/node_server.c:1067-1082 | in every reachable state a frame to an address never heard, or last heard longer ago than its session's lifetime, is not forwarded as known unicast |
| `TapMacs.LookupKeeps` | src/a/node_server.c:1184-1189 | on a table in order, lookup changes nothing: the stale-entry branch is dead |
| `TapMacs.MacCap` | src/a/node_server.c:1149-1151 | over every run of joins, leaves, learning, moves and ageing, the entries a session owns never exceed its cap plus the addresses moved onto it since it joined |
| `TapMacs.MovesExactly` | src/a/node_server.c:1107-1143 | a frame moves an address if and only if it is learnable, known, another session's, not frozen, and its move window has run out or has a move left |
| `TapMacs.MovesIgnoreCap` | src/a/node_server.c:1107-1153 | a move adds one to the mover's entries; and a session at or over its cap gets another entry if and only if the frame moves one onto it |
| `TapExamples.MovePassesCap` | src/a/node_server.c:1107-1153 | a legal run after which a session whose cap is 1 owns two entries |
| `TapMoves.MoveDamping` | src/a/node_server.c:1107-1143 | in any order of stamps: from the second accepted move of an entry's life on, a move comes more than 10 s after the one before it if and only if its stamp is not an earlier one |
| `TapMoves.MoveCountExact` | src/a/node_server.c:1120-1139 | in any order of stamps: no entry ever counts more than two moves if and only if no frame of another session ever falls back into the window of an address whose freeze its owner has lifted |
| `TapMoves.DampedInOrder` | src/a/node_server.c:1107-1143 | with stamps in order no entry counts more than two moves, and from the second accepted one on they are more than 10 s apart |
| `TapMoves.StaleStampUndoesDamping` | src/a/node_server.c:1120-1124 | a second move freezes the address, but not on a frame stamped before the window |
| `TapExamples.StaleStampBreaksDamping` | src/a/node_server.c:1120-1124 | a legal run, each thread's own stamps in order, in which an address moves in seconds 1 and 20 and again on a frame stamped 19 |
| `TapExamples.StaleStampCountsThree` | src/a/node_server.c:1120-1139 | a legal run, each thread's own stamps in order, that falls back into such a window and counts three moves |
| `TapMacs.FreezeHolds` | src/a/node_server.c:1107-1143 | along any run on which an entry stays active, its owner and its freeze do not change until the freeze runs out |
| `TapMacs.RunInv` | src/a/node_server.c:1067-1474 | the table invariant behind the agreement and the cap holds after every legal run, in whatever order the stamps come |
| `TapMacs.LearnShape` | src/a/node_server.c:1098-1164 | learning writes at most one entry, the one with this address or a free one under the cap |
| `TapRules.LearnAnswers` | src/a/node_server.c:1098-1164 | when an address is ignored, stored, not stored, refreshed, moved or refused, in numbers: its own session always refreshes it; another one moves it unless it is frozen or moved in the last 10 seconds; a new one is stored if and only if a slot is free and the session is under its cap |
| `TapRules.LearnChanges` | src/a/node_server.c:1107-1143 | the whole table after a known address was heard; a refusal that starts a freeze sets its end 60 seconds ahead |
| `TapRules.NewAddress` | src/a/node_server.c:1149-1163 | a stored address takes one free slot as its session's, heard now and never moved; otherwise nothing changes |
| `TapRules.OwnerNeverRefused` | src/a/node_server.c:1110-1119 | in every reachable state a frame from the session that owns its source address is never refused for a freeze |
| `TapRules.SessionsAsJoined` | src/a/node_server.c:1269-1343 | in every reachable state each session's network, kind, limits, cap, lifetime and both rules are those of the last join of its descriptor, with the defaults 300, 32 and 262144 |
| `TapRules.JoinAnswers` | src/a/node_server.c:1269-1343 | a join succeeds if and only if a slot is free and the writer starts, and changes at most one slot, a free one |
| `TapRules.TableSizes` | src/a/node_server.c:592-599 | in every reachable state there are 64 session slots, 512 address slots and 128 network counters |
| `TapFloods.SessionFloodLimit` | src/a/node_server.c:1226-1262 | in any clock second a session with a nonzero limit is admitted at most that many floods, if its own frames are in stamp order, whatever the other sessions' are |
| `TapFloods.NetworkFloodLimit` | src/a/node_server.c:1226-1262 | in whatever order frames take the lock: if each second's limited floods of a network come in one block, sessions of it that share a nonzero limit are together admitted at most that many in any second |
| `TapFloods.NetworkLimitOfOne` | src/a/node_server.c:1226-1262 | a limit of one flood a second is kept in every second if and only if each second's limited floods come in one block |
| `TapFloods.OrderedIsSorted` | src/a/node_server.c:1226-1262 | frames that take the lock in stamp order put every network's floods in the order of their stamps |
| `TapFloods.SortedIsGrouped` | src/a/node_server.c:1247-1250 | floods of one network in the order of their stamps come in one block a second, whatever other networks do |
| `TapExamples.StaleStampOverspends` | src/a/node_server.c:1247-1253 | three frames stamped 11, 10 and 11, each thread's own in order, after which a network limited to one flood a second has had two in second 11, and its counter says one |
| `TapFloods.NetworkCounterExact` | src/a/node_server.c:1205-1262 | in any order of stamps: a network's counter is its number of limited floods in the counter's second at every moment of a run if and only if each second's limited floods of that network come in one block |
| `TapFloods.LimiterFollowsHistory` | src/a/node_server.c:1226-1262 | in any order of the sessions' stamps: a flood is admitted if and only if the history shows fewer floods this second than the session's limit and, on a limited network, a last block with room left, and the network is one of the first 128 limited ones to flood |
| `TapFloods.LimiterInOrder` | src/a/node_server.c:1226-1262 | with stamps in order, the network's floods of the whole second count |
| `TapFloods.ShutOutForever` | src/a/node_server.c:1205-1224 | a limited network that has not flooded when 128 others have is never admitted a flood again |
| `TapFloods.CounterLeft` | src/a/node_server.c:1205-1224 | a network finds a counter if and only if it has flooded before or fewer networks than counters have |
| `TapExamples.CountersRunOut` | src/a/node_server.c:1205-1224 | a legal run of one session that floods once in each of 128 networks, after which network 129 finds no counter and its flood is refused |
| `TapFloods.RefusedFloodIsFree` | src/a/node_server.c:1226-1262 | a flood refused by the limiter spends nothing of the session's budget |
| `TapDelivery.RelayDelivers` | src/a/node_server.c:1364-1474 | in every reachable state a frame grows, by one message with its payload, the TAP queue of exactly the sessions due a copy; no control queue changes; the return value is the number of queues that grew |
| `TapDelivery.StrangersReachNobody` | src/a/node_server.c:1391-1398 | a frame from a descriptor not registered in the network changes no queue and returns 0 |
| `TapRules.ClientRule` | src/a/node_server.c:1420-1427 | a frame between two TAP clients is barred, and reaches no queue, exactly if the source's join did not allow client-to-client traffic |
| `TapRules.FilterRules` | src/a/node_server.c:1381-1405 | a frame is too short under 14 bytes, and L2-filtered exactly for destinations 01:80:c2:00:00:00 to 0f of a session whose join did not allow them |
| `TapRules.ModesAre` | src/a/node_server.c:1384-1471 | the mode reported with each verdict and with the copies made |
| `TapRules.LeaveAnswers` | src/a/node_server.c:1345-1362 | in every reachable state a departure leaves no session and no address of the descriptor and its writer stopped with empty queues, as after a stop request and the writer's exit; everything else is untouched |
| `TapDelivery.VerdictMeans` | src/a/node_server.c:1381-1447 | a frame is filtered, known or flooded exactly as the learned table, the filters and the limiter say |
| `TapDelivery.EverySessionConserves` | src/a/node_server.c:438-488 | in every reachable state of the whole hub each session's queue is what a legal run of its writer leaves, so conservation holds for it |
| `TapDelivery.EverySessionWithinBudget` | src/a/node_server.c:438-488 | whatever the order on the hub: a session that is never offered a flood in a second its window left with bytes in it gets in no second more flood bytes than its limit, from all sources together |
| `TapDelivery.InOrderNeverReopens` | src/a/node_server.c:438-488 | frames that take the lock in stamp order never offer one |
| `HubServer.LearnKnown` | src/a/node_server.c:1107-1143 | the in-place update of a known entry is the model's, false exactly when it is frozen |
| `HubServer.Server.constructor` | src/a/node_server.c:592-599 | all sessions free, both tables empty |
| `HubServer.Server.FindSession` | src/a/node_server.c:1054-1065 | the first active session of the descriptor in the network, -1 exactly if there is none |
| `HubServer.Server.CountMacs` | src/a/node_server.c:1084-1096 | the number of active entries the session owns |
| `HubServer.Server.AgeMacs` | src/a/node_server.c:1067-1082 | drops exactly the entries past their lifetime or without a session |
| `HubServer.Server.ForgetMacs` | src/a/node_server.c:1194-1203 | drops exactly the descriptor's entries |
| `HubServer.Server.FindMac` | src/a/node_server.c:1105-1147 | the entry of an address and, failing that, the first free slot |
| `HubServer.Server.LearnMac` | src/a/node_server.c:1098-1164 | the whole table after learning is the model's; false exactly on a freeze |
| `HubServer.Server.LookupMac` | src/a/node_server.c:1166-1192 | the whole table after a lookup and the owner's slot are the model's |
| `HubServer.Server.FindRate` | src/a/node_server.c:1205-1217 | the network's counter or, failing that, the first free one; claiming it is left to the caller |
| `HubServer.Server.NetworkAllows` | src/a/node_server.c:1218-1260 | the network part of the limiter, counting only what it admits |
| `HubServer.Server.FloodAllowed` | src/a/node_server.c:1226-1262 | both budgets after the limiter's decision, and the decision, are the model's |
| `HubServer.Server.CopyToAll` | src/a/node_server.c:1448-1468 | every eligible session gets its copy or counts a drop; the two counters count exactly those |
| `HubServer.CopyAllIs` | src/a/node_server.c:1448-1468 | visiting the slots one by one equals the flood's copies made at once, and the counters the numbers of accepting and of dropping sessions |
| `HubServer.Server.ForwardKnown` | src/a/node_server.c:1413-1440 | at most one copy, to the owner, none back to the source or past the client-to-client rule |
| `HubServer.Server.AdmitFrame` | src/a/node_server.c:1381-1447 | tables and verdict after ageing, filters, learning, lookup and limiter are the model's |
| `HubServer.Server.RelayTapFrame` | src/a/node_server.c:1364-1474 | the whole hub after a frame, the number forwarded and the mode are the model's |
| `HubServer.Server.RegisterSession` | src/a/node_server.c:1269-1343 | the hub after a registration, with the defaults filled in, is the model's; false exactly if full or not started |
| `HubServer.Server.UnregisterSession` | src/a/node_server.c:1345-1359 | the hub's part of a departure: addresses forgotten, slot freed and writer stopped |
| `HubServer.Server.WriterTake` | src/a/node_server.c:498-509 | the hub after a writer's locked step, and the message it takes |
| `HubServer.Server.WriterFail` | src/a/node_server.c:522-526 | the hub after a writer's failed send |
| `Departure.UnregisterSession` | src/a/node_server.c:1345-1362 | the whole departure: the hub without the session, and the node's streams closed with their effects |
| `SocksRuns.NeverBothFins` | src/a/node_server.c:783-862 | in every reachable state no registered stream has both FIN flags set |
| `SocksRuns.RowsEndOnce` | src/a/node_server.c:732-897 | no row is ended for a stream while it is registered; once it is gone, the row last attached to it has been ended, once, in its own database, and no other |
| `SocksRuns.StreamsAsOpened` | src/a/node_server.c:666-730 | in every reachable state a registered stream has the node, sockets and database it was opened with and the row last attached to it |
| `SocksRuns.OpenAnswers` | src/a/node_server.c:666-712 | an id is given if and only if the arguments are good, the node is under its cap (64 if unset) and a slot is free; one free slot is then filled as asked |
| `SocksRuns.AttachAnswers` | src/a/node_server.c:714-730 | a row goes to the registered stream of that id, if any, and to no other |
| `SocksRuns.NthId` | src/a/node_server.c:666-712 | the n-th stream opened, from 0, gets id n mod (2^32-1) plus 1 |
| `SocksRuns.TakeIdIs` | src/a/node_server.c:609-617 | the allocator's retry is dead and its counter steps through 1..2^32-1 cyclically |
| `SocksRuns.DistinctIds` | src/a/node_server.c:694-711 | registered streams opened less than 2^32-1 streams apart have different ids |
| `SocksRuns.NodeCap` | src/a/node_server.c:666-712 | under a fixed cap a node never has more registered streams than the cap |
| `SocksRuns.FinsCommute` | src/a/node_server.c:783-862 | the two owners' FINs leave the same registry in either order, and one row end in all |
| `SocksRuns.ForeignClose` | src/a/node_server.c:816-862 | a node closes a stream it does not own if and only if its message names the stream and has no FIN flag |
| `SocksRuns.PlainCloseDoes` | src/a/node_server.c:828-831 | a close without FIN closes the stream it names, shuts the client's socket down both ways and ends the row with the reason named |
| `SocksRuns.NodeFinDoes` | src/a/node_server.c:832-862 | the owner's FIN half-closes the client's socket, and closes the stream and ends its row only when the client's FIN is there |
| `SocksRuns.ClientFinDoes` | src/a/node_server.c:783-814 | the client's FIN touches no socket, and closes the stream and ends its row only when the node's FIN is there |
| `SocksRuns.DropDoes` | src/a/node_server.c:732-761 | the client's thread drops its stream, ends the row and leaves the socket alone |
| `SocksRuns.ReasonsAre` | src/a/node_server.c:632-648 | the reasons that close codes stand for |
| `SocksClient.StrangerCloses` | src/a/node_server.c:828-830 | a stream of one node closed by a message from another |
| `SocksRuns.NodeGoneExactly` | src/a/node_server.c:864-897 | a leaving node closes exactly the streams of its descriptor; for each, in slot order, the client's socket is shut down once and the row attached, if any, ended once; for no other slot anything is done |
| `SocksClient.NoSlotLeaks` | src/a/node_server.c:1945-2060 | whatever way the client's thread ends and whatever else runs, its stream is not registered afterwards and the row last attached to it, if any, was ended, once and no other, if no other registered stream is 2^32-1 or more openings away when it drops its own |
| `SocksClient.DropReason` | src/a/node_server.c:1972-2056 | the client's thread ends its row as open_failed if OPEN never went out, as idle_timeout after a timeout of the read or of the wait for the node's FIN, and as client_closed otherwise |
| `SocksClient.RowAttachedIfStillOpen` | src/a/node_server.c:1945-1968 | the row the database gave becomes the stream's row if and only if the stream is still registered when its id arrives and the id is positive |
| `SocksClient.EarlyCloseLosesRow` | src/a/node_server.c:1953-1968 | a concrete legal run in which the close comes first and the row stays un-ended |
| `SocksServer.Table.constructor` | src/a/node_server.c:601-607 | no streams, the first id is 1 |
| `SocksServer.Table.Register` | src/a/node_server.c:666-712 | the registry after an open and the id, 0 exactly when capped or full |
| `SocksServer.Table.SetDbId` | src/a/node_server.c:714-730 | the row's id is attached to the active stream of that id, if there is one |
| `SocksServer.Table.UnregisterStream` | src/a/node_server.c:732-761 | the registry and the socket and row effects of dropping a stream |
| `SocksServer.Table.MarkClientFin` | src/a/node_server.c:783-814 | the registry and effects of the client's FIN |
| `SocksServer.Table.HandleNodeClose` | src/a/node_server.c:816-862 | the registry and effects of a FIN or a close from the node |
| `SocksServer.Table.CloseNode` | src/a/node_server.c:864-897 | the registry and effects of a node's leaving, slot by slot |
| `NonceCache.Cache.constructor` | src/a/api_server.c:335-338 | an empty table |
| `NonceCache.Cache.RecordNonce` | src/a/api_server.c:340-385 | the one-pass scan leaves the specified table: expired entries dropped up to where it stopped, the nonce in the first free slot or the oldest one; false exactly for a live replay or an empty nonce |
| `NonceCache.ReplayRejected` | src/a/api_server.c:340-385 | a nonce accepted at t is rejected until t+20 while at most 1024 nonces, itself included, were accepted between |
| `NonceCache.RecordChanges` | src/a/api_server.c:340-385 | an accepted nonce takes one slot, cut to 127 characters, with its time, and every other entry over 20 seconds old is dropped; a replay drops those before the entry it meets; an empty nonce changes nothing |
| `NonceCache.RejectionIsReplay` | src/a/api_server.c:340-385 | a refused nonempty nonce was accepted in the last 20 seconds |
| `NonceCache.CacheIsRecentlySeen` | src/a/api_server.c:340-385 | with at most 1024 nonces in the window, accepted if and only if not accepted in the last 20 seconds |
| `NonceCache.PromiseKeptExactly` | src/a/api_server.c:340-385 | in every reachable state: every nonce is accepted exactly if it was not accepted in the last 20 seconds, if and only if at most 1024 nonces were accepted in those 20 seconds |
| `NonceCache.BurstForgets` | src/a/api_server.c:340-385 | the failing run: after 1025 nonces in one second the first of them is accepted again |
| `NonceCache.SecondUse` | src/a/api_server.c:613-661 | while no more than 1024 nonces came in since t, a request taken at t is taken again at a later time if and only if that is over 20 s after t and at most 20 s after its stamp |
| `NonceCache.TakenTwiceExactly` | src/a/api_server.c:613-661 | with no other traffic a signed request taken at t can be taken again if and only if its stamp is later than t |
| `NonceCache.EvictsOldest` | src/a/api_server.c:372-383 | when the slot to be reused holds a live entry, every slot does, and none holds an older one |
| `NonceCache.EvictionCounts` | src/a/api_server.c:372-383 | evicting a live nonce needs more than 1024 accepted since it |
| `Buffer.Grow` | src/common/buffer.c:60-67 | the doubling ends without overflow with room enough, and unless the old capacity or 256 sufficed, with less than twice the need |
| `Buffer.ByteBuffer.Reserve` | src/common/buffer.c:25-43 | capacity at least as asked, contents kept |
| `Buffer.ByteBuffer.Append` | src/common/buffer.c:45-76 | appends exactly the bytes, or refuses and changes nothing |
| `Json.JsonBuf.Reserve` | src/a/db_sqlite.c:34-62 | room for the text and its terminator, contents kept |
| `Json.JsonBuf.AppendLen` | src/a/db_sqlite.c:64-78 | appends exactly the text and terminates it |
| `Json.JsonBuf.AppendString` | src/a/db_sqlite.c:112-174 | appends exactly one quoted, escaped literal across every growth |
| `Json.LiteralReadsBack` | src/a/db_sqlite.c:112-174 | an independent reader of JSON strings reads every literal back to the text, wherever it stands |
| `Json.NothingRaw` | src/a/db_sqlite.c:112-174 | no raw control byte anywhere in an escaped text |
| `Json.EscapesAre` | src/a/db_sqlite.c:122-170 | how each of the 256 bytes is written |
| `Proto.EncodeHeader` | src/common/proto.c:30-52 | writes the header's bytes exactly when magic, version and type are right, else reports which is wrong |
| `Proto.DecodeHeader` | src/common/proto.c:54-77 | reads every field and reports the first wrong one |
| `Proto.HeaderRoundTrip` | src/common/proto.c:30-77 | decoding what was encoded gives the header back, whatever follows |
| `Formats.TypesAndLengths` | src/common/proto.c:79-100 | types 1 to 14 are valid; lengths up to MTU + 32 for type 7, 16384 for 12 to 14 and 65536 for the rest, an MTU outside 576..1500 counting as 1400 |
| `Formats.HeaderLayout` | src/common/proto.c:30-77 | the sixteen header bytes by offset, and which field is reported as wrong |
| `Formats.FrameLayout` | src/common/net.c:597-623 | the bytes a message starts with, by offset |
| `Net.SendAll` | src/common/net.c:490-506 | true: the whole data was written; false: a prefix of it was, because of an error or a socket that would block |
| `Net.SendAllTimeout` | src/common/net.c:508-533 | true: the whole data was written, in whatever pieces and after whatever waits; false: a prefix of it was, and the socket failed |
| `Net.RecvAll` | src/common/net.c:535-563 | true: exactly the next bytes of the stream, however they were cut |
| `Net.SendMsg` | src/common/net.c:597-623 | true: exactly the frame was written; a wrong type is refused before anything is written; otherwise only a failing socket makes it false |
| `Net.SendMsgTimeout` | src/common/net.c:565-595 | true: exactly the frame was written, after whatever waits; a wrong type is refused first; otherwise false means a failed socket |
| `Net.RecvMsg` | src/common/net.c:625-662 | succeeds with exactly the message at the front of the stream |
| `Net.RecvMessages` | src/common/net.c:625-662 | repeated reading, under any chunking, parses the stream's front |
| `Net.SendMessages` | src/common/net.c:597-623 | sends a list of messages as the concatenation of their frames |
| `Net.ParseFrame` | src/common/net.c:597-662 | a frame reads back as its message if and only if its type and length are allowed and it fits |
| `Net.FramingRoundTrip` | src/common/net.c:597-662 | for every list of allowed messages, parsing the concatenation of their frames yields that list and what follows |
| `Formats.FramingInNumbers` | src/common/net.c:597-662 | the framing round trip for every list of messages of types 1 to 14 of at most 1432 bytes for type 7, 16384 for 12 to 14 and 65536 for the rest |
| `Formats.SentInNumbers` | src/common/net.c:597-662 | a message arrives exactly if its type and length are in those numbers |
| `Formats.OpeningMessagesGetThrough` | src/common/net.c:597-662 | the frame of every in-range HELLO, AUTH_NODE, AUTH_TAP and SOCKS_OPEN is taken whole and decodes to the same value |
| `Net.Exchange` | src/common/net.c:597-662 | messages sent on one socket and read from another arrive as the same list in order, whatever the pieces, unless a socket fails or the sender would block |
| `Net.TapFrameGetsThrough` | src/common/net.c:644-646 | a TAP frame message gets through if and only if its payload is at most 1432 bytes |
| `Net.LargeMtuRefused` | src/common/net.c:644-646 | a payload that a legal larger MTU allows and the reader refuses |
| `Wire.TakeStrOfStr` | src/common/wire.c:61-94 | reading a string that was written gives it back, with the rest |
| `Wire.StrOfTakeStr` | src/common/wire.c:61-94 | the bytes read as a string field are the ones the field was made of, NULs included |
| `Wire.HelloExact` | src/common/wire.c:104-157 | a payload is accepted if and only if it is the layout of an in-range value, which the decoder returns with the raw bytes of its text |
| `Wire.HelloReencodes` | src/common/wire.c:61-157 | an accepted HELLO, encoded again from what C code reads of it, is the same payload if and only if its text holds no NUL |
| `Wire.NulIsLost` | src/common/wire.c:61-157 | two different accepted HELLO payloads that C code cannot tell apart; the second comes back as the first |
| `Formats.HelloLayout` | src/common/wire.c:104-157 | role, version text, features and nonce by offset; accepted exactly under 64 bytes of version |
| `Formats.AuthNodeLayout` | src/common/wire.c:159-204 | node id, nonce and signature by offset; accepted exactly under 128 bytes of node id |
| `Formats.AuthTapLayout` | src/common/wire.c:206-255 | user name, password, network and nonce by offset; accepted exactly under 512 bytes each |
| `Formats.TapFrameLayout` | src/common/wire.c:377-407 | network and frame by offset; accepted exactly from 14 bytes on |
| `Formats.SocksOpenLayout` | src/common/wire.c:409-457 | stream, host and port by offset; accepted exactly with stream and port nonzero and a host of 1 to 255 bytes |
| `Formats.SocksCloseLayout` | src/common/wire.c:496-527 | stream, reason and flags by offset; a bare stream reads as reason 2 |
| `Formats.ConfigLayout` | src/common/wire.c:282-334 | every field of CONFIG_PUSH by offset |
| `Wire.AuthNodeExact` | src/common/wire.c:159-204 | the same for AUTH_NODE |
| `Wire.AuthNodeReencodes` | src/common/wire.c:159-204 | an accepted payload re-encodes byte for byte if and only if the node id holds no NUL |
| `Wire.AuthTapExact` | src/common/wire.c:206-255 | the same for AUTH_TAP |
| `Wire.AuthTapReencodes` | src/common/wire.c:206-255 | an accepted payload re-encodes byte for byte if and only if neither string holds a NUL |
| `Wire.TapFrameExact` | src/common/wire.c:377-407 | the same for TAP_FRAME, from 14 to 65535 bytes |
| `Wire.SocksOpenExact` | src/common/wire.c:409-457 | the same for SOCKS_OPEN with nonzero stream and port and a host |
| `Wire.SocksOpenReencodes` | src/common/wire.c:409-457 | an accepted payload re-encodes byte for byte if and only if the host holds no NUL |
| `Wire.SocksCloseExact` | src/common/wire.c:486-527 | a close is accepted exactly in its full form or as the short form of a plain remote close |
| `Wire.PrefixFree` | src/common/wire.c:140-255 | no proper prefix or extension of an accepted HELLO, AUTH_NODE, AUTH_TAP, TAP_FRAME or SOCKS_OPEN is accepted |
| `Codec.AppendString` | src/common/wire.c:61-74 | appends the length-prefixed text up to its first NUL, or refuses one over 65535 bytes |
| `Codec.ReadString` | src/common/wire.c:76-94 | reads the string at the cursor, inside the payload, and moves past it |
| `Codec.EncodeHello` | src/common/wire.c:104-138 | writes the layout of what C code reads of the value exactly when it is in range and fits, and nothing else |
| `Codec.DecodeHello` | src/common/wire.c:140-157 | the in-place decoder returns what the payload's value is, never reading past its end |
| `Codec.EncodeAuthNode` | src/common/wire.c:159-186 | as for HELLO |
| `Codec.DecodeAuthNode` | src/common/wire.c:188-204 | as for HELLO |
| `Codec.EncodeAuthTap` | src/common/wire.c:206-236 | as for HELLO |
| `Codec.DecodeAuthTap` | src/common/wire.c:238-255 | as for HELLO |
| `Codec.EncodeTapFrame` | src/common/wire.c:377-390 | as for HELLO |
| `Codec.DecodeTapFrame` | src/common/wire.c:392-407 | as for HELLO |
| `Codec.EncodeSocksOpen` | src/common/wire.c:409-439 | as for HELLO |
| `Codec.DecodeSocksOpen` | src/common/wire.c:441-457 | as for HELLO |
| `Codec.EncodeSocksClose` | src/common/wire.c:486-494 | the short form, for a nonzero stream |
| `Codec.EncodeSocksCloseReason` | src/common/wire.c:496-507 | the full form, for a nonzero stream |
| `Codec.DecodeSocksClose` | src/common/wire.c:509-527 | either form |
| `ConfigPush.ConfigExact` | src/common/wire.c:282-375 | a payload is accepted if and only if it is the full form of an acceptable configuration or the legacy form of one without direct strings, which the decoder returns with the raw bytes of its strings |
| `ConfigPush.FullReencodes` | src/common/wire.c:61-94 | an accepted full-form payload re-encodes byte for byte if and only if no string of it holds a NUL |
| `ConfigPush.NulNameIsLost` | src/common/wire.c:61-94 | an accepted payload, with a NUL for a network name, that re-encodes to a shorter one |
| `ConfigPush.ViewSurvives` | src/common/wire.c:282-375 | re-encoding any accepted payload gives one that is accepted and reads the same to C code, for good |
| `ConfigPush.LegacyForm` | src/common/wire.c:336-375 | the legacy form decodes like the full form with three empty direct strings |
| `ConfigPush.PushArrives` | src/a/node_server.c:260-300 | what the server builds is at most 1464 bytes and NUL-free, and decodes to the same configuration if and only if the network id survives 32 bits as nonzero and the MTU is legal |
| `ConfigPush.PushSaysRuntime` | src/a/node_server.c:260-300 | against the runtime alone: the push is refused exactly without a network or when a text does not fit 64, 64, 32, 256 or 1024 bytes; what its payload decodes to has version 2, no flags, and the runtime's network, switches, MTU, port and texts |
| `ConfigPush.EncodeConfig` | src/common/wire.c:282-334 | writes the full form of what C code reads of the configuration exactly when it is in range and fits |
| `ConfigPush.DecodeConfig` | src/common/wire.c:336-375 | the in-place decoder returns what the payload's value is |
| `ConfigPush.SendConfigPush` | src/a/node_server.c:260-300 | writes exactly one frame with the runtime configuration; nothing when the network is missing or a text does not fit its field; otherwise only a failing or blocking socket makes it false |
| `ConfigPush.PushIsRead` | src/a/node_server.c:260-300 | the frame sent is taken by the message reader at the other end |
| `DirectToken.MakeSucceeds` | src/common/direct_token.c:149-166 | for valid fields and a nonempty key a token is made within 676 characters |
| `DirectToken.MakeExactly` | src/common/direct_token.c:39-70 | a token is made if and only if the key is not empty, the fields are in range and the text fits |
| `DirectToken.PrintedFields` | src/common/direct_token.c:149-166 | the seven fields of a printed token, in order and in numbers |
| `DirectToken.SampleToken` | src/common/direct_token.c:46-166 | the signed and the printed text of one token, and the hex digits |
| `DirectToken.MadeVerifies` | src/common/direct_token.c:149-227 | a made token, verified before it expires, yields exactly its fields |
| `DirectToken.VerifyExactly` | src/common/direct_token.c:168-227 | a printed token with any 64 hex digits for a signature is accepted, with its fields, exactly if it has not expired and the digits are, in either case, the keyed hash of its own text |
| `DirectToken.AcceptedExactly` | src/common/direct_token.c:168-227 | a text is accepted, as a token, if and only if it is shorter than 1024 characters and its seven fields, none with a bar, are the tag, the caller's node and network, an expiry still ahead, 32 hex digits and 64 hex digits that spell the keyed hash of the signing text in either case |
| `DirectToken.NumbersAre` | src/common/direct_token.c:108-136 | after blanks and one sign, digits alone are read by value: user and network must be positive and saturate at 2^63-1; the expiry must not be zero, wraps under a minus sign and saturates at 2^64-1 |
| `DirectToken.NothingElseRead` | src/common/direct_token.c:108-136 | whatever is read as a number is blanks, at most one sign, and digits |
| `DirectToken.HexSpells` | src/common/direct_token.c:12-22 | byte i is spelled by characters 2i and 2i+1, the high half first, in lower case |
| `DirectToken.SigningInjective` | src/common/direct_token.c:46-70 | the signed text determines user, node id, network, expiry and nonce, even when the node id has newlines |
| `DirectToken.AcceptedIsSigned` | src/common/direct_token.c:168-227 | an accepted token carries the keyed hash of precisely its own fields, is for this node and network, and has not expired |
| `DirectToken.AcceptedHashesDiffer` | src/common/direct_token.c:168-227 | two accepted tokens with different fields are signed over different texts |
| `DirectToken.SigningFits` | src/common/direct_token.c:46-70 | the signed text of valid fields fits its buffer |
| `TokenReader.FieldCursor.NextField` | src/common/direct_token.c:89-106 | cuts the text up to the next separator and leaves the rest |
| `TokenReader.HexString` | src/common/direct_token.c:24-37 | true exactly for the given number of hex digits |
| `TokenReader.HexEqual` | src/common/direct_token.c:72-87 | true exactly for texts equal up to letter case |
| `TokenReader.SevenFields` | src/common/direct_token.c:182-199 | the seven fields, exactly when there are seven |
| `TokenReader.VerifyToken` | src/common/direct_token.c:168-227 | the in-place check accepts exactly what the specification does and returns the same fields |

## Left out

- Sockets, select, accept, address resolution, threads and mutexes: operating system calls; only partial
  reads and writes, waits, failures and the atomicity of locked regions are kept.
- SQLite statements, schema, the list and get endpoints and grants: thin SQL; results are parameters.
- SHA-256, HMAC and random bytes: the keyed hash is a parameter.
- The API dispatcher, HTTP, web assets, the command line, logging, configuration files and TAP devices.
- The order of messages in the authentication handshake of `handle_node`.
- SOCKS5 greeting and CONNECT parsing, and the SOCKS data path (`socks_stream_send_to_client`,
  `enqueue_socks_to_node`): the model starts when host and port are known and keeps what opens and
  closes streams.
- The AUTH_OK and SOCKS_DATA codecs: fixed layouts that would only add easy members.
- `json_appendf`: formatting of numbers around the strings.
- Net.Exchange: the network between the sockets delivers what was written, in order.
- Wrap-around of 64-bit times beyond the subtraction of the move window, because the clock is bounded.
- Numbers in tokens are scanned as `sscanf` does in the C locale: leading blanks, one sign, digits, and
  saturation at the ends of the 64-bit range.
- TapFloods.NetworkFloodLimit: for a limit above one the condition is sufficient only, because two blocks of
  one second may still be within the limit together; the counter is then wrong all the same.
- Writer.FloodBudget: for the bytes of a second likewise.
- TokenReader.HexEqual: does not model that the comparison takes constant time, only its result.
- Net.SendAllTimeout: a budget on the socket bounds how often it may ask for a retry in a row of calls.
- Wire.HelloExact: the bytes a decoder leaves in a field after its first NUL are kept in the model's value;
  C code does not read them, and `Wire.HelloView` and its like leave them out.
- Json.LiteralReadsBack: the reader knows the short escapes and `\u` escapes of ASCII characters, the
  only ones the writer produces, and leaves other bytes as they are.
- SocksClient.NoSlotLeaks: assumes that no other registered stream is 2^32-1 or more openings away, so that
  none can carry the same id, at the moment the client drops its own.
- SessionQueues.ActiveSession.EnqueueTap: a session's scalar fields are one record that each method
  replaces; the two lists and their nodes are linked objects.
- SocksServer.Table.Register: a database file name longer than the slot's buffer is not cut.
