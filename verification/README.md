# Tractor Beam: a verified model

Tractor Beam carries the multiplayer traffic of The Binding of Isaac over its own relay or directly between peers. This
project models the parts of it that keep state or speak a binary format, and proves what they are for.

| file | what it models |
|---|---|
| `Prelude.dfy`, `Text.dfy` | fixed-width integers, results; trimming, lines, UTF-8, hexadecimal and decimal text |
| `FrameWindow.dfy` | the 128-bit duplicate window as a value, which the relay's peers hold, and as an object; the full set of ids it stands for |
| `RelayModel.dfy` | the relay's session state as a value, and each operation on it |
| `RelayInvariant.dfy`, `RelayLife.dfy`, `RelayControl.dfy`, `RelayTraffic.dfy`, `RelayRate.dfy`, `RelayProvenance.dfy` | what holds in every reachable relay state, over the life of one connection, of control peers, of delivered frames and their rate, and why each connection exists |
| `RelayExact.dfy` | each relay operation by when it succeeds, its errors, whose record changes and who is told |
| `RelayService.dfy` | the same state as the object the server locks, each method proved against `RelayModel` |
| `PeerRegistry.dfy` | the allocator of control peer ids |
| `SidecarMarker.dfy`, `SidecarDeploy.dfy` | the write-ahead marker and the crash-safe deployment of the Proton sidecar |
| `Wire.dfy`, `RelayFrame.dfy`, `DirectFrame.dfy` | the two binary frame codecs over one header format |
| `FrameLayout.dfy` | both frame formats byte by byte: what is written, what is accepted, and the answer to anything else |
| `Worker.dfy` | the application worker, its submitters and its control cell as interleaved steps |
| `IpcDecoder.dfy` | the hook's incremental frame decoder |
| `RoomHistory.dfy` | the recent rooms and the one rejoined at startup |
| `RelayCatalog.dfy` | the relay catalog of the config file and its id counter |
| `ProtocolSelection.dfy` | protocol version selection on both protocols |

Code that updates state in place is modelled by classes and loops, proved equal to functions on values; the theorems about
whole runs are about those functions. `dafny verify dfyconfig.toml` checks everything.

## What the proofs found

- Nothing in the server stops one control connection from joining twice (`crates/bridge-relay/src/state.rs:108-168`). Then one
  control peer serves two connections and a broadcast addresses it twice (`RelayControl.DoubleJoinIsAddressedTwice`).
  `RelayControl.EstablishingIsSoundIff` gives the exact condition under which a join or resume is harmless.
- The random connection id is drawn after the earlier connection of the same SteamID64 is removed
  (`crates/bridge-relay/src/state.rs:129-131`), so it may be the id just freed. A connection's life therefore ends where its id
  is issued again, which `RelayLife.LivesThrough` says.
- The duplicate window is asked before the traffic budget, so a rate-limited frame cannot be sent again
  (`RelayLife.RateLimitedFrameIsSpent`).
- The traffic budget uses fixed windows, so a connection can send up to twice its limit within one second, and never more as long
  as some limit is countable (`RelayRate.RateHoldsInEverySecond`, `RelayRate.WindowsCanBeStraddled`). A packet limit of 2^32 - 1
  limits nothing by itself, nor do byte limits of 2^64 - 1 (`RelayRate.RateFailsIfUncountable`).
- A relay's host loses one pair of brackets when it is validated and one more when the saved document is parsed, so a validated
  host can come back changed or be refused (`RelayCatalog.NestedBracketsChange`, `RelayCatalog.EmptyNestedBracketsAreRefused`).
- `stop` has no guard for a superseded control peer, unlike `detach`. A client that resumes over a new control connection while
  still connected loses the resumed connection to the late goodbye of the old one; one that had detached first does not
  (`RelayControl.SupersededStopEndsConnected`, with the run in `RelayControl.LateGoodbyeEndsResumedConnection`).
- The incremental decoder drops the messages of a call that fails, so on a failing stream what arrives depends on how it was split
  (`IpcDecoder.SplitShowsOnFailure`, exact condition in `IpcDecoder.SameAsOneCallIff`).
- A blank join code is kept and offered for restoring until the next start drops it (`RoomHistory.BlankCodeIsLostOnRestart`).
- The sidecar's registry value is read as one trimmed line (`crates/isaac-injector/src/linux.rs:470-477`), so restoring is exact
  if and only if the original value is one line without surrounding white space (`SidecarDeploy.ReportedIsExactIff`).
- Counters saturate: the worker's generation, the control ids and the history ids repeat at 2^64 - 1. Each such property is
  stated with the exact point at which it stops holding.

## Assumptions

- The clock, random draws, the proof-of-work verdict, the outcome of file and registry actions, the outcome of a write and
  whether a client refuses a command are parameters that take every value.
- A drawn connection id is non-zero and not indexed at that moment (`crates/bridge-relay/src/state/routing.rs:96-104`). A room
  holds at least one peer, since the server refuses a configuration that says otherwise.
- Sidecar: renames are atomic, `Path::exists` is reliable, nobody else edits the managed paths or the key while they are in use,
  and an installation starts without a valid marker of ours. What a half-written temporary file holds is never read.
- IPC: an encoded message is zero only at its end, fits the limit and decodes to itself. The decoder is otherwise arbitrary.
- `usize` has 64 bits. Text is a sequence of Unicode scalar values.

## Model

| member | source | states |
|---|---|---|
| FrameWindow.ObserveRefinesReference | crates/relay-protocol/src/duplicate.rs:33-62 | one observation of the 128-bit register takes the decision of a receiver that keeps the whole set of accepted ids, and bit k is set exactly when highest - k was accepted, before and after |
| FrameWindow.WindowRefinesReference | crates/relay-protocol/src/duplicate.rs:33-62 | for every sequence of ids the register and the full-set reference give the same list of decisions |
| FrameWindow.FrameIdWindow.ObserveFrame | crates/relay-protocol/src/duplicate.rs:33-62 | the in-place update: decision and new accepted set are those of the reference |
| FrameWindow.ObservedIsRefused | crates/relay-protocol/src/duplicate.rs:33-62 | an id just observed, whatever the decision, is refused when it comes again |
| FrameWindow.RefusalIsStable | crates/relay-protocol/src/duplicate.rs:33-62 | a refused id stays refused whatever else is observed, however far the window moves |
| RelayInvariant.EveryReachableState | crates/bridge-relay/src/state.rs:85-159 | from an empty relay, in every reachable state: a connection is indexed under a session exactly when that room holds it under that key, its own id is that key, rooms and peers per room stay within their limits, one peer per SteamID64 in a room, and Reconnecting exactly when a deadline is set |
| RelayInvariant.RunKeepsValid | crates/bridge-relay/src/state.rs:75-350 | the same as an invariant of every run from any valid state, whatever joins, resumes, detaches, stops, routes and cleanups come in whatever order |
| RelayInvariant.StepKeepsValid | crates/bridge-relay/src/state.rs:85-350 | each single operation keeps the invariant; joins challenged long before and completed late included |
| RelayInvariant.RemoveDuplicateKeepsValid | crates/bridge-relay/src/state.rs:422-432 | removing the earlier connection of a SteamID64 frees exactly one place, which is why the second capacity test suffices |
| RelayInvariant.AdmitKeepsValid | crates/bridge-relay/src/state.rs:129-159 | admitting a peer under an id not indexed keeps the invariant |
| RelayInvariant.CleanupIsExact | crates/bridge-relay/src/state.rs:328-351 | cleanup removes exactly the peers whose deadline has come, leaves every other peer unchanged, then drops exactly the rooms that are empty and idle |
| RelayInvariant.CleanupKeepsValid | crates/bridge-relay/src/state.rs:328-351 | dropping rooms never leaves an indexed connection without its room |
| RelayLife.LifeOfAConnection | crates/bridge-relay/src/state.rs:170-289 | over the whole life of a connection, through any detaches and resumes, each frame id is delivered at most once and never if the window already refuses it; session, SteamID64, profile, capabilities, resume key and path key never change |
| RelayLife.StepContinues | crates/bridge-relay/src/state.rs:170-350 | every operation either ends a connection or continues it with the same identity, refusing every id it refused before |
| RelayLife.RoutingTouchesSender | crates/bridge-relay/src/state.rs:255-326 | routing changes nothing but the sender record and the time stamp of its room |
| RelayLife.RateLimitedFrameIsSpent | crates/bridge-relay/src/state.rs:255-289 | a frame refused by the rate limit has used up its id: it is delivered never again in the life of the connection |
| RelayControl.EstablishingIsSoundIff | crates/bridge-relay/src/state.rs:139-202 | a join or resume keeps every connected peer reachable through its own control id if and only if no connection that stays already names that control peer |
| RelayControl.OtherStepsKeepSound | crates/bridge-relay/src/state.rs:214-350 | no other operation breaks that, and none gives a connection another control peer |
| RelayControl.OnceMeansSound | crates/bridge-relay/src/state.rs:195-202 | in every run where a control peer establishes at most once, control ids stay sound, and a control peer no longer named is never named again |
| RelayControl.BroadcastsReachEachPeerOnce | crates/bridge-relay/src/state.rs:453-467 | from an empty relay under that assumption, the recipients of every broadcast are pairwise distinct control peers |
| RelayControl.SupersededDetachIsHarmless | crates/bridge-relay/src/state.rs:214-229 | after a resume, however the run continues, the late detach of the superseded control peer changes no peer and sends no broadcast |
| RelayControl.LateDetachIsHarmless | crates/bridge-relay/src/state.rs:214-229 | the same in every run from an empty relay: nothing is assumed but that control peers establish at most once |
| RelayControl.EveryAnswerIsDistinct | crates/bridge-relay/src/state.rs:108-351 | in every such run each broadcast that a join, resume, detach, stop or cleanup answers with addresses every control peer once |
| RelayControl.StopEndsMappedConnection | crates/bridge-relay/src/state.rs:231-234 | a stop ends a connection if and only if its control peer is mapped to it |
| RelayControl.SupersededStopIff | crates/bridge-relay/src/state.rs:195-234 | the stop of a control peer just superseded by a resume spares the resumed connection if and only if that control peer was not mapped to it any more |
| RelayControl.SupersededStopEndsConnected | crates/bridge-relay/src/state.rs:195-234 | in every run from an empty relay where control peers establish at most once: that stop ends the resumed connection if and only if it was still connected, not reconnecting, when it was resumed |
| RelayControl.StaleStopStillEnds | crates/bridge-relay/src/state.rs:195-234 | and however long after: while the superseded control peer has neither detached nor stopped, its stop still ends the connection |
| RelayControl.LateStopStillEnds | crates/bridge-relay/src/state.rs:195-234 | the same in every run from an empty relay: whatever comes before and after the resume, the stale entry leads to that connection id, whose connection the stop ends, be it by then another player |
| RelayControl.LateGoodbyeEndsResumedConnection | crates/bridge-relay/src/state.rs:195-234 | a concrete run, join over one control connection, resume over another, goodbye from the first, after which the resumed connection is gone |
| RelayControl.LateGoodbyeEstablishesOnce | crates/bridge-relay/src/state.rs:195-234 | in that run every control peer establishes once, so the environment assumption does not exclude it |
| RelayControl.DoubleJoinIsAddressedTwice | crates/bridge-relay/src/state.rs:108-168 | a concrete run in which one control connection joins twice and a broadcast then addresses it twice |
| RelayService.RelayState.BeginJoin | crates/bridge-relay/src/state.rs:85-106 | in place on the four maps, keeping the invariant: records the challenge or refuses for capacity; new state and answer equal those of the value model the theorems are about |
| RelayService.RelayState.CompleteJoin | crates/bridge-relay/src/state.rs:108-168 | in place on the four maps, keeping the invariant: consumes the challenge, tests capacity again, replaces an earlier connection of the same SteamID64 and admits the new one; new state and answer equal those of the value model the theorems are about |
| RelayService.RelayState.Resume | crates/bridge-relay/src/state.rs:170-212 | in place on the four maps, keeping the invariant: reattaches a known connection to a new control peer, keeping its window; new state and answer equal those of the value model the theorems are about |
| RelayService.RelayState.Detach | crates/bridge-relay/src/state.rs:214-229 | in place on the four maps, keeping the invariant: starts the recovery period of the connection the control peer still owns; new state and answer equal those of the value model the theorems are about |
| RelayService.RelayState.Stop | crates/bridge-relay/src/state.rs:231-234 | in place on the four maps, keeping the invariant: removes the mapped connection; new state and answer equal those of the value model the theorems are about |
| RelayService.RelayState.BindUdpPath | crates/bridge-relay/src/state.rs:236-253 | in place on the four maps, keeping the invariant: binds the UDP address when the path key matches; new state and answer equal those of the value model the theorems are about |
| RelayService.RelayState.RouteData | crates/bridge-relay/src/state.rs:255-289 | in place on the four maps, keeping the invariant: checks source, window, budget and target in the order of the code; new state and answer equal those of the value model the theorems are about |
| RelayService.RelayState.RouteProbe | crates/bridge-relay/src/state.rs:291-326 | in place on the four maps, keeping the invariant: the same for probes, with both budgets; new state and answer equal those of the value model the theorems are about |
| RelayService.RelayState.RemoveConnection | crates/bridge-relay/src/state.rs:434-440 | in place on the four maps, keeping the invariant: removes a connection from its room and both indexes; new state and answer equal those of the value model the theorems are about |
| RelayService.RelayState.RemoveDuplicate | crates/bridge-relay/src/state.rs:422-432 | in place on the four maps, keeping the invariant: removes the earlier connection of a SteamID64 from its room; new state and answer equal those of the value model the theorems are about |
| RelayService.RelayState.ValidateRoomCapacity | crates/bridge-relay/src/state.rs:403-420 | answers the capacity error of the value model by scanning the room |
| RelayService.RelayState.Cleanup | crates/bridge-relay/src/state.rs:328-351 | the loop that removes expired connections one at a time, in any order, then the idle rooms, ends in the one-step cleanup of the value model with one broadcast for each removed connection whose room still has a listener |
| RelayTraffic.DeliveryStaysInSession | crates/bridge-relay/src/state/routing.rs:27-68 | a delivered frame or probe came from the SteamID64 and the transport of its own connection and goes to the only peer of the same session with the target SteamID64, where that peer is reached now; frames never cross sessions |
| RelayProvenance.EveryConnectionIsAccountedFor | crates/bridge-relay/src/state.rs:85-253 | in every state reachable from an empty relay, every connection was admitted by a challenge issued to its control peer and answered correctly within thirty seconds, for exactly its session, SteamID64, profile and capabilities; its control peer joined or has since shown its resume key, and its UDP address was bound with its path key |
| RelayProvenance.StepAccounts | crates/bridge-relay/src/state.rs:85-350 | each operation keeps that account |
| RelayTraffic.StepMinds | crates/bridge-relay/src/state.rs:85-350 | no operation changes the budget of a connection but its own frames, its UDP address but its own path key, or its control peer but its own resume key before the deadline |
| RelayRate.RateHoldsInEverySecond | crates/bridge-relay/src/state/traffic_budget.rs:34-72 | in every run of frames the decoder accepts, with a clock that does not run backwards, a connection gets at most twice its packet limit, twice its byte cap (the lesser of burst and rate, but one frame always fits the rate) and twice ten probes delivered in any second, wherever that second begins, whenever the limit is countable: its own counter does not saturate below it, or that of bytes does the counting for packets and that of packets for bytes |
| RelayRate.RateFailsIfUncountable | crates/bridge-relay/src/state/traffic_budget.rs:45-57 | where the limit is not countable the bound fails: every newly admitted TCP connection has a run of frames the decoder accepts that exceeds it; so countable is the exact condition for bytes and for the packets of a connection that may not probe |
| RelayRate.TrafficIsCharged | crates/bridge-relay/src/state/traffic_budget.rs:34-57 | an allowed frame is charged in full to the current or a new window, a refused one not at all, and the limit is kept |
| RelayRate.ProbeIsCharged | crates/bridge-relay/src/state/traffic_budget.rs:59-72 | an allowed probe is charged to the current or a new probe window, a refused one not at all, and ten is never passed |
| RelayRate.PacketsAndBytes | crates/bridge-relay/src/state/traffic_budget.rs:34-57 | over every run packets and bytes bound each other through the shortest and the longest frame |
| RelayRate.WindowsCanBeStraddled | crates/bridge-relay/src/state/traffic_budget.rs:39-57 | the factor two is reached: two frames a nanosecond apart under a limit of one |
| RelayRate.AdmissionStartsUnused | crates/bridge-relay/src/state/traffic_budget.rs:21-32 | an admitted connection starts with an unused budget and an empty window, which is what the bound above needs |
| RelayRate.DecodedIsReceivable | crates/bridge-relay/src/server/data.rs:138-160 | every frame the decoder accepts is routed with a length between the shortest and the longest header and payload, a data frame with a frame id that is not zero |
| RelayFrame.LengthOfDecoded | crates/relay-protocol/src/frame.rs:209-241 | the lengths an accepted data or probe frame can have |
| PeerRegistry.AllocatedAreDistinctIff | crates/bridge-relay/src/peer_registry.rs:8-20 | the control ids a server hands out are pairwise distinct if and only if it has accepted at most 2^64 - 1 sockets |
| PeerRegistry.Registry.Allocate | crates/bridge-relay/src/peer_registry.rs:15-19 | hands out the counter and moves it on, saturating |
| PeerRegistry.Registry.AllocateAll | crates/bridge-relay/src/server.rs:91-103 | one id for each accepted socket, in order |
| SidecarMarker.MarkerRoundTrips | crates/isaac-injector/src/linux.rs:362-396 | the marker written for any original override, of any text, reads back as exactly that override |
| SidecarMarker.HexEncodeText | crates/isaac-injector/src/linux.rs:517-525 | the printing loop yields text that decodes to the bytes of the value |
| Text.HexRoundTrips | crates/isaac-injector/src/linux.rs:517-545 | hexadecimal decoding inverts encoding for every byte string |
| SidecarDeploy.ReportedIsExactIff | crates/isaac-injector/src/linux.rs:470-477 | a registry value comes back unchanged from the registry query if and only if it is one line without surrounding white space |
| SidecarDeploy.Installation.History | crates/isaac-injector/src/linux.rs:241-341 | any sequence of deployments, removals and recoveries, each action of which may fail before or after taking effect or be the last before a crash: either no trace of a deployment is left, or the marker is present and decodes to the true original, or somebody else owns a managed name, and then nothing is ever changed |
| SidecarDeploy.Installation.HistoryThenRecovery | crates/isaac-injector/src/linux.rs:307-341 | after any such history one undisturbed recovery leaves no marker, no managed file and the override as first reported; exactly the original when it is reported exactly |
| SidecarDeploy.Installation.DeployThenRemove | crates/isaac-injector/src/linux.rs:241-341 | deploying and removing gives the original override back if and only if it is reported exactly |
| SidecarDeploy.PaddedOverrideIsTrimmed | crates/isaac-injector/src/linux.rs:470-477 | the failing input: an override stored as a space and the word native comes back without the space |
| SidecarDeploy.Installation.DeploySidecar | crates/isaac-injector/src/linux.rs:241-297 | success means that no action failed but quiet removals, and all three files are in place with the right contents, the override set and the marker recording the true original; failure or crash anywhere stays recoverable; foreign files are refused and untouched |
| SidecarDeploy.Installation.WriteAhead | crates/isaac-injector/src/linux.rs:275-277 | the marker with the true original is on disk before any managed file or the registry is touched |
| SidecarDeploy.Installation.Install | crates/isaac-injector/src/linux.rs:279-285 | the override differs from the original only while every managed file is in place |
| SidecarDeploy.Installation.RemoveWithRuntime | crates/isaac-injector/src/linux.rs:323-341 | override first, files next, marker last: undone from any interrupted state, and without our marker nothing is changed; success means that no action failed but quiet ones |
| SidecarDeploy.Installation.RemoveSidecar | crates/isaac-injector/src/linux.rs:299-305 | the same at the end of a session, silently leaving a marker that is not ours |
| SidecarDeploy.Installation.RecoverStale | crates/isaac-injector/src/linux.rs:307-321 | undisturbed, it reaches the clean state from every state a crash can leave; it refuses a foreign marker |
| SidecarDeploy.Installation.RestoreOverride | crates/isaac-injector/src/linux.rs:192-205 | sets, deletes or removes so that success means the recorded override |
| SidecarDeploy.Installation.RemoveEmptyKey | crates/isaac-injector/src/linux.rs:207-225 | the key is deleted only when it holds no value at all |
| SidecarDeploy.Installation.SetOverride | crates/isaac-injector/src/linux.rs:173-190 | creates the key, then stores the value; interrupted, either part may be missing |
| SidecarDeploy.Installation.ReadOverride | crates/isaac-injector/src/linux.rs:150-171 | reports whether the key exists and its value as the query reports it |
| SidecarDeploy.Installation.WriteAtomically | crates/isaac-injector/src/linux.rs:398-429 | the target has its old or its new contents and no other file but the temporary one is touched |
| RelayFrame.DecodeOfWireForm | crates/relay-protocol/src/frame.rs:117-354 | every encodable relay frame, of every kind, decodes from its encoding, and from the same bytes with any extension inserted after its header and its header length raised accordingly |
| RelayFrame.WireFormOfDecode | crates/relay-protocol/src/frame.rs:187-314 | every accepted byte string is the wire form of the re-encodable frame it decodes to |
| RelayFrame.DecodeIsTheGrammar | crates/relay-protocol/src/frame.rs:187-314 | a byte string decodes to a frame if and only if it is a wire form of that frame, so accepted strings are exactly the grammar and unambiguous |
| RelayFrame.MinimalHeaderReencodes | crates/relay-protocol/src/frame.rs:117-354 | re-encoding an accepted frame returns the same bytes if and only if its header length is the minimum |
| RelayFrame.DecodeFrame | crates/relay-protocol/src/frame.rs:187-314 | the cursor-driven decoder, checks in the order of the code, equals the decoder of the theorems; every read is proved to stay in the buffer |
| RelayFrame.EncodeFrame | crates/relay-protocol/src/frame.rs:117-185 | the appending encoder equals the encoder of the theorems, refusals included |
| DirectFrame.DecodeOfWireForm | crates/direct-protocol/src/frame.rs:121-412 | every encodable direct frame, of every kind, decodes from its encoding, and from the same bytes with any extension inserted after its header and its header length raised accordingly |
| DirectFrame.WireFormOfDecode | crates/direct-protocol/src/frame.rs:203-314 | every accepted byte string is the wire form of the re-encodable frame it decodes to |
| DirectFrame.DecodeIsTheGrammar | crates/direct-protocol/src/frame.rs:203-314 | a byte string decodes to a frame if and only if it is a wire form of that frame, so accepted strings are exactly the grammar and unambiguous |
| DirectFrame.MinimalHeaderReencodes | crates/direct-protocol/src/frame.rs:121-412 | re-encoding an accepted frame returns the same bytes if and only if its header length is the minimum |
| DirectFrame.DecodeFrame | crates/direct-protocol/src/frame.rs:203-314 | the cursor-driven decoder, checks in the order of the code, equals the decoder of the theorems; every read is proved to stay in the buffer |
| DirectFrame.EncodeFrame | crates/direct-protocol/src/frame.rs:121-201 | the appending encoder equals the encoder of the theorems, refusals included |
| DirectFrame.ReadPath | crates/direct-protocol/src/frame.rs:343-373 | reads the five path fields in order |
| DirectFrame.PutPath | crates/direct-protocol/src/frame.rs:335-341 | appends the five path fields in the order they are read |
| Wire.OpenOfSeal | crates/relay-protocol/src/frame.rs:187-235 | the header checks accept what the header writer writes and return its envelope |
| Wire.SealOfOpen | crates/relay-protocol/src/frame.rs:187-235 | every accepted header is one the header writer writes |
| Wire.Cursor.ReadHeader | crates/relay-protocol/src/frame.rs:187-235 | the checks on the common header, in order, against the declared lengths |
| Worker.CommandsRunOnFreshStamps | crates/bridge-application/src/application.rs:541-558 | in every interleaving of submitters, leave and shutdown requests and the worker: a command runs only if nothing began or ended since its generation was read, and none runs after one with the same stamp that performed an operation; both unless the generation has saturated |
| Worker.StampTest | crates/bridge-application/src/application.rs:684-701 | the worker accepts a stamp if and only if nothing changed since it was taken or both counts are past the saturation point |
| Worker.TwoPerformOnOneStamp | crates/bridge-application/src/application.rs:669-690 | a run from the start, through a saturated generation, at whose end two commands with one stamp have both performed their operation |
| Worker.EveryCountIsReached | crates/bridge-application/src/application.rs:461-490 | any even number of changes is reached by leaving the room again and again |
| Worker.SaturationLetsTwoPerform | crates/bridge-application/src/application.rs:669-690 | with the generation saturated two queued commands with one stamp both perform |
| Worker.RunKeepsInv | crates/bridge-application/src/application.rs:430-568 | the queue stays within its capacity, an operation is shown while one runs and none between commands, and a requested shutdown is in the control cell until the worker is closing |
| Worker.ShutdownIsNeverLost | crates/bridge-application/src/application.rs:310-313 | leave requests never demote a shutdown request: from any reachable state at most one more command runs, and the shutdown completes within a bounded number of worker steps |
| Worker.RequestedShutdownCompletes | crates/bridge-application/src/application.rs:338-340 | whatever came before, after a shutdown request at most one further command runs and six worker steps complete the shutdown |
| Worker.NothingRunsAfterStop | crates/bridge-application/src/application.rs:461-477 | once the worker has stopped nothing runs, changes or is queued |
| Worker.OperationIsTwoChanges | crates/bridge-application/src/application/commands.rs:11-388 | a dequeued command performs its own operation if and only if the client is up, nothing changed since its stamp and it does not refuse early; the operation is shown while it runs, its begin and end are two changes, and every other outcome changes nothing |
| IpcDecoder.FrameDecoder.Push | crates/hook-ipc/src/codec.rs:40-58 | the byte loop, its buffer zero-free and within the limit between calls, equals the byte-wise specification, errors clearing the buffer |
| IpcDecoder.FrameDecoder.Finish | crates/hook-ipc/src/codec.rs:60-66 | fails exactly when bytes are held |
| IpcDecoder.FeedIsCut | crates/hook-ipc/src/codec.rs:40-58 | for every input the decoder gives the messages, leftover and first error of cutting the whole stream after every zero |
| IpcDecoder.SplittingKeepsTheOutcome | crates/hook-ipc/src/codec.rs:40-58 | however a stream is split over successive calls, the first error and the leftover are those of one call on the whole, and so are the messages if there is no error |
| IpcDecoder.ArrivesUpToFailingCall | crates/hook-ipc/src/codec.rs:40-58 | of a stream that fails, exactly the messages of all frames completed in calls before the failing one arrive, one for each zero in them |
| IpcDecoder.SameAsOneCallIff | crates/hook-ipc/src/codec.rs:40-58 | many calls deliver what one call delivers if and only if the stream is accepted or no frame ends before the failing call |
| IpcDecoder.SplitShowsOnFailure | crates/hook-ipc/src/codec.rs:40-58 | any encoded message followed by any frame the decoder refuses: one message in two calls, none in one call |
| IpcDecoder.OneMessagePerZero | crates/hook-ipc/src/codec.rs:51-55 | an accepted input yields one message for each frame that ends in it |
| IpcDecoder.EncodedMessagesArrive | crates/hook-ipc/src/codec.rs:3-66 | encoded messages split at any points arrive exactly, in order, with nothing left over |
| IpcDecoder.LeftoverIsTheTail | crates/hook-ipc/src/codec.rs:40-58 | what is held after an accepted stream is what follows its last zero |
| IpcDecoder.FinishSucceedsIff | crates/hook-ipc/src/codec.rs:60-66 | finishing succeeds if and only if the accepted stream is empty or ends in a zero |
| RoomHistory.HistoryIsFiveMostRecent | crates/flutter-bridge/src/room_history.rs:132-170 | after any records and clears the kept codes are the first five of all codes ever used, most recent first |
| RoomHistory.RecentIsByLastUse | crates/flutter-bridge/src/room_history.rs:132-163 | that order is by descending last use, over exactly the codes used |
| RoomHistory.IdsAreFresh | crates/flutter-bridge/src/room_history.rs:143-163 | kept ids are distinct and below the next id until the counter saturates |
| RoomHistory.IdsStayDistinctIff | crates/flutter-bridge/src/room_history.rs:143-159 | a record keeps ids distinct if and only if its code is known or the counter is not one of the four ids it keeps |
| RoomHistory.IdsRepeatAtSaturation | crates/flutter-bridge/src/room_history.rs:143-159 | the failing input: after a start from a readable file whose counter is at its end, two new codes get one id |
| RoomHistory.RestoreIsExact | crates/flutter-bridge/src/room_history.rs:116-126 | the restore id names the newest entry, and the entry to restore is the last recorded room if and only if that was a relay room and nothing was cleared since; even after saturation |
| RoomHistory.SanitizedIsIdentityIff | crates/flutter-bridge/src/room_history.rs:195-204 | reading back any history a store can hold changes nothing if and only if none of its codes is blank |
| RoomHistory.StoreIsReplay | crates/flutter-bridge/src/room_history.rs:61-205 | over any records, clears, failed writes and restarts, with any codes and a file that may be unreadable, memory and file are what their surviving moves make of an empty history: a restart resumes, sanitised, at the last written one |
| RoomHistory.RestartsDoNotShow | crates/flutter-bridge/src/room_history.rs:61-205 | where no blank code was recorded the history across any restarts is that of its uses alone |
| RoomHistory.StoreHoldsFiveMostRecent | crates/flutter-bridge/src/room_history.rs:61-205 | over every run of records of codes that are not blank, clears, failed writes, restarts and unreadable files, the memory holds the five most recent of the uses that survived |
| RoomHistory.BlankCodeIsLostOnRestart | crates/flutter-bridge/src/room_history.rs:195-204 | a blank code is recorded and offered for restoring, and gone after a restart |
| RoomHistory.RoomHistoryStore.RecordSuccess | crates/flutter-bridge/src/room_history.rs:132-163 | find, remove, insert in front, truncate; memory changes even when the write fails |
| RoomHistory.RoomHistoryStore.ClearRestore | crates/flutter-bridge/src/room_history.rs:165-170 | forgets the restore id and writes only if there was one |
| RoomHistory.RoomHistoryStore.Load | crates/flutter-bridge/src/room_history.rs:62-90 | memory becomes the sanitised file, or empty when there is none or it cannot be read; the file stays as it is |
| RoomHistory.RoomHistoryStore.RetainNonBlank | crates/flutter-bridge/src/room_history.rs:195-196 | keeps the entries whose code is not blank, in order |
| RelayCatalog.AddIsExact | crates/bridge-core/src/client/config.rs:492-505 | adding to a valid catalog succeeds if and only if the profile is still valid parsed a second time and the counter is not exhausted, never with a duplicate id; the parsed catalog grows by exactly the new relay, parsed a second time and selected, and the counter moves past its id; every error is determined |
| RelayCatalog.UpdateIsExact | crates/bridge-core/src/client/config.rs:506-510 | an update succeeds if and only if the profile is still valid parsed a second time and the id is known; it changes that profile only; every error is determined |
| RelayCatalog.HostIsStableIff | crates/bridge-core/src/client/session_config.rs:116-128 | parsing a host gives it back if and only if it is trimmed and not in brackets; it never makes a blank host good |
| RelayCatalog.ReparsedIsValid | crates/bridge-core/src/client/config.rs:135-148 | a validated profile is saved as validated if and only if its normalised host is trimmed and not in brackets; what passes the second parse passed the first |
| RelayCatalog.BracketsComeOff | crates/bridge-core/src/client/session_config.rs:116-128 | one pair of brackets comes off, whatever is inside |
| RelayCatalog.EmptyNestedBracketsAreRefused | crates/bridge-core/src/client/config.rs:135-148 | the failing input: a host of two nested empty pairs of brackets is validated and then refused by the parse before saving |
| RelayCatalog.NestedBracketsChange | crates/bridge-core/src/client/config.rs:135-148 | the other failing input: a host in two pairs of brackets is validated with one and parsed with none |
| RelayCatalog.DeleteIsExact | crates/bridge-core/src/client/config.rs:511-529 | a deletion succeeds if and only if the id is known and the counter fits; it removes that relay and deselects it even when the caller padded the id; the counter keeps its value |
| RelayCatalog.AddedIdIsAboveEveryEarlierId | crates/bridge-core/src/client/config.rs:671-691 | in every run of changes, failed writes and selections, an added relay gets an id above every numeric id any earlier document held, deleted ones included |
| RelayCatalog.WatermarkNeverDecreases | crates/bridge-core/src/client/config.rs:483-539 | the next id never decreases over any run |
| RelayCatalog.WatermarkIsUnused | crates/bridge-core/src/client/config.rs:671-691 | the id the counter yields is not in the catalog |
| RelayCatalog.ParseIsExact | crates/bridge-core/src/client/config.rs:307-354 | a document parses if and only if its relays, trimmed and with one pair of brackets off their hosts, are valid with distinct ids; the selection of a config is one of its relays and the unknown-selection error cannot come out of a document |
| RelayCatalog.JudgeIsExact | crates/bridge-core/src/client/config.rs:53-60 | validation passes if and only if every relay is valid and no id repeats |
| RelayCatalog.ConfigFile.Validate | crates/bridge-core/src/client/config.rs:53-65 | the loop over a growing set of ids finds the first fault |
| RelayCatalog.ConfigFile.SaveRelayCatalog | crates/bridge-core/src/client/config.rs:483-539 | the file is replaced only on success; every error leaves it as it was |
| RelayCatalog.ConfigFile.FindTable | crates/bridge-core/src/client/config.rs:718-733 | finds the first relay whose trimmed id is the trimmed id asked for |
| Text.DecimalRoundTrips | crates/bridge-core/src/client/config.rs:671-691 | a printed id parses back to its number and is its own trimmed form |
| ProtocolSelection.SelectProtocol | crates/relay-protocol/src/bootstrap.rs:133-165 | for well-formed lists of any length: a version in some range of each side with no newer common version, or no-common exactly when there is none; otherwise the first malformed range |
| ProtocolSelection.SelectDirectProtocol | crates/direct-protocol/src/types.rs:234-263 | the same within its count limit, judging the local list completely before the remote one |
| ProtocolSelection.ValidateSelectionRanges | crates/direct-protocol/src/types.rs:282-292 | count first, then the first malformed range |
| ProtocolSelection.NewestCommon | crates/relay-protocol/src/bootstrap.rs:143-164 | the nested loops end in the newest common version |
| ProtocolSelection.SelectionIgnoresOrder | crates/relay-protocol/src/bootstrap.rs:133-165 | well-formed lists reordered, repeated or exchanged between the sides select the same version |
| ProtocolSelection.DirectMeetsRelay | crates/direct-protocol/src/types.rs:234-263 | within the count limit both selections allow the same answers, errors included |
| RelayExact.ResumeIsExact | crates/bridge-relay/src/state.rs:170-212 | a resume succeeds if and only if the connection is known, the key is its resume key and a deadline, if there is one, is not past; each error is determined; on success the peer is connected under the new control peer without a deadline, everything else of its record but the time of contact is kept, no other connection changes and exactly the connected others of its session are told |
| RelayExact.DetachIsExact | crates/bridge-relay/src/state.rs:214-229 | a detach changes a record if and only if its control peer still owns a connected connection; that becomes reconnecting with a deadline 120 seconds on, and the others are told; the control entry goes in any case |
| RelayExact.DetachedCanResume | crates/bridge-relay/src/state.rs:170-229 | over every run in which the clock does not run backwards: a connection whose owner detached is resumed with its key, over any control connection, at any time up to 120 seconds later, if nothing in between ended it |
| RelayExact.StopIsExact | crates/bridge-relay/src/state.rs:231-234 | a stop removes exactly the mapped connection with its entries, keeps all others and tells the rest of its session |
| RelayExact.BindIsExact | crates/bridge-relay/src/state.rs:236-253 | a UDP path is bound if and only if the connection is known, uses UDP and the path key is its own; each error is determined; only its address and time of contact change |
| RelayExact.BroadcastIsTold | crates/bridge-relay/src/state.rs:453-467 | a broadcast goes to exactly the connected peers of the session but the excluded one, each over its control peer, and there is none if there are none |
| RelayExact.CapacityIsExact | crates/bridge-relay/src/state.rs:403-420 | there is a place if and only if the session exists and the player is in it or it has fewer connections than its limit, or it does not exist and there are fewer sessions than the limit; each error is determined |
| RelayExact.BeginJoinIsExact | crates/bridge-relay/src/state.rs:85-106 | a challenge is recorded if and only if there is a place, and nothing else changes |
| RelayExact.CompleteJoinIsExact | crates/bridge-relay/src/state.rs:108-168 | a join completes if and only if it was challenged, the answer is to that challenge, within thirty seconds, correct, and there is still a place; each error is determined and uses the challenge up |
| RelayExact.JoinAdmitsExactly | crates/bridge-relay/src/state.rs:129-168 | a completed join replaces exactly the connection its player had in the session by a new one with every field given, keeps all others and tells exactly the connected others |
| RelayExact.JoinStampsItsSession | crates/bridge-relay/src/state.rs:129-168 | it adds its session if that is new and stamps no other session |
| RelayExact.CleanupRemovesExactly | crates/bridge-relay/src/state.rs:328-351 | cleanup removes exactly the connections whose deadline is reached and exactly the sessions with nobody else in them that are idle, and keeps the records of all others |
| RelayExact.CleanupTellsExactly | crates/bridge-relay/src/state.rs:328-351 | for each removed connection, and only for those, the connected peers of its session are told if there are any |
| RelayExact.CleanupOfTheRest | crates/bridge-relay/src/state.rs:328-351 | it drops exactly the challenges issued thirty seconds ago or earlier and the control entries of the removed connections |
| RelayExact.AffordableIsExact | crates/bridge-relay/src/state/traffic_budget.rs:34-57 | a frame is allowed if and only if with it the packets of the second stay within the packet limit and its bytes within the burst, and within the rate unless it is the first |
| RelayExact.ProbeAffordableIsExact | crates/bridge-relay/src/state/traffic_budget.rs:59-72 | a probe is allowed if and only if fewer than ten were in its second |
| RelayExact.WindowIsExact | crates/relay-protocol/src/duplicate.rs:33-62 | an id is too old if and only if it lies 128 or more behind the highest, a duplicate if and only if it lies within and its bit is set, and accepted otherwise |
| RelayExact.TargetIsExact | crates/bridge-relay/src/state/routing.rs:44-68 | the answer is the place where the only peer of the session with that SteamID64 is reached now, and otherwise which of not joined, unable to probe or unavailable it is |
| RelayExact.RouteDataIsExact | crates/bridge-relay/src/state.rs:255-289 | a data frame is delivered if and only if its sender is known, uses its own SteamID64 and transport, its window does not refuse the id, the counters with this frame are within the packet, burst and rate limits, and some peer of the session has the target SteamID64 and a transport that reaches it now; which error each failed condition gives |
| RelayExact.RouteDataEffect | crates/bridge-relay/src/state.rs:255-289 | what a frame changes: nothing if refused before the budget, only window and budget if over the limit, and also both times of contact if allowed |
| RelayExact.RouteProbeIsExact | crates/bridge-relay/src/state.rs:291-326 | the same for probes, with the probe capability of both ends and the probe budget; which error each failed condition gives |
| RelayExact.RouteProbeEffect | crates/bridge-relay/src/state.rs:291-326 | what a probe changes: nothing if refused before the budgets, otherwise the budgets as far as they were asked, and the times of contact if allowed |
| FrameLayout.RelayEncodesLayout | crates/relay-protocol/src/frame.rs:117-185 | a frame is encoded if and only if it may be sent, and then byte by byte: TBR3, version 3.0, the kind 1 to 4, header and payload length, and every field at its offset (data: 16, 24, 32, 40, 48, 64, 72, 76, payload at 80; probe: 16, 24, 32, 40, 48, 49) by its big-endian digits |
| FrameLayout.RelayDecodesLayout | crates/relay-protocol/src/frame.rs:187-314 | a byte string decodes to a frame if and only if the frame may be sent and stands in the bytes that way, with a header of any length from the minimum |
| FrameLayout.RelayRefusesExactly | crates/relay-protocol/src/frame.rs:187-314 | every other byte string is refused with the first fault in its bytes, header, ids, phase and reserved bytes in the order of the code |
| FrameLayout.RelayEncodeRefusesExactly | crates/relay-protocol/src/frame.rs:117-185 | which error an unsendable frame gets |
| FrameLayout.DirectEncodesLayout | crates/direct-protocol/src/frame.rs:121-201 | the same for direct frames: TBD2, version 2.0, the path at 16, 32, 48, 56 and 72, then the fields of the kind from 80 on |
| FrameLayout.DirectDecodesLayout | crates/direct-protocol/src/frame.rs:203-314 | a byte string decodes to a direct frame if and only if it may be sent and stands in the bytes that way |
| FrameLayout.DirectRefusesExactly | crates/direct-protocol/src/frame.rs:203-373 | every other byte string is refused with the first fault in its bytes |
| FrameLayout.DirectEncodeRefusesExactly | crates/direct-protocol/src/frame.rs:121-201 | which error an unsendable direct frame gets |
| FrameLayout.OpenIsExact | crates/relay-protocol/src/frame.rs:187-235 | the header check answers the first fault of the sixteen bytes, or the kind and both lengths |
| Worker.RetryBootstraps | crates/bridge-application/src/application.rs:511-522 | without a client a retry is two more worker steps, the begin and the end of a bootstrap, two changes, initialising in between, then ready with a client or failed without one as it goes; with a client it changes nothing but the queue |
| Worker.RetryThenPerform | crates/bridge-application/src/application.rs:430-568 | a run from the start: the bootstrap fails, a retry succeeds and a command then performs |
| Worker.CommandTable | crates/bridge-application/src/application/commands.rs:11-388 | which command performs which operation, and which may refuse first |
| Worker.CommandRunsIff | crates/bridge-application/src/application.rs:541-558 | which dequeued commands run and what becomes of the state otherwise: with a client every fresh command that does not refuse, without one only the opening of the logs after a failed bootstrap |
| Worker.SubmitIsExact | crates/bridge-application/src/application.rs:430-439 | a command is queued behind all others if and only if fewer than sixteen are and the worker lives |
| Worker.ControlIsExact | crates/bridge-application/src/application.rs:461-490 | what each request in the control cell makes the worker do, step by step |
| Worker.RequestsAreExact | crates/bridge-application/src/application.rs:310-313 | a leave request never displaces a shutdown request, which displaces everything |
| RelayCatalog.ParseKeepsFields | crates/bridge-core/src/client/config.rs:307-354 | a document parses if and only if each table has a trimmed id, name, host, a port, a transport and no preference for one it lacks, and no two trimmed ids agree; the config keeps port, transports and preference of each table, its trimmed name, and its host with one pair of brackets off |
| RelayCatalog.AddKeepsFields | crates/bridge-core/src/client/config.rs:492-505 | the relay a catalog gains by an add has the port, transports and preferred transport of the input, the trimmed name and the host without brackets, field by field; when it is refused, field by field |
| RelayCatalog.UpdateKeepsFields | crates/bridge-core/src/client/config.rs:506-510 | the same for an update, which leaves every other relay and the selection as they were |
| RelayCatalog.SelectionIsExact | crates/bridge-core/src/client/config.rs:314-315 | the selection is the trimmed stored key if and only if a relay has that id |
| RelayCatalog.SelectIsExact | crates/bridge-core/src/client/config.rs:610-628 | selecting changes the selection only, to the trimmed id if a relay has it and to none otherwise |
| RelayCatalog.FaultIsFirst | crates/bridge-core/src/client/config.rs:53-60 | the fault reported is the first, an invalid relay before a repeated id |
| RelayCatalog.WatermarkIsLeast | crates/bridge-core/src/client/config.rs:671-691 | the next id is the least number from one on that is above every numeric id and not below the stored counter |
| RoomHistory.RecordIsExact | crates/flutter-bridge/src/room_history.rs:132-163 | recording puts the code in front with its route under the id it had or else the next one, makes it the one to restore, and keeps behind it up to four of the others as they were |
| RoomHistory.SanitizedIsExact | crates/flutter-bridge/src/room_history.rs:195-204 | of a file are kept the counter, the first five codes that are not blank in order, and the restore id if it is still among them |
| RoomHistory.RetainIsExact | crates/flutter-bridge/src/room_history.rs:195-196 | blank means white space only, and retaining goes entry by entry |
| Text.TrimIsMiddle | crates/isaac-injector/src/linux.rs:470-477 | trimming takes away white space at both ends and nothing else |
| Text.HexIsDigits | crates/isaac-injector/src/linux.rs:517-525 | two lower-case digits a byte, the high one first |
| Text.HexDecodeIsExact | crates/isaac-injector/src/linux.rs:527-545 | a text decodes to some bytes if and only if it is two digits a byte, of either case |
| Text.FromUtf8IsExact | crates/isaac-injector/src/linux.rs:390-394 | exactly the UTF-8 encodings of texts are decoded |
| Text.ParseU64IsExact | crates/bridge-core/src/client/config.rs:671-691 | what parses as a number: its decimal digits after any zeros, with or without a plus sign, within 64 bits |
| SidecarMarker.MarkerIsThisText | crates/isaac-injector/src/linux.rs:362-376 | the text of the marker, letter by letter |
| SidecarMarker.MarkerIsExact | crates/isaac-injector/src/linux.rs:378-396 | a file is read as a marker if and only if it has exactly the three lines of one |
| SidecarMarker.WritesIsExact | crates/isaac-injector/src/linux.rs:389-395 | the third line stands for a value if and only if it is a dash for none, or two digits for each byte of its UTF-8 |
| SidecarDeploy.Installation.PutInPlace | crates/isaac-injector/src/linux.rs:274-297 | a deployment that fails at one action is undone: no managed file is left and the override is as before |

## Left out

- Sockets, the TCP and UDP servers, egress queues, metrics and telemetry: plumbing over libraries.
- Proof of work, randomness, JSON control messages, base58, postcard and COBS: libraries outside the repository, present here as
  parameters.
- Order of broadcast recipients and of the removals in a cleanup: hash map order is not defined; the model holds for every order.
- Display names, room views and the relay's peer counts: read-only projections of the modelled state.
- RelayRate.RateHoldsInEverySecond: for the packets of a connection that may probe, with a packet limit of 2^32 - 1, the condition
  is not exact: the bound holds for byte caps below 80 * 2^32 - 280 and fails from 80 * 2^32 on. In between it depends on how
  probes, which are shorter, fall into the windows, and is left open.
- Worker: what an operation does to the client, the LAN room and the events it sends; only when operations begin and end.
- Sidecar: the removal of empty log directories, the process map inspection and the lossy decoding of command output.
- RelayCatalog: TOML text, comments, manual Steam accounts, preferences and session health settings; a document keeps relays,
  selection and counter, and the transport name of a relay is already parsed.
- RoomHistory: encryption and JSON of the history file; a written history reads back as itself.
- Capability selection and the length prefix of the bootstrap frame: a few bit masks and one length test, over JSON that is not
  modelled.
- The LAN control plane, Windows injection, process discovery, elevation, the update check, the Flutter and egui user interfaces
  and the asset scripts.
