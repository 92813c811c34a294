# Verification of bitcoin-peers

A Dafny model of the crawler and of the peer connection of bitcoin-peers, with proofs of what they
promise. `dafny verify dfyconfig.toml` checks everything.

- **Crawl session** (`CrawlProtocol`, `CrawlInvariants`, `CrawlTheorems`, `CrawlTermination`,
  `CrawlSplitPoll`, `CrawlEndings`, `CrawlResults`, `CrawlSessions`). The coordinator, its spawned tasks and the
  caller are a step system with an adversarial scheduler: every await and every access to shared data is a point where
  somebody else may run. The main result is total correctness: over a finite universe of peers, with a
  caller that keeps listening, every schedule ends naturally with exactly the peers reachable from the
  seed tested and reported once each. `CrawlSessions` is the program's own form, a class whose coordinator
  loop updates shared fields in place; it is shown to follow a run of the step system, with the one-step
  and with the split poll, and to end on every schedule.
- **Handshake** (`Features`, `Handshake`, `Connections`, `TwoParty`). One endpoint as a function of the
  messages it reads, the program's loop with failing reads and writes shown to compute that function,
  and two endpoints over FIFO channels shown to complete in agreement on every schedule.
- **V1 transport** (`Frames`, `V1Transport`). A reader that fills buffers in place and may be dropped at
  any await, shown to return what a one-shot parser finds; and the round trip with the writer.
- **Address requests and user agents** (`AddressCollection`, `UserAgents`).

The results speak of inputs and outputs directly: of the answers the network gives (`Taught`, `Describes`), of
the version numbers and preferences of both ends (`Smaller`, `TakesOver`, `AnnouncesExactly`, `EnablesExactly`), of
the decoder and the length field (`Delivered`, `Stops`, `Consecutive`), and of the fields of the messages read
(`BatchOf`, `Brings`, `AnswersPings`). Filtering loops are specified by the positions they select (`Selections`).

Assumptions, each visible in a contract:

- A peer's behaviour when tested (connection refused, or services, version and the `Ok` or `Err` result of
  its address request) is a function of the peer record. Each record is tested once in a session, so this
  loses no run. A result that is `Err` teaches nothing, however much was collected before it.
- `maxTasks >= 1` (a channel of capacity zero cannot be made), and no worker of an earlier crawl is still
  running. A session may have tested any set of peers before (`known`). If the seed is not among them, all
  results hold, with paths that avoid those peers; if it is, the crawl tests nothing, never completes and
  can be left waiting for ever (`HangsIffSeedKnown`, `StaleSeedDoesNothing`). Workers do not panic before they send their completion.
- Exact reachability needs the poll of the two branches of the select to be one step (`atomicPoll`). With
  a multi-threaded runtime a worker may send between the two polls. For that split poll every natural end
  is complete exactly when the seed teaches no new peer (`SplitPollCompleteForAllRunsIff`); in all other
  cases `SplitPollCanLosePeer` gives a schedule that loses one, and `SplitPollLeavesOneBatch` and
  `SplitPollBound` say how much can be lost.
- The codec of a whole frame and the checksum are parameters; the round trip assumes that decoding an
  encoded frame gives the message back. Nonces are inputs.
- In an address request no step takes negative time and a timer does not fire before its duration is over.
  The request returns exactly on schedules that some number of passes settles (`Collect`,
  `ReturnsOnlyIfSettled`); on any other the peer sends without end within the time allowed.

Three places where the program does less than its documentation says:

- The select's comment (`crawler/src/session.rs:207-213`) says the bias removes the race between a
  completion and its peers. With a split poll that holds only for the seeds given in
  `SplitPollCompleteForAllRunsIff`.
- Dropping the receiver is documented to stop the crawler gracefully (`crawler/src/crawler.rs:115`), and a
  worker expects the coordinator to listen always (`crawler/src/session.rs:241`). After a hang-up every worker that
  had not sent its completion when the coordinator left panics (`PanickedExactly`, `HangUpCanPanic`).
- `UserAgent::from_name_version` is documented as always producing a valid string
  (`connection/src/user_agent.rs:91`), which holds exactly for the components given in `FormatValidExactly`.

Message entries in the channels of the crawl model carry the index of the worker that sent them. The program
does not send it and no step depends on it; it lets the theorems say where a batch came from.

## Model

| member | source | states |
|---|---|---|
| `CrawlInvariants.StepKeepsInv` | crawler/src/session.rs:83-257 | every step of coordinator, worker or caller keeps the protocol's invariant: one worker per tested peer, exact counter, nothing learned is lost while the caller listens, nothing is invented, one report per worker |
| `CrawlInvariants.RunKeepsInv` | crawler/src/session.rs:168-257 | the invariant holds in every state of every run whose seed the session had not tested before |
| `CrawlInvariants.KeepsPollRace` | crawler/src/session.rs:206-254 | a batch that arrives between the two polls still has its completion ahead of the coordinator |
| `CrawlInvariants.KeepsNothingLost` | crawler/src/session.rs:122-150 | whatever peer is in the answer a worker got stays tested, queued, in hand or in its own batch until the coordinator has seen it |
| `CrawlTheorems.ExactReachability` | crawler/src/session.rs:206-254 | natural completion with the caller listening and a one-step poll: the tested set is exactly what the session knew before and the peers with a path from the seed outside that, each step of the path being a peer in the address answer of the one before; the queue is empty |
| `CrawlTheorems.TestedIsLeastClosedSet` | crawler/src/session.rs:206-254 | the same as a least fixed point: closed under the address answers of the newly tested peers, and inside every closed set that holds the seed and the peers known before |
| `CrawlTheorems.SplitPollLeavesOneBatch` | crawler/src/session.rs:206-254 | with two-step polling at most one batch is unread at natural completion, and the worker whose completion ended the crawl sent it |
| `CrawlTheorems.SplitPollBound` | crawler/src/session.rs:206-254 | with two-step polling a reachable untested peer is only reachable through an untested peer of the unread batch |
| `CrawlTheorems.SplitPollCompleteIff` | crawler/src/session.rs:206-254 | what one run with two-step polling achieved: it is complete exactly when its unread batch holds no untested peer |
| `CrawlSplitPoll.SplitPollCanLosePeer` | crawler/src/session.rs:206-254 | for every limit, network, filter setting and session history, and every new peer the seed teaches, a run in which the split poll ends the crawl with that peer untested while the caller listens |
| `CrawlSplitPoll.SplitPollCompleteForAllRunsIff` | crawler/src/session.rs:206-254 | with two-step polling every natural end with the caller listening is complete, if and only if the seed teaches no peer but itself and peers known before |
| `CrawlTheorems.TaskAccounting` | crawler/src/session.rs:174-250 | the counter is the number of workers without a sent completion plus queued completions, within the limit; a completion send never finds the channel full and fails only after a hang-up |
| `CrawlTheorems.FilterIsOptimisation` | crawler/src/session.rs:128-139 | with or without the filter, under any schedules and limits, the final tested set is the same |
| `CrawlTheorems.SpawnedOnce` | crawler/src/session.rs:218-242 | no peer is spawned twice in any run |
| `CrawlTheorems.OneReportPerPeer` | crawler/src/session.rs:91-120 | at natural completion reports and newly tested peers are in bijection; a report says listening exactly if the peer accepted, with its address and port and the services and version it gave, and otherwise carries the record unchanged |
| `CrawlResults.ResultsAreTruthful` | crawler/src/session.rs:23-34 | in every state of every run each result returned or queued is true: failed only if the connection was refused, no peers only if it was accepted and every peer of the answer is tested, found peers only if the answer has one, closed only if the caller or the coordinator left; and the report channel keeps to its capacity |
| `CrawlTermination.NeverStuck` | crawler/src/session.rs:206-254 | until the coordinator leaves, it or a worker can step, unless workers wait for a caller that stopped taking reports |
| `CrawlTermination.NeverStuckInRun` | crawler/src/session.rs:178-254 | the same in every state of every run whose seed the session had not tested before |
| `CrawlTermination.StepDescends` | crawler/src/session.rs:189-256 | every step decreases a lexicographic measure of unspawned peers, worker steps, queued messages and position |
| `CrawlTermination.EveryRunEnds` | crawler/src/session.rs:158-167 | over a finite universe every run ends with the coordinator gone |
| `CrawlTermination.TotalCorrectness` | crawler/src/session.rs:158-257 | every schedule with a listening caller reaches natural completion with exactly the reachable peers tested, each reported once and received |
| `CrawlTermination.SelectBound` | crawler/src/session.rs:206-254 | the number of steps in which the select takes a message is at most one more than twice the newly tested peers |
| `CrawlEndings.StaleSeedHangs` | crawler/src/session.rs:206-220 | with a seed tested before, under either poll, a run that leaves the coordinator waiting with nothing able to happen, even after a hang-up |
| `CrawlEndings.HangsIffSeedKnown` | crawler/src/session.rs:189-254 | under either poll a crawl can be left waiting for ever if and only if its seed was tested before |
| `CrawlEndings.StaleSeedDoesNothing` | crawler/src/session.rs:217-220 | on no schedule does a crawl from a seed tested before spawn, test or report anything or complete |
| `CrawlEndings.AtMostOneMoreMessage` | crawler/src/session.rs:189-194 | from the moment the caller hangs up the select acts on at most one more message, in every run |
| `CrawlEndings.DoneIsFrozen` | crawler/src/session.rs:239-242 | once the coordinator has left, no worker completes any more |
| `CrawlEndings.PanickedExactly` | crawler/src/session.rs:239-242 | when all is at rest after a hang-up made the coordinator leave, the panicked workers are exactly those that had not sent their completion when it left |
| `CrawlEndings.HangUpCanPanic` | crawler/src/session.rs:239-242 | for every valid configuration and new seed, a run in which a hang-up makes a worker panic |
| `CrawlSessions.CrawlSession.FilterUntested` | crawler/src/session.rs:131-139 | the filter loop keeps exactly the peers at the untested positions, each once and in order |
| `CrawlSessions.CrawlSession.RunTask` | crawler/src/session.rs:83-156 | one step of `process` and of its completion send on the shared fields is the worker's step of the protocol; the report sent describes how the peer answered the connection, the peers found are those of its address answer, and no tested peer is passed on |
| `CrawlSessions.CrawlSession.SendReport` | crawler/src/session.rs:91-120 | the report appended says listening exactly for an accepted connection, with the services and version given, and carries a refused peer unchanged |
| `CrawlSessions.CrawlSession.AskForPeers` | crawler/src/session.rs:122-126 | the peers taken on are exactly those of a successful answer |
| `CrawlSessions.CrawlSession.MarkTested` | crawler/src/session.rs:218-220 | inserting into the tested set, with others running in between, is the coordinator's step of the protocol |
| `CrawlSessions.CrawlSession.WaitForCapacity` | crawler/src/session.rs:222-228 | the capacity loop ends on every schedule below the limit and stays on a run of the protocol |
| `CrawlSessions.CrawlSession.SomeoneElseMoves` | crawler/src/session.rs:223-228 | wherever the coordinator waits with nothing to take, a worker or the caller can step and the measure falls |
| `CrawlSessions.CrawlSession.PollBranches` | crawler/src/session.rs:206-216 | polling discovery before completion, in one step or with others running in between, finds a ready branch on every schedule and stays on a run of the protocol |
| `CrawlSessions.CrawlSession.TakeCompletion` | crawler/src/session.rs:246-254 | taking a completion is the protocol's step and ends the crawl exactly when the counter reaches zero |
| `CrawlSessions.CrawlSession.Select` | crawler/src/session.rs:206-254 | one pass of the biased select stays on a run of the protocol and decreases the measure, or ends it naturally |
| `CrawlSessions.CrawlSession.Coordinate` | crawler/src/session.rs:168-257 | the loop ends on every schedule; at its natural end with the caller listening only reachable peers are tested, with one worker and one report that describes it each, and a reachable peer is missing only behind an untested peer of the one batch that may be unread; with the one-step poll none is missing; else the caller hung up |
| `Features.ReplayIsHistory` | connection/src/connection/state.rs:53-68 | after any sends and receives a feature's state is the pair (ever sent, ever received) |
| `Features.ReplayOrderIndependent` | connection/src/connection/state.rs:93-146 | order and repetition do not matter and a longer history takes nothing back |
| `Handshake.PhaseMeaning` | connection/src/connection/handshake.rs:66-81 | the phase is the pair (version read, verack read), and the handshake has failed exactly if a version with our nonce came before completion |
| `Handshake.GreetingMeaning` | connection/src/connection/futures.rs:478-520 | after the first version message, and by nothing else, the effective version is the smaller of the two numbers, the peer record has the services and version given, and the output is our version with our number, services and nonce, the negotiation for that version, and a verack |
| `Handshake.FeatureMeaning` | connection/src/connection/futures.rs:155-181 | over any messages before, during and after the handshake each feature state is the pair (we announced it, we received it) |
| `Handshake.EnabledExactly` | connection/src/connection/futures.rs:523-560 | each of the three features is enabled exactly when we prefer it, both version numbers reach 70016, or 70012 for header announcements, and the peer announced it |
| `Handshake.CompletedOutput` | connection/src/connection/futures.rs:394-424 | whatever duplicates arrive, a completed handshake took version and peer data from the first version message and wrote its version, exactly the preferred features that both version numbers allow, and a verack, each once and strictly in this order with address format before headers before witness ids, as section "Signaling support and compatibility" of BIP-155 and section "Specification" of BIP-339 ask |
| `Handshake.CompletionIsFinal` | connection/src/connection/futures.rs:405-420 | messages after completion change nothing but feature states |
| `Connections.Connection.Read` | connection/src/connection/futures.rs:147-184 | reading takes the next message and updates the feature states, or fails when the transport does |
| `Connections.Connection.SendNegotiationMessages` | connection/src/connection/futures.rs:523-560 | writes the announced features in order and records them, or stops at the first refused write with a prefix written and exactly that prefix recorded |
| `Connections.Connection.HandleVersionMessage` | connection/src/connection/futures.rs:465-520 | loop check, peer data, negotiation and verack as the endpoint function says, with the smaller of the two version numbers as effective version and the services and version given in the peer record; a loop changes nothing, a refused write leaves version and peer data taken over and the features as far as written |
| `Connections.Connection.PerformHandshake` | connection/src/connection/futures.rs:394-424 | reads exactly the shortest prefix with a version and a verack in either order, fails with ConnectionLoop exactly at the first own nonce in it, else only for the transport; on success, on a loop and at the end of the stream all fields are those of the endpoint function, and on a refused write peer data and version are, with the features following what was written |
| `Connections.Connection.Establish` | connection/src/connection/futures.rs:290-300 | success exactly if some prefix of the stream completes the handshake and the transport accepts what is written for it, ConnectionLoop exactly if our nonce comes back first within the accepted writes; on success the effective version is the smaller number, the peer record has what the first version gave, the output is ordered and announces exactly the preferred features both numbers allow, and the enabled features are exactly those the peer announced too |
| `Handshake.RunStep` | connection/src/connection/futures.rs:405-420 | the message that makes the endpoint complete or fail is exactly the last of the shortest completing prefix, or the first own nonce |
| `Handshake.StopsOneWay` | connection/src/connection/futures.rs:405-475 | no stream makes the handshake both complete and loop |
| `TwoParty.TwoPartyAgreement` | connection/src/connection/futures.rs:394-560 | in every state of every interleaving with distinct nonces nobody fails, and a complete side already holds the smaller of the two version numbers, the other's services and number, and exactly the features both prefer and both numbers allow |
| `TwoParty.Progress` | connection/src/connection/futures.rs:405-420 | until both sides are complete one of them can write or read |
| `TwoParty.EveryScheduleCompletes` | connection/src/connection/futures.rs:394-424 | every schedule completes both sides in agreement |
| `TwoParty.SelfConnectionNeverCompletes` | connection/src/connection/futures.rs:471-475 | with equal nonces no side completes, and each side has failed exactly if it has read anything |
| `Frames.Le32RoundTrip` | connection/src/transport/v1.rs:144-149 | the four length bytes, least significant first, stand for the length and decode to it |
| `Frames.ParseEncoded` | connection/src/transport/v1.rs:84-95 | a written frame parses to its message and leaves the rest |
| `Frames.EncodeLayout` | connection/src/transport/v1.rs:84-95 | a written frame is magic, command, length in little endian, checksum and payload, at bytes 0, 4, 16, 20 and 24 |
| `Frames.FrameSizeExactly` | connection/src/transport/v1.rs:144-149 | a frame is 24 bytes and the little-endian number at bytes 16 to 19 long |
| `Frames.ParseFrameExactly` | connection/src/transport/v1.rs:126-176 | a message comes exactly from a whole frame that decodes with our magic, and each of the four failures has exactly its own cause |
| `Frames.ConsecutiveParses` | connection/src/transport/v1.rs:126-176 | frames in a row that decode with our magic parse to their messages and then to what the rest parses to |
| `Frames.StreamRoundTrip` | connection/src/transport/v1.rs:84-95 | a written stream parses to the same messages, zero-length payloads included, and ends cleanly |
| `V1Transport.V1Reader.Fill` | connection/src/transport/v1.rs:133-142 | a read is never issued with an empty buffer, so zero bytes mean end of stream, and no byte is lost or reordered |
| `V1Transport.V1Reader.BeginPayload` | connection/src/transport/v1.rs:49-59 | the payload buffer starts with the header and has room for exactly the announced length |
| `V1Transport.V1Reader.FinishFrame` | connection/src/transport/v1.rs:166-172 | a message exactly if the frame decodes with the reader's magic, a magic or decode failure exactly otherwise; on failure the frame stays buffered |
| `V1Transport.V1Reader.Read` | connection/src/transport/v1.rs:126-176 | a message exactly for a whole frame that decodes with the reader's magic, each failure exactly for its cause, as the one-shot parser finds; takes nothing beyond that frame, loses nothing when dropped or when the transport errs |
| `V1Transport.V1Reader.ReadAfterFailure` | connection/src/transport/v1.rs:166-171 | a decode or magic failure comes back from every later call under every schedule, and nothing after the failing frame is taken from the stream; after any failure no byte is lost |
| `V1Transport.V1Reader.ReadAll` | connection/src/transport/v1.rs:126-176 | under every chunking and every pattern of dropped and resumed calls, the messages are those of consecutive frames that each decode with the reader's magic, the bytes left follow them and the failure is the one they call for; so all is as the one-shot parser finds, and is reached once enough reads are let through |
| `V1Transport.Transfer` | connection/src/transport/v1.rs:84-176 | messages written and read back under any schedule are the same sequence |
| `AddressCollection.CollectBatch` | crawler/src/connection.rs:79-120 | the entry loops give, from the fields of the message: for the v2 format every entry with its address, port and services, for the legacy format the entries with a socket address, in order and each once, and nothing for other messages |
| `AddressCollection.LegacyPeersContents` | crawler/src/connection.rs:83-99 | exactly the entries with an IP socket address are kept, in order and each once, with address, port and services |
| `AddressCollection.ModernPeersContents` | crawler/src/connection.rs:101-111 | every entry of the v2 format is kept, in order, with its address, port and services |
| `AddressCollection.ArmTimer` | crawler/src/connection.rs:57-62 | the timer armed is the smaller of five seconds and what is left of the time allowed when it is armed |
| `AddressCollection.Collect` | crawler/src/connection.rs:57-124 | the loop ends at the first wait that breaks the connection or times out with addresses in hand, and else once the time allowed has passed, on every schedule that some number of passes settles; everything read until then is collected and every ping answered |
| `AddressCollection.OutcomeEndsRightly` | crawler/src/connection.rs:64-74 | no wait before the last broke the connection or timed out with an address in hand; failure exactly if the last wait broke it; success with what the messages bring, at a timeout with an address in hand or when the time allowed had passed |
| `AddressCollection.PongsContents` | crawler/src/connection.rs:113-116 | one Pong with the same nonce for every Ping, in order |
| `AddressCollection.ReturnsOnlyIfSettled` | crawler/src/connection.rs:57-74 | the loop returns on no other schedules, so the condition of `Collect` is exact |
| `AddressCollection.GetPeers` | crawler/src/connection.rs:46-133 | an Ok result is, message by message and in order, what the fields of the messages read bring; the request ends rightly; GetAddr and one Pong with the same nonce per Ping are written; timers run five seconds or to the end of the time allowed, all that fire but one fit in it at five seconds each, and the request ends within the time allowed plus the delays of its last pass |
| `UserAgents.ValidExactly` | connection/src/user_agent.rs:150-177 | accepted are exactly the strings `/n:v/` with n and v non-empty and colon-free |
| `UserAgents.ErrorsExactly` | connection/src/user_agent.rs:150-177 | a missing name exactly for `/:v/`, a missing version exactly for `/n:/`, a wrong format exactly for all that is not `/n:v/` with colon-free parts |
| `UserAgents.ColonInside` | connection/src/user_agent.rs:160-161 | the slice between the slashes is always in range |
| `UserAgents.DecompositionUnique` | connection/src/user_agent.rs:160-162 | name and version are determined by the string |
| `UserAgents.FormatValidExactly` | connection/src/user_agent.rs:179-181 | formatting then validating succeeds exactly for non-empty colon-free components, and otherwise gives the first error that applies |
| `UserAgents.FormatCanBeInvalid` | connection/src/user_agent.rs:110-113 | a call of the constructor from components whose result does not validate |

## Left out

- The v2 transport, transport dispatch, TCP set-up and inbound protocol detection: thin layers over code that is not part of this model.
- The payload encoding and checksum of the bitcoin crate: parameters of `Frames`.
- Builders, configuration, peer constructors, display code, logging and the periodic status output: easy members or I/O.
- Generation of nonces and timestamps, and the fields of the version message that the handshake does not read back.
- Cancellation of `write`, and of a connection's `read` while it waits for its state lock: the program promises nothing there.
- Fairness, wakers and cooperative budgets of the async runtime: replaced by the adversarial scheduler.
- Integer widths: protocol versions, ports, service flags and task counts are natural numbers, since the code only compares, copies and counts them; the 32-bit payload length is modelled byte by byte.
- A session on which a second crawl starts while workers of the first are still running: no caller in the repository does this.
