# Verified model of the Classic Diagnostic Adapter's request, connection and detection machinery

The Classic Diagnostic Adapter turns SOVD calls into UDS requests and carries them to vehicle ECUs over
DoIP or CAN. This project models the part of it that has to stay right under an adversarial environment:
the two-level retry loop of a UDS request, the gateway tasks that feed it, the locks, watch channels,
mailboxes and generations that coordinate concurrent tasks, and the small pure functions they rest on.

`dafny verify dfyconfig.toml` checks everything. There is one module per component.

| module | component |
|---|---|
| `Bytes`, `Uds`, `Channels`, `Runs` | octets and big-endian numbers; UDS payloads, response filters, echo check; response channels; schedules of step systems |
| `RequestEngine`, `RequestRules`, `RequestEngineProperties`, `RequestEngineDiscipline` | `send_with_raw_payload`: the loops, its rules over receptions, what every call guarantees, the order of its actions |
| `AttemptIsolation`, `TargetExclusion` | attempts against the gateway tasks they spawn; those tasks against the request semaphores |
| `DoipStream`, `DoipRequest` | the per-request DoIP task; a whole request over DoIP, from wire to result |
| `CanExchange` | the request/response exchange of the CAN gateway |
| `ConnectionReset`, `SendPending` | the DoIP reset task; sender, receiver and reset task on one connection |
| `DuplicateGroups`, `DetectionSlot`, `DetectionSystem` | duplicate groups, the detection slot, all slots of a vehicle |
| `EcuStates`, `DisconnectSuppression` | the coordinator actor; suppression through its mailbox, with the slot |
| `VariantDetection`, `GroupVerdict` | detection against one database; the verdict over a duplicate group |
| `FlashTransfer`, `UpdateGate`, `UpdateOverlap` | block transfer; transfers against runtime updates, and what replaced tasks can run into |
| `RequestPrefix`, `RequestLocks`, `RequestSemaphores`, `ByteFieldLimits` | coded-constant matching, request locks, byte-field limits |

How the environment enters. A call of the request engine is a function of a script: per transmission, what
`gateway.send` answered and a finite list of timed receptions. A script is any finite prefix of what the
environment does; when it runs out, the outcome is `InProgress`. Concurrent parts are step systems: a state,
a `Step` function that leaves the state alone when an action is not enabled, and `Exec` over an arbitrary
schedule (`Runs`), so a statement about `Exec(schedule)` is a statement about every interleaving. Atomics and locks
are sequentially consistent. Time is a natural number that never runs backwards.

Main results:

* The nested loops refine a recursive interpreter, and a call returns a result exactly when rules over the
  receptions themselves explain it (`CallFollowsRules`); a delivered message is the first answer of the last
  transmission's own stream, and over DoIP the first answer on the wire (`DeliveredIsFirstAnswerOnWire`).
* Transmissions are exactly 1 + retries + accepted busy repeats, bounded by the configured limits.
* In every interleaving: one detection per duplicate group, coalesced to the newest trigger; a detection's
  own timeouts never take its ECU Offline; no send-pending wakeup is lost; no flash transfer is registered while
  an update is applied; two requests for one transport target never hold its permit together.
* A finished flash transfer carried exactly the requested slice; a CAN exchange ends in bounded time.
* Request-prefix matching is exactly "begins with the constants' encoding", up to the last cut constant.

Where the code does less than its documentation says, the code was followed, with a concrete run or input
and the exact condition under which the documented property holds:

* A receiver can resume reading while a send is pending: exactly when it wakes with the channel at true
  (`ResumesWhileSending`, `ResumesAfterSend`).
* A trailing coded constant that the request cuts short is not compared (`AcceptanceIsAgreement`).
* A forced detection can be superseded by an automatic one that then skips (`ForcedTriggerCanBeLost`); it
  runs exactly when nothing arrives before its comparison (`ForcedRunsUnlessSuperseded`,
  `ForcedIsHonoured`).
* A member whose detection failed can stay online-and-detected (`FailedMemberCanStayDetected`,
  `OnlyExactMatchDetects`, `OutcomeOf`, `UnconvertedFallsBack`): `set_variant` writes the state before a missing start state is
  noticed (cda-core/src/diag_kernel/ecumanager.rs:889-928). Which of several matching members wins depends on the
  iteration order of a hash set (`ChoiceIsOrderIndependent`).
* Two overlapping flash-transfer starts for one ECU can both pass; an update can then run beside a live
  transfer task, and an exit can deadlock (`UpdateBesideFlashTask`, `ReplacedTaskMeetsUpdate`,
  `ExitCanDeadlock`, `LiveTasksDuringUpdate`, `ExitReturns`).
* A zero block size never makes progress (`ProgressNeedsBlockSize`); extraction of coded constants loops
  for ever on a constant of bit length zero (`ZeroLengthNeverEnds`, `EndsUnlessStuck`).
* An acknowledgement that arrives behind the response that overtook it costs the attempt
  (`LateAckFailsAttempt`, `LateAckLosesAnswer`), exactly when the answer does not stand before it
  (`LateAckHarmlessExactlyBehindAnswer`).
* The request permit is released with the last gateway task possibly still live, so two tasks for one target
  can coexist (`CallsCanOverlap`); one of them is then always abandoned (`OverlapNeedsAbandoned`).
* The SID filters of the transports and of the engine differ on some SIDs (`FiltersAgree`).

## Model

| member | source | states |
|---|---|---|
| `Uds.EchoCheckIsPositionwise` | cda-interfaces/src/ecumanager.rs:392-451 | the echo check accepts a positive response exactly when every echo position of the tables of ISO 14229-1 shows the request's byte, without the suppress bit in a RoutineControl sub-function |
| `Uds.EchoTables` | cda-interfaces/src/ecumanager.rs:392-451 | the same in literals: bytes 1 and 2 for 0x22, 0x2E and 0x2F; masked byte 1 and bytes 2 and 3 for 0x31; nothing for other services or requests too short to carry them |
| `Uds.NegativeNeedsNoEcho` | cda-interfaces/src/ecumanager.rs:397-400 | a response that is not the positive one is never held against its echo |
| `Uds.FilterTables` | cda-interfaces/src/ecumanager.rs:324-337 | both SID filters in bytes |
| `Uds.ClassifyTable` | cda-interfaces/src/uds.rs:210-249 | a frame is forwarded as one of the three pending NRCs exactly when it is 7F xx 78, 21 or 94, and else unchanged with its addresses |
| `Uds.FiltersAgree` | cda-interfaces/src/util.rs:457-463 | the transport filter (set bit 6) and the engine filter (saturating add 0x40) accept the same responses exactly for SIDs with bit 6 clear other than 0x3F, and for 0xFF |
| `RequestEngine.ReadUdsMessages` | cda-comm-uds/src/transport.rs:337-503 | the inner read loop is the recursive interpreter of the attempt's events |
| `RequestEngine.SendWithRawPayload` | cda-comm-uds/src/transport.rs:202-545 | the whole call, both loops, semaphore wait and epilogue included, is the interpreter of the attempts: result, clock, retries and every action in order |
| `RequestRules.ReactTable` | cda-comm-uds/src/transport.rs:343-502 | what each reception does, said of the reception: read past, answer, repeat by its own busy policy, lost with its own error, refused |
| `RequestRules.AnswerTable` | cda-comm-uds/src/transport.rs:345-362 | what answers a request, in bytes: the negative response with its SID, or the positive one with the identifier echoed |
| `RequestRules.PassFollowsRules` | cda-comm-uds/src/transport.rs:260-510 | one transmission leads to another, at which time and with how many retries, or ends the call with a result, exactly as the rules over its receptions say |
| `RequestRules.CallFollowsRules` | cda-comm-uds/src/transport.rs:202-545 | a call returns a result exactly when the rules explain it transmission by transmission, from the time the permit took and no retries; it transmits once per step |
| `RequestRules.CallWithoutPermit` | cda-comm-uds/src/transport.rs:215-240 | an empty request fails with BadPayload and a missed permit with Timeout, with nothing done |
| `RequestEngineProperties.ReadDecides` | cda-comm-uds/src/transport.rs:337-503 | from any event reached by skipping, the loop starves exactly if all events are skipped, and else gives the first decisive event's verdict |
| `RequestEngineProperties.ReadTakesFirstDecisiveEvent` | cda-comm-uds/src/transport.rs:337-503 | the read loop is "take the first event that is not to be read past", at the time it is received |
| `RequestEngineProperties.TransmissionBalance` | cda-comm-uds/src/transport.rs:252-502 | transmissions = 1 + application retries + accepted 0x21 and 0x94 repeats; retries at most CP_RepeatReqCountApp; each busy count under the cap its policy gives |
| `RequestEngineProperties.AcceptedBusyStaysCapped` | cda-comm-uds/src/transport.rs:716-744 | a busy repeat accepted no later than its completion timeout, after earlier ones that cost a delay each, is at most number floor(T/d)+1 |
| `RequestEngineProperties.TransmissionBound` | cda-comm-uds/src/transport.rs:716-744 | under ContinueUntilTimeout with positive delays at most 1 + N + (T21/d21 + 1) + (T94/d94 + 1) transmissions |
| `RequestEngineProperties.DeliveredMessageIsFirstAnswer` | cda-comm-uds/src/transport.rs:345-365 | `Ok(Some(m))` only for the first message of the last transmission's own stream that has the SID and echo; all consumed before it were 0x78 or non-answers |
| `RequestEngineProperties.BoundedPoliciesConclude` | cda-comm-uds/src/transport.rs:252-510 | with bounded policies and conclusive attempts the call is done within the transmission bound |
| `RequestEngineProperties.SilenceSpendsAllRetries` | cda-comm-uds/src/transport.rs:424-502 | a failure whose last attempt saw no sign of life is surfaced only once all N retries are spent |
| `RequestEngineProperties.SideEffects` | cda-comm-uds/src/transport.rs:511-541 | disconnect notice exactly when the call fails with Timeout out of the read loop and is not TesterPresent; session and security written exactly on a positive response, to the payload's values, at most once each |
| `RequestEngineDiscipline.WindowsAndTeardown` | cda-comm-uds/src/transport.rs:257-503 | every wait uses the 0x78 window exactly when a 0x78 was accepted since the last application retry; between an accepted attempt and any later transmission its gateway task is awaited |
| `AttemptIsolation.ReadsOwnTask` | cda-comm-uds/src/transport.rs:257-314 | with a channel per attempt, under every schedule an attempt reads only what its own task pushed, in push order, although stale tasks go on pushing |
| `AttemptIsolation.SharedChannelLeaks` | cda-comm-uds/src/transport.rs:261-274 | with one channel for all attempts, a run in which an attempt reads a stale task's late message |
| `AttemptIsolation.EarlierTasksSettled` | cda-comm-uds/src/transport.rs:692-711 | at every accepted transmission each earlier accepted task had finished or had been waited for throughout the teardown grace |
| `DoipStream.FirstDecisive` | cda-comm-doip/src/lib.rs:97-111 | the first NACK, fault, matching ACK or matching response among the items in time, or none |
| `DoipStream.WaitForAckOrResponse` | cda-comm-doip/src/lib.rs:752-859 | the wait ends at the first decisive item with that item's outcome, or at the deadline with Timeout |
| `DoipStream.WaitTable` | cda-comm-doip/src/lib.rs:97-111 | the wait is acknowledged, implied, refused with the NACK's own code, refused for a fault, or timed out, exactly by the first item that is an ACK repeating a beginning of the request, a message with the bytes of a response to it, a NACK or a fault |
| `DoipStream.ConvertTable` | cda-comm-doip/src/lib.rs:947-977 | what the caller gets for each stream item, in bytes |
| `DoipStream.ForwardFrom` | cda-comm-doip/src/lib.rs:881-943 | forwards the conversions of consecutive items up to and including a closed receiver, cut where the caller hangs up |
| `DoipStream.ReadEcuResponses` | cda-comm-doip/src/lib.rs:868-943 | the same, from the response that overtook the ACK if there was one |
| `DoipStream.ServeRequest` | cda-comm-doip/src/lib.rs:439-546 | the caller gets the answers of the stream, cut where it hangs up; one SendFailed if nothing could be queued |
| `DoipStream.CallerSeesStreamInOrder` | cda-comm-doip/src/lib.rs:868-977 | position by position: conversions of the items behind the first matching ACK, or from the first matching response; a refusal or fault before either is the only item |
| `DoipStream.AcknowledgedFirst` | cda-comm-doip/src/lib.rs:515-530 | without an expected reply, one bare acknowledgement in front of the same items, or the same single error |
| `DoipRequest.DeliveredIsFirstAnswerOnWire` | cda-comm-uds/src/transport.rs:345-365 | for a whole call over DoIP the delivered message is the first message of the DoIP stream that answers the request, wherever the two SID filters agree; only skipped traffic, the ACK, 0x78 and non-answers precede it |
| `DoipRequest.AnswerStandsInStream` | cda-comm-doip/src/lib.rs:868-977 | the answer of an attempt stands in its own stream behind the start of forwarding, with no ACK, refusal or fault in between |
| `DoipRequest.NothingMissedBeforeStart` | cda-comm-doip/src/lib.rs:758-859 | no message dropped by the ACK wait was an answer |
| `DoipRequest.LateAckFailsAttempt` | cda-comm-doip/src/lib.rs:947-977 | an ACK behind the start of forwarding that the engine reads up to means another transmission or BadPayload, whatever follows it |
| `DoipRequest.DeliversExactly` | cda-comm-doip/src/lib.rs:868-977 | an attempt that reads its channel without a timeout, however far, delivers m exactly when m is an answer at a stream position it reads, with only read-past messages between the start of forwarding and it and each 0x78 among them permitted when read |
| `DoipRequest.LateAckHarmlessExactlyBehindAnswer` | cda-comm-doip/src/lib.rs:947-977 | with an ACK behind the start of forwarding, exactly the answers before that ACK are delivered |
| `DoipRequest.LateAckLosesAnswer` | cda-comm-doip/src/lib.rs:947-977 | 7F 22 78, ACK, 62 F1 90 ..: the answer is lost, while the same stream without the ACK delivers it |
| `DoipRequest.BusyFrameRepeats` | cda-comm-uds/src/transport.rs:367-401 | an attempt whose first forwarded message is 7F xx 21 or 7F xx 94 is repeated after that NRC's delay, at no retry, exactly when its own policy accepts it, and fails with Timeout otherwise |
| `CanExchange.Exchange` | cda-comm-can/src/gateway.rs:563-627 | pendings in order, then at most one terminal item; everything before the end was pending or unrelated; why and when it ended |
| `CanExchange.PendingTable` | cda-comm-can/src/gateway.rs:576-606 | what each frame adds to the forwarded items, and whether it is pending, final or unrelated, in bytes |
| `CanExchange.LastItem` | cda-comm-can/src/gateway.rs:606-627 | for a caller that listens: Timeout after silence, NoResponse after a broken read, the frame with the addresses as given after an answer |
| `CanExchange.DeadlineBound` | cda-comm-can/src/gateway.rs:565-585 | p pendings allow a deadline of at most (p + 1) response timeouts, however many unrelated frames arrive |
| `CanExchange.EndsInTime` | cda-comm-can/src/gateway.rs:563-627 | the exchange ends within (pendings + 1) response timeouts |
| `CanExchange.FinalResponseBelongsToRequest` | cda-comm-can/src/gateway.rs:590-614 | any non-pending item is the last one, and a response among them matches the request SID, also for the engine where the filters agree |
| `CanExchange.FirstReading` | cda-comm-can/src/gateway.rs:629-648 | an exchange without any frame is decided by its first reading |
| `CanExchange.CanGateway.Send` | cda-comm-can/src/gateway.rs:479-652 | undiscovered ECUs are refused with nothing sent; an expected reply gives the items of an exchange with all its guarantees; the discovered set loses the ECU exactly after a silent exchange of at least the probe timeout |
| `ConnectionReset.EcuConnectionTarget.Reconnect` | cda-comm-doip/src/ecu_connection.rs:238-245 | both halves are present and from the same connection |
| `ConnectionReset.TriesUntilSuccess` | cda-comm-doip/src/connections.rs:370-424 | between 1 and max(1, max_retry_attempts) attempts per request, ending with the first success or the budget |
| `ConnectionReset.ServeRequest` | cda-comm-doip/src/connections.rs:355-425 | one reset request: disconnected, attempts, and after a success connected and the drain; the halves stay whole and come from the latest success |
| `ConnectionReset.ResetTask` | cda-comm-doip/src/connections.rs:345-432 | the same over the whole run of the task |
| `ConnectionReset.RoundNotes` | cda-comm-doip/src/connections.rs:358-390 | a round notifies disconnected, and connected exactly if its last attempt succeeded |
| `ConnectionReset.NotificationsAlternate` | cda-comm-doip/src/connections.rs:358-390 | over every run the notifications form (disconnected connected?)*, one disconnected per request taken |
| `SendPending.LockNeverFails` | cda-comm-doip/src/connection_sender.rs:116-118 | the early `continue` that would leave true published is unreachable in every interleaving |
| `SendPending.UsersShareOneConnection` | cda-comm-doip/src/ecu_connection.rs:208-245 | whoever writes or reads sees two halves of one establish call, never the middle of a reconnect |
| `SendPending.NoLostWakeup` | cda-comm-doip/src/connection_receiver.rs:31-75 | a parked receiver holds no lock and has something to wake on or faces a sender that owes its false |
| `SendPending.ParkedCanResume` | cda-comm-doip/src/connection_receiver.rs:267-311 | from every state with a parked receiver the tasks can go on until it has left the wait |
| `SendPending.SendingIsOddVersion` | cda-comm-doip/src/connection_sender.rs:81-182 | while both tasks live, sending is exactly an odd number of published values |
| `SendPending.ResumesAfterSend` | cda-comm-doip/src/connection_receiver.rs:28-75 | a wake-up finds the send done exactly when the channel holds false, which the receiver could borrow; in terms of values seen and missed, by their parities; one missed value after a true always is the matching false |
| `SendPending.ResumesWhileSending` | cda-comm-doip/src/connection_receiver.rs:28-75 | a reachable state in which a parked receiver wakes while the sender is between its true and its false, from where it can read while the sender writes |
| `DuplicateGroups.GroupByTarget` | cda-main/src/mdd.rs:407-431 | in any enumeration order, every description with an identified target is listed exactly once, under its target |
| `DuplicateGroups.MarkDuplicates` | cda-main/src/mdd.rs:402-451 | the two loops mark b as a duplicate of a exactly when both are loaded, distinct and of one identified target, so the marks are symmetric; an ECU without duplicates gets no mark |
| `DuplicateGroups.RepresentativeIdentifiesGroup` | cda-comm-uds/src/variant.rs:211-226 | two loaded ECUs have one representative exactly when they are in one group; it is a loaded member and its own representative |
| `DetectionSlot.MutualExclusion` | cda-comm-uds/src/coordinator.rs:137-154 | at most one trigger holds the slot, in every interleaving |
| `DetectionSlot.GrantsFollowTriggers` | cda-comm-uds/src/coordinator.rs:137-154 | up to 2^64 triggers, grants are strictly increasing, and when nobody is pending the newest trigger had the slot |
| `DetectionSlot.Coalesced` | cda-comm-uds/src/coordinator.rs:128-154 | without a new trigger at most one further grant follows, and it is the newest's |
| `DetectionSlot.ForcedRunsUnlessSuperseded` | cda-comm-uds/src/variant.rs:36-53 | over every schedule, a forced trigger that is through with the slot ran exactly when no other trigger arrived between its own arrival and its comparison |
| `DetectionSlot.NewestRunsUnlessObsolete` | cda-comm-uds/src/coordinator.rs:137-154 | once nobody is pending or undecided, the newest trigger ran exactly unless it was automatic and was inspected as not needed |
| `DetectionSlot.ForcedIsHonoured` | cda-comm-uds/src/variant.rs:36-53 | then every forced trigger is followed by a run of its own or a newer trigger, unless the newest was automatic and found nothing to do |
| `DetectionSlot.ForcedTriggerCanBeLost` | cda-comm-uds/src/variant.rs:44-51 | a run in which a forced trigger ends without any detection |
| `DetectionSystem.OneDetectionPerGroup` | cda-comm-uds/src/variant.rs:78-142 | in every interleaving over all ECUs, two detections holding slots for members of one group are the same detection |
| `EcuStates.EcuCoordinator.OnDisconnected` | cda-comm-uds/src/coordinator.rs:232-262 | Online becomes Offline unless suppressed; the variant is kept |
| `EcuStates.EcuCoordinator.OnConnected` | cda-comm-uds/src/coordinator.rs:278-303 | a real transition resets the variant, is reported, and leaves detection needed |
| `EcuStates.EcuCoordinator.Run` | cda-comm-uds/src/coordinator.rs:163-390 | the actor's loop over any mailbox, through its handlers, is the fold of the messages |
| `EcuStates.FlagAfter` | cda-comm-uds/src/coordinator.rs:315-345 | after any mailbox the flag is what the last suppress or restore says |
| `EcuStates.ConnectivityAfter` | cda-comm-uds/src/coordinator.rs:229-303 | after any mailbox the connectivity is what the last connect or unsuppressed disconnect says, and else unchanged |
| `EcuStates.VariantAfter` | cda-comm-uds/src/coordinator.rs:278-390 | after any mailbox the variant is what the last mark or effective connect says, with the index gone, and else both are unchanged |
| `EcuStates.DetectionNeeded` | cda-comm-uds/src/transport.rs:673-680 | an online ECU needs detection exactly if never tested, an Offline one exactly if it is no duplicate |
| `EcuStates.LastWriteWins` | cda-comm-uds/src/coordinator.rs:165-222 | a service state that was set and neither set again nor cleared survives every offer of defaults |
| `EcuStates.DefaultsNeverOverride` | cda-comm-uds/src/coordinator.rs:183-202 | without a write or clear a SID has a state exactly if it had one or a default was offered, and an existing one is unchanged |
| `EcuStates.ClearStartsOver` | cda-comm-uds/src/coordinator.rs:205-222 | after a clear a SID has a state exactly if a default was offered since |
| `EcuStates.FirstOfferWins` | cda-comm-uds/src/coordinator.rs:192-222 | and then that of the first offer |
| `EcuStates.FillInAt` | cda-comm-uds/src/coordinator.rs:192-202 | existing states survive, every offered SID has a state, the first offer for a missing SID wins |
| `EcuStates.EcuCoordinator.OnSetDefaultStates` | cda-comm-uds/src/coordinator.rs:192-202 | the loop fills in the defaults, as `FillInAt` describes |
| `DisconnectSuppression.OneActive` | cda-comm-uds/src/coordinator.rs:137-154 | the slot lets at most one detection of the ECU have requests under way, and none while another is about to begin |
| `DisconnectSuppression.MailboxIsBracketed` | cda-comm-uds/src/variant.rs:262-298 | with any number of detections going through the slot, in every interleaving each disconnect of a detection's own requests lies behind that detection's suppress with no suppress or restore of any detection between |
| `DisconnectSuppression.OwnTimeoutsAreHarmless` | cda-comm-uds/src/coordinator.rs:232-262 | handling such a disconnect changes nothing |
| `DisconnectSuppression.FlagFollowsDetection` | cda-comm-uds/src/state_coordinator.rs:123-137 | the flag is clear whenever no detection is under way and set while one gathers |
| `DisconnectSuppression.ExposedWithoutSlot` | cda-comm-uds/src/variant.rs:262-298 | two detections running at once would let an own timeout take the ECU Offline |
| `VariantDetection.OutcomeOf` | cda-core/src/diag_kernel/variant.rs:58-112 | an answered detection succeeds with a specific variant, succeeds with the base variant, or fails and still leaves the ECU detected, each exactly under a condition on the list of variants: first match or first base, first namesake, its two start states |
| `VariantDetection.WrittenState` | cda-core/src/diag_kernel/ecumanager.rs:889-928 | name, base flag, fallback flag and index that are written, and when nothing or only NotDetected is |
| `VariantDetection.ExactBeatsFallback` | cda-core/src/diag_kernel/variant.rs:74-78 | an exact match is never given up for the base variant, whether or not falling back is allowed |
| `VariantDetection.NamedIsIndexed` | cda-core/src/diag_kernel/ecumanager.rs:889-900 | a named variant is always found again, possibly as an earlier one of the same name |
| `VariantDetection.UnconvertedFallsBack` | cda-core/src/diag_kernel/variant.rs:74-110 | responses that do not convert identify nothing, but the base variant is still looked up: it is started or strands the ECU exactly as its index and start states say |
| `GroupVerdict.UdsManager.EvaluateDuplicateGroup` | cda-comm-uds/src/variant.rs:349-397 | the verdict has the order-free kind of the member set; which states were written, up to the first match or for all |
| `GroupVerdict.UdsManager.ApplyGroupResult` | cda-comm-uds/src/variant.rs:400-428 | all but the chosen member become Duplicate, or all NotDetected, or nothing changes |
| `GroupVerdict.UdsManager.DetectGroup` | cda-comm-uds/src/variant.rs:349-428 | the state every member ends in: exact match leaves the chosen one detected and all others Duplicate; the other verdicts leave none, except failing members left detected |
| `GroupVerdict.UdsManager.MarkGroupUnreachable` | cda-comm-uds/src/variant.rs:306-343 | the ECU's own database decides whether anything happens; then every loaded member whose database is available ends Offline with its variant kept, and nothing else changes |
| `GroupVerdict.UnreachableGroup` | cda-comm-uds/src/variant.rs:303-343 | an unreachable group is left online exactly by members whose database does not load; a member left Offline is detected anew on the next request exactly if it is not marked Duplicate |
| `GroupVerdict.KindIsOrderIndependent` | cda-comm-uds/src/variant.rs:349-397 | any two iteration orders give the same kind of verdict |
| `GroupVerdict.DetectedAfterGroup` | cda-comm-uds/src/variant.rs:349-428 | who is detected after a group detection, from databases and earlier states alone: the first member that identifies a variant; else nobody if a member had only its base variant; else exactly the members a failing detection strands |
| `GroupVerdict.OnlyExactMatchDetects` | cda-comm-uds/src/variant.rs:400-428 | if no member identifies a variant, nobody is left detected exactly when some member had only its base variant or no member's database strands it |
| `GroupVerdict.FailedMemberCanStayDetected` | cda-core/src/diag_kernel/ecumanager.rs:889-928 | a group of two, one matching nothing and one whose matching variant has no session start state: both detections fail, the verdict is NoDetection and the second member stays detected |
| `GroupVerdict.ChoiceIsOrderIndependent` | cda-comm-uds/src/variant.rs:363-391 | the chosen member is the same in all orders exactly when at most one member matches |
| `GroupVerdict.FirstMatchAt` | cda-comm-uds/src/variant.rs:387-390 | the evaluation stops at the first matching member of its order |
| `FlashTransfer.CutIsMultiple` | cda-comm-uds/src/data_transfer.rs:83-95 | block i begins at min(i * block size, length) |
| `FlashTransfer.CounterWraps` | cda-comm-uds/src/data_transfer.rs:161-162 | after n increments the counter is (c0 + n) mod 256 |
| `FlashTransfer.PayloadIsSlice` | cda-comm-uds/src/data_transfer.rs:83-181 | the blocks sent so far concatenate to exactly the file slice up to the next cut |
| `FlashTransfer.BlocksToCover` | cda-comm-uds/src/data_transfer.rs:83-181 | n blocks cover the slice exactly when n is at least ceil(length / block size) |
| `FlashTransfer.BlockAt` | cda-comm-uds/src/data_transfer.rs:119-136 | block i is counter (c0 + i) mod 256 followed by its own stretch of the file |
| `FlashTransfer.DataTransfers.SetAborted` | cda-comm-uds/src/data_transfer.rs:49-62 | the entry becomes Aborted if there is one; others untouched |
| `FlashTransfer.DataTransfers.TransferBlock` | cda-comm-uds/src/data_transfer.rs:83-180 | one pass sends the next block of the plan and accounts for it, or stops with the entry in the matching state |
| `FlashTransfer.DataTransfers.TransferEcuData` | cda-comm-uds/src/data_transfer.rs:41-182 | frames sent are the first blocks of the plan, sent plus remaining is the length, Done exactly at zero remaining; the entry's counter, acknowledged bytes (saturating) and status |
| `FlashTransfer.FinalEntry` | cda-comm-uds/src/data_transfer.rs:57-181 | Finished exactly at zero remaining, Aborted exactly after a file or send error; acknowledged bytes are those of the replied blocks, saturating; the counter moved once per reply |
| `FlashTransfer.FinishedIsWholeSlice` | cda-comm-uds/src/data_transfer.rs:83-181 | Finished: exactly the requested slice in ceil(length / block size) blocks; otherwise a proper prefix in fewer |
| `FlashTransfer.ProgressNeedsBlockSize` | cda-comm-uds/src/data_transfer.rs:94-94 | enough replies finish a positive block size; a zero block size never progresses |
| `UpdateGate.NoTransferDuringUpdate` | cda-comm-uds/src/data_transfer.rs:258-279 | in every interleaving, while an updater is past a negative `is_active`, no transfer is registered and no start is between reading the flag clear and inserting |
| `UpdateGate.SingleUpdater` | cda-plugin-runtime-update/src/operations/executions.rs:56-60 | at most one updater, and the flag is up exactly while there is one |
| `UpdateGate.LiveTasksDuringUpdate` | cda-comm-uds/src/lib.rs:67-77 | a transfer task alive during an update had its entry replaced by an overlapping start |
| `UpdateGate.OverlappingStartsCanOverwrite` | cda-comm-uds/src/data_transfer.rs:211-279 | from any reachable state with two starts past the check for one ECU, both can insert and the first task goes on unregistered |
| `UpdateGate.UpdateBesideFlashTask` | cda-comm-uds/src/lib.rs:67-77 | a run in which an update is applied while a replaced task exchanges blocks |
| `UpdateOverlap.ReplacedTaskMeetsUpdate` | cda-comm-uds/src/data_transfer.rs:258-321 | from every reachable state with the lock free and a live task whose entry was replaced, an update applied beside that task is reachable |
| `UpdateGate.ExitReturns` | cda-comm-uds/src/data_transfer.rs:283-321 | an exit can come back exactly when its task needs the lock no more |
| `UpdateGate.SerialExitsReturn` | cda-comm-uds/src/data_transfer.rs:283-321 | with non-overlapping starts, failed ones included, every exit can come back |
| `UpdateGate.ExitCanDeadlock` | cda-comm-uds/src/data_transfer.rs:283-321 | a run after which an exit waits in every continuation |
| `RequestPrefix.FindAt` | cda-database/src/datatypes.rs:211-247 | finds a constant exactly when some parameter yields one at that position |
| `RequestPrefix.ConstAtExactly` | cda-database/src/datatypes.rs:220-245 | which parameters are constants at a position: unmasked, uncondensed A_UINT32 of standard length with a value, absent positions counting as 0 |
| `RequestPrefix.FindsFirst` | cda-database/src/datatypes.rs:219-246 | the search returns the first of them in the database's order |
| `RequestPrefix.ByteCount` | cda-database/src/datatypes.rs:183-188 | the fewest bytes that hold the constant's bits |
| `RequestPrefix.ExtractSequentialCodedConsts` | cda-database/src/datatypes.rs:263-282 | the loop collects the layout, on every database on which it ends |
| `RequestPrefix.EndsUnlessStuck` | cda-database/src/datatypes.rs:268-280 | it ends exactly when the walk meets no constant that does not advance the position |
| `RequestPrefix.ZeroLengthNeverEnds` | cda-database/src/datatypes.rs:268-280 | a request whose only constant has bit length zero: every pass finds it again at byte 0 |
| `RequestPrefix.PositiveLengthsEnd` | cda-database/src/datatypes.rs:268-280 | positive bit lengths below the last position suffice |
| `RequestPrefix.LayoutIsGapless` | cda-database/src/datatypes.rs:250-282 | the constants lie end to end from byte 0, each the database's first at its position, up to a position that has none |
| `RequestPrefix.MatchesRequestPrefix` | cda-database/src/datatypes.rs:297-333 | true exactly when every constant inside the request is at most four bytes and equals its bytes, and the one it ends in is at most four bytes |
| `RequestPrefix.PrefixClosed` | cda-database/src/datatypes.rs:284-333 | cutting bytes off the end never loses a match |
| `RequestPrefix.FullRequest` | cda-database/src/datatypes.rs:297-333 | a request covering all constants matches exactly when they can be encoded and it begins with their encoding |
| `RequestPrefix.CutRequest` | cda-database/src/datatypes.rs:308-311 | a request ending inside a constant matches on the constants before it alone |
| `RequestPrefix.AgreeingIsAccepted` | cda-database/src/datatypes.rs:284-296 | bytes that agree with the constants always match |
| `RequestPrefix.AcceptanceIsAgreement` | cda-database/src/datatypes.rs:284-311 | matching is agreement of all bytes provided, for all requests of a length, exactly when the length falls on a boundary or covers all constants |
| `RequestPrefix.Mismatch` | cda-database/src/datatypes.rs:308-311 | for every other length, an accepted request that disagrees |
| `RequestLocks.CanIdFrom` | cda-interfaces/src/can_id.rs:66-82 | accepted exactly up to 29 bits, standard exactly up to 11 bits, value kept |
| `RequestLocks.HexRoundTrip` | cda-interfaces/src/ecumanager.rs:516-519 | the printed digits read back as the number and contain no separator |
| `RequestLocks.KeysIdentifyTargets` | cda-interfaces/src/ecumanager.rs:509-523 | keys are equal exactly for the same resolved pair, the same validated CAN pair, or the same lower-cased name |
| `RequestLocks.DuplicatesShareLock` | cda-core/src/diag_kernel/ecumanager.rs:172-186 | two descriptions share their key exactly when they are duplicates, or both lack a target and their names fold together |
| `RequestSemaphores.KeyKeepsSemaphore` | cda-comm-uds/src/transport.rs:218-228 | a key keeps its semaphore for the rest of the run |
| `RequestSemaphores.OneHolderPerKey` | cda-comm-uds/src/transport.rs:220-240 | at most one request per key holds a permit |
| `RequestSemaphores.RequestsNeverOverlap` | cda-comm-uds/src/transport.rs:218-240 | two requests for one transport target never hold a permit together, in every interleaving |
| `RequestSemaphores.HeldUpByOwnTarget` | cda-comm-uds/src/transport.rs:230-240 | a waiting request can go on exactly when no holder has its target |
| `TargetExclusion.OverlapNeedsAbandoned` | cda-comm-uds/src/transport.rs:254-314 | of two live gateway tasks for one target, one was abandoned: its call left or stopped waiting for it |
| `TargetExclusion.AbandonedCanOverlap` | cda-comm-uds/src/transport.rs:505-511 | from every reachable state with an abandoned live task, two live tasks for its target are reachable |
| `TargetExclusion.CallsCanOverlap` | cda-comm-uds/src/transport.rs:505-511 | a run in which the permit is released with the last task still live and the next call transmits beside it |
| `TargetExclusion.StrictNeverOverlaps` | cda-comm-uds/src/transport.rs:692-711 | if calls gave up only finished tasks, no two live tasks would ever share a target |
| `ByteFieldLimits.PadMsb` | cda-core/src/diag_kernel.rs:186-190 | padded to the target length with the numeric value unchanged |
| `ByteFieldLimits.WithinLimitsIsNumeric` | cda-core/src/diag_kernel.rs:142-173 | a byte field is within limits exactly when its big-endian value lies between the parsable limits, inclusive, for any lengths |
| `Bytes.LexIsNumeric` | cda-core/src/diag_kernel.rs:161-170 | octet-wise order of equally long strings is numeric order |

## Left out

- Sockets, TLS, routing activation, UDP discovery and file access: an establish, read, send or file outcome is an arbitrary input.
- Task cancellation, panics and scheduling fairness: claims over schedules are safety claims, or say that a continuation exists.
- Real time: clocks are natural numbers; an event's waiting time is an input and need not equal the window in force.
- Memory orderings weaker than sequential consistency.
- Lookup of an unknown ECU name, which fails before the modelled operations begin.
- A detection whose lock handle is missing runs without the slot (cda-comm-uds/src/variant.rs:41-43).
- Matching responses against variant patterns: whether a variant matches, and whether its layers have start states, are inputs of `DetectVariant`.
- The effect of unloading a database on later detections; each detection is told whether the database is loaded and loads.
- The redetection queue.
- The alive check's own bounded read of the response while it holds the tx lock; as a sender it publishes, locks and concludes like a message.
- `send_with_retries`: only whether the frame could be queued.
- NACK-specific retry tables, functional (broadcast) requests, tester-present tasks, session and security reset timers.
- TransferBlock: the branches for a remaining length beyond usize and for a slice outside the buffer, which cannot be taken on 64-bit targets.
- DataTransfers: the error text of an aborted transfer.
- UpdateGate: the checks of an update other than `is_active`; an updater may lower the flag at any time, which covers their failures.
- TargetExclusion: what a live task does on the wire; on DoIP a per-ECU mutex still orders the tasks, on CAN nothing does.
- LockKey: Unicode lower-casing is a parameter, so the claims hold for any case folding.
- ExtractSequentialCodedConsts: requires that the walk ends, since the source's loop otherwise never returns; `EndsUnlessStuck` gives the exact condition.
- CanGateway.Send: a deadline beyond the clock's range is not modelled.
- Numeric and string cases of `within_limits`, service lookup, payload encoding and decoding, JSON mapping, DTC handling, health and configuration.
