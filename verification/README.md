# nats-sinks: a verified model

nats-sinks moves messages from NATS JetStream into durable destinations and acknowledges a message only after it is
stored. This project models the parts of it where order, interruption or two separately written halves matter, and
proves what they guarantee for every input, schedule and run.

| Files | Part of the system |
|---|---|
| `AckGate`, `AckGateProofs`, `AckGateWindows` | the gate that decides when a fanned-out batch may be acknowledged |
| `Routing`, `RoutingChoices`, `Fanout` | from a routing policy to the targets the gate is called with and each sink's own batch |
| `Consumers`, `ConsumerProofs`, `ConsumerServer`, `InProgress` | durable consumers: builders, drift detectors, the server's consumer store, heartbeat guards |
| `Envelope`, `EnvelopeContents`, `Keys`, `CoherenceSink`, `Redelivery` | normalised messages, their storage keys, idempotent writes under redelivery |
| `Encryption`, `Subjects` | subject-ruled encryption with key rotation; wildcard subjects |
| `Redaction`, `Overrides`, `ConfigTree` | transformations of the configuration tree |
| `Dependencies` | expansion of self-referencing dependency groups |
| `Checklist`, `ChecklistProofs`, `ChecklistLines` | the three scripts that write, read and refresh Acceptance Criteria checklists |
| `Prometheus`, `Observability` | label escaping and rendering; counters |
| `Prelude`, `Permutations`, `Text` | options and results; reordered sequences; Python string operations |

`dafny verify dfyconfig.toml` verifies everything.

## How the model is built

Code that changes things step by step is a class or a method with loops: the running gate, the drift report, the
JetStream context, route targets, the nested dictionaries of a configuration, the sink and its collection, the metrics
recorder, and the loops over headers, rules, requirements, lines and rows. Each such method is proved equal to a
function of its inputs and the old state, and the results are lemmas about those functions. Code that only computes is a
function. For each main operation some result reads its outcome off the inputs, in words of its own: the modules
`AckGateWindows`, `RoutingChoices`, `EnvelopeContents` and `ChecklistLines`, and the members ending in `Exactly`.

- **Schedules.** An operation has a finishing time, or none, and an outcome. Each suspension of the gate has an arbitrary
  non-negative lag for its timer and one for its wake-up, so the time bounds carry the sum of these lags
  (`AckGateProofs.LagOf`). A cancelled operation stops at once. The gate itself may be cancelled at any moment; this
  takes effect at the await it is suspended in, and cancels the operation awaited there. An operation that ends at the
  very instant its window closes counts as having ended. `NeverReturns` stands for awaiting an operation that never ends. Time is real-valued.
- **Consumers.** Pull and push mode differ only in which fields they set and compare, so one definition takes an optional
  push section. A server is a map from consumers to configurations, a function `keep` saying what it stores for what it
  is given, and for each request whether it is served, refused, or served without a reply.
- **Redelivery.** An attempt to write a batch can be cut off at any message, before or after its write took effect. A write
  that takes effect late is an attempt of its own that is cut off after that write.
- **Libraries.** `str.casefold`, `str.lower`, `int()`, SHA-256, AES, base64, JSON text and the process environment are
  parameters. `EncryptionProofs.Sound` says that decryption inverts encryption and parsing inverts printing,
  and `EncryptionProofs.KeyBound` that another key does not yield the text;
  `Keys.HexDigests` says that digests contain no colon.
- **Text.** Strings are sequences of characters. `strip`, `split`, `splitlines` and `replace` are written out, with all of
  Python's white space and line breaks.

## Where the code and its documentation differ

The model follows the code.

- The gate's documentation says that an optional target never blocks acknowledgement. An optional operation that raises
  (or is cancelled) inside its own wait window raises out of the gate: `AckGateProofs.OptionalFailureCanEscape`, with the
  exact condition in `AckGateProofs.GateReturnsExactly`. Its own `TimeoutError` inside the window is reported as a
  timeout, yet as a failure if it was raised before the observation: `AckGateProofs.ObservedStatus`.
- An encryption rule may, according to its documentation, bring its own key. It is refused when the rule and the section
  take keys from different kinds of source: `EncryptionProofs.ValidatedPolicyMayNotCompile`. The exact condition for a
  validated policy to start is `EncryptionProofs.ValidatedPolicyCompilesExactly`.
- Subject containment is described as conservative. It is exact: `Subjects.SubsetIsExact`.
- A builder and its detector read `max_ack_pending` of 0 and a configured `max_waiting` in disabled push mode differently,
  and an empty subject yields no filter. `ConsumerProofs.Coherent` is exactly the configurations without such a gap; the
  bounds of the configuration sections exclude the first, and `ConsumerProofs.DisabledPushDriftsFromItsOwnBuild` shows the
  second. A pause the server reports as NaN passes the comparison of
  pauses: `ConsumerProofs.NaNPauseIsAccepted`.
- The merge of a batch never weakens a policy, but the selection for a single message can: when two matching routes name
  the same sink, the earlier route's policy displaces the later one's, even a required one:
  `RoutingProofs.RequiredCanBeOverruled`, with the exact rule in `RoutingProofs.RequiredIsHonouredExactly`.
- A heartbeat interval that passes the configuration's own guard may be refused at start-up, because drift detection
  tolerates an AckWait that is a millisecond shorter: `InProgressProofs.GuardedStartCanBeRefused`. The AckWaits for which
  the guard is enough, among them all whole seconds, are exactly those of `InProgressProofs.GuardSufficesExactly`.
- `fail_existing` cannot be combined with redelivery: `CoherenceSinkProofs.PartialEffectBlocksRetry`.
- An encrypted message whose key is taken from its bytes is stored again at each redelivery with a fresh nonce, unless
  digests collide: `Redelivery.RedeliveredOnceExactly`. Keyed by payload, messages without bytes share one key per
  subject: `Keys.BytelessShareKeyExactly`.
- A validated encryption policy may start and yet encrypt messages that no single registry can decrypt, when a rule changes
  the section's algorithm or key but keeps its key identifier: `EncryptionProofs.SharedIdMayBeUnreadable`, with the exact
  condition in `EncryptionProofs.ReadableExactly`. Nonce sizes and tag lengths may differ freely.
- A checklist item with nothing but white space after its marker can be completed but is invisible to the release reader:
  `ChecklistProofs.BlankItemIsNeverAccepted`, with the exact condition in `ChecklistProofs.CompletedIsAccepted`.

## Model

| member | source | states |
|---|---|---|
| AckGate.FanoutGate.Wait | src/nats_sinks/core/ack_gate.py:81-146 | The running gate, cleanup included, leaves through the exit and in the state that `Gate` assigns to the schedule. |
| AckGate.FanoutGate.AwaitRequiredTargets | src/nats_sinks/core/ack_gate.py:111-128 | Awaiting one required operation after another yields the results, or the exit of the first that does not commit, and the clock, of the required phase. |
| AckGate.FanoutGate.ObserveOptionalTargets | src/nats_sinks/core/ack_gate.py:130-139 | Observing one optional target after another yields the records, or the exit, of the optional phase. |
| AckGate.FanoutGate.ObserveTarget | src/nats_sinks/core/ack_gate.py:149-200 | One observation: what is recorded or raised, and how clock and cancellations move. |
| AckGate.FanoutGate.CancelTasks | src/nats_sinks/core/ack_gate.py:203-208 | Whatever the order of the pass, precisely the operations that were not done are cancelled. |
| AckGateProofs.GateReturnsExactly | src/nats_sinks/core/ack_gate.py:111-146 | The gate returns a result if and only if no required operation fails or hangs, no optional one raises inside its own window, and cancellation does not take effect. |
| AckGateProofs.CancellationTakesEffectExactly | src/nats_sinks/core/ack_gate.py:110-141 | Cancelling the gate reaches its caller if and only if it comes before the gate's last wake-up or the gate would wait forever; otherwise the run is the one without cancellation. |
| AckGateProofs.CancelledGateLetsGo | src/nats_sinks/core/ack_gate.py:110-141 | A cancelled gate lets go at its next wake-up, and not before it was cancelled. |
| AckGateProofs.NeverReturnsExactly | src/nats_sinks/core/ack_gate.py:114-116 | The gate is kept forever if and only if the first blocking required operation never ends and no one cancels the gate. |
| AckGateProofs.GateResultIsComplete | src/nats_sinks/core/ack_gate.py:143-146 | A result lists every target, in configured order, and every required operation has really committed. |
| AckGateProofs.RequiredFailureIsFirstInListOrder | src/nats_sinks/core/ack_gate.py:111-125 | The sink blamed is the first blocking one in list order, whichever failed first in time, unless the gate is cancelled. |
| AckGateProofs.RequiredFailureNeedsBlockingTarget | src/nats_sinks/core/ack_gate.py:117-125 | No required failure is reported unless a required operation failed, was cancelled or hangs. |
| AckGateProofs.RequiredPhaseEnds | src/nats_sinks/core/ack_gate.py:111-128 | Awaiting in list order costs no time: if every required operation ends, in success or failure, the phase ends no later than the last of them, up to lags; earlier if one fails or the gate is cancelled. |
| AckGateProofs.OptionalPhaseEnds | src/nats_sinks/core/ack_gate.py:163-177 | The optional phase ends no later than its start or the largest timeout plus one millisecond, and no later than its start plus the sum of the minimum waits. |
| AckGateProofs.GateEndsInTime | src/nats_sinks/core/ack_gate.py:105-139 | Both bounds for the whole gate, counted from the last required finish, for any number of targets, with or without failures and cancellation. |
| AckGateProofs.GateLeavesNothingRunning | src/nats_sinks/core/ack_gate.py:119-141 | On every exit, cancellation of the gate included, each operation has ended or been cancelled, and none that had ended by the end of the required phase, or by a cancellation during it, was cancelled. |
| AckGateProofs.EarlySuccessIsCommitted | src/nats_sinks/core/ack_gate.py:163-200 | An optional copy that had succeeded when the required phase ended is reported committed, never timed out. |
| AckGateProofs.CommittedExactlyByDeadline | src/nats_sinks/core/ack_gate.py:163-200 | With distinct sinks, committed means succeeded by the end of its window, and failed means it had failed before it was observed. |
| AckGateProofs.ObservedStatus | src/nats_sinks/core/ack_gate.py:163-200 | Every status of one observation, in terms of when the operation ended and how. |
| AckGateProofs.OptionalFailureCanEscape | src/nats_sinks/core/ack_gate.py:168-177 | A schedule in which a failing optional copy makes the gate raise although every required one committed. |
| AckGateWindows.WatchedExactly | src/nats_sinks/core/ack_gate.py:163-200 | An optional operation still pending when it is observed is waited for the smaller of its minimum wait and what is left of its timeout, in whole milliseconds; if it ends by then it is reported or raised at that moment, and otherwise it is cancelled and timed out when the wait is over. |
| AckGateWindows.WatchedInTime | src/nats_sinks/core/ack_gate.py:163-177 | Ending within the minimum wait from now and within the timeout from the start is enough to be reported as ended; ending past either, by more than a millisecond and the timer's lag, is not. |
| AckGateWindows.EndedBefore | src/nats_sinks/core/ack_gate.py:178-200 | What had ended before it was observed is committed, failed with its error type, or timed out if cancelled, whatever the waits, and costs no time. |
| AckGateWindows.CommittedInTime | src/nats_sinks/core/ack_gate.py:130-200 | A copy that succeeds within its minimum wait, counted from the end of the required phase, and within its timeout, counted from the start, is committed in the gate's result. |
| AckGateWindows.TimedOutTooLate | src/nats_sinks/core/ack_gate.py:163-200 | A copy that is pending when the gate comes to it, and ends too late or never, is timed out in the gate's result. |
| AckGateWindows.EscapeIsFirstInListOrder | src/nats_sinks/core/ack_gate.py:130-141 | What escapes from the gate is the outcome of the first optional target, in list order, that raises inside its window, or its lack of waits. |
| AckGateWindows.FailureInTimeEscapes | src/nats_sinks/core/ack_gate.py:163-177 | A copy that fails in time while it is watched, with nothing escaping before it, makes the gate raise its failure. |
| Routing.NormalizeRouteTargets | src/nats_sinks/core/config.py:467-501 | A name, an object or a collection of them is accepted if and only if it reads as 1 to 64 valid targets with distinct names, which it then yields in order. |
| Routing.RouteTargetConfig.ApplyDefaults | src/nats_sinks/core/config.py:3069-3086 | One target after defaulting, or the error that stops validation. |
| Routing.ApplyAckGateDefaults | src/nats_sinks/core/config.py:3062-3086 | The targets updated in place are the defaulted ones, in order; the first error stops the pass. |
| RoutingProofs.DefaultsMakeReady | src/nats_sinks/core/config.py:3062-3086 | Defaulting keeps names, kinds and explicit waits, and leaves every optional target with valid waits, minimum within timeout. |
| RoutingProofs.ValidatedPolicyIsReady | src/nats_sinks/core/config.py:3024-3035 | Every target of a validated enabled policy is ready for the gate. |
| RoutingProofs.SelectionTakesFirstOffers | src/nats_sinks/core/routing_policy.py:87-137 | One message goes to exactly the first offer of each sink by its matching routes, once; in first mode only the first matching route offers. |
| RoutingProofs.RequiredIsHonouredExactly | src/nats_sinks/core/routing_policy.py:87-137 | A sink that some matching route requires is required for the message if and only if its first offer requires it. |
| RoutingProofs.RequiredCanBeOverruled | src/nats_sinks/core/routing_policy.py:87-137 | A validated policy and a message for which an earlier optional policy displaces a later required one. |
| RoutingProofs.GateTargetsAccountForBatch | src/nats_sinks/core/fanout_sink.py:187-243 | The merged target of each sink is the least strict one that is as strict as every selected policy for it, so no message is acknowledged earlier than its own policy allows. |
| RoutingProofs.MergeIsOrderIndependent | src/nats_sinks/core/fanout_sink.py:187-243 | Neither whether a batch is routed nor the merged policy of any sink depends on the order of its messages. |
| RoutingProofs.ValidatedRoutingMeetsGate | src/nats_sinks/core/fanout_sink.py:145-170 | For every batch routed by a validated policy and one write per selected sink, the gate never misses waits or operations, and if no required write hangs it lets go by the last required finish or 300.001 seconds, up to lags. |
| RoutingChoices.ReadsExactly | src/nats_sinks/core/config.py:2880-2935 | A name is a required target; an object is one if its waits are within 60 and 300 seconds, in order, and absent from a required one. |
| RoutingChoices.ListsExactly | src/nats_sinks/core/config.py:467-501 | A list is valid if and only if it holds 1 to 64 such targets with distinct names. |
| RoutingChoices.DefaultsExactly | src/nats_sinks/core/config.py:3062-3086 | Optional targets take 100 and 1000 milliseconds for file and spool, and 1000 and 5000 for every other type, where they have no waits of their own; defaulting fails for the first target without waits or type, or whose timeout is below its minimum wait. |
| RoutingChoices.ValidatesExactly | src/nats_sinks/core/config.py:3024-3035 | A policy is valid if and only if an enabled one has routes, default targets go with the default route, and every target in use can be defaulted; nothing but waits changes. |
| RoutingChoices.SelectsExactly | src/nats_sinks/core/routing_policy.py:103-150 | A message is refused by a disabled policy; with a matching route it goes to the first offer of each sink among the routes that count; without one it goes to the default targets, to nothing, or is refused, as configured. |
| RoutingChoices.SelectionKeepsOrder | src/nats_sinks/core/routing_policy.py:87-100 | A message's targets stand in the order in which its routes offer their sinks. |
| RoutingChoices.MergeKeepsOrder | src/nats_sinks/core/fanout_sink.py:187-210 | The gate's targets stand in the order in which the batch first selects their sinks. |
| RoutingChoices.BatchIsRefusedExactly | src/nats_sinks/core/fanout_sink.py:187-219 | A batch is refused if and only if one of its messages is, and as the first such message is. |
| Fanout.SelectForBatch | src/nats_sinks/core/fanout_sink.py:187-210 | The dictionaries of policies and messages, filled envelope by envelope, yield for each sink its merged policy and, in order, the messages sent to it, or the first refusal. |
| FanoutProofs.SendsExactly | src/nats_sinks/core/fanout_sink.py:187-210 | A sink is sent exactly the messages whose own selection names it. |
| FanoutProofs.SendsAreInOrder | src/nats_sinks/core/fanout_sink.py:187-210 | A sink gets each of its messages once, in the order of the batch. |
| FanoutProofs.OwnBatchesExactly | src/nats_sinks/core/fanout_sink.py:187-210 | Each sink's own batch has the merged policy and, in order and once each, exactly the messages whose selection names the sink. |
| FanoutProofs.AcknowledgedMeansStored | src/nats_sinks/core/fanout_sink.py:145-186 | Once the gate returns, every message is in the committed batch of every sink its own selection requires. |
| Subjects.SubsetTokensSound | src/nats_sinks/core/subjects.py:77-117 | Whatever a contained pattern matches, the containing one matches too. |
| Subjects.SubsetIsExact | src/nats_sinks/core/subjects.py:77-117 | Containment holds if and only if every subject matched by the one is matched by the other. |
| Subjects.MatchesExactly | src/nats_sinks/core/subjects.py:22-46 | A subject matches word by word, a star standing for any one word and a final `>` for one or more. |
| Subjects.ValidExactly | src/nats_sinks/core/subjects.py:49-74 | A pattern is valid if and only if no token is empty or holds white space, wild cards stand alone and the tail one is last. |
| Consumers.BuildConsumerConfig | src/nats_sinks/core/consumer_management.py:244-386 | The keyword arguments filled in step by step are the configuration `Built`, or the refusal. |
| Consumers.DetectConsumerDrift | src/nats_sinks/core/consumer_management.py:561-703 | The items appended by the detector helpers are those of `Drift`, in order. |
| Consumers.DriftReport.DetectIdentity | src/nats_sinks/core/consumer_management.py:464-492 | Identity, delivery and filter items are appended after those present already. |
| Consumers.DriftReport.DetectOptional | src/nats_sinks/core/consumer_management.py:515-558 | Optional policies are compared only where configured. |
| ConsumerProofs.ManagedFiltersStayInside | src/nats_sinks/core/consumer_management.py:215-229 | A managed consumer never receives a message outside the configured subject. |
| ConsumerProofs.BackoffAgrees | src/nats_sinks/core/consumer_management.py:198-212 | Pauses compare as equal exactly when each is within tolerance of what was built, or reported as NaN. |
| ConsumerProofs.NoDriftIffConforms | src/nats_sinks/core/consumer_management.py:244-703 | The detector finds nothing if and only if the server's configuration is what the builder asked for, up to settings left open, the tolerance and single or plural filter fields. |
| ConsumerProofs.BuiltHasNoDrift | src/nats_sinks/core/consumer_management.py:356-386 | What a builder produced shows no drift if and only if the configuration is coherent. |
| ConsumerProofs.IncoherentDrifts | src/nats_sinks/core/consumer_management.py:634-666 | Outside the coherent configurations the detector rejects the builder's own output. |
| ConsumerProofs.DisabledPushDriftsFromItsOwnBuild | src/nats_sinks/core/consumer_management.py:328-386 | With push mode disabled, a configured max_waiting that the builder accepts makes its own output drift. |
| ConsumerProofs.PullIsNeverTakenForPush | src/nats_sinks/core/consumer_management.py:588-703 | A consumer built for pull mode from any configuration fails push detection under any other. |
| ConsumerProofs.PushIsNeverTakenForPull | src/nats_sinks/core/consumer_management.py:464-585 | A consumer built for push mode with a delivery subject, from any configuration, fails pull detection under any other. |
| ConsumerProofs.NaNPauseIsAccepted | src/nats_sinks/core/consumer_management.py:198-212 | A pause reported as NaN is accepted, unlike any other duration. |
| ConsumerProofs.BuildsExactly | src/nats_sinks/core/consumer_management.py:215-386 | A configuration is built if and only if push mode, when on, is safe and every filter is inside the subject, and otherwise the first filter that is not is named; it has the given name, explicit acks and those filters. |
| ConsumerProofs.PoliciesByName | src/nats_sinks/core/consumer_management.py:244-325 | Each deliver and replay policy appears under its own name on the wire. |
| ConsumerProofs.DriftNamesExactly | src/nats_sinks/core/consumer_management.py:464-703 | The report names exactly the fields in which the server's configuration is not what the builder asked for. |
| ConsumerProofs.DetectionFailsExactly | src/nats_sinks/core/consumer_management.py:561-703 | Detection fails, rather than reports, if and only if nothing could be built or the server reported no configuration. |
| ConsumerServer.JetStreamContext.EnsureConsumer | src/nats_sinks/core/consumer_management.py:839-998 | Reply and server state after ensuring a consumer are those of `Ensure`, on every path and fault. |
| ConsumerServer.JetStreamContext.AddAndVerifyConsumer | src/nats_sinks/core/consumer_management.py:759-836 | Writing and re-reading a consumer changes the server as `AddAndVerify` says. |
| ConsumerServerProofs.OneCall | src/nats_sinks/core/consumer_management.py:839-998 | One call leaves the store alone or writes its own consumer once, and it writes an existing one only to reconcile it when it shows no drift. |
| ConsumerServerProofs.DriftingConsumerIsNeverWritten | src/nats_sinks/core/consumer_management.py:881-891 | Over any run, a consumer that drifts from every call made on it stays as it is. |
| ConsumerServerProofs.BindOnlyNeverWrites | src/nats_sinks/core/consumer_management.py:862-866 | Over any run of bind-only calls nothing is written. |
| ConsumerServerProofs.EveryConsumerHasAnOrigin | src/nats_sinks/core/consumer_management.py:839-998 | Over any run, a consumer is what it was at the start or what was built for a durable call on it that may write. |
| ConsumerServerProofs.AfterSuccess | src/nats_sinks/core/consumer_management.py:839-998 | Success creates a missing consumer, and binds or reconciles an existing accepted one; the store then holds what was built, or is unchanged. |
| ConsumerServerProofs.ExistingIsAcceptedExactly | src/nats_sinks/core/consumer_management.py:881-892 | An existing consumer is bound if and only if it shows no drift and its timing suits the heartbeats, and the store stays as it is. |
| ConsumerServerProofs.HeartbeatsAreSafe | src/nats_sinks/core/consumer_management.py:713-776 | Success with heartbeats on means a durable consumer without pauses whose AckWait is finite, positive and longer than the interval by the safety ratio. |
| ConsumerServerProofs.RepeatingIsHarmless | src/nats_sinks/core/consumer_management.py:839-998 | With a server that keeps what it is given up to tolerance, repeating a successful call succeeds and leaves the store unchanged. |
| ConsumerServerProofs.RefusedBeforehandExactly | src/nats_sinks/core/consumer_management.py:411-440 | A call is refused before anything is asked of the server if and only if push mode lacks the client's support or its settings are unsafe, or heartbeats are on without a durable consumer. |
| ConsumerServerProofs.ReasonForRefusal | src/nats_sinks/core/consumer_management.py:328-353 | Which of the six reasons is given, in the order in which they are looked at. |
| ConsumerServerProofs.SucceedsExactly | src/nats_sinks/core/consumer_management.py:839-998 | A durable call succeeds if and only if it is admitted, its requests are served, what it finds does not drift and suits the heartbeats or nothing is found and it may create, and what it writes suits them. |
| ConsumerServerProofs.FirstAnswerDecides | src/nats_sinks/core/consumer_management.py:839-998 | Which error the first answer of the server leads to: unreadable, missing, drifting in these fields, or unsuitable timing. |
| ConsumerServerProofs.UnansweredWrite | src/nats_sinks/core/consumer_management.py:793-836 | A write that is not answered fails the call, which leaves the store alone if the write was refused and has written it otherwise. |
| ConsumerServerProofs.SuitsExactly | src/nats_sinks/core/consumer_management.py:713-756 | A consumer passes the timing check if and only if it has no pauses and a finite, positive AckWait of which the interval is below 80 percent. |
| InProgressProofs.FreshStartSucceedsExactly | src/nats_sinks/core/config.py:1381-1418 | A new consumer on a faithful server starts if and only if the configuration passed its own guard. |
| InProgressProofs.ConformingIsSafeExactly | src/nats_sinks/core/consumer_management.py:713-756 | Every drift-free consumer is safe for the heartbeats if and only if the interval leaves room for the drift tolerance; one with pauses of the server's own never is. |
| InProgressProofs.GuardSufficesExactly | src/nats_sinks/core/config.py:1411-1418 | Every interval that passes the configuration's guard is safe for every drift-free consumer if and only if no whole millisecond lies between the limits for the AckWait and for one shorter by the tolerance. |
| InProgressProofs.GuardedStartCanBeRefused | src/nats_sinks/core/consumer_management.py:750-776 | A start-up refused although the guard passed and the new consumer shows no drift. |
| InProgressProofs.GuardPassesExactly | src/nats_sinks/core/config.py:1381-1418 | With heartbeats on, the configuration's guard asks for a durable consumer, no pauses, and an AckWait of which the interval is below 80 percent, which only bind-only mode may leave open. |
| Envelope.NormaliseHeaders | src/nats_sinks/core/envelope.py:60-83 | Headers collected one by one are the ordered dictionary of rendered names and values. |
| Envelope.NormalizePayloadPresence | src/nats_sinks/core/envelope.py:174-209 | The presence fields set step by step are the settled ones. |
| EnvelopeProofs.HeadersNormaliseOnce | src/nats_sinks/core/envelope.py:60-83 | Normalising headers again changes nothing, not even their order. |
| EnvelopeProofs.PresenceIsConsistent | src/nats_sinks/core/envelope.py:174-209 | Omitted implies not present and a reason; the original size is known and not negative; a headers-only message is omitted. |
| EnvelopeProofs.PresenceNormalisesOnce | src/nats_sinks/core/envelope.py:174-209 | A second pass changes nothing, even if bytes have been put in place of an omitted body. |
| EnvelopeContents.PresenceExactly | src/nats_sinks/core/envelope.py:174-209 | Every presence field of a constructed message, from the given fields, the size its headers state and its bytes: the size of a headers-only message is the stated one, given sizes count unless negative, and the reason is the given one or the default. |
| EnvelopeContents.HeadersHoldExactly | src/nats_sinks/core/envelope.py:60-83 | A message has, for each stripped, non-empty name without control characters, exactly one header, with the value received last for it. |
| EnvelopeContents.HeadersKeepOrder | src/nats_sinks/core/envelope.py:60-83 | Headers stand in the order in which their names were received first. |
| EnvelopeContents.ListReadsBack | src/nats_sinks/core/envelope.py:76-78 | A list of printable items without commas can be read back from its header. |
| EnvelopeContents.UnprintableIsLeftOut | src/nats_sinks/core/envelope.py:76-78 | An item that cannot be printed leaves no trace in its list. |
| EnvelopeContents.LooksUpExactly | src/nats_sinks/core/envelope.py:86-90 | Looking a name up finds the first header of that name up to case. |
| EnvelopeContents.MessageIdExactly | src/nats_sinks/core/envelope.py:142-172 | The message id is the given one, or that of the first of three headers that is not empty; priority and classification are stripped, and everything else is as given. |
| EnvelopeProofs.ReplaceKeepsTheRest | src/nats_sinks/core/envelope.py:142-209 | Replacing the bytes of a constructed message changes nothing else, though everything is normalised again. |
| EnvelopeProofs.OmittedNeverGainsPayloadKey | src/nats_sinks/core/envelope.py:211-224 | A headers-only message keeps its presence and its key when it is given bytes, and never takes a key from them. |
| EnvelopeProofs.KeySurvivesReplacement | src/nats_sinks/core/envelope.py:211-224 | Replacing the bytes keeps the key exactly when the key does not come from the bytes or their digests agree. |
| Keys.DecimalIsInjective | src/nats_sinks/core/envelope.py:211-224 | Sequence numbers print differently and without a colon. |
| Keys.RenderedIsInjective | src/nats_sinks/core/envelope.py:211-224 | Keys from different branches never collide, and keys of one branch only for the same identity, even when stream names contain colons. |
| Keys.KeysIdentifyMessages | src/nats_sinks/coherence/mapping.py:23-113 | Under one strategy and prefix, two messages share a storage key if and only if they share their identity. |
| Keys.KeyExactly | src/nats_sinks/coherence/mapping.py:23-113 | The storage key is the text of the identity behind the prefix, refused if longer in UTF-8 than allowed, and refused for want of an identity exactly where the strategy finds none. |
| Keys.Utf8LengthExactly | src/nats_sinks/coherence/mapping.py:32-33 | Key length is counted in UTF-8: each character adds one to four bytes. |
| Keys.BytelessShareKeyExactly | src/nats_sinks/coherence/mapping.py:111-113 | Keyed by payload, messages that carry no bytes share a key if and only if they share their subject. |
| Keys.OmittedKeyIsItsOwn | src/nats_sinks/core/envelope.py:211-224 | Under the other strategies two omitted messages share a key only with the same stream position or the same message id. |
| CoherenceSink.Sink.Write | src/nats_sinks/coherence/sink.py:136-156 | One attempt, interrupted anywhere, leaves the collection and exits as `WriteBatch` says. |
| CoherenceSink.Sink.WriteMessage | src/nats_sinks/coherence/sink.py:199-210 | The effect of one write under each duplicate policy, and when it counts as a duplicate failure. |
| CoherenceSink.Sink.Start | src/nats_sinks/coherence/sink.py:107-128 | Starting keeps an open collection and opens one otherwise. |
| CoherenceSinkProofs.BatchHolds | src/nats_sinks/coherence/sink.py:136-156 | After one attempt each key holds the first of its writes, or the last under replace. |
| CoherenceSinkProofs.RunHolds | src/nats_sinks/coherence/sink.py:136-210 | The same after any sequence of interrupted attempts: first effective write wins, or last. |
| CoherenceSinkProofs.CommittedRunStoresBatch | src/nats_sinks/coherence/sink.py:136-156 | When the last attempt commits, every message of it is stored; under replace with its last value in the batch, otherwise with its first value ever. |
| CoherenceSinkProofs.FailExistingCommitsExactly | src/nats_sinks/coherence/sink.py:199-210 | Under fail_existing a batch commits if and only if all its keys are new and different. |
| CoherenceSinkProofs.ExitsExactly | src/nats_sinks/coherence/sink.py:136-210 | An attempt commits, is rejected, is interrupted or meets an existing key if and only if that is what it comes to first, said by position in the batch, for every policy and interruption. |
| CoherenceSinkProofs.WritesUpToTheStop | src/nats_sinks/coherence/sink.py:143-156 | The writes of an attempt are those of the messages before its stop, and of the one it stopped at if its write was lost only on the way back. |
| CoherenceSinkProofs.CommitsExactly | src/nats_sinks/coherence/sink.py:199-210 | Under skip_existing and replace an attempt commits if and only if every message is serializable and nothing interrupts it, and no existing key is ever an error. |
| CoherenceSinkProofs.RedeliveryCommits | src/nats_sinks/coherence/sink.py:199-210 | Under them a storable batch is committed by its first undisturbed redelivery, whatever happened before. |
| CoherenceSinkProofs.PartialEffectBlocksRetry | src/nats_sinks/coherence/sink.py:199-210 | Under fail_existing, once an attempt had any effect no later attempt on that batch commits. |
| CoherenceSinkProofs.StoredMessageIsFound | src/nats_sinks/coherence/mapping.py:23-41 | After any interrupted deliveries ending in success, looking up a message finds a message of the same identity. |
| Redelivery.FreshNonceChangesBytesExactly | src/nats_sinks/core/encryption.py:202-230 | Two deliveries of one message with different nonces differ in their bytes if and only if the policy encrypts the message. |
| Redelivery.RedeliveryKeepsKeyExactly | src/nats_sinks/core/envelope.py:211-224 | Two deliveries of one message with different nonces, and no digest collision, get the same storage key if and only if the key is not taken from the bytes or the message is not encrypted. |
| Redelivery.RedeliveredOnceExactly | src/nats_sinks/coherence/sink.py:199-210 | Under skip_existing a message delivered any number of times with different nonces adds one entry to any collection if its key is not taken from the bytes or it is not encrypted, and one for each delivery otherwise; the first delivery's entry and all earlier entries stand. |
| Encryption.CompileSubjectPolicy | src/nats_sinks/core/encryption.py:333-341 | The rule list filled in order is the compiled policy, or the first error. |
| Encryption.NewRegistry | src/nats_sinks/core/encryption.py:286-297 | The key dictionary filled in order is the registry; empty lists and repeated identifiers are refused. |
| EncryptionProofs.EffectiveExactlyWhenNotMixed | src/nats_sinks/core/config.py:2472-2489 | A validated enabled rule has an effective configuration if and only if its key source is not mixed with the section's. |
| EncryptionProofs.ValidatedPolicyCompilesExactly | src/nats_sinks/core/encryption.py:333-341 | A validated policy starts if and only if every key in use is available and no enabled rule mixes key sources. |
| EncryptionProofs.ValidatedPolicyMayNotCompile | src/nats_sinks/core/config.py:2431-2489 | A policy that passes validation, with every key available, and yet is refused when it is compiled. |
| EncryptionProofs.FirstMatchDecides | src/nats_sinks/core/encryption.py:356-362 | The first matching rule decides, or the fallback if none matches. |
| EncryptionProofs.CompiledRule | src/nats_sinks/core/encryption.py:333-341 | Rule by rule: disabled ones pass messages through, enabled ones use their effective configuration. |
| EncryptionProofs.ProtectedExactly | src/nats_sinks/core/encryption.py:333-362 | A started policy encrypts a message if and only if the first rule matching its subject is enabled, or none matches and the section is; it does so with the rule's own settings, the section's where the rule has none, and with the 32-byte key these settings lead to. |
| EncryptionProofs.EncryptedCarries | src/nats_sinks/core/encryption.py:202-230 | An encrypted message states schema, version, algorithm, key identifier, nonce and tag length, and size and digest of the plaintext. |
| EncryptionProofs.DecryptsExactly | src/nats_sinks/core/encryption.py:232-320 | A registry accepts a message if and only if all it states is true of the entry under its identifier and of the plaintext. |
| EncryptionProofs.RegistryHolds | src/nats_sinks/core/encryption.py:286-297 | A built registry knows every configuration it was given under its identifier. |
| EncryptionProofs.DecryptInverts | src/nats_sinks/core/encryption.py:202-267 | An entry with the same identifier, algorithm and key gives the plaintext back, through all identifier, schema, size and digest comparisons; sizes travel with the message. |
| EncryptionProofs.DecryptNeedsTheKey | src/nats_sinks/core/encryption.py:232-267 | Conversely, a registry that gives the plaintext back holds that algorithm and key under the message's identifier. |
| EncryptionProofs.MixedBatchRoundTrip | src/nats_sinks/core/encryption.py:343-362 | Each message keeps its place and metadata, is untouched if it is not to be encrypted, and otherwise carries its own nonce and is decrypted to its bytes by any registry that has the algorithm and key in use under each identifier in use. |
| EncryptionProofs.ReadableExactly | src/nats_sinks/core/encryption.py:286-320 | Some registry decrypts whatever a compiled policy encrypts if and only if no identifier in use stands for two algorithms or two keys. |
| EncryptionProofs.SharedIdMayBeUnreadable | src/nats_sinks/core/config.py:2472-2489 | A valid policy that starts and whose messages no single registry decrypts: a rule changes the algorithm and inherits the identifier. |
| EncryptionProofs.SizesAloneStayCompatible | src/nats_sinks/core/config.py:2472-2489 | Rules that change nothing but nonce sizes, tag lengths or identifiers leave a policy readable. |
| Redaction.FieldIsAsWritten | src/nats_sinks/core/config.py:3492-3526 | Treating an entry by kind is the same as masking it and redacting the masked value again. |
| Redaction.RedactionShowsExactlyThePublic | src/nats_sinks/core/config.py:3492-3526 | Two trees redact alike if and only if they agree on everything that is not secret. |
| Redaction.RedactedIsSamePublic | src/nats_sinks/core/config.py:3505-3526 | Redaction keeps all that is public, sink names and the target type table included. |
| Redaction.RedactTwice | src/nats_sinks/core/config.py:3505-3526 | Redaction is idempotent. |
| Redaction.EntriesShowExactly | src/nats_sinks/core/config.py:3492-3526 | Entry by entry: a value under a key that contains one of the eleven secret words is masked, so is an address with an `@`, header tables show their names only, and everything else is shown, entry by entry. |
| Redaction.ItemsShowExactly | src/nats_sinks/core/config.py:3524-3526 | Lists are redacted item by item; values that are neither list nor object are shown. |
| Redaction.SecretExactly | src/nats_sinks/core/config.py:76-88 | A key counts as secret if and only if one of the eleven words stands anywhere in it. |
| Redaction.SecretsLeaveNoTrace | src/nats_sinks/core/config.py:3492-3502 | Any non-null value under a sensitive key redacts to the same tree. |
| ConfigTree.ApplyEnvironmentOverrides | src/nats_sinks/core/config.py:3420-3428 | The deep copy updated in place, entry by entry, holds the overrides whose variable is set, or the first that cannot be set stops it; the configuration given stays as it is. |
| ConfigTree.Table.Set | src/nats_sinks/core/config.py:3410-3417 | Writing into nested dictionaries in place, creating missing ones, has the effect of `SetNested` and, on failure, none; only these and new dictionaries change. |
| ConfigTree.Table.DeepCopy | src/nats_sinks/core/config.py:3423 | The copy has the same contents and shares no dictionary with the original. |
| OverrideProofs.SetsExactlyWhenSettable | src/nats_sinks/core/config.py:3410-3417 | A path can be set if and only if every node on the way is an object or absent. |
| OverrideProofs.SetReads | src/nats_sinks/core/config.py:3410-3417 | A set path reads its value; incomparable paths read as before. |
| OverrideProofs.SetsCommute | src/nats_sinks/core/config.py:3410-3417 | Two overrides of incomparable paths commute. |
| OverrideProofs.AppliesExactlyWhenSettable | src/nats_sinks/core/config.py:3420-3428 | Prefix-free overrides succeed together if and only if each could be set in the original tree. |
| OverrideProofs.OverridesCommute | src/nats_sinks/core/config.py:3420-3428 | Every order of prefix-free overrides leads to the same tree, or none succeeds. |
| OverrideProofs.OverridesReadBack | src/nats_sinks/core/config.py:3420-3428 | Each override reads back its value, and all incomparable paths are untouched. |
| OverrideProofs.TableOrderIsIrrelevant | src/nats_sinks/core/config.py:3420-3428 | The order of a prefix-free table is irrelevant, whichever variables are set. |
| OverrideProofs.TableIsPrefixFree | src/nats_sinks/core/config.py:3359-3407 | No path of the table in use is a prefix of another. |
| OverrideProofs.EnvironmentOrderIsIrrelevant | src/nats_sinks/core/config.py:3359-3428 | For the table in use, every order of its entries leads to the same tree or none succeeds, whichever variables are set. |
| OverrideProofs.EnvironmentAppliesExactly | src/nats_sinks/core/config.py:3420-3428 | The environment can be applied if and only if the path of every variable that is set can be set in the given tree. |
| OverrideProofs.EnvironmentReadsBack | src/nats_sinks/core/config.py:3420-3428 | A setting whose variable is set reads back its text, and every other setting of the table is as before. |
| OverrideProofs.FirstUnsettableIsNamed | src/nats_sinks/core/config.py:3410-3428 | The first override that cannot be set is the one the error names. |
| Dependencies.ExpandRequirements | scripts/update-dependency-manifests.py:109-119 | The recursive expansion terminates and yields `Expand`. |
| Dependencies.ExpandSelfReference | scripts/update-dependency-manifests.py:74-106 | A plain requirement stands for itself; a reference yields the groups it names, in order, up to the first failure. |
| Dependencies.Dedupe | scripts/update-dependency-manifests.py:122-131 | The loop keeps the first occurrence of each stripped, non-blank entry. |
| DependencyProofs.FirstSeenContents | scripts/update-dependency-manifests.py:122-131 | De-duplication keeps each entry once and loses none. |
| DependencyProofs.FirstSeenOrder | scripts/update-dependency-manifests.py:122-131 | De-duplication keeps entries in the order in which they first occur. |
| DependencyProofs.ReferencesLookLikeThis | scripts/update-dependency-manifests.py:90-92 | A requirement is a reference if and only if it is the project's name with something in square brackets. |
| DependencyProofs.NamedGroupsAreRead | scripts/update-dependency-manifests.py:94-98 | The groups named between the brackets are read in order; white space and blanks drop out. |
| DependencyProofs.NestedDedupeIsOneDedupe | scripts/update-dependency-manifests.py:109-131 | De-duplicating at every level is de-duplicating the plain depth-first expansion once. |
| DependencyProofs.ExpansionFailsExactly | scripts/update-dependency-manifests.py:97-100 | Expansion fails if and only if some chain of references reaches an unknown or already active group, as recursive or as unknown according to the end of such a chain. |
| DependencyProofs.ManifestFailsExactly | scripts/update-dependency-manifests.py:142-165 | The manifest of a group fails if and only if an unknown group or a cycle is reachable from it. |
| DependencyProofs.ExpansionListsReachableLeaves | scripts/update-dependency-manifests.py:74-131 | A successful expansion lists, without repetition, exactly the reachable entries that are not references themselves. |
| Checklist.CompleteChecklist | scripts/comment-backlog-issue.py:105-139 | The writer: the completed body, or the error for a body without items. |
| Checklist.ReadChecklist | scripts/close-released-backlog-issues.py:45-62 | The reader, with its early return, computes `Accepts`. |
| Checklist.PreserveChecks | scripts/sync-backlog-issues.py:598-627 | The refresh computes `Refresh`. |
| Checklist.CollectChecked | scripts/sync-backlog-issues.py:630-643 | The texts of the items checked inside the section. |
| ChecklistProofs.ReaderSeesText | scripts/close-released-backlog-issues.py:50-61 | The reader sees a line as the writer does, except that items without text are invisible to it. |
| ChecklistProofs.JoinedLinesAreRead | scripts/comment-backlog-issue.py:136-139 | Rendered lines are split again into the same lines, up to one empty last line. |
| ChecklistProofs.RenderedExactlyWithLineFeeds | scripts/sync-backlog-issues.py:624-627 | A body is its own rendering if and only if its only line breaks are line feeds. |
| ChecklistProofs.CheckedItemIsDone | scripts/comment-backlog-issue.py:125-129 | Checking an item makes it a done item with the same text. |
| ChecklistProofs.CompletedIsAccepted | scripts/close-released-backlog-issues.py:45-62 | The reader accepts a completed body if and only if one of its items has text. |
| ChecklistProofs.BlankItemIsNeverAccepted | scripts/close-released-backlog-issues.py:45-62 | A body with a single blank item, which the writer completes and the reader refuses. |
| ChecklistProofs.CompleteTwice | scripts/comment-backlog-issue.py:105-139 | Completing is idempotent. |
| ChecklistProofs.LineChangesExactly | scripts/comment-backlog-issue.py:117-133 | Completing changes a line if and only if it is an open item below the section's heading and above the next, and then into a done item with the same text. |
| ChecklistProofs.RefreshAgainstCompletion | scripts/sync-backlog-issues.py:598-627 | Refreshing a body against its completion gives that completion if and only if an item was open or the body has no line breaks but line feeds. |
| ChecklistProofs.RefreshChangesExactly | scripts/sync-backlog-issues.py:607-622 | A refresh changes a line if and only if it is an open item of the section whose text is checked in the existing body, and then into a done item with the same text. |
| ChecklistProofs.RefreshKeepsChecks | scripts/sync-backlog-issues.py:598-643 | A refresh keeps the items, and checks exactly those checked in the new body or, by text, in the existing one. |
| ChecklistLines.WriterChangesExactly | scripts/comment-backlog-issue.py:117-133 | In the lines as written: an open item of the section keeps its indentation and text and gets the checked marker; no other line changes. |
| ChecklistLines.CompletesExactly | scripts/comment-backlog-issue.py:105-139 | A body is refused if and only if no line of its section is an item, and rewritten if and only if one is open. |
| ChecklistLines.AcceptsExactly | scripts/close-released-backlog-issues.py:45-62 | The reader accepts any body if and only if its section shows a done item and no open one. |
| ChecklistLines.RefreshWritesExactly | scripts/sync-backlog-issues.py:598-643 | In the lines as written: an open item of the section gets the checked marker if its text is that of a done item in the existing section; no other line changes. |
| ChecklistLines.OpenExactly | scripts/comment-backlog-issue.py:120-129 | An open item is white space, the open marker and a text, and nothing else is. |
| ChecklistLines.DoneExactly | scripts/sync-backlog-issues.py:630-643 | A done item is white space, the marker with a small or capital x, and a text, and nothing else is. |
| ChecklistLines.LinesSplitExactly | scripts/comment-backlog-issue.py:112 | A body is split at each of the ten line ends and at a carriage return with its line feed as one; a last line without an end counts unless empty. |
| Text.StripsExactly | scripts/comment-backlog-issue.py:118-122 | Stripping takes all of Python's white space from both ends and nothing else. |
| Prometheus.RenderPrometheus | src/nats_sinks/cli/metrics.py:208-235 | The loop over rows yields the lines of `RenderRows`. |
| PrometheusProofs.EscapeIsOnePass | src/nats_sinks/cli/metrics.py:105-108 | Three replacements in sequence are one character map. |
| PrometheusProofs.ValueReadsBack | src/nats_sinks/cli/metrics.py:105-108 | An escaped value up to its closing quote reads back, so it holds neither a bare quote nor a raw line feed. |
| PrometheusProofs.SuffixReadsBack | src/nats_sinks/cli/metrics.py:111-120 | The rendered label suffix parses back to the labels, for well-formed label names. |
| PrometheusProofs.MetricsAreAnnouncedOnce | src/nats_sinks/cli/metrics.py:208-235 | Every metric is announced once, before its first sample. |
| PrometheusProofs.AnnouncementsFitRows | src/nats_sinks/cli/metrics.py:208-235 | Each announcement is that of the first row of its metric: its help text, from the registry for a summary, directly followed by its type. |
| PrometheusProofs.SamplesAreTheRows | src/nats_sinks/cli/metrics.py:208-235 | The samples are those of the rows, in order, each with its row's metric, series and value and labels that read back. |
| Observability.MetricsRecorder.ObserveAdvisory | src/nats_sinks/core/advisory.py:222-268 | The counters after one advisory message. |
| Observability.MetricsRecorder.RecordGateResult | src/nats_sinks/core/fanout_observability.py:112-197 | The counters after one recorded gate result, and the same amounts as its summary. |
| Observability.MetricsRecorder.RecordRequiredFailure | src/nats_sinks/core/fanout_observability.py:200-230 | The counters after a required failure, and its summary. |
| ObservabilityProofs.AdvisoriesAreConserved | src/nats_sinks/core/advisory.py:222-268 | Over any run, every advisory is filtered or received, and every received one is a parse error, unsupported or of one kind. |
| ObservabilityProofs.FanoutIsConserved | src/nats_sinks/core/fanout_observability.py:112-230 | Over any run, acknowledged plus blocked equals the recorded batches, and every target is counted in one status. |
| ObservabilityProofs.AdvisoriesAreTallied | src/nats_sinks/core/advisory.py:222-268 | Over any run each counter grows by exactly the advisories of its sort, and none does when advisories are disabled. |
| ObservabilityProofs.FanoutIsTallied | src/nats_sinks/core/fanout_observability.py:112-230 | Over any run each counter grows by exactly the targets in its status and the batches with its verdict. |
| ObservabilityProofs.GateResultsAddNoRequiredFailure | src/nats_sinks/core/fanout_observability.py:123-127 | A result returned by the gate counts each target once and no required failure. |

## Left out

- NATS connections, the pull and push message loops, asyncio internals, command lines, containers and release scripts: effects outside the modelled decisions.
- Batching, custody chains, message authenticity, freshness gauges and label reconciliation: each is a single rule or a straightforward loop of its own.
- AckGate.FanoutGate.Wait: exceptions that are neither cancellation nor ordinary errors, and logging, are not modelled; clock readings are real numbers, not floats. Cancellation follows `asyncio.wait_for` of Python 3.12 and later; Python 3.11 ignores one that arrives after the awaited optional operation ended and before the gate noticed.
- Routing.NormalizeRouteTargets: the format of sink names is not modelled, and an unordered collection is given in some order.
- RoutingProofs.SelectionTakesFirstOffers: the selection for one message is a function on values; which routes match it is an arbitrary set of names.
- Fanout.SelectForBatch: recording the selection in the metrics, and sinks a policy names that do not exist, are not modelled.
- Consumers.DetectConsumerDrift: drift items keep the field name only, without the expected and actual wording.
- Consumers.DriftReport.DetectIdentity: drift items keep the field name only.
- Consumers.DriftReport.DetectOptional: drift items keep the field name only.
- ConsumerServer.JetStreamContext.EnsureConsumer: one parameterised method stands for the pull and the push function; what the client library offers is reduced to one flag; unset fields of its configuration class are taken to be absent.
- CoherenceSink.Sink.Start: creating the session, and how that can fail, is not modelled; the handle is given.
- CoherenceSink.Sink.Write: expiry and eviction of cache entries, session set-up, and how the stored value is built are not modelled; the stored value is the message with a time stamp.
- EnvelopeProofs.ReplaceKeepsTheRest: labels, mission metadata, security labels and custody fields of an envelope are not modelled.
- EncryptionProofs.MixedBatchRoundTrip: payloads given as text or mappings to the decryptor, duplicate-key rejection and other details of reading the encrypted JSON are part of the abstract parser.
- Redaction.RedactionShowsExactlyThePublic: keys are strings and dumping a settings object to a tree comes before the model.
- ConfigTree.Table.Set: the descent through the dictionaries is a recursion, not a loop; lists are values, since no override reaches into one.
- ConfigTree.ApplyEnvironmentOverrides: a configuration in which two places share one dictionary, which reading JSON never yields, is not modelled.
- Dependencies.ExpandRequirements: reading the project file and writing manifests are not modelled.
- Checklist.CompleteChecklist: lines are classified before the scan rather than inside it; reading and editing issues is not modelled.
- Prometheus.RenderPrometheus: number formatting, metric naming and the sorting of labels are given.
- Observability.MetricsRecorder.RecordRequiredFailure: durations and recorders that raise are not modelled.
- Observability.MetricsRecorder.RecordGateResult: durations, gauges, legacy metric names and recorders that raise are not modelled.
- Observability.MetricsRecorder.ObserveAdvisory: parsing an advisory is abstracted to invalid, unsupported or one of the known kinds.
