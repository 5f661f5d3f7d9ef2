/**
 Durable consumer configuration (src/nats_sinks/core/consumer_management.py):
 builders that produce a server configuration, and detectors that compare one
 against what is expected.
 */
module Consumers {
  import opened Prelude
  import Subjects

  const FLOAT_COMPARISON_TOLERANCE := 0.001
  const IN_PROGRESS_ACK_WAIT_SAFETY_RATIO := 0.8

  datatype Mode = BindOnly | CreateIfMissing | Reconcile
  datatype DeliverPolicy = All | Last | New | LastPerSubject
  datatype ReplayPolicy = Instant | Original

  datatype Management = Management(
    mode: Mode, filterSubjects: seq<string>, deliverPolicy: DeliverPolicy, replayPolicy: ReplayPolicy,
    ackWaitSeconds: Option<real>, maxDeliver: Option<int>, backoffSeconds: Option<seq<real>>,
    maxAckPending: Option<int>, maxWaiting: Option<int>, headersOnly: Option<bool>,
    numReplicas: Option<int>, memoryStorage: Option<bool>, metadata: map<string, string>)

  datatype Push = Push(
    enabled: bool, deliverSubject: Option<string>, deliverGroup: Option<string>, manualAck: bool,
    pendingMsgsLimit: int, flowControl: bool, idleHeartbeatSeconds: Option<real>)

  /** A duration as the client reports it: possibly missing, not finite, or not a number at all. */
  datatype Duration = Absent | Seconds(value: real) | Infinite(positive: bool) | NotANumber | Unreadable

  datatype Backoff = NoBackoff | Items(items: seq<Duration>) | Malformed

  datatype ConsumerConfig = ConsumerConfig(
    name: Option<string>, durableName: Option<string>, ackPolicy: Option<string>,
    deliverPolicy: Option<string>, replayPolicy: Option<string>,
    filterSubject: Option<string>, filterSubjects: Option<seq<string>>,
    ackWait: Duration, maxDeliver: Option<int>, backoff: Backoff, maxAckPending: Option<int>,
    maxWaiting: Option<int>, headersOnly: Option<bool>, numReplicas: Option<int>, memStorage: Option<bool>,
    metadata: Option<map<string, string>>, deliverSubject: Option<string>, deliverGroup: Option<string>,
    flowControl: Option<bool>, idleHeartbeat: Duration)

  datatype Error =
    | FilterTooBroad(filter: string)
    | ManualAckRequired | DeliverSubjectRequired | MaxWaitingIsPullOnly | AckPendingAboveLimit
    | PushApiMissing | DurableRequired | ReadFailed | WriteFailed | ConsumerMissing | InfoWithoutConfig
    | Drifted(fields: seq<string>)
    | AckWaitRequired | BackoffUnsupported | AckWaitUnreadable | AckWaitNotPositive | AckWaitNotFinite | IntervalTooLong
    | VerificationMissing

  function DeliverName(policy: DeliverPolicy): string {
    match policy
    case All => "all"
    case Last => "last"
    case New => "new"
    case LastPerSubject => "last_per_subject"
  }

  function ReplayName(policy: ReplayPolicy): string {
    match policy
    case Instant => "instant"
    case Original => "original"
  }

  // ---------------------------------------------------------------- comparisons

  predicate Close(a: real, b: real) {
    -FLOAT_COMPARISON_TOLERANCE <= a - b <= FLOAT_COMPARISON_TOLERANCE
  }

  /** _float_equal. */
  predicate FloatEqual(expected: Option<real>, actual: Duration) {
    expected.Some? ==> actual.Seconds? && Close(actual.value, expected.value)
  }

  /** One turn of _float_sequence_equal: a NaN is not farther away than the tolerance, so it passes. */
  predicate ItemAccepted(expected: real, actual: Duration) {
    actual.NotANumber? || (actual.Seconds? && Close(actual.value, expected))
  }

  predicate ItemsAccepted(expected: seq<real>, actual: seq<Duration>) {
    |expected| == |actual| && forall i | 0 <= i < |expected| :: ItemAccepted(expected[i], actual[i])
  }

  /** _float_sequence_equal. */
  predicate FloatSequenceEqual(expected: Option<seq<real>>, actual: Backoff) {
    expected.Some? ==> actual.Items? && ItemsAccepted(expected.value, actual.items)
  }

  /** _has_effective_backoff. */
  predicate HasEffectiveBackoff(value: Backoff) {
    value.Malformed? || (value.Items? && value.items != [])
  }

  predicate Truthy(text: Option<string>) {
    text.Some? && text.value != ""
  }

  /** _managed_filter_subjects. */
  function ManagedFilterSubjects(subject: string, config: Management): Result<seq<string>, Error> {
    if config.filterSubjects == [] then Success([subject])
    else FirstTooBroad(config.filterSubjects, config.filterSubjects, Within(subject))
  }

  function Within(subject: string): string -> bool {
    filter => Subjects.PatternIsSubset(filter, subject)
  }

  function FirstTooBroad(rest: seq<string>, all: seq<string>, inside: string -> bool): Result<seq<string>, Error> {
    if rest == [] then Success(all)
    else if !inside(rest[0]) then Failure(FilterTooBroad(rest[0]))
    else FirstTooBroad(rest[1..], all, inside)
  }

  /** _existing_filter_subjects. */
  function ExistingFilterSubjects(config: ConsumerConfig): seq<string> {
    if config.filterSubjects.Some? && config.filterSubjects.value != [] then config.filterSubjects.value
    else if Truthy(config.filterSubject) then [config.filterSubject.value]
    else []
  }

  function AsSet(items: seq<string>): set<string> {
    set s | s in items
  }

  // ---------------------------------------------------------------- builders

  function OptionalSeconds(seconds: Option<real>): Duration {
    if seconds.Some? then Seconds(seconds.value) else Absent
  }

  function OptionalBackoff(items: Option<seq<real>>): Backoff {
    if items.None? then NoBackoff
    else Items(seq(|items.value|, i requires 0 <= i < |items.value| => Seconds(items.value[i])))
  }

  /** The configuration a pull consumer is created with. */
  function PullConfig(durableName: string, filters: seq<string>, config: Management): ConsumerConfig {
    ConsumerConfig(
      name := Some(durableName), durableName := Some(durableName), ackPolicy := Some("explicit"),
      deliverPolicy := Some(DeliverName(config.deliverPolicy)), replayPolicy := Some(ReplayName(config.replayPolicy)),
      filterSubject := if |filters| == 1 then Some(filters[0]) else None,
      filterSubjects := if |filters| == 1 then None else Some(filters),
      ackWait := OptionalSeconds(config.ackWaitSeconds), maxDeliver := config.maxDeliver,
      backoff := OptionalBackoff(config.backoffSeconds), maxAckPending := config.maxAckPending,
      maxWaiting := config.maxWaiting, headersOnly := config.headersOnly, numReplicas := config.numReplicas,
      memStorage := config.memoryStorage, metadata := if config.metadata == map[] then None else Some(config.metadata),
      deliverSubject := None, deliverGroup := None, flowControl := None, idleHeartbeat := Absent)
  }

  /** The configuration a push consumer is created with. */
  function PushConfig(durableName: string, filters: seq<string>, config: Management, push: Push): ConsumerConfig {
    PullConfig(durableName, filters, config).(
      maxWaiting := None,
      deliverSubject := push.deliverSubject, deliverGroup := push.deliverGroup,
      flowControl := Some(push.flowControl), idleHeartbeat := OptionalSeconds(push.idleHeartbeatSeconds),
      maxAckPending := Some(if config.maxAckPending.GetOr(0) == 0 then push.pendingMsgsLimit
          else config.maxAckPending.value))
  }

  /** _validate_push_consumer_configuration. */
  function PushProblem(config: Management, push: Push): Option<Error> {
    if !push.enabled then None
    else if !push.manualAck then Some(ManualAckRequired)
    else if push.deliverSubject.None? then Some(DeliverSubjectRequired)
    else if config.maxWaiting.Some? then Some(MaxWaitingIsPullOnly)
    else if config.maxAckPending.Some? && config.maxAckPending.value > push.pendingMsgsLimit then
        Some(AckPendingAboveLimit)
    else None
  }

  function Built(durableName: string, subject: string, config: Management, push: Option<Push>)
    : Result<ConsumerConfig, Error>
  {
    if push.Some? && PushProblem(config, push.value).Some? then Failure(PushProblem(config, push.value).value)
    else
      var filters :- ManagedFilterSubjects(subject, config);
      Success(if push.None? then PullConfig(durableName, filters, config)
              else PushConfig(durableName, filters, config, push.value))
  }

  /** The keyword arguments every consumer starts from; everything else is unset. */
  function BaseKwargs(durableName: string, config: Management): ConsumerConfig {
    ConsumerConfig(
      Some(durableName), Some(durableName), Some("explicit"), Some(DeliverName(config.deliverPolicy)),
      Some(ReplayName(config.replayPolicy)), None, None, Absent, None, NoBackoff, None, None, None, None, None,
      None, None, None, None, Absent)
  }

  /** The keyword arguments filled in alike by build_consumer_config and _consumer_common_kwargs. */
  method CommonKwargs(durableName: string, filters: seq<string>, config: Management) returns (kwargs: ConsumerConfig)
    ensures kwargs == PullConfig(durableName, filters, config).(maxWaiting := None)
  {
    kwargs := BaseKwargs(durableName, config);
    if |filters| == 1 {
      kwargs := kwargs.(filterSubject := Some(filters[0]));
    } else {
      kwargs := kwargs.(filterSubjects := Some(filters));
    }
    kwargs := DeliveryKwargs(kwargs, config);
    kwargs := StorageKwargs(kwargs, config);
  }

  /** How long and how often a message is redelivered. */
  method DeliveryKwargs(given: ConsumerConfig, config: Management) returns (kwargs: ConsumerConfig)
    requires given.ackWait.Absent? && given.maxDeliver.None? && given.backoff.NoBackoff? && given.maxAckPending.None?
    ensures kwargs == given.(ackWait := OptionalSeconds(config.ackWaitSeconds), maxDeliver := config.maxDeliver,
                             backoff := OptionalBackoff(config.backoffSeconds), maxAckPending := config.maxAckPending)
  {
    kwargs := given;
    if config.ackWaitSeconds.Some? {
      kwargs := kwargs.(ackWait := Seconds(config.ackWaitSeconds.value));
    }
    if config.maxDeliver.Some? {
      kwargs := kwargs.(maxDeliver := config.maxDeliver);
    }
    if config.backoffSeconds.Some? {
      kwargs := kwargs.(backoff := OptionalBackoff(config.backoffSeconds));
    }
    if config.maxAckPending.Some? {
      kwargs := kwargs.(maxAckPending := config.maxAckPending);
    }
  }

  /** What is delivered and how the consumer's own state is kept. */
  method StorageKwargs(given: ConsumerConfig, config: Management) returns (kwargs: ConsumerConfig)
    requires given.headersOnly.None? && given.numReplicas.None? && given.memStorage.None? && given.metadata.None?
    ensures kwargs == given.(headersOnly := config.headersOnly, numReplicas := config.numReplicas,
                             memStorage := config.memoryStorage,
                             metadata := if config.metadata == map[] then None else Some(config.metadata))
  {
    kwargs := given;
    if config.headersOnly.Some? {
      kwargs := kwargs.(headersOnly := config.headersOnly);
    }
    if config.numReplicas.Some? {
      kwargs := kwargs.(numReplicas := config.numReplicas);
    }
    if config.memoryStorage.Some? {
      kwargs := kwargs.(memStorage := config.memoryStorage);
    }
    if config.metadata != map[] {
      kwargs := kwargs.(metadata := Some(config.metadata));
    }
  }

  /** The keyword arguments build_push_consumer_config adds. */
  method PushKwargs(common: ConsumerConfig, config: Management, push: Push) returns (kwargs: ConsumerConfig)
    requires common.deliverGroup.None? && common.idleHeartbeat.Absent?
    ensures kwargs == common.(
      deliverSubject := push.deliverSubject, deliverGroup := push.deliverGroup,
      flowControl := Some(push.flowControl), idleHeartbeat := OptionalSeconds(push.idleHeartbeatSeconds),
      maxAckPending := Some(if config.maxAckPending.GetOr(0) == 0 then push.pendingMsgsLimit
          else config.maxAckPending.value))
  {
    kwargs := common.(deliverSubject := push.deliverSubject);
    if push.deliverGroup.Some? {
      kwargs := kwargs.(deliverGroup := push.deliverGroup);
    }
    kwargs := kwargs.(flowControl := Some(push.flowControl));
    if push.idleHeartbeatSeconds.Some? {
      kwargs := kwargs.(idleHeartbeat := Seconds(push.idleHeartbeatSeconds.value));
    }
    var limit := if config.maxAckPending.GetOr(0) == 0 then push.pendingMsgsLimit else config.maxAckPending.value;
    kwargs := kwargs.(maxAckPending := Some(limit));
  }

  /** build_consumer_config (push absent) and build_push_consumer_config. */
  method BuildConsumerConfig(durableName: string, subject: string, config: Management, push: Option<Push>)
    returns (built: Result<ConsumerConfig, Error>)
    ensures built == Built(durableName, subject, config, push)
  {
    if push.Some? && PushProblem(config, push.value).Some? {
      return Failure(PushProblem(config, push.value).value);
    }
    var filters := ManagedFilterSubjects(subject, config);
    if filters.Failure? {
      return Failure(filters.error);
    }
    var kwargs := CommonKwargs(durableName, filters.value, config);
    if push.None? {
      kwargs := kwargs.(maxWaiting := config.maxWaiting);
    } else {
      kwargs := PushKwargs(kwargs, config, push.value);
    }
    built := Success(kwargs);
  }

  // ---------------------------------------------------------------- detectors

  /** _append_drift under a condition; only the drifting field is kept, not how it is worded. */
  function Note(drift: seq<string>, condition: bool, field: string): seq<string> {
    if condition then drift + [field] else drift
  }

  predicate NameMatches(existing: ConsumerConfig, durableName: string) {
    existing.name == Some(durableName) || existing.durableName == Some(durableName)
  }

  predicate Differs<T(==)>(expected: Option<T>, actual: Option<T>) {
    expected.Some? && actual != expected
  }

  function IdentityDrift(drift: seq<string>, existing: ConsumerConfig, durableName: string, filters: seq<string>,
                         push: Option<Push>)
    : seq<string>
  {
    var d := Note(drift, !NameMatches(existing, durableName), "durable_name");
    var d := if push.None? then Note(d, Truthy(existing.deliverSubject), "deliver_subject")
             else Note(Note(d, existing.deliverSubject != push.value.deliverSubject, "deliver_subject"),
                       existing.deliverGroup != push.value.deliverGroup, "deliver_group");
    Note(d, AsSet(ExistingFilterSubjects(existing)) != AsSet(filters), "filter_subjects")
  }

  function RequiredPolicyDrift(drift: seq<string>, existing: ConsumerConfig, config: Management): seq<string> {
    var d := Note(drift, existing.ackPolicy != Some("explicit"), "ack_policy");
    var d := Note(d, existing.deliverPolicy != Some(DeliverName(config.deliverPolicy)), "deliver_policy");
    Note(d, existing.replayPolicy != Some(ReplayName(config.replayPolicy)), "replay_policy")
  }

  function DeliveryDrift(drift: seq<string>, existing: ConsumerConfig, config: Management): seq<string> {
    var d := Note(drift, Differs(config.headersOnly, existing.headersOnly), "headers_only");
    var d := Note(d, !FloatEqual(config.ackWaitSeconds, existing.ackWait), "ack_wait");
    var d := Note(d, !FloatSequenceEqual(config.backoffSeconds, existing.backoff), "backoff");
    var d := Note(d, Differs(config.maxDeliver, existing.maxDeliver), "max_deliver");
    Note(d, Differs(config.maxAckPending, existing.maxAckPending), "max_ack_pending")
  }

  function OptionalPolicyDrift(drift: seq<string>, existing: ConsumerConfig, config: Management): seq<string> {
    var d := DeliveryDrift(drift, existing, config);
    var d := Note(d, Differs(config.maxWaiting, existing.maxWaiting), "max_waiting");
    var d := Note(d, Differs(config.numReplicas, existing.numReplicas), "num_replicas");
    var d := Note(d, Differs(config.memoryStorage, existing.memStorage), "mem_storage");
    Note(d, config.metadata != map[] && existing.metadata.GetOr(map[]) != config.metadata, "metadata")
  }

  function PushPolicyDrift(drift: seq<string>, existing: ConsumerConfig, config: Management, push: Push): seq<string> {
    var unmanaged := config.maxAckPending.None?;
    var d := Note(drift, unmanaged && existing.maxAckPending != Some(push.pendingMsgsLimit), "max_ack_pending");
    var d := Note(d, existing.flowControl != Some(push.flowControl), "flow_control");
    Note(d, !FloatEqual(push.idleHeartbeatSeconds, existing.idleHeartbeat), "idle_heartbeat")
  }

  function FoundDrift(existing: ConsumerConfig, durableName: string, filters: seq<string>, config: Management,
                      push: Option<Push>)
    : seq<string>
  {
    var d := IdentityDrift([], existing, durableName, filters, push);
    var d := OptionalPolicyDrift(RequiredPolicyDrift(d, existing, config), existing, config);
    if push.Some? then PushPolicyDrift(d, existing, config, push.value) else d
  }

  /** detect_consumer_drift (push absent) and detect_push_consumer_drift. */
  function Drift(existing: Option<ConsumerConfig>, durableName: string, subject: string, config: Management,
                 push: Option<Push>)
    : Result<seq<string>, Error>
  {
    if push.Some? && PushProblem(config, push.value).Some? then Failure(PushProblem(config, push.value).value)
    else if existing.None? then Failure(InfoWithoutConfig)
    else
      var filters :- ManagedFilterSubjects(subject, config);
      Success(FoundDrift(existing.value, durableName, filters, config, push))
  }

  /** The list of drift items the _detect_* helpers append to. */
  class DriftReport {
    var fields: seq<string>

    constructor ()
      ensures fields == []
    {
      fields := [];
    }

    method AppendIf(condition: bool, field: string)
      modifies this
      ensures fields == Note(old(fields), condition, field)
    {
      if condition {
        fields := fields + [field];
      }
    }

    method DetectIdentity(existing: ConsumerConfig, durableName: string, filters: seq<string>, push: Option<Push>)
      modifies this
      ensures fields == IdentityDrift(old(fields), existing, durableName, filters, push)
    {
      AppendIf(!NameMatches(existing, durableName), "durable_name");
      if push.None? {
        AppendIf(Truthy(existing.deliverSubject), "deliver_subject");
      } else {
        AppendIf(existing.deliverSubject != push.value.deliverSubject, "deliver_subject");
        AppendIf(existing.deliverGroup != push.value.deliverGroup, "deliver_group");
      }
      AppendIf(AsSet(ExistingFilterSubjects(existing)) != AsSet(filters), "filter_subjects");
    }

    method DetectRequired(existing: ConsumerConfig, config: Management)
      modifies this
      ensures fields == RequiredPolicyDrift(old(fields), existing, config)
    {
      AppendIf(existing.ackPolicy != Some("explicit"), "ack_policy");
      AppendIf(existing.deliverPolicy != Some(DeliverName(config.deliverPolicy)), "deliver_policy");
      AppendIf(existing.replayPolicy != Some(ReplayName(config.replayPolicy)), "replay_policy");
    }

    method DetectOptional(existing: ConsumerConfig, config: Management)
      modifies this
      ensures fields == OptionalPolicyDrift(old(fields), existing, config)
    {
      DetectDelivery(existing, config);
      AppendIf(config.maxWaiting.Some? && existing.maxWaiting != config.maxWaiting, "max_waiting");
      AppendIf(config.numReplicas.Some? && existing.numReplicas != config.numReplicas, "num_replicas");
      AppendIf(config.memoryStorage.Some? && existing.memStorage != config.memoryStorage, "mem_storage");
      AppendIf(config.metadata != map[] && existing.metadata.GetOr(map[]) != config.metadata, "metadata");
    }

    method DetectDelivery(existing: ConsumerConfig, config: Management)
      modifies this
      ensures fields == DeliveryDrift(old(fields), existing, config)
    {
      AppendIf(config.headersOnly.Some? && existing.headersOnly != config.headersOnly, "headers_only");
      AppendIf(!FloatEqual(config.ackWaitSeconds, existing.ackWait), "ack_wait");
      AppendIf(!FloatSequenceEqual(config.backoffSeconds, existing.backoff), "backoff");
      AppendIf(config.maxDeliver.Some? && existing.maxDeliver != config.maxDeliver, "max_deliver");
      AppendIf(config.maxAckPending.Some? && existing.maxAckPending != config.maxAckPending, "max_ack_pending");
    }

    method DetectPushPolicy(existing: ConsumerConfig, config: Management, push: Push)
      modifies this
      ensures fields == PushPolicyDrift(old(fields), existing, config, push)
    {
      AppendIf(config.maxAckPending.None? && existing.maxAckPending != Some(push.pendingMsgsLimit), "max_ack_pending");
      AppendIf(existing.flowControl != Some(push.flowControl), "flow_control");
      AppendIf(!FloatEqual(push.idleHeartbeatSeconds, existing.idleHeartbeat), "idle_heartbeat");
    }
  }

  method DetectConsumerDrift(existing: Option<ConsumerConfig>, durableName: string, subject: string,
                             config: Management, push: Option<Push>)
    returns (drift: Result<seq<string>, Error>)
    ensures drift == Drift(existing, durableName, subject, config, push)
  {
    if push.Some? && PushProblem(config, push.value).Some? {
      return Failure(PushProblem(config, push.value).value);
    }
    if existing.None? {
      return Failure(InfoWithoutConfig);
    }
    var filters := ManagedFilterSubjects(subject, config);
    if filters.Failure? {
      return Failure(filters.error);
    }
    var report := new DriftReport();
    report.DetectIdentity(existing.value, durableName, filters.value, push);
    report.DetectRequired(existing.value, config);
    report.DetectOptional(existing.value, config);
    if push.Some? {
      report.DetectPushPolicy(existing.value, config, push.value);
    }
    drift := Success(report.fields);
  }
}
