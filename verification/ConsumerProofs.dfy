/** The builders and the drift detectors, written separately, agree. */
module ConsumerProofs {
  import opened Prelude
  import opened Consumers
  import Subjects

  // ---------------------------------------------------------------- what conforming means

  predicate Kept<T(==)>(built: Option<T>, existing: Option<T>) {
    built.Some? ==> existing == built
  }

  predicate DurationKept(built: Duration, existing: Duration) {
    built.Seconds? ==> existing.Seconds? && -0.001 <= existing.value - built.value <= 0.001
  }

  /** Each pause as built up to the tolerance, or reported as NaN. */
  predicate BackoffKept(built: Backoff, existing: Backoff) {
    built.Items? ==>
      && existing.Items? && |existing.items| == |built.items|
      && forall i | 0 <= i < |built.items| ::
           existing.items[i].NotANumber? || DurationKept(built.items[i], existing.items[i])
  }

  /** The filters in force: those of the plural field, or else the one of the singular field, unless that is empty. */
  function FiltersInForce(config: ConsumerConfig): set<string> {
    if config.filterSubjects.GetOr([]) != [] then set s | s in config.filterSubjects.value
    else if config.filterSubject.GetOr("") != "" then {config.filterSubject.value}
    else {}
  }

  lemma FiltersAreExisting(config: ConsumerConfig)
    ensures AsSet(ExistingFilterSubjects(config)) == FiltersInForce(config)
  {
  }

  /**
   existing is what the builder asked for, as far as the builder asked: settings it left open may be
   anything, durations may be off by the tolerance, filters may be in the single or the plural field.
   */
  predicate Conforms(built: ConsumerConfig, existing: ConsumerConfig) {
    && (existing.name == built.name || existing.durableName == built.durableName)
    && existing.ackPolicy == built.ackPolicy && existing.deliverPolicy == built.deliverPolicy
    && existing.replayPolicy == built.replayPolicy
    && FiltersInForce(existing) == FiltersInForce(built)
    && DurationKept(built.ackWait, existing.ackWait) && BackoffKept(built.backoff, existing.backoff)
    && Kept(built.maxDeliver, existing.maxDeliver) && Kept(built.maxAckPending, existing.maxAckPending)
    && Kept(built.maxWaiting, existing.maxWaiting) && Kept(built.headersOnly, existing.headersOnly)
    && Kept(built.numReplicas, existing.numReplicas) && Kept(built.memStorage, existing.memStorage)
    && Kept(built.metadata, existing.metadata)
  }

  predicate ConformsAsPull(built: ConsumerConfig, existing: ConsumerConfig) {
    Conforms(built, existing) && existing.deliverSubject.GetOr("") == ""
  }

  predicate ConformsAsPush(built: ConsumerConfig, existing: ConsumerConfig) {
    && Conforms(built, existing)
    && existing.deliverSubject == built.deliverSubject && existing.deliverGroup == built.deliverGroup
    && existing.flowControl == built.flowControl && DurationKept(built.idleHeartbeat, existing.idleHeartbeat)
  }

  predicate ConformsAs(push: Option<Push>, built: ConsumerConfig, existing: ConsumerConfig) {
    if push.None? then ConformsAsPull(built, existing) else ConformsAsPush(built, existing)
  }

  /** The configurations for which builder and detector mean the same thing. */
  predicate Coherent(subject: string, config: Management, push: Option<Push>) {
    && (config.filterSubjects == [] ==> subject != "")
    && (push.Some? ==>
          config.maxWaiting.None? && (config.maxAckPending == Some(0) ==> push.value.pendingMsgsLimit == 0))
  }

  // ---------------------------------------------------------------- what can be built

  /** Settings that push mode does not allow. */
  predicate PushUnsafe(config: Management, push: Push) {
    || !push.manualAck || push.deliverSubject.None? || config.maxWaiting.Some?
    || (config.maxAckPending.Some? && config.maxAckPending.value > push.pendingMsgsLimit)
  }

  predicate FiltersInside(subject: string, filters: seq<string>) {
    forall f | f in filters :: Subjects.PatternIsSubset(f, subject)
  }

  /**
   A configuration is built exactly when push mode, if on, is safe and every filter is inside the subject; it is
   for the given name, with explicit acks, the policies by their names on the wire, and those filters.
   */
  lemma BuildsExactly(durableName: string, subject: string, config: Management, push: Option<Push>)
    ensures var built := Built(durableName, subject, config, push);
      var refused := push.Some? && push.value.enabled && PushUnsafe(config, push.value);
      && (built.Success? <==> !refused && FiltersInside(subject, config.filterSubjects))
      && (built.Success? ==>
            && built.value.name == built.value.durableName == Some(durableName)
            && built.value.ackPolicy == Some("explicit")
            && var filters := if config.filterSubjects == [] then [subject] else config.filterSubjects;
            && (|filters| == 1 ==> built.value.filterSubject == Some(filters[0]) && built.value.filterSubjects == None)
            && (|filters| != 1 ==> built.value.filterSubject == None && built.value.filterSubjects == Some(filters)))
      && (built.Failure? && !refused ==>
            exists k | 0 <= k < |config.filterSubjects| ::
              && built.error == FilterTooBroad(config.filterSubjects[k])
              && !Subjects.PatternIsSubset(config.filterSubjects[k], subject)
              && forall j | 0 <= j < k :: Subjects.PatternIsSubset(config.filterSubjects[j], subject))
  {
    TooBroadOrAll(config.filterSubjects, config.filterSubjects, Within(subject));
    if Built(durableName, subject, config, push).Failure? && !FiltersInside(subject, config.filterSubjects) {
      var k := FirstTooBroadIsNamed(config.filterSubjects, config.filterSubjects, Within(subject));
    }
  }

  lemma {:induction false} FirstTooBroadIsNamed(rest: seq<string>, all: seq<string>, inside: string -> bool)
    returns (k: nat)
    requires exists f | f in rest :: !inside(f)
    ensures k < |rest| && FirstTooBroad(rest, all, inside) == Failure(FilterTooBroad(rest[k]))
    ensures !inside(rest[k]) && forall j | 0 <= j < k :: inside(rest[j])
  {
    k := 0;
    if inside(rest[0]) {
      var later := FirstTooBroadIsNamed(rest[1..], all, inside);
      k := later + 1;
    }
  }

  /** The policies appear under their names on the wire. */
  lemma PoliciesByName(durableName: string, subject: string, config: Management, push: Option<Push>)
    requires Built(durableName, subject, config, push).Success?
    ensures var built := Built(durableName, subject, config, push).value;
      && (built.deliverPolicy == Some("all") <==> config.deliverPolicy == DeliverPolicy.All)
      && (built.deliverPolicy == Some("last") <==> config.deliverPolicy == Last)
      && (built.deliverPolicy == Some("new") <==> config.deliverPolicy == New)
      && (built.deliverPolicy == Some("last_per_subject") <==> config.deliverPolicy == LastPerSubject)
      && (built.replayPolicy == Some("instant") <==> config.replayPolicy == Instant)
      && (built.replayPolicy == Some("original") <==> config.replayPolicy == Original)
  {
    assert "all"[0] != "new"[0] && "instant"[0] != "original"[0];
  }

  // ---------------------------------------------------------------- filters

  lemma {:induction false} TooBroadOrAll(rest: seq<string>, all: seq<string>, inside: string -> bool)
    ensures FirstTooBroad(rest, all, inside).Success? <==> forall f | f in rest :: inside(f)
    ensures FirstTooBroad(rest, all, inside).Success? ==> FirstTooBroad(rest, all, inside).value == all
  {
    if rest != [] {
      TooBroadOrAll(rest[1..], all, inside);
      assert rest == [rest[0]] + rest[1..];
    }
  }

  /** A managed consumer never filters for more than the configured subject. */
  lemma ManagedFiltersStayInside(subject: string, config: Management, filter: string, message: string)
    requires ManagedFilterSubjects(subject, config).Success?
    requires filter in ManagedFilterSubjects(subject, config).value && Subjects.MatchesSubject(filter, message)
    ensures Subjects.MatchesSubject(subject, message)
  {
    if config.filterSubjects != [] {
      TooBroadOrAll(config.filterSubjects, config.filterSubjects, Within(subject));
      Subjects.SubsetIsExact(filter, subject);
    }
  }

  lemma BuiltFilters(durableName: string, subject: string, config: Management, push: Option<Push>)
    requires Built(durableName, subject, config, push).Success?
    ensures var filters := ManagedFilterSubjects(subject, config).value;
      var effective := ExistingFilterSubjects(Built(durableName, subject, config, push).value);
      && (config.filterSubjects == [] && subject == "" ==> filters == [""] && effective == [])
      && (config.filterSubjects != [] || subject != "" ==> effective == filters)
  {
    if config.filterSubjects != [] {
      TooBroadOrAll(config.filterSubjects, config.filterSubjects, Within(subject));
      assert Subjects.PatternIsSubset(config.filterSubjects[0], subject);
    }
  }

  // ---------------------------------------------------------------- agreement

  lemma BackoffAgrees(expected: Option<seq<real>>, existing: Backoff)
    ensures FloatSequenceEqual(expected, existing) <==> BackoffKept(OptionalBackoff(expected), existing)
  {
    if expected.Some? && existing.Items? && |existing.items| == |expected.value| {
      var built := OptionalBackoff(expected).items;
      forall i | 0 <= i < |built|
        ensures ItemAccepted(expected.value[i], existing.items[i]) <==>
                existing.items[i].NotANumber? || DurationKept(built[i], existing.items[i])
      {
      }
    }
  }

  /** Every always-managed and every configured optional policy is as configured. */
  predicate PolicyMatches(existing: ConsumerConfig, config: Management) {
    && existing.ackPolicy == Some("explicit") && existing.deliverPolicy == Some(DeliverName(config.deliverPolicy))
    && existing.replayPolicy == Some(ReplayName(config.replayPolicy))
    && FloatEqual(config.ackWaitSeconds, existing.ackWait)
    && FloatSequenceEqual(config.backoffSeconds, existing.backoff)
    && Kept(config.headersOnly, existing.headersOnly) && Kept(config.maxDeliver, existing.maxDeliver)
    && Kept(config.maxAckPending, existing.maxAckPending) && Kept(config.maxWaiting, existing.maxWaiting)
    && Kept(config.numReplicas, existing.numReplicas) && Kept(config.memoryStorage, existing.memStorage)
    && (config.metadata != map[] ==> existing.metadata.GetOr(map[]) == config.metadata)
  }

  lemma NoIdentityDrift(existing: ConsumerConfig, durableName: string, filters: seq<string>, push: Option<Push>)
    ensures IdentityDrift([], existing, durableName, filters, push) == [] <==>
      && NameMatches(existing, durableName)
      && (if push.None? then !Truthy(existing.deliverSubject)
          else existing.deliverSubject == push.value.deliverSubject && existing.deliverGroup == push.value.deliverGroup)
      && AsSet(ExistingFilterSubjects(existing)) == AsSet(filters)
  {
  }

  lemma NoPolicyDrift(drift: seq<string>, existing: ConsumerConfig, config: Management)
    ensures OptionalPolicyDrift(RequiredPolicyDrift(drift, existing, config), existing, config) == [] <==>
            drift == [] && PolicyMatches(existing, config)
  {
  }

  lemma PullConforms(existing: ConsumerConfig, durableName: string, filters: seq<string>, config: Management)
    requires ExistingFilterSubjects(PullConfig(durableName, filters, config)) == filters
    ensures Conforms(PullConfig(durableName, filters, config), existing) <==>
      && NameMatches(existing, durableName) && AsSet(ExistingFilterSubjects(existing)) == AsSet(filters)
      && PolicyMatches(existing, config)
  {
    BackoffAgrees(config.backoffSeconds, existing.backoff);
    FiltersAreExisting(existing);
    FiltersAreExisting(PullConfig(durableName, filters, config));
  }

  lemma PushConforms(existing: ConsumerConfig, durableName: string, filters: seq<string>, config: Management,
                     push: Push)
    requires ExistingFilterSubjects(PullConfig(durableName, filters, config)) == filters
    requires config.maxWaiting.None? && (config.maxAckPending == Some(0) ==> push.pendingMsgsLimit == 0)
    ensures Conforms(PushConfig(durableName, filters, config, push), existing) <==>
      && NameMatches(existing, durableName) && AsSet(ExistingFilterSubjects(existing)) == AsSet(filters)
      && PolicyMatches(existing, config)
      && (config.maxAckPending.None? ==> existing.maxAckPending == Some(push.pendingMsgsLimit))
  {
    BackoffAgrees(config.backoffSeconds, existing.backoff);
    FiltersAreExisting(existing);
    FiltersAreExisting(PullConfig(durableName, filters, config));
  }

  lemma NoPullDriftFound(existing: ConsumerConfig, durableName: string, filters: seq<string>, config: Management)
    requires ExistingFilterSubjects(PullConfig(durableName, filters, config)) == filters
    ensures FoundDrift(existing, durableName, filters, config, None) == [] <==>
            ConformsAsPull(PullConfig(durableName, filters, config), existing)
  {
    NoIdentityDrift(existing, durableName, filters, None);
    NoPolicyDrift(IdentityDrift([], existing, durableName, filters, None), existing, config);
    PullConforms(existing, durableName, filters, config);
  }

  lemma NoPushDriftFound(existing: ConsumerConfig, durableName: string, filters: seq<string>, config: Management,
                         push: Push)
    requires ExistingFilterSubjects(PullConfig(durableName, filters, config)) == filters
    requires config.maxWaiting.None? && (config.maxAckPending == Some(0) ==> push.pendingMsgsLimit == 0)
    ensures FoundDrift(existing, durableName, filters, config, Some(push)) == [] <==>
            ConformsAsPush(PushConfig(durableName, filters, config, push), existing)
  {
    var identity := IdentityDrift([], existing, durableName, filters, Some(push));
    NoIdentityDrift(existing, durableName, filters, Some(push));
    NoPolicyDrift(identity, existing, config);
    PushConforms(existing, durableName, filters, config, push);
    NoPushDrift(OptionalPolicyDrift(RequiredPolicyDrift(identity, existing, config), existing, config), existing,
                config, push);
  }

  /** Main agreement: the detector accepts exactly what conforms to the builder's output. */
  lemma NoDriftIffConforms(existing: ConsumerConfig, durableName: string, subject: string, config: Management,
                           push: Option<Push>)
    requires Built(durableName, subject, config, push).Success? && Coherent(subject, config, push)
    ensures Drift(Some(existing), durableName, subject, config, push).Success?
    ensures Drift(Some(existing), durableName, subject, config, push).value == [] <==>
            ConformsAs(push, Built(durableName, subject, config, push).value, existing)
  {
    BuiltFilters(durableName, subject, config, push);
    var filters := ManagedFilterSubjects(subject, config).value;
    if push.None? {
      NoPullDriftFound(existing, durableName, filters, config);
    } else {
      NoPushDriftFound(existing, durableName, filters, config, push.value);
    }
  }

  lemma NoPushDrift(drift: seq<string>, existing: ConsumerConfig, config: Management, push: Push)
    ensures PushPolicyDrift(drift, existing, config, push) == [] <==>
      && drift == []
      && (config.maxAckPending.None? ==> existing.maxAckPending == Some(push.pendingMsgsLimit))
      && existing.flowControl == Some(push.flowControl) && FloatEqual(push.idleHeartbeatSeconds, existing.idleHeartbeat)
  {
  }

  lemma ConformsToItself(built: ConsumerConfig)
    ensures Conforms(built, built) && ConformsAsPush(built, built)
  {
  }

  lemma IncoherentDrifts(durableName: string, subject: string, config: Management, push: Option<Push>)
    requires Built(durableName, subject, config, push).Success? && !Coherent(subject, config, push)
    ensures Drift(Some(Built(durableName, subject, config, push).value), durableName, subject, config, push).value != []
  {
    var built, filters := Built(durableName, subject, config, push).value, ManagedFilterSubjects(subject, config).value;
    var identity := IdentityDrift([], built, durableName, filters, push);
    if config.filterSubjects == [] && subject == "" {
      BuiltFilters(durableName, subject, config, push);
      assert "" in AsSet(filters);
      NoIdentityDrift(built, durableName, filters, push);
    }
    NoPolicyDrift(identity, built, config);
  }

  // ---------------------------------------------------------------- which fields are reported

  /** The field of this name is not as built; in pull mode the only delivery setting looked at is the subject. */
  predicate Misses(field: string, push: Option<Push>, built: ConsumerConfig, existing: ConsumerConfig) {
    || (field == "durable_name" && existing.name != built.name && existing.durableName != built.durableName)
    || (field == "deliver_subject" && if push.None? then existing.deliverSubject.GetOr("") != ""
                                      else existing.deliverSubject != built.deliverSubject)
    || (field == "deliver_group" && push.Some? && existing.deliverGroup != built.deliverGroup)
    || (field == "filter_subjects" && FiltersInForce(existing) != FiltersInForce(built))
    || (field == "ack_policy" && existing.ackPolicy != built.ackPolicy)
    || (field == "deliver_policy" && existing.deliverPolicy != built.deliverPolicy)
    || (field == "replay_policy" && existing.replayPolicy != built.replayPolicy)
    || (field == "headers_only" && !Kept(built.headersOnly, existing.headersOnly))
    || (field == "ack_wait" && !DurationKept(built.ackWait, existing.ackWait))
    || (field == "backoff" && !BackoffKept(built.backoff, existing.backoff))
    || (field == "max_deliver" && !Kept(built.maxDeliver, existing.maxDeliver))
    || (field == "max_ack_pending" && !Kept(built.maxAckPending, existing.maxAckPending))
    || (field == "max_waiting" && !Kept(built.maxWaiting, existing.maxWaiting))
    || (field == "num_replicas" && !Kept(built.numReplicas, existing.numReplicas))
    || (field == "mem_storage" && !Kept(built.memStorage, existing.memStorage))
    || (field == "metadata" && !Kept(built.metadata, existing.metadata))
    || (field == "flow_control" && push.Some? && existing.flowControl != built.flowControl)
    || (field == "idle_heartbeat" && push.Some? && !DurationKept(built.idleHeartbeat, existing.idleHeartbeat))
  }

  lemma RequiredNames(drift: seq<string>, existing: ConsumerConfig, config: Management, field: string)
    ensures field in RequiredPolicyDrift(drift, existing, config) <==>
      || field in drift
      || (field == "ack_policy" && existing.ackPolicy != Some("explicit"))
      || (field == "deliver_policy" && existing.deliverPolicy != Some(DeliverName(config.deliverPolicy)))
      || (field == "replay_policy" && existing.replayPolicy != Some(ReplayName(config.replayPolicy)))
  {
  }

  predicate DeliveryMisses(field: string, existing: ConsumerConfig, config: Management) {
    || (field == "headers_only" && !Kept(config.headersOnly, existing.headersOnly))
    || (field == "ack_wait" && !FloatEqual(config.ackWaitSeconds, existing.ackWait))
    || (field == "backoff" && !FloatSequenceEqual(config.backoffSeconds, existing.backoff))
    || (field == "max_deliver" && !Kept(config.maxDeliver, existing.maxDeliver))
    || (field == "max_ack_pending" && !Kept(config.maxAckPending, existing.maxAckPending))
  }

  lemma DeliveryNames(drift: seq<string>, existing: ConsumerConfig, config: Management, field: string)
    ensures field in DeliveryDrift(drift, existing, config) <==>
            field in drift || DeliveryMisses(field, existing, config)
  {
  }

  lemma OptionalNames(drift: seq<string>, existing: ConsumerConfig, config: Management, field: string)
    ensures field in OptionalPolicyDrift(drift, existing, config) <==>
      || field in drift || DeliveryMisses(field, existing, config)
      || (field == "max_waiting" && !Kept(config.maxWaiting, existing.maxWaiting))
      || (field == "num_replicas" && !Kept(config.numReplicas, existing.numReplicas))
      || (field == "mem_storage" && !Kept(config.memoryStorage, existing.memStorage))
      || (field == "metadata" && config.metadata != map[] && existing.metadata.GetOr(map[]) != config.metadata)
  {
    DeliveryNames(drift, existing, config, field);
  }

  predicate IdentityMisses(field: string, existing: ConsumerConfig, durableName: string, filters: seq<string>,
                           push: Option<Push>)
  {
    || (field == "durable_name" && !NameMatches(existing, durableName))
    || (field == "deliver_subject" && if push.None? then Truthy(existing.deliverSubject)
                                      else existing.deliverSubject != push.value.deliverSubject)
    || (field == "deliver_group" && push.Some? && existing.deliverGroup != push.value.deliverGroup)
    || (field == "filter_subjects" && AsSet(ExistingFilterSubjects(existing)) != AsSet(filters))
  }

  predicate PolicyMisses(field: string, existing: ConsumerConfig, config: Management) {
    || (field == "ack_policy" && existing.ackPolicy != Some("explicit"))
    || (field == "deliver_policy" && existing.deliverPolicy != Some(DeliverName(config.deliverPolicy)))
    || (field == "replay_policy" && existing.replayPolicy != Some(ReplayName(config.replayPolicy)))
    || DeliveryMisses(field, existing, config)
    || (field == "max_waiting" && !Kept(config.maxWaiting, existing.maxWaiting))
    || (field == "num_replicas" && !Kept(config.numReplicas, existing.numReplicas))
    || (field == "mem_storage" && !Kept(config.memoryStorage, existing.memStorage))
    || (field == "metadata" && config.metadata != map[] && existing.metadata.GetOr(map[]) != config.metadata)
  }

  predicate PushMisses(field: string, existing: ConsumerConfig, config: Management, push: Push) {
    || (field == "max_ack_pending" && config.maxAckPending.None?
        && existing.maxAckPending != Some(push.pendingMsgsLimit))
    || (field == "flow_control" && existing.flowControl != Some(push.flowControl))
    || (field == "idle_heartbeat" && !FloatEqual(push.idleHeartbeatSeconds, existing.idleHeartbeat))
  }

  lemma IdentityNames(existing: ConsumerConfig, durableName: string, filters: seq<string>, push: Option<Push>,
                      field: string)
    ensures field in IdentityDrift([], existing, durableName, filters, push) <==>
            IdentityMisses(field, existing, durableName, filters, push)
  {
  }

  lemma PushNames(drift: seq<string>, existing: ConsumerConfig, config: Management, push: Push, field: string)
    ensures field in PushPolicyDrift(drift, existing, config, push) <==>
            field in drift || PushMisses(field, existing, config, push)
  {
  }

  lemma FoundNames(existing: ConsumerConfig, durableName: string, filters: seq<string>, config: Management,
                   push: Option<Push>, field: string)
    ensures field in FoundDrift(existing, durableName, filters, config, push) <==>
      || IdentityMisses(field, existing, durableName, filters, push) || PolicyMisses(field, existing, config)
      || (push.Some? && PushMisses(field, existing, config, push.value))
  {
    var identity := IdentityDrift([], existing, durableName, filters, push);
    var required := RequiredPolicyDrift(identity, existing, config);
    IdentityNames(existing, durableName, filters, push, field);
    RequiredNames(identity, existing, config, field);
    OptionalNames(required, existing, config, field);
    if push.Some? {
      PushNames(OptionalPolicyDrift(required, existing, config), existing, config, push.value, field);
    }
  }

  lemma PullFieldNames(existing: ConsumerConfig, durableName: string, filters: seq<string>, config: Management,
                       field: string)
    requires ExistingFilterSubjects(PullConfig(durableName, filters, config)) == filters
    ensures IdentityMisses(field, existing, durableName, filters, None) || PolicyMisses(field, existing, config) <==>
            Misses(field, None, PullConfig(durableName, filters, config), existing)
  {
    BackoffAgrees(config.backoffSeconds, existing.backoff);
    FiltersAreExisting(existing);
    FiltersAreExisting(PullConfig(durableName, filters, config));
  }

  lemma PushFieldNames(existing: ConsumerConfig, durableName: string, filters: seq<string>, config: Management,
                       push: Push, field: string)
    requires ExistingFilterSubjects(PullConfig(durableName, filters, config)) == filters
    requires config.maxWaiting.None? && (config.maxAckPending == Some(0) ==> push.pendingMsgsLimit == 0)
    ensures IdentityMisses(field, existing, durableName, filters, Some(push))
            || PolicyMisses(field, existing, config) || PushMisses(field, existing, config, push) <==>
            Misses(field, Some(push), PushConfig(durableName, filters, config, push), existing)
  {
    BackoffAgrees(config.backoffSeconds, existing.backoff);
    FiltersAreExisting(existing);
    FiltersAreExisting(PushConfig(durableName, filters, config, push));
  }

  /** The report names exactly the fields that are not as built. */
  lemma DriftNamesExactly(existing: ConsumerConfig, durableName: string, subject: string, config: Management,
                          push: Option<Push>, field: string)
    requires Built(durableName, subject, config, push).Success? && Coherent(subject, config, push)
    ensures Drift(Some(existing), durableName, subject, config, push).Success?
    ensures field in Drift(Some(existing), durableName, subject, config, push).value <==>
            Misses(field, push, Built(durableName, subject, config, push).value, existing)
  {
    BuiltFilters(durableName, subject, config, push);
    var filters := ManagedFilterSubjects(subject, config).value;
    FoundNames(existing, durableName, filters, config, push, field);
    if push.None? {
      PullFieldNames(existing, durableName, filters, config, field);
    } else {
      PushFieldNames(existing, durableName, filters, config, push.value, field);
    }
  }

  /** Detection fails, rather than reports, exactly when nothing could be built or the server told nothing. */
  lemma DetectionFailsExactly(existing: Option<ConsumerConfig>, durableName: string, subject: string,
                              config: Management, push: Option<Push>)
    ensures var drift := Drift(existing, durableName, subject, config, push);
      && (drift.Failure? <==> existing.None? || Built(durableName, subject, config, push).Failure?)
      && (drift.Failure? ==>
            || (drift.error == InfoWithoutConfig && existing.None?)
            || drift.error == Built(durableName, subject, config, push).error)
  {
  }

  /** With push mode disabled, a pull-only setting is dropped by the builder and then missed by the detector. */
  lemma DisabledPushDriftsFromItsOwnBuild()
    ensures exists config: Management, push: Push ::
      && PushProblem(config, push).None? && Built("worker", "orders.*", config, Some(push)).Success?
      && var built := Built("worker", "orders.*", config, Some(push)).value;
      Drift(Some(built), "worker", "orders.*", config, Some(push)) != Success([])
  {
    var config := Management(CreateIfMissing, [], DeliverPolicy.All, Instant, None, None, None, None, Some(512),
                             None, None, None, map[]);
    var push := Push(false, None, None, true, 1_000, false, None);
    assert Built("worker", "orders.*", config, Some(push)).Success? && !Coherent("orders.*", config, Some(push));
    IncoherentDrifts("worker", "orders.*", config, Some(push));
  }

  /** What the builder produced shows no drift, exactly when the configuration is coherent. */
  lemma BuiltHasNoDrift(durableName: string, subject: string, config: Management, push: Option<Push>)
    requires Built(durableName, subject, config, push).Success?
    ensures var built := Built(durableName, subject, config, push).value;
      Drift(Some(built), durableName, subject, config, push).value == [] <==> Coherent(subject, config, push)
  {
    var built := Built(durableName, subject, config, push).value;
    if Coherent(subject, config, push) {
      ConformsToItself(built);
      NoDriftIffConforms(built, durableName, subject, config, push);
    } else {
      IncoherentDrifts(durableName, subject, config, push);
    }
  }

  lemma NeverAcceptsPull(existing: ConsumerConfig, durableName: string, filters: seq<string>, config: Management,
                         push: Push)
    requires existing.flowControl.None?
    ensures FoundDrift(existing, durableName, filters, config, Some(push)) != []
  {
    var identity := IdentityDrift([], existing, durableName, filters, Some(push));
    NoPushDrift(OptionalPolicyDrift(RequiredPolicyDrift(identity, existing, config), existing, config), existing,
        config, push);
  }

  lemma NeverAcceptsPush(existing: ConsumerConfig, durableName: string, filters: seq<string>, config: Management)
    requires Truthy(existing.deliverSubject)
    ensures FoundDrift(existing, durableName, filters, config, None) != []
  {
    NoIdentityDrift(existing, durableName, filters, None);
    NoPolicyDrift(IdentityDrift([], existing, durableName, filters, None), existing, config);
  }

  /** A consumer built for pull mode never passes under any push configuration. */
  lemma PullIsNeverTakenForPush(builtName: string, builtSubject: string, builtConfig: Management,
                                durableName: string, subject: string, config: Management, push: Push)
    requires Built(builtName, builtSubject, builtConfig, None).Success?
    ensures var pull := Built(builtName, builtSubject, builtConfig, None).value;
      Drift(Some(pull), durableName, subject, config, Some(push)) != Success([])
  {
    var pull := Built(builtName, builtSubject, builtConfig, None).value;
    assert pull.flowControl == None;
    var filters := ManagedFilterSubjects(subject, config);
    if filters.Success? {
      NeverAcceptsPull(pull, durableName, filters.value, config, push);
    }
  }

  /** A consumer built for push mode, with somewhere to deliver to, never passes under any pull configuration. */
  lemma PushIsNeverTakenForPull(builtName: string, builtSubject: string, builtConfig: Management, push: Push,
                                durableName: string, subject: string, config: Management)
    requires Built(builtName, builtSubject, builtConfig, Some(push)).Success? && Truthy(push.deliverSubject)
    ensures var pushed := Built(builtName, builtSubject, builtConfig, Some(push)).value;
      Drift(Some(pushed), durableName, subject, config, None) != Success([])
  {
    var pushed := Built(builtName, builtSubject, builtConfig, Some(push)).value;
    assert pushed.deliverSubject == push.deliverSubject;
    var filters := ManagedFilterSubjects(subject, config);
    if filters.Success? {
      NeverAcceptsPush(pushed, durableName, filters.value, config);
    }
  }

  /** A pause reported as NaN passes the comparison of pauses, though every other duration field rejects NaN. */
  lemma NaNPauseIsAccepted(expected: real)
    ensures FloatSequenceEqual(Some([expected]), Items([NotANumber]))
    ensures !FloatEqual(Some(expected), NotANumber)
  {
  }
}
