/** ensure_jetstream_consumer and ensure_jetstream_push_consumer against a server's consumer store. */
module ConsumerServer {
  import opened Prelude
  import opened Consumers

  datatype ConsumerId = ConsumerId(stream: string, name: string)

  /** What the network and the server do to one request. */
  datatype Fault = NoFault | Rejected | ReplyLost

  /** keep: what the server stores, and later reports, for a submitted configuration. */
  datatype Model = Model(keep: ConsumerConfig -> ConsumerConfig, faults: nat -> Fault)

  /** The consumers the server reports (an entry may lack its configuration), and the requests served. */
  datatype Server = Server(consumers: map<ConsumerId, Option<ConsumerConfig>>, requests: nat, writes: seq<ConsumerId>)

  datatype InProgress = InProgress(enabled: bool, intervalMs: int)

  /** One call of ensure_*; pushApi says whether the client offers what push mode needs. */
  datatype Call = Call(stream: string, durableName: string, subject: string, durable: bool, config: Management,
                       push: Option<Push>, pushApi: bool, inProgress: Option<InProgress>) {
    function Id(): ConsumerId {
      ConsumerId(stream, durableName)
    }

    predicate Heartbeats() {
      inProgress.Some? && inProgress.value.enabled
    }
  }

  datatype Action = SkippedEphemeral | Created | Bound | Reconciled

  datatype Reply = Found(config: Option<ConsumerConfig>) | NotFound | Failed

  function Info(model: Model, s: Server, id: ConsumerId): (Reply, Server) {
    (if model.faults(s.requests) != NoFault then Failed
     else if id in s.consumers then Found(s.consumers[id])
     else NotFound,
     s.(requests := s.requests + 1))
  }

  function Add(model: Model, s: Server, id: ConsumerId, config: ConsumerConfig): (bool, Server) {
    var fault := model.faults(s.requests);
    (fault == NoFault,
     if fault == Rejected then s.(requests := s.requests + 1)
     else Server(s.consumers[id := Some(model.keep(config))], s.requests + 1, s.writes + [id]))
  }

  /** validate_in_progress_effective_consumer_policy. */
  function InProgressProblem(existing: Option<ConsumerConfig>, call: Call): Option<Error> {
    if !call.Heartbeats() then None
    else if existing.None? then Some(InfoWithoutConfig)
    else if HasEffectiveBackoff(existing.value.backoff) then Some(BackoffUnsupported)
    else
      match existing.value.ackWait
      case Absent => Some(AckWaitUnreadable)
      case Unreadable => Some(AckWaitUnreadable)
      case NotANumber => Some(AckWaitNotFinite)
      case Infinite(positive) => Some(if positive then AckWaitNotFinite else AckWaitNotPositive)
      case Seconds(v) =>
        if v <= 0.0 then Some(AckWaitNotPositive)
        else if call.inProgress.value.intervalMs as real >= v * 1000.0 * IN_PROGRESS_ACK_WAIT_SAFETY_RATIO then
            Some(IntervalTooLong)
        else None
  }

  function BuiltFor(call: Call): Result<ConsumerConfig, Error> {
    Built(call.durableName, call.subject, call.config, call.push)
  }

  /** _add_consumer or _add_push_consumer with what was built, then _verify_created_or_reconciled_consumer. */
  function AddAndVerify(model: Model, s: Server, call: Call, built: Result<ConsumerConfig, Error>)
    : (Option<Error>, Server)
  {
    if built.Failure? then (Some(built.error), s)
    else
      var (added, s') := Add(model, s, call.Id(), built.value);
      if !added then (Some(WriteFailed), s')
      else if !call.Heartbeats() then (None, s')
      else
        var (reply, s'') := Info(model, s', call.Id());
        (match reply
         case Failed => Some(ReadFailed)
         case NotFound => Some(VerificationMissing)
         case Found(existing) => InProgressProblem(existing, call),
         s'')
  }

  function Outcome(error: Option<Error>, action: Action): Result<Action, Error> {
    if error.Some? then Failure(error.value) else Success(action)
  }

  function Admission(call: Call): Option<Error> {
    if call.push.Some? && call.push.value.enabled && !call.pushApi then Some(PushApiMissing)
    else if call.push.Some? && PushProblem(call.config, call.push.value).Some? then
        PushProblem(call.config, call.push.value)
    else if call.Heartbeats() && !call.durable then Some(DurableRequired)
    else None
  }

  /** Why the call refuses a consumer it finds: unreadable, drifting, or too impatient for its heartbeats. */
  function Refusal(existing: Option<ConsumerConfig>, call: Call): Option<Error> {
    var drift := Drift(existing, call.durableName, call.subject, call.config, call.push);
    if drift.Failure? then Some(drift.error)
    else if drift.value != [] then Some(Drifted(drift.value))
    else InProgressProblem(existing, call)
  }

  function Judge(call: Call): Option<ConsumerConfig> -> Option<Error> {
    existing => Refusal(existing, call)
  }

  function Ensure(model: Model, s: Server, call: Call): (Result<Action, Error>, Server) {
    if Admission(call).Some? then (Failure(Admission(call).value), s)
    else if !call.durable then (Success(SkippedEphemeral), s)
    else EnsureDurable(model, s, call, BuiltFor(call), Judge(call))
  }

  function EnsureDurable(model: Model, s: Server, call: Call, built: Result<ConsumerConfig, Error>,
                         judge: Option<ConsumerConfig> -> Option<Error>)
    : (Result<Action, Error>, Server)
  {
    var (reply, s') := Info(model, s, call.Id());
    match reply
    case Failed => (Failure(ReadFailed), s')
    case NotFound =>
      if call.config.mode.BindOnly? then (Failure(ConsumerMissing), s')
      else
        var (error, end) := AddAndVerify(model, s', call, built);
        (Outcome(error, Created), end)
    case Found(existing) =>
      if judge(existing).Some? then (Failure(judge(existing).value), s')
      else if call.config.mode.Reconcile? then
        var (error, end) := AddAndVerify(model, s', call, built);
        (Outcome(error, Reconciled), end)
      else (Success(Bound), s')
  }

  /** Any sequence of calls. */
  function Run(model: Model, s: Server, calls: seq<Call>): Server
    decreases |calls|
  {
    if calls == [] then s else Run(model, Ensure(model, s, calls[0]).1, calls[1..])
  }

  /** A JetStream context: requests read and change the server's store. */
  class JetStreamContext {
    const model: Model
    var consumers: map<ConsumerId, Option<ConsumerConfig>>
    var requests: nat
    var writes: seq<ConsumerId>

    constructor (model: Model)
      ensures this.model == model && State() == Server(map[], 0, [])
    {
      this.model := model;
      consumers, requests, writes := map[], 0, [];
    }

    function State(): Server
      reads this
    {
      Server(consumers, requests, writes)
    }

    method ConsumerInfo(id: ConsumerId) returns (reply: Reply)
      modifies this`requests
      ensures (reply, State()) == Info(model, old(State()), id)
    {
      var fault := model.faults(requests);
      requests := requests + 1;
      if fault != NoFault {
        return Failed;
      }
      reply := if id in consumers then Found(consumers[id]) else NotFound;
    }

    method AddConsumer(id: ConsumerId, config: ConsumerConfig) returns (ok: bool)
      modifies this
      ensures (ok, State()) == Add(model, old(State()), id, config)
    {
      var fault := model.faults(requests);
      requests := requests + 1;
      if fault != Rejected {
        consumers := consumers[id := Some(model.keep(config))];
        writes := writes + [id];
      }
      ok := fault == NoFault;
    }

    method AddAndVerifyConsumer(call: Call) returns (error: Option<Error>)
      modifies this
      ensures (error, State()) == AddAndVerify(model, old(State()), call, BuiltFor(call))
    {
      var built := BuildConsumerConfig(call.durableName, call.subject, call.config, call.push);
      if built.Failure? {
        return Some(built.error);
      }
      var added := AddConsumer(call.Id(), built.value);
      if !added {
        return Some(WriteFailed);
      }
      if !call.Heartbeats() {
        return None;
      }
      var reply := ConsumerInfo(call.Id());
      match reply
      case Failed => error := Some(ReadFailed);
      case NotFound => error := Some(VerificationMissing);
      case Found(existing) => error := InProgressProblem(existing, call);
    }

    method Examine(existing: Option<ConsumerConfig>, call: Call) returns (refusal: Option<Error>)
      ensures refusal == Judge(call)(existing)
    {
      var drift := DetectConsumerDrift(existing, call.durableName, call.subject, call.config, call.push);
      if drift.Failure? {
        return Some(drift.error);
      }
      if drift.value != [] {
        return Some(Drifted(drift.value));
      }
      refusal := InProgressProblem(existing, call);
    }

    method EnsureConsumer(call: Call) returns (result: Result<Action, Error>)
      modifies this
      ensures (result, State()) == Ensure(model, old(State()), call)
    {
      var refused := Admission(call);
      if refused.Some? {
        return Failure(refused.value);
      }
      if !call.durable {
        return Success(SkippedEphemeral);
      }
      var reply := ConsumerInfo(call.Id());
      match reply {
        case Failed =>
          return Failure(ReadFailed);
        case NotFound =>
          if call.config.mode.BindOnly? {
            return Failure(ConsumerMissing);
          }
          var error := AddAndVerifyConsumer(call);
          return if error.Some? then Failure(error.value) else Success(Created);
        case Found(existing) =>
          var refusal := Examine(existing, call);
          if refusal.Some? {
            return Failure(refusal.value);
          }
          if call.config.mode.Reconcile? {
            var error := AddAndVerifyConsumer(call);
            return if error.Some? then Failure(error.value) else Success(Reconciled);
          }
          return Success(Bound);
      }
    }
  }
}

/** What any run of ensure_* calls does, and does not do, to the server's consumers. */
module ConsumerServerProofs {
  import opened Prelude
  import opened Consumers
  import opened ConsumerServer
  import opened ConsumerProofs

  /** The call would find fault with the consumer as it stands. */
  predicate Drifts(call: Call, existing: Option<ConsumerConfig>) {
    Drift(existing, call.durableName, call.subject, call.config, call.push) != Success([])
  }

  /** What the server holds after a write of what was built. */
  function KeptBy(model: Model, built: Result<ConsumerConfig, Error>): Option<ConsumerConfig> {
    if built.Success? then Some(model.keep(built.value)) else None
  }

  function Stored(model: Model, call: Call): Option<ConsumerConfig> {
    KeptBy(model, BuiltFor(call))
  }

  predicate Untouched(s: Server, s': Server) {
    s'.consumers == s.consumers && s'.writes == s.writes
  }

  /** The consumer was written, once. */
  predicate Wrote(id: ConsumerId, kept: Option<ConsumerConfig>, s: Server, s': Server) {
    kept.Some? && s'.consumers == s.consumers[id := kept] && s'.writes == s.writes + [id]
  }

  lemma AddEffect(model: Model, s: Server, call: Call, built: Result<ConsumerConfig, Error>)
    ensures var s' := AddAndVerify(model, s, call, built).1;
      Untouched(s, s') || Wrote(call.Id(), KeptBy(model, built), s, s')
  {
  }

  lemma DurableEffect(model: Model, s: Server, call: Call, built: Result<ConsumerConfig, Error>,
                      judge: Option<ConsumerConfig> -> Option<Error>)
    ensures var s' := EnsureDurable(model, s, call, built, judge).1;
      || Untouched(s, s')
      || (&& Wrote(call.Id(), KeptBy(model, built), s, s') && !call.config.mode.BindOnly?
          && (call.Id() in s.consumers ==> call.config.mode.Reconcile? && judge(s.consumers[call.Id()]).None?))
  {
    AddEffect(model, Info(model, s, call.Id()).1, call, built);
  }

  lemma AcceptedDoesNotDrift(call: Call, existing: Option<ConsumerConfig>)
    ensures Judge(call)(existing).None? <==> !Drifts(call, existing) && InProgressProblem(existing, call).None?
  {
  }

  /** Every effect one call can have on the store. */
  lemma OneCall(model: Model, s: Server, call: Call)
    ensures var s' := Ensure(model, s, call).1;
      || Untouched(s, s')
      || (&& Wrote(call.Id(), Stored(model, call), s, s') && call.durable && !call.config.mode.BindOnly?
          && (call.Id() in s.consumers ==> call.config.mode.Reconcile? && !Drifts(call, s.consumers[call.Id()])))
  {
    DurableEffect(model, s, call, BuiltFor(call), Judge(call));
    if call.Id() in s.consumers {
      AcceptedDoesNotDrift(call, s.consumers[call.Id()]);
    }
  }

  /** Safety over whole runs: a consumer that drifts from every call made on it is never touched. */
  lemma {:induction false} DriftingConsumerIsNeverWritten(model: Model, s: Server, calls: seq<Call>, id: ConsumerId)
    requires id in s.consumers
    requires forall call | call in calls && call.Id() == id :: Drifts(call, s.consumers[id])
    ensures id in Run(model, s, calls).consumers && Run(model, s, calls).consumers[id] == s.consumers[id]
    decreases |calls|
  {
    if calls != [] {
      OneCall(model, s, calls[0]);
      assert calls[0] in calls && forall call | call in calls[1..] :: call in calls;
      DriftingConsumerIsNeverWritten(model, Ensure(model, s, calls[0]).1, calls[1..], id);
    }
  }

  lemma {:induction false} BindOnlyNeverWrites(model: Model, s: Server, calls: seq<Call>)
    requires forall call | call in calls :: call.config.mode.BindOnly?
    ensures Run(model, s, calls).consumers == s.consumers && Run(model, s, calls).writes == s.writes
    decreases |calls|
  {
    if calls != [] {
      OneCall(model, s, calls[0]);
      assert calls[0] in calls && forall call | call in calls[1..] :: call in calls;
      BindOnlyNeverWrites(model, Ensure(model, s, calls[0]).1, calls[1..]);
    }
  }

  /** Provenance: whatever stands at the end stood there at the start or was built for a call of the run. */
  lemma {:induction false} EveryConsumerHasAnOrigin(model: Model, s: Server, calls: seq<Call>, id: ConsumerId)
    requires id in Run(model, s, calls).consumers
    ensures var end := Run(model, s, calls).consumers[id];
      || (id in s.consumers && end == s.consumers[id])
      || exists call | call in calls ::
           call.Id() == id && call.durable && !call.config.mode.BindOnly? && end.Some? && end == Stored(model, call)
    decreases |calls|
  {
    if calls != [] {
      var s' := Ensure(model, s, calls[0]).1;
      OneCall(model, s, calls[0]);
      EveryConsumerHasAnOrigin(model, s', calls[1..], id);
      assert calls[0] in calls && forall call | call in calls[1..] :: call in calls;
    }
  }

  // ---------------------------------------------------------------- which calls are admitted

  predicate PushMode(call: Call) {
    call.push.Some? && call.push.value.enabled
  }

  /** Push mode that the client does not offer or the settings do not allow. */
  predicate PushRefused(call: Call) {
    PushMode(call) && (!call.pushApi || PushUnsafe(call.config, call.push.value))
  }

  predicate HeartbeatsOn(call: Call) {
    call.inProgress.Some? && call.inProgress.value.enabled
  }

  /** The consumer's timing tolerates the heartbeats: no pauses, and an AckWait the interval is below 80 percent of. */
  predicate SuitsHeartbeats(existing: Option<ConsumerConfig>, call: Call) {
    HeartbeatsOn(call) ==>
      && existing.Some? && (existing.value.backoff == NoBackoff || existing.value.backoff == Items([]))
      && existing.value.ackWait.Seconds? && existing.value.ackWait.value > 0.0
      && call.inProgress.value.intervalMs as real < existing.value.ackWait.value * 800.0
  }

  lemma SuitsExactly(existing: Option<ConsumerConfig>, call: Call)
    ensures InProgressProblem(existing, call).None? <==> SuitsHeartbeats(existing, call)
    ensures InProgressProblem(existing, call).Some? ==>
      var error := InProgressProblem(existing, call).value;
      && (error == InfoWithoutConfig <==> existing.None?)
      && (error == BackoffUnsupported <==>
            existing.Some? && existing.value.backoff != NoBackoff && existing.value.backoff != Items([]))
      && (error in {InfoWithoutConfig, BackoffUnsupported, AckWaitUnreadable, AckWaitNotPositive, AckWaitNotFinite,
                    IntervalTooLong})
  {
  }

  lemma AdmittedExactly(call: Call)
    ensures Admission(call).None? <==> !PushRefused(call) && (HeartbeatsOn(call) ==> call.durable)
    ensures Admission(call).None? && call.push.Some? ==> PushProblem(call.config, call.push.value).None?
  {
  }

  /**
   A call is refused before anything is asked of the server exactly when push mode is refused or heartbeats are
   on without a durable consumer; a call on an ephemeral consumer is skipped, and any other asks the server.
   */
  lemma RefusedBeforehandExactly(model: Model, s: Server, call: Call)
    ensures var (result, s') := Ensure(model, s, call);
      && (result.Failure? && s' == s <==> PushRefused(call) || (HeartbeatsOn(call) && !call.durable))
      && (!PushRefused(call) && !HeartbeatsOn(call) && !call.durable ==>
            result == Success(SkippedEphemeral) && s' == s)
      && (!PushRefused(call) && call.durable ==> s'.requests > s.requests)
  {
    AdmittedExactly(call);
    DurableAsks(model, s, call, BuiltFor(call), Judge(call));
  }

  lemma DurableAsks(model: Model, s: Server, call: Call, built: Result<ConsumerConfig, Error>,
                    judge: Option<ConsumerConfig> -> Option<Error>)
    ensures EnsureDurable(model, s, call, built, judge).1.requests > s.requests
  {
  }

  /** The reason given is the first that applies. */
  lemma ReasonForRefusal(model: Model, s: Server, call: Call)
    requires PushRefused(call) || (HeartbeatsOn(call) && !call.durable)
    ensures var result := Ensure(model, s, call).0;
      var asPush := PushMode(call) && call.pushApi;
      && (result == Failure(PushApiMissing) <==> PushMode(call) && !call.pushApi)
      && (result == Failure(ManualAckRequired) <==> asPush && !call.push.value.manualAck)
      && (result == Failure(DeliverSubjectRequired) <==>
            asPush && call.push.value.manualAck && call.push.value.deliverSubject.None?)
      && (result == Failure(MaxWaitingIsPullOnly) <==>
            asPush && call.push.value.manualAck && call.push.value.deliverSubject.Some? && call.config.maxWaiting.Some?)
      && (result == Failure(AckPendingAboveLimit) <==>
            && asPush && call.push.value.manualAck && call.push.value.deliverSubject.Some?
            && call.config.maxWaiting.None? && PushRefused(call))
      && (result == Failure(DurableRequired) <==> !PushRefused(call))
  {
  }

  // ---------------------------------------------------------------- which calls succeed

  predicate Served(model: Model, request: nat) {
    model.faults(request) == NoFault
  }

  /** Writing request, and then reading back if heartbeats are on. */
  predicate WriteWorks(model: Model, request: nat, call: Call, kept: Option<ConsumerConfig>) {
    && kept.Some? && Served(model, request)
    && (HeartbeatsOn(call) ==> Served(model, request + 1) && SuitsHeartbeats(kept, call))
  }

  lemma DurableSucceedsExactly(model: Model, s: Server, call: Call, built: Result<ConsumerConfig, Error>,
                               judge: Option<ConsumerConfig> -> Option<Error>)
    ensures EnsureDurable(model, s, call, built, judge).0.Success? <==>
      && Served(model, s.requests)
      && (if call.Id() in s.consumers then
            && judge(s.consumers[call.Id()]).None?
            && (call.config.mode.Reconcile? ==> WriteWorks(model, s.requests + 1, call, KeptBy(model, built)))
          else !call.config.mode.BindOnly? && WriteWorks(model, s.requests + 1, call, KeptBy(model, built)))
  {
    SuitsExactly(KeptBy(model, built), call);
  }

  /**
   A durable call succeeds exactly when it is admitted, the server serves its requests, and what it finds does not
   drift and suits the heartbeats, or nothing is found and it may create; what it writes must suit them too.
   */
  lemma SucceedsExactly(model: Model, s: Server, call: Call)
    requires call.durable
    ensures Ensure(model, s, call).0.Success? <==>
      && !PushRefused(call) && Served(model, s.requests)
      && (if call.Id() in s.consumers then
            && !Drifts(call, s.consumers[call.Id()]) && SuitsHeartbeats(s.consumers[call.Id()], call)
            && (call.config.mode.Reconcile? ==> WriteWorks(model, s.requests + 1, call, Stored(model, call)))
          else !call.config.mode.BindOnly? && WriteWorks(model, s.requests + 1, call, Stored(model, call)))
    ensures !PushRefused(call) ==>
      (Stored(model, call).Some? <==> FiltersInside(call.subject, call.config.filterSubjects))
  {
    AdmittedExactly(call);
    DurableSucceedsExactly(model, s, call, BuiltFor(call), Judge(call));
    if call.Id() in s.consumers {
      AcceptedDoesNotDrift(call, s.consumers[call.Id()]);
      SuitsExactly(s.consumers[call.Id()], call);
    }
    if !PushRefused(call) {
      BuildsExactly(call.durableName, call.subject, call.config, call.push);
    }
  }

  /** Why an admitted durable call fails, as far as its first request decides. */
  lemma FirstAnswerDecides(model: Model, s: Server, call: Call)
    requires call.durable && !PushRefused(call)
    ensures var (result, s') := Ensure(model, s, call);
      && (!Served(model, s.requests) ==> result == Failure(ReadFailed) && s'.consumers == s.consumers)
      && (Served(model, s.requests) && call.Id() !in s.consumers && call.config.mode.BindOnly? ==>
            result == Failure(ConsumerMissing))
      && (Served(model, s.requests) && call.Id() in s.consumers ==>
            var drift := Drift(s.consumers[call.Id()], call.durableName, call.subject, call.config, call.push);
            && (drift.Failure? ==> result == Failure(drift.error))
            && (drift.Success? && drift.value != [] ==> result == Failure(Drifted(drift.value)))
            && (drift == Success([]) && !SuitsHeartbeats(s.consumers[call.Id()], call) ==>
                  Some(result.error) == InProgressProblem(s.consumers[call.Id()], call)))
  {
    AdmittedExactly(call);
    FirstAnswer(model, s, call, BuiltFor(call), Judge(call));
    if call.Id() in s.consumers {
      JudgedBy(call, s.consumers[call.Id()]);
      SuitsExactly(s.consumers[call.Id()], call);
    }
  }

  lemma JudgedBy(call: Call, existing: Option<ConsumerConfig>)
    ensures var drift := Drift(existing, call.durableName, call.subject, call.config, call.push);
      Judge(call)(existing) ==
      if drift.Failure? then Some(drift.error)
      else if drift.value != [] then Some(Drifted(drift.value))
      else InProgressProblem(existing, call)
  {
  }

  lemma FirstAnswer(model: Model, s: Server, call: Call, built: Result<ConsumerConfig, Error>,
                    judge: Option<ConsumerConfig> -> Option<Error>)
    ensures var (result, s') := EnsureDurable(model, s, call, built, judge);
      && (!Served(model, s.requests) ==> result == Failure(ReadFailed) && s'.consumers == s.consumers)
      && (Served(model, s.requests) && call.Id() !in s.consumers && call.config.mode.BindOnly? ==>
            result == Failure(ConsumerMissing))
      && (Served(model, s.requests) && call.Id() in s.consumers && judge(s.consumers[call.Id()]).Some? ==>
            result == Failure(judge(s.consumers[call.Id()]).value))
  {
  }

  lemma DurableWrite(model: Model, s: Server, call: Call, built: Result<ConsumerConfig, Error>,
                     judge: Option<ConsumerConfig> -> Option<Error>)
    requires Served(model, s.requests) && !Served(model, s.requests + 1) && built.Success?
    requires if call.Id() in s.consumers then call.config.mode.Reconcile? && judge(s.consumers[call.Id()]).None?
             else !call.config.mode.BindOnly?
    ensures var (result, s') := EnsureDurable(model, s, call, built, judge);
      && result == Failure(WriteFailed)
      && s'.consumers == if model.faults(s.requests + 1) == Rejected then s.consumers
                         else s.consumers[call.Id() := KeptBy(model, built)]
  {
  }

  /** A write that is not answered fails the call; it leaves the store alone if refused, and took effect otherwise. */
  lemma UnansweredWrite(model: Model, s: Server, call: Call)
    requires call.durable && !PushRefused(call) && Stored(model, call).Some?
    requires Served(model, s.requests) && !Served(model, s.requests + 1)
    requires if call.Id() in s.consumers then
               && call.config.mode.Reconcile? && !Drifts(call, s.consumers[call.Id()])
               && SuitsHeartbeats(s.consumers[call.Id()], call)
             else !call.config.mode.BindOnly?
    ensures var (result, s') := Ensure(model, s, call);
      && result == Failure(WriteFailed)
      && s'.consumers == if model.faults(s.requests + 1) == Rejected then s.consumers
                         else s.consumers[call.Id() := Stored(model, call)]
  {
    AdmittedExactly(call);
    if call.Id() in s.consumers {
      AcceptedDoesNotDrift(call, s.consumers[call.Id()]);
      SuitsExactly(s.consumers[call.Id()], call);
    }
    DurableWrite(model, s, call, BuiltFor(call), Judge(call));
  }

  // ---------------------------------------------------------------- in-progress heartbeats

  lemma AddedAndVerified(model: Model, s: Server, call: Call, built: Result<ConsumerConfig, Error>)
    requires AddAndVerify(model, s, call, built).0.None?
    ensures var s' := AddAndVerify(model, s, call, built).1;
      && built.Success? && s'.consumers == s.consumers[call.Id() := KeptBy(model, built)]
      && InProgressProblem(KeptBy(model, built), call).None?
  {
  }

  /** What a successful call on a durable consumer leaves in the store. */
  lemma AfterSuccess(model: Model, s: Server, call: Call, built: Result<ConsumerConfig, Error>,
                     judge: Option<ConsumerConfig> -> Option<Error>)
    requires EnsureDurable(model, s, call, built, judge).0.Success?
    ensures var (result, s') := EnsureDurable(model, s, call, built, judge);
      && result.value == (if call.Id() !in s.consumers then Created
                          else if call.config.mode.Reconcile? then Reconciled else Bound)
      && (if result.value.Bound? then s'.consumers == s.consumers && judge(s.consumers[call.Id()]).None?
          else built.Success? && s'.consumers == s.consumers[call.Id() := KeptBy(model, built)]
               && InProgressProblem(KeptBy(model, built), call).None?)
  {
    if call.Id() !in s.consumers || call.config.mode.Reconcile? {
      AddedAndVerified(model, Info(model, s, call.Id()).1, call, built);
    }
  }

  /** The consumer a successful call leaves behind is one the call's heartbeats are safe with. */
  lemma HeartbeatsAccepted(model: Model, s: Server, call: Call)
    requires Ensure(model, s, call).0.Success? && call.durable
    ensures var s' := Ensure(model, s, call).1;
      call.Id() in s'.consumers && InProgressProblem(s'.consumers[call.Id()], call).None?
  {
    AfterSuccess(model, s, call, BuiltFor(call), Judge(call));
    if call.Id() in s.consumers {
      AcceptedDoesNotDrift(call, s.consumers[call.Id()]);
    }
  }

  /** An existing consumer is accepted exactly when it shows no drift and its timing suits the heartbeats. */
  lemma ExistingIsAcceptedExactly(model: Model, s: Server, call: Call)
    requires call.durable && !PushRefused(call) && !call.config.mode.Reconcile?
    requires call.Id() in s.consumers && Served(model, s.requests)
    ensures var (result, s') := Ensure(model, s, call);
      var existing := s.consumers[call.Id()];
      && (result.Success? <==> !Drifts(call, existing) && SuitsHeartbeats(existing, call))
      && (result.Success? ==> result.value == Bound) && s'.consumers == s.consumers
  {
    AdmittedExactly(call);
    AcceptedDoesNotDrift(call, s.consumers[call.Id()]);
    SuitsExactly(s.consumers[call.Id()], call);
  }

  /** Success with heartbeats on means the consumer in force really tolerates their interval. */
  lemma HeartbeatsAreSafe(model: Model, s: Server, call: Call)
    requires Ensure(model, s, call).0.Success? && call.Heartbeats()
    ensures var s' := Ensure(model, s, call).1;
      && call.durable && call.Id() in s'.consumers && s'.consumers[call.Id()].Some?
      && var config := s'.consumers[call.Id()].value;
      && (config.backoff == NoBackoff || config.backoff == Items([]))
      && config.ackWait.Seconds? && config.ackWait.value > 0.0
      && call.inProgress.value.intervalMs as real < config.ackWait.value * 800.0
  {
    HeartbeatsAccepted(model, s, call);
  }

  // ---------------------------------------------------------------- repetition

  /** The server keeps, up to the tolerance and its own defaults, what it is given. */
  ghost predicate Faithful(model: Model, call: Call) {
    var built := BuiltFor(call);
    built.Success? ==> ConformsAs(call.push, built.value, model.keep(built.value))
  }

  predicate Reliable(model: Model, s: Server) {
    forall n: nat | s.requests <= n < s.requests + 3 :: model.faults(n) == NoFault
  }

  /** A successful call can be repeated: no drift is found and the store stays as it is. */
  lemma RepeatingIsHarmless(model: Model, s: Server, call: Call)
    requires Ensure(model, s, call).0.Success? && call.durable
    requires Faithful(model, call) && Coherent(call.subject, call.config, call.push)
    requires Reliable(model, Ensure(model, s, call).1)
    ensures var s' := Ensure(model, s, call).1;
      var (again, s'') := Ensure(model, s', call);
      && (again == Success(Bound) || again == Success(Reconciled))
      && (again == Success(Reconciled) <==> call.config.mode.Reconcile?)
      && s''.consumers == s'.consumers
  {
    var built, judge := BuiltFor(call), Judge(call);
    AfterSuccess(model, s, call, built, judge);
    HeartbeatsAccepted(model, s, call);
    var s' := Ensure(model, s, call).1;
    if built.Success? {
      StoredDoesNotDrift(model, call);
    }
    AcceptedDoesNotDrift(call, s'.consumers[call.Id()]);
    RepeatOnGoodState(model, s', call, built, judge);
  }

  lemma RepeatOnGoodState(model: Model, s: Server, call: Call, built: Result<ConsumerConfig, Error>,
                          judge: Option<ConsumerConfig> -> Option<Error>)
    requires Reliable(model, s) && call.Id() in s.consumers
    requires judge(s.consumers[call.Id()]).None? && InProgressProblem(s.consumers[call.Id()], call).None?
    requires call.config.mode.Reconcile? ==> built.Success? && s.consumers[call.Id()] == KeptBy(model, built)
    ensures var (again, s') := EnsureDurable(model, s, call, built, judge);
      again == Success(if call.config.mode.Reconcile? then Reconciled else Bound) && s'.consumers == s.consumers
  {
    assert model.faults(s.requests) == NoFault && model.faults(s.requests + 1) == NoFault
        && model.faults(s.requests + 2) == NoFault;
  }

  lemma StoredDoesNotDrift(model: Model, call: Call)
    requires Faithful(model, call) && Coherent(call.subject, call.config, call.push) && Stored(model, call).Some?
    ensures !Drifts(call, Stored(model, call))
  {
    NoDriftIffConforms(Stored(model, call).value, call.durableName, call.subject, call.config, call.push);
  }
}
