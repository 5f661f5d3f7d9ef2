/**
 InProgress heartbeats are checked twice: on the configuration
 (validate_in_progress_consumer_policy in src/nats_sinks/core/config.py) and on
 the consumer in force (ConsumerServer.InProgressProblem).
 */
module InProgress {
  import opened Prelude
  import opened Consumers
  import opened ConsumerServer

  /** The bounds of the configuration sections that matter here. */
  predicate WithinBounds(call: Call) {
    && (call.config.ackWaitSeconds.Some? ==> call.config.ackWaitSeconds.value > 0.0)
    && (call.config.backoffSeconds.Some? ==> call.config.backoffSeconds.value != [])
    && (call.inProgress.Some? ==> call.inProgress.value.intervalMs >= 1)
  }

  /** The heartbeat intervals safe for an AckWait are those below this. */
  function SafeIntervalMs(ackWaitSeconds: real): real {
    ackWaitSeconds * 1000.0 * IN_PROGRESS_ACK_WAIT_SAFETY_RATIO
  }

  /** validate_in_progress_consumer_policy. */
  function ConfiguredProblem(call: Call): Option<Error> {
    if !call.Heartbeats() then None
    else if !call.durable then Some(DurableRequired)
    else if call.config.backoffSeconds.Some? then Some(BackoffUnsupported)
    else if call.config.ackWaitSeconds.None? then
      if call.config.mode.BindOnly? then None else Some(AckWaitRequired)
    else if call.inProgress.value.intervalMs as real >= SafeIntervalMs(call.config.ackWaitSeconds.value) then
      Some(IntervalTooLong)
    else None
  }
}

/** The two checks agree on what was built, but not on everything the drift tolerance lets through. */
module InProgressProofs {
  import opened Prelude
  import opened Consumers
  import opened ConsumerServer
  import opened InProgress
  import ConsumerProofs
  import ConsumerServerProofs

  lemma ChecksAgreeOn(built: ConsumerConfig, call: Call)
    requires WithinBounds(call) && call.durable && !call.config.mode.BindOnly?
    requires built.ackWait == OptionalSeconds(call.config.ackWaitSeconds)
    requires built.backoff == OptionalBackoff(call.config.backoffSeconds)
    ensures InProgressProblem(Some(built), call).None? <==> ConfiguredProblem(call).None?
  {
    if call.config.backoffSeconds.Some? {
      assert |OptionalBackoff(call.config.backoffSeconds).items| == |call.config.backoffSeconds.value| > 0;
    }
  }

  lemma BuiltTiming(call: Call)
    requires BuiltFor(call).Success?
    ensures BuiltFor(call).value.ackWait == OptionalSeconds(call.config.ackWaitSeconds)
    ensures BuiltFor(call).value.backoff == OptionalBackoff(call.config.backoffSeconds)
  {
  }

  /** What the configuration's own guard lets through. */
  lemma GuardPassesExactly(call: Call)
    ensures ConfiguredProblem(call).None? <==>
      ConsumerServerProofs.HeartbeatsOn(call) ==>
        && call.durable && call.config.backoffSeconds.None?
        && (call.config.ackWaitSeconds.None? ==> call.config.mode.BindOnly?)
        && (call.config.ackWaitSeconds.Some? ==>
              call.inProgress.value.intervalMs as real < call.config.ackWaitSeconds.value * 800.0)
  {
  }

  /** A server that keeps what it is given lets a new consumer start exactly when the configuration passed its check. */
  lemma FreshStartSucceedsExactly(model: Model, s: Server, call: Call)
    requires WithinBounds(call) && call.durable && !call.config.mode.BindOnly?
    requires !ConsumerServerProofs.PushRefused(call)
    requires call.Id() !in s.consumers && ConsumerServerProofs.Reliable(model, s)
    requires BuiltFor(call).Success? && model.keep(BuiltFor(call).value) == BuiltFor(call).value
    ensures Ensure(model, s, call).0.Success? <==> ConfiguredProblem(call).None?
  {
    BuiltTiming(call);
    ConsumerServerProofs.AdmittedExactly(call);
    ChecksAgreeOn(BuiltFor(call).value, call);
    FreshStart(model, s, call, BuiltFor(call), Judge(call));
  }

  lemma FreshStart(model: Model, s: Server, call: Call, built: Result<ConsumerConfig, Error>,
                   judge: Option<ConsumerConfig> -> Option<Error>)
    requires call.Id() !in s.consumers && ConsumerServerProofs.Reliable(model, s) && !call.config.mode.BindOnly?
    requires built.Success? && model.keep(built.value) == built.value
    ensures EnsureDurable(model, s, call, built, judge).0.Success? <==> InProgressProblem(Some(built.value), call).None?
  {
    assert model.faults(s.requests) == NoFault && model.faults(s.requests + 1) == NoFault
        && model.faults(s.requests + 2) == NoFault;
  }

  /** AckWait as built, up to the drift tolerance, with no pauses of the server's own. */
  predicate TimingConforms(ackWait: real, existing: ConsumerConfig) {
    existing.ackWait.Seconds? && Close(existing.ackWait.value, ackWait) && !HasEffectiveBackoff(existing.backoff)
  }

  lemma TimingIsSafe(call: Call, ackWait: real, existing: ConsumerConfig)
    requires WithinBounds(call) && call.Heartbeats() && TimingConforms(ackWait, existing)
    requires call.inProgress.value.intervalMs as real < SafeIntervalMs(ackWait - FLOAT_COMPARISON_TOLERANCE)
    ensures InProgressProblem(Some(existing), call).None?
  {
    var v := existing.ackWait.value;
    assert v >= ackWait - FLOAT_COMPARISON_TOLERANCE;
    assert SafeIntervalMs(v) >= SafeIntervalMs(ackWait - FLOAT_COMPARISON_TOLERANCE) > 0.0;
  }

  predicate WithoutPauses(existing: ConsumerConfig) {
    existing.backoff == NoBackoff || existing.backoff == Items([])
  }

  /** Whatever the server may report without drifting, short of pauses of its own, suits the heartbeats. */
  ghost predicate SafeWithoutDrift(call: Call)
    requires BuiltFor(call).Success?
  {
    forall existing | ConsumerProofs.ConformsAs(call.push, BuiltFor(call).value, existing)
                      && WithoutPauses(existing) ::
      ConsumerServerProofs.SuitsHeartbeats(Some(existing), call)
  }

  /**
   Every consumer without drift is also safe for the heartbeats exactly when the interval leaves room for
   the drift tolerance; one with pauses of the server's own never is.
   */
  lemma ConformingIsSafeExactly(call: Call)
    requires WithinBounds(call) && call.Heartbeats() && BuiltFor(call).Success?
    requires call.config.ackWaitSeconds.Some? && call.config.backoffSeconds.None?
    ensures SafeWithoutDrift(call) <==>
            call.inProgress.value.intervalMs as real < (call.config.ackWaitSeconds.value - 0.001) * 800.0
    ensures forall existing: ConsumerConfig | !WithoutPauses(existing) ::
      InProgressProblem(Some(existing), call) == Some(BackoffUnsupported)
  {
    BuiltTiming(call);
    var built, ackWait := BuiltFor(call).value, call.config.ackWaitSeconds.value;
    assert SafeIntervalMs(ackWait - FLOAT_COMPARISON_TOLERANCE) == (ackWait - 0.001) * 800.0;
    if call.inProgress.value.intervalMs as real < SafeIntervalMs(ackWait - FLOAT_COMPARISON_TOLERANCE) {
      forall existing | ConsumerProofs.ConformsAs(call.push, built, existing) && WithoutPauses(existing)
        ensures ConsumerServerProofs.SuitsHeartbeats(Some(existing), call)
      {
        TimingIsSafe(call, ackWait, existing);
        ConsumerServerProofs.SuitsExactly(Some(existing), call);
      }
    } else {
      var shortest := built.(ackWait := Seconds(ackWait - FLOAT_COMPARISON_TOLERANCE));
      ShortestConforms(call, built, ackWait);
      assert ConsumerProofs.ConformsAs(call.push, built, shortest) && WithoutPauses(shortest);
      ConsumerServerProofs.SuitsExactly(Some(shortest), call);
    }
  }

  lemma ShortestConforms(call: Call, built: ConsumerConfig, ackWait: real)
    requires BuiltFor(call) == Result.Success(built) && built.ackWait == Seconds(ackWait)
    ensures ConsumerProofs.ConformsAs(call.push, built,
            built.(ackWait := Seconds(ackWait - FLOAT_COMPARISON_TOLERANCE)))
  {
    ConsumerProofs.ConformsToItself(built);
  }

  // ---------------------------------------------------------------- whole milliseconds

  function WithInterval(call: Call, intervalMs: int): Call {
    call.(inProgress := Some(InProgress(true, intervalMs)))
  }

  /** No interval in whole milliseconds lies between the two limits. */
  predicate LeavesRoom(ackWaitSeconds: real) {
    var safe := SafeIntervalMs(ackWaitSeconds);
    safe <= 1.0 || safe == safe.Floor as real || safe - safe.Floor as real > SafeIntervalMs(FLOAT_COMPARISON_TOLERANCE)
  }

  predicate Below(n: int, limit: real) {
    n as real < limit
  }

  lemma RoomInMilliseconds(ackWait: real)
    ensures LeavesRoom(ackWait) <==>
      forall n: int | 1 <= n && Below(n, SafeIntervalMs(ackWait)) ::
        Below(n, SafeIntervalMs(ackWait - FLOAT_COMPARISON_TOLERANCE))
  {
    var safe := SafeIntervalMs(ackWait);
    var room := safe - SafeIntervalMs(FLOAT_COMPARISON_TOLERANCE);
    assert SafeIntervalMs(ackWait - FLOAT_COMPARISON_TOLERANCE) == room;
    if LeavesRoom(ackWait) {
      forall n: int | 1 <= n && Below(n, safe)
        ensures Below(n, room)
      {
        assert safe == safe.Floor as real ==> n <= safe.Floor - 1;
        assert n <= safe.Floor;
      }
    } else {
      var n := safe.Floor;
      assert 1 <= n && Below(n, safe) && !Below(n, room);
    }
  }

  lemma GuardOf(call: Call, intervalMs: int)
    requires call.durable && call.config.ackWaitSeconds.Some? && call.config.backoffSeconds.None?
    ensures ConfiguredProblem(WithInterval(call, intervalMs)).None? <==>
            Below(intervalMs, SafeIntervalMs(call.config.ackWaitSeconds.value))
    ensures BuiltFor(WithInterval(call, intervalMs)) == BuiltFor(call)
  {
  }

  /**
   The configuration's guard is enough for every interval exactly for the AckWaits that leave room, such as
   whole seconds.
   */
  lemma GuardSufficesExactly(call: Call)
    requires WithinBounds(call) && call.durable && BuiltFor(call).Success?
    requires call.config.ackWaitSeconds.Some? && call.config.backoffSeconds.None?
    ensures LeavesRoom(call.config.ackWaitSeconds.value) <==>
      forall n: int | 1 <= n && ConfiguredProblem(WithInterval(call, n)).None? :: SafeAt(call, n)
  {
    var ackWait := call.config.ackWaitSeconds.value;
    RoomInMilliseconds(ackWait);
    forall n: int | 1 <= n
      ensures ConfiguredProblem(WithInterval(call, n)).None? <==> Below(n, SafeIntervalMs(ackWait))
      ensures SafeAt(call, n) <==> Below(n, SafeIntervalMs(ackWait - FLOAT_COMPARISON_TOLERANCE))
    {
      GuardOf(call, n);
      ConformingIsSafeExactly(WithInterval(call, n));
    }
  }

  ghost predicate SafeAt(call: Call, n: int) {
    BuiltFor(WithInterval(call, n)).Success? && SafeWithoutDrift(WithInterval(call, n))
  }

  lemma WholeSecondsLeaveRoom(seconds: int)
    ensures LeavesRoom(seconds as real)
  {
    assert SafeIntervalMs(seconds as real) == (800 * seconds) as real;
  }

  // ---------------------------------------------------------------- a refused start

  /** A pull consumer with an AckWait just above ten seconds and a heartbeat every eight. */
  function TightCall(): Call {
    Call("orders", "worker", "orders.*", true,
         Management(CreateIfMissing, [], DeliverPolicy.All, Instant, Some(10.001), None, None, None, None, None, None,
             None, map[]),
         None, true, Some(InProgress(true, 8_000)))
  }

  /** A server that reports AckWait in whole seconds. */
  function RoundedTo(seconds: real): Model {
    Model((c: ConsumerConfig) => c.(ackWait := Seconds(seconds)), (n: nat) => NoFault)
  }

  /** A start-up refused although the configuration passed its guard and the new consumer shows no drift. */
  lemma GuardedStartCanBeRefused()
    ensures var call, model := TightCall(), RoundedTo(10.0);
      && WithinBounds(call) && ConfiguredProblem(call).None? && Admission(call).None?
      && ConsumerServerProofs.Faithful(model, call)
      && Ensure(model, Server(map[], 0, []), call).0 == Result.Failure(IntervalTooLong)
  {
    var call, model := TightCall(), RoundedTo(10.0);
    var built := BuiltFor(call).value;
    BuiltTiming(call);
    assert SafeIntervalMs(10.001) == 8000.8;
    ConsumerProofs.ConformsToItself(built);
    assert model.keep(built) == built.(ackWait := Seconds(10.0));
    RefusedAfterCreation(model, Server(map[], 0, []), call, BuiltFor(call), Judge(call));
  }

  lemma RefusedAfterCreation(model: Model, s: Server, call: Call, built: Result<ConsumerConfig, Error>,
                             judge: Option<ConsumerConfig> -> Option<Error>)
    requires call.Id() !in s.consumers && ConsumerServerProofs.Reliable(model, s) && !call.config.mode.BindOnly?
    requires built.Success? && call.Heartbeats() && InProgressProblem(Some(model.keep(built.value)), call).Some?
    ensures EnsureDurable(model, s, call, built, judge).0
         == Result.Failure(InProgressProblem(Some(model.keep(built.value)), call).value)
  {
    assert model.faults(s.requests) == NoFault && model.faults(s.requests + 1) == NoFault
        && model.faults(s.requests + 2) == NoFault;
  }
}
