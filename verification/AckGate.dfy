/**
 The fan-out ACK gate (src/nats_sinks/core/ack_gate.py).

 Every selected operation is scheduled at once.  The gate awaits the required
 ones in list order, then observes each optional one for a bounded window, and
 cancels whatever is still pending when it leaves.

 The event loop is the environment: each operation has a finishing time (or
 none) and an outcome, and each suspension of the gate may be noticed late by
 an arbitrary non-negative lag.  A cancelled operation stops at once.  At some
 moment the gate itself may be cancelled; that takes effect at an await.
 */
module AckGate {
  import opened Prelude

  /** How an operation ends when nobody cancels it. */
  datatype Outcome = Commits | Fails(errorType: string) | RaisesTimeout | IsCancelled

  datatype Task = Task(finish: Option<real>, outcome: Outcome)

  datatype Target = Target(sink: string, required: bool, minimumWaitMs: Option<int>, timeoutMs: Option<int>)

  datatype Status = Committed | Failed | TimedOut

  datatype TargetResult = TargetResult(sink: string, required: bool, status: Status, errorType: Option<string>)

  datatype GateResult = GateResult(required: seq<TargetResult>, optional: seq<TargetResult>)

  /**
   The ways out of the gate.  GateCancelled is the cancellation of the gate itself reaching its caller;
   NeverReturns stands for an await that is never woken.
   */
  datatype Exit =
    | Returned(result: GateResult)
    | MissingOperations(names: set<string>)
    | RequiredSinkFailed(sink: string, cause: Outcome)
    | WaitsNotResolved(sink: string)
    | Escaped(sink: string, cause: Outcome)
    | GateCancelled
    | NeverReturns(sink: string)

  type Lag = lag: real | lag >= 0.0

  /**
   The schedule: operation behaviour, how late the n-th timer and the n-th wake-up are, when the gate is
   cancelled.
   */
  datatype Env = Env(tasks: map<string, Task>, timerLag: nat -> Lag, wakeLag: nat -> Lag, cancelAt: Option<real>)

  /** What the gate's steps change: the clock, the count of suspensions, the cancelled tasks. */
  datatype World = World(now: real, awaits: nat, cancelled: set<string>)

  function Names(targets: seq<Target>): set<string> {
    set t | t in targets :: t.sink
  }

  predicate DistinctNames(targets: seq<Target>) {
    forall i, j | 0 <= i < j < |targets| :: targets[i].sink != targets[j].sink
  }

  predicate Scheduled(env: Env, targets: seq<Target>) {
    Names(targets) <= env.tasks.Keys
  }

  predicate FinishedBy(task: Task, time: real) {
    task.finish.Some? && task.finish.value <= time
  }

  predicate Done(env: Env, w: World, name: string)
    requires name in env.tasks
  {
    name in w.cancelled || FinishedBy(env.tasks[name], w.now)
  }

  function EffectiveOutcome(env: Env, w: World, name: string): Outcome
    requires name in env.tasks
  {
    if name in w.cancelled then IsCancelled else env.tasks[name].outcome
  }

  function CancelPending(env: Env, names: set<string>, w: World): World
    requires names <= env.tasks.Keys
  {
    w.(cancelled := w.cancelled + set n | n in names && !Done(env, w, n))
  }

  // ---------------------------------------------------------------- cancellation of the gate

  /** The gate is cancelled before it runs again; ready is when what it awaits is ready, if ever. */
  predicate CancelledMeanwhile(env: Env, w: World, ready: Option<real>) {
    env.cancelAt.Some? && (ready.None? || env.cancelAt.value < ready.value + env.wakeLag(w.awaits))
  }

  /** Cancelling the gate cancels the operation it awaits, unless the wait is over by then. */
  function AfterCancellation(env: Env, name: string, w: World, ready: Option<real>): World
    requires name in env.tasks && env.cancelAt.Some?
  {
    var at := MaxReal(env.cancelAt.value, w.now);
    var stopped := if ready.Some? then MinReal(ready.value, at) else at;
    World(stopped + env.wakeLag(w.awaits), w.awaits + 1,
          if FinishedBy(env.tasks[name], stopped) then w.cancelled else w.cancelled + {name})
  }

  // ---------------------------------------------------------------- required phase

  datatype RequiredPhase = AllCommitted(results: seq<TargetResult>) | Stopped(exit: Exit)

  function RequiredCommitted(sink: string): TargetResult {
    TargetResult(sink, true, Committed, None)
  }

  function AwaitTask(env: Env, name: string, w: World): World
    requires name in env.tasks && env.tasks[name].finish.Some?
  {
    w.(now := env.tasks[name].finish.value + env.wakeLag(w.awaits), awaits := w.awaits + 1)
  }

  function AwaitRequired(env: Env, targets: seq<Target>, w: World): (RequiredPhase, World)
    requires Scheduled(env, targets)
  {
    if targets == [] then (AllCommitted([]), w)
    else
      var t := targets[0];
      if !t.required then AwaitRequired(env, targets[1..], w)
      else if !Done(env, w, t.sink) && CancelledMeanwhile(env, w, env.tasks[t.sink].finish) then
        (Stopped(GateCancelled), AfterCancellation(env, t.sink, w, env.tasks[t.sink].finish))
      else if !Done(env, w, t.sink) && env.tasks[t.sink].finish.None? then (Stopped(NeverReturns(t.sink)), w)
      else
        var w' := if Done(env, w, t.sink) then w else AwaitTask(env, t.sink, w);
        match EffectiveOutcome(env, w', t.sink)
        case Commits =>
          var (phase, end) := AwaitRequired(env, targets[1..], w');
          (PrependRequired([RequiredCommitted(t.sink)], phase), end)
        case IsCancelled => (Stopped(Escaped(t.sink, IsCancelled)), w')
        case cause => (Stopped(RequiredSinkFailed(t.sink, cause)), w')
  }

  function PrependRequired(front: seq<TargetResult>, phase: RequiredPhase): RequiredPhase {
    if phase.AllCommitted? then AllCommitted(front + phase.results) else phase
  }

  ghost function ContinuedRequired(env: Env, rest: seq<Target>, w: World, before: seq<TargetResult>)
    : (RequiredPhase, World)
    requires Scheduled(env, rest)
  {
    var (phase, end) := AwaitRequired(env, rest, w);
    (PrependRequired(before, phase), end)
  }

  /** What one turn of the loop over required targets adds to the results so far. */
  ghost function AfterRequiredTurn(env: Env, targets: seq<Target>, i: nat, w: World, before: seq<TargetResult>)
    : (RequiredPhase, World)
    requires i < |targets| && Scheduled(env, targets)
  {
    var t := targets[i];
    if !t.required then ContinuedRequired(env, targets[i + 1..], w, before)
    else if !Done(env, w, t.sink) && CancelledMeanwhile(env, w, env.tasks[t.sink].finish) then
      (Stopped(GateCancelled), AfterCancellation(env, t.sink, w, env.tasks[t.sink].finish))
    else if !Done(env, w, t.sink) && env.tasks[t.sink].finish.None? then (Stopped(NeverReturns(t.sink)), w)
    else
      var w' := if Done(env, w, t.sink) then w else AwaitTask(env, t.sink, w);
      match EffectiveOutcome(env, w', t.sink)
      case Commits => ContinuedRequired(env, targets[i + 1..], w', before + [RequiredCommitted(t.sink)])
      case IsCancelled => (Stopped(Escaped(t.sink, IsCancelled)), w')
      case cause => (Stopped(RequiredSinkFailed(t.sink, cause)), w')
  }

  lemma AwaitRequiredStep(env: Env, targets: seq<Target>, i: nat, w: World, before: seq<TargetResult>)
    requires i < |targets| && Scheduled(env, targets)
    ensures ContinuedRequired(env, targets[i..], w, before) == AfterRequiredTurn(env, targets, i, w, before)
  {
    var rest := targets[i..];
    assert rest[0] == targets[i] && rest[1..] == targets[i + 1..];
    var t := rest[0];
    if t.required && (Done(env, w, t.sink) || env.tasks[t.sink].finish.Some?) {
      var w' := if Done(env, w, t.sink) then w else AwaitTask(env, t.sink, w);
      var phase := AwaitRequired(env, rest[1..], w').0;
      assert PrependRequired(before, PrependRequired([RequiredCommitted(t.sink)], phase))
          == PrependRequired(before + [RequiredCommitted(t.sink)], phase);
    }
  }

  // ---------------------------------------------------------------- optional phase

  datatype Step = Recorded(result: TargetResult) | Raised(cause: Outcome) | Unresolved | Aborted

  function Recording(sink: string, status: Status): Step {
    Recorded(TargetResult(sink, false, status, None))
  }

  /** How an optional task that is already done when observed is reported. */
  function ReportDone(sink: string, outcome: Outcome): Step {
    match outcome
    case Commits => Recording(sink, Committed)
    case Fails(e) => Recorded(TargetResult(sink, false, Failed, Some(e)))
    case RaisesTimeout => Recorded(TargetResult(sink, false, Failed, Some("TimeoutError")))
    case IsCancelled => Recording(sink, TimedOut)
  }

  /** How an optional task that finishes while the gate is waiting for it is reported. */
  function ReportInWindow(sink: string, outcome: Outcome): Step {
    match outcome
    case Commits => Recording(sink, Committed)
    case RaisesTimeout => Recording(sink, TimedOut)
    case cause => Raised(cause)
  }

  function ElapsedMs(startedAt: real, now: real): int {
    ((now - startedAt) * 1000.0).Floor
  }

  predicate Resolved(t: Target) {
    t.minimumWaitMs.Some? && t.timeoutMs.Some?
  }

  function BoundedWaitMs(t: Target, startedAt: real, now: real): int
    requires Resolved(t)
  {
    Min(t.minimumWaitMs.value, Max(0, t.timeoutMs.value - ElapsedMs(startedAt, now)))
  }

  /** When the wait-for timer of an observation that starts in w fires. */
  function WindowClose(env: Env, t: Target, startedAt: real, w: World): real
    requires Resolved(t)
  {
    w.now + BoundedWaitMs(t, startedAt, w.now) as real / 1000.0 + env.timerLag(w.awaits)
  }

  /** The operation was pending when observed and ended before its own wait window closed. */
  predicate EndsInWindow(env: Env, t: Target, startedAt: real, w: World)
    requires t.sink in env.tasks && Resolved(t)
  {
    && !Done(env, w, t.sink)
    && BoundedWaitMs(t, startedAt, w.now) > 0
    && FinishedBy(env.tasks[t.sink], WindowClose(env, t, startedAt, w))
  }

  /** When the gate stops waiting for t if it starts observing it in w and t does not end. */
  function Deadline(env: Env, t: Target, startedAt: real, w: World): real
    requires Resolved(t)
  {
    if BoundedWaitMs(t, startedAt, w.now) > 0 then WindowClose(env, t, startedAt, w) else w.now
  }

  /** When the wait for a pending t is over. */
  function WaitEnds(env: Env, t: Target, startedAt: real, w: World): real
    requires t.sink in env.tasks && Resolved(t)
  {
    if EndsInWindow(env, t, startedAt, w) then env.tasks[t.sink].finish.value else Deadline(env, t, startedAt, w)
  }

  function Observe(env: Env, t: Target, startedAt: real, w: World): (Step, World)
    requires t.sink in env.tasks
  {
    if !Resolved(t) then (Unresolved, w)
    else if Done(env, w, t.sink) then (ReportDone(t.sink, EffectiveOutcome(env, w, t.sink)), w)
    else
      var ready := WaitEnds(env, t, startedAt, w);
      var woken := w.(now := ready + env.wakeLag(w.awaits), awaits := w.awaits + 1);
      if CancelledMeanwhile(env, w, Some(ready)) then
        (Aborted, AfterCancellation(env, t.sink, w, Some(ready)))
      else if EndsInWindow(env, t, startedAt, w) then (ReportInWindow(t.sink, env.tasks[t.sink].outcome), woken)
      else (Recording(t.sink, TimedOut), woken.(cancelled := w.cancelled + {t.sink}))
  }

  datatype OptionalPhase = AllObserved(results: seq<TargetResult>) | Interrupted(exit: Exit)

  function PrependOptional(front: seq<TargetResult>, phase: OptionalPhase): OptionalPhase {
    if phase.AllObserved? then AllObserved(front + phase.results) else phase
  }

  function ObserveOptional(env: Env, targets: seq<Target>, startedAt: real, w: World): (OptionalPhase, World)
    requires Scheduled(env, targets)
  {
    if targets == [] then (AllObserved([]), w)
    else
      var t := targets[0];
      if t.required then ObserveOptional(env, targets[1..], startedAt, w)
      else
        var (step, w') := Observe(env, t, startedAt, w);
        match step
        case Recorded(r) =>
          var (phase, end) := ObserveOptional(env, targets[1..], startedAt, w');
          (PrependOptional([r], phase), end)
        case Raised(cause) => (Interrupted(Escaped(t.sink, cause)), w')
        case Unresolved => (Interrupted(WaitsNotResolved(t.sink)), w')
        case Aborted => (Interrupted(GateCancelled), w')
  }

  /** What one turn of the loop over optional targets adds to the results so far. */
  ghost function AfterTurn(env: Env, targets: seq<Target>, i: nat, startedAt: real, w: World, before: seq<TargetResult>)
    : (OptionalPhase, World)
    requires i < |targets| && Scheduled(env, targets)
  {
    var t := targets[i];
    if t.required then Continued(env, targets[i + 1..], startedAt, w, before)
    else
      var (step, w') := Observe(env, t, startedAt, w);
      match step
      case Recorded(r) => Continued(env, targets[i + 1..], startedAt, w', before + [r])
      case Raised(cause) => (Interrupted(Escaped(t.sink, cause)), w')
      case Unresolved => (Interrupted(WaitsNotResolved(t.sink)), w')
      case Aborted => (Interrupted(GateCancelled), w')
  }

  ghost function Continued(env: Env, rest: seq<Target>, startedAt: real, w: World, before: seq<TargetResult>)
    : (OptionalPhase, World)
    requires Scheduled(env, rest)
  {
    var (phase, end) := ObserveOptional(env, rest, startedAt, w);
    (PrependOptional(before, phase), end)
  }

  lemma ObserveOptionalStep(env: Env, targets: seq<Target>, i: nat, startedAt: real, w: World,
                            before: seq<TargetResult>)
    requires i < |targets| && Scheduled(env, targets)
    ensures Continued(env, targets[i..], startedAt, w, before) == AfterTurn(env, targets, i, startedAt, w, before)
  {
    var rest := targets[i..];
    assert rest[0] == targets[i] && rest[1..] == targets[i + 1..];
    if !rest[0].required {
      var (step, w') := Observe(env, rest[0], startedAt, w);
      if step.Recorded? {
        var phase := ObserveOptional(env, rest[1..], startedAt, w').0;
        assert PrependOptional(before, PrependOptional([step.result], phase))
            == PrependOptional(before + [step.result], phase);
      }
    }
  }

  // ---------------------------------------------------------------- the whole gate

  function AtStart(startedAt: real): World {
    World(startedAt, 0, {})
  }

  /** The state in which the last required await has ended. */
  function RequiredEnd(env: Env, targets: seq<Target>, startedAt: real): World
    requires Scheduled(env, targets)
  {
    AwaitRequired(env, targets, AtStart(startedAt)).1
  }

  function Gate(env: Env, targets: seq<Target>, startedAt: real): (Exit, World) {
    if !Scheduled(env, targets) then (MissingOperations(Names(targets) - env.tasks.Keys), AtStart(startedAt))
    else
      var (required, w) := AwaitRequired(env, targets, AtStart(startedAt));
      if required.Stopped? then
        (required.exit, if required.exit.NeverReturns? then w else CancelPending(env, Names(targets), w))
      else
        var (optional, w') := ObserveOptional(env, targets, startedAt, w);
        (if optional.AllObserved? then Returned(GateResult(required.results, optional.results)) else optional.exit,
         CancelPending(env, Names(targets), w'))
  }

  /** The running gate: the clock, the tasks it has cancelled and the two result lists. */
  class FanoutGate {
    const env: Env
    var now: real
    var awaits: nat
    var cancelled: set<string>
    var requiredResults: seq<TargetResult>
    var optionalResults: seq<TargetResult>

    constructor (env: Env, startedAt: real)
      ensures this.env == env && State() == AtStart(startedAt)
      ensures requiredResults == [] && optionalResults == []
    {
      this.env := env;
      now, awaits, cancelled := startedAt, 0, {};
      requiredResults, optionalResults := [], [];
    }

    function State(): World
      reads this
    {
      World(now, awaits, cancelled)
    }

    /** Awaits a task that is done already or will end by itself, or until the gate is cancelled. */
    method Await(name: string) returns (interrupted: bool)
      requires name in env.tasks
      requires Done(env, State(), name) || env.tasks[name].finish.Some? || env.cancelAt.Some?
      modifies this`now, this`awaits, this`cancelled
      ensures interrupted == (!old(Done(env, State(), name))
                              && CancelledMeanwhile(env, old(State()), env.tasks[name].finish))
      ensures State() == if old(Done(env, State(), name)) then old(State())
                         else if interrupted then AfterCancellation(env, name, old(State()), env.tasks[name].finish)
                         else AwaitTask(env, name, old(State()))
    {
      interrupted := false;
      if !Done(env, State(), name) {
        interrupted := CancelledMeanwhile(env, State(), env.tasks[name].finish);
        if interrupted {
          Abort(name, env.tasks[name].finish);
        } else {
          now, awaits := env.tasks[name].finish.value + env.wakeLag(awaits), awaits + 1;
        }
      }
    }

    /** The gate is cancelled while it awaits an operation. */
    method Abort(name: string, ready: Option<real>)
      requires name in env.tasks && env.cancelAt.Some?
      modifies this`now, this`awaits, this`cancelled
      ensures State() == AfterCancellation(env, name, old(State()), ready)
    {
      var stopped := MaxReal(env.cancelAt.value, now);
      if ready.Some? {
        stopped := MinReal(ready.value, stopped);
      }
      if !FinishedBy(env.tasks[name], stopped) {
        cancelled := cancelled + {name};
      }
      now, awaits := stopped + env.wakeLag(awaits), awaits + 1;
    }

    /** _cancel_pending: one pass over the tasks, cancelling those not done. */
    method CancelTasks(names: set<string>)
      requires names <= env.tasks.Keys
      modifies this`cancelled
      ensures State() == CancelPending(env, names, old(State()))
    {
      var rest := names;
      while rest != {}
        invariant rest <= names
        invariant forall n :: n in cancelled <==>
          n in old(cancelled) || (n in names && n !in rest && !FinishedBy(env.tasks[n], now))
        decreases |rest|
      {
        var name :| name in rest;
        if !Done(env, State(), name) {
          cancelled := cancelled + {name};
        }
        rest := rest - {name};
      }
    }

    /** _observe_optional_target. */
    method ObserveTarget(t: Target, startedAt: real) returns (step: Step)
      requires t.sink in env.tasks
      modifies this`now, this`awaits, this`cancelled
      ensures (step, State()) == Observe(env, t, startedAt, old(State()))
    {
      if t.minimumWaitMs.None? || t.timeoutMs.None? {
        return Unresolved;
      }
      if !Done(env, State(), t.sink) {
        var task := env.tasks[t.sink];
        var elapsedMs := ElapsedMs(startedAt, now);
        var remainingMs := Max(0, t.timeoutMs.value - elapsedMs);
        var boundedMs := Min(t.minimumWaitMs.value, remainingMs);
        var close := now;
        var inWindow := false;
        if boundedMs > 0 {
          close := now + boundedMs as real / 1000.0 + env.timerLag(awaits);
          inWindow := FinishedBy(task, close);
        }
        var ready := if inWindow then task.finish.value else close;
        if CancelledMeanwhile(env, State(), Some(ready)) {
          Abort(t.sink, Some(ready));
          return Aborted;
        }
        now, awaits := ready + env.wakeLag(awaits), awaits + 1;
        if inWindow {
          return ReportInWindow(t.sink, task.outcome);
        }
        cancelled := cancelled + {t.sink};
        return Recording(t.sink, TimedOut);
      }
      step := ReportDone(t.sink, EffectiveOutcome(env, State(), t.sink));
    }

    /** First loop of wait_for_fanout_ack_gate; None means every required target committed. */
    method AwaitRequiredTargets(targets: seq<Target>) returns (stop: Option<Exit>)
      requires Scheduled(env, targets) && requiredResults == []
      modifies this`now, this`awaits, this`cancelled, this`requiredResults
      ensures AwaitRequired(env, targets, old(State())) ==
              (if stop.Some? then Stopped(stop.value) else AllCommitted(requiredResults), State())
    {
      ghost var whole := AwaitRequired(env, targets, State()).0;
      assert targets[0..] == targets && PrependRequired([], whole) == whole;
      for i := 0 to |targets|
        invariant AwaitRequired(env, targets, old(State()))
                  == ContinuedRequired(env, targets[i..], State(), requiredResults)
      {
        var t := targets[i];
        AwaitRequiredStep(env, targets, i, State(), requiredResults);
        if t.required {
          if !Done(env, State(), t.sink) && env.tasks[t.sink].finish.None? && env.cancelAt.None? {
            return Some(NeverReturns(t.sink));
          }
          var interrupted := Await(t.sink);
          if interrupted {
            return Some(GateCancelled);
          }
          var outcome := EffectiveOutcome(env, State(), t.sink);
          if outcome == IsCancelled {
            return Some(Escaped(t.sink, IsCancelled));
          }
          if outcome != Commits {
            return Some(RequiredSinkFailed(t.sink, outcome));
          }
          requiredResults := requiredResults + [RequiredCommitted(t.sink)];
        }
      }
      assert targets[|targets|..] == [] && requiredResults + [] == requiredResults;
      stop := None;
    }

    /** Second loop of wait_for_fanout_ack_gate; None means every optional target was recorded. */
    method ObserveOptionalTargets(targets: seq<Target>, startedAt: real) returns (stop: Option<Exit>)
      requires Scheduled(env, targets) && optionalResults == []
      modifies this`now, this`awaits, this`cancelled, this`optionalResults
      ensures ObserveOptional(env, targets, startedAt, old(State())) ==
              (if stop.Some? then Interrupted(stop.value) else AllObserved(optionalResults), State())
    {
      ghost var whole := ObserveOptional(env, targets, startedAt, State()).0;
      assert targets[0..] == targets && PrependOptional([], whole) == whole;
      for i := 0 to |targets|
        invariant ObserveOptional(env, targets, startedAt, old(State())) ==
                  Continued(env, targets[i..], startedAt, State(), optionalResults)
      {
        var t := targets[i];
        ObserveOptionalStep(env, targets, i, startedAt, State(), optionalResults);
        if !t.required {
          var step := ObserveTarget(t, startedAt);
          match step
          case Unresolved => return Some(WaitsNotResolved(t.sink));
          case Aborted => return Some(GateCancelled);
          case Raised(cause) => return Some(Escaped(t.sink, cause));
          case Recorded(r) => optionalResults := optionalResults + [r];
        }
      }
      assert targets[|targets|..] == [] && optionalResults + [] == optionalResults;
      stop := None;
    }

    /** wait_for_fanout_ack_gate, the finally clause included. */
    method Wait(targets: seq<Target>) returns (exit: Exit)
      requires awaits == 0 && cancelled == {} && requiredResults == [] && optionalResults == []
      modifies this
      ensures (exit, State()) == Gate(env, targets, old(now))
    {
      var names := Names(targets);
      if !(names <= env.tasks.Keys) {
        return MissingOperations(names - env.tasks.Keys);
      }
      var startedAt := now;
      var stop := AwaitRequiredTargets(targets);
      if stop.Some? {
        exit := stop.value;
        if !exit.NeverReturns? {
          CancelTasks(names);
        }
        return;
      }
      stop := ObserveOptionalTargets(targets, startedAt);
      CancelTasks(names);
      exit := if stop.Some? then stop.value else Returned(GateResult(requiredResults, optionalResults));
    }
  }
}
