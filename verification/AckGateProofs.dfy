/** What the ACK gate guarantees, for every schedule of the selected operations. */
module AckGateProofs {
  import opened Prelude
  import opened AckGate

  // ---------------------------------------------------------------- independent vocabulary

  /** A required target that keeps the gate from reaching the optional phase. */
  predicate Blocks(env: Env, t: Target)
    requires t.sink in env.tasks
  {
    t.required && (env.tasks[t.sink].finish.None? || !env.tasks[t.sink].outcome.Commits?)
  }

  predicate FirstBlocking(env: Env, targets: seq<Target>, k: nat)
    requires Scheduled(env, targets)
  {
    && k < |targets| && Blocks(env, targets[k])
    && forall j | 0 <= j < k :: !Blocks(env, targets[j])
  }

  function BlockExit(env: Env, t: Target): Exit
    requires t.sink in env.tasks
  {
    var task := env.tasks[t.sink];
    if task.finish.None? then NeverReturns(t.sink)
    else if task.outcome.IsCancelled? then Escaped(t.sink, IsCancelled)
    else RequiredSinkFailed(t.sink, task.outcome)
  }

  function SinksOf(targets: seq<Target>, required: bool): seq<string> {
    if targets == [] then []
    else (if targets[0].required == required then [targets[0].sink] else []) + SinksOf(targets[1..], required)
  }

  function ResultSinks(results: seq<TargetResult>): seq<string> {
    seq(|results|, i requires 0 <= i < |results| => results[i].sink)
  }

  /** Position of target i among the targets of the same kind. */
  function Rank(targets: seq<Target>, i: nat): nat
    requires i < |targets|
  {
    |SinksOf(targets[..i], targets[i].required)|
  }

  /** The state in which the optional phase, entered in w, comes to target i. */
  function Before(env: Env, targets: seq<Target>, startedAt: real, w: World, i: nat): World
    requires i <= |targets| && Scheduled(env, targets)
  {
    if i == 0 then w
    else
      var w' := if targets[0].required then w else Observe(env, targets[0], startedAt, w).1;
      Before(env, targets[1..], startedAt, w', i - 1)
  }

  /** An optional target whose exception reaches the caller of the gate. */
  predicate Interrupts(env: Env, t: Target, startedAt: real, w: World)
    requires t.sink in env.tasks
  {
    && !t.required
    && (Resolved(t) ==> EndsInWindow(env, t, startedAt, w)
                        && (env.tasks[t.sink].outcome.Fails? || env.tasks[t.sink].outcome.IsCancelled?))
  }

  // ---------------------------------------------------------------- required phase

  lemma BlockingLater(env: Env, targets: seq<Target>, k: nat)
    requires targets != [] && Scheduled(env, targets) && !Blocks(env, targets[0]) && FirstBlocking(env, targets[1..], k)
    ensures FirstBlocking(env, targets, k + 1) && targets[k + 1] == targets[1..][k]
  {
    assert forall i | 0 < i < |targets| :: targets[i] == targets[1..][i - 1];
  }

  lemma {:induction false} RequiredPhaseOutcome(env: Env, targets: seq<Target>, w: World)
    requires Scheduled(env, targets) && w.cancelled == {}
    ensures var (phase, end) := AwaitRequired(env, targets, w);
      && w.now <= end.now && w.awaits <= end.awaits && (end.cancelled == {} || phase == Stopped(GateCancelled))
      && (phase.AllCommitted? ==> forall i | 0 <= i < |targets| :: !Blocks(env, targets[i]))
      && (phase.AllCommitted? ==> ResultSinks(phase.results) == SinksOf(targets, true))
      && (phase.AllCommitted? ==> forall r | r in phase.results :: r == RequiredCommitted(r.sink))
      && (phase == Stopped(GateCancelled) ==> env.cancelAt.Some?)
      && (phase.Stopped? && phase != Stopped(GateCancelled) ==>
            exists k: nat :: FirstBlocking(env, targets, k) && phase.exit == BlockExit(env, targets[k]))
  {
    if targets != [] {
      var t, rest := targets[0], targets[1..];
      if Blocks(env, t) {
        assert FirstBlocking(env, targets, 0);
      } else {
        var w' := if !t.required || Done(env, w, t.sink) then w else AwaitTask(env, t.sink, w);
        RequiredPhaseOutcome(env, rest, w');
        var phase := AwaitRequired(env, rest, w').0;
        if phase.Stopped? && phase != Stopped(GateCancelled) {
          var k: nat :| FirstBlocking(env, rest, k) && phase.exit == BlockExit(env, rest[k]);
          BlockingLater(env, targets, k);
        }
        assert forall i | 0 < i < |targets| :: targets[i] == rest[i - 1];
      }
    }
  }

  // ---------------------------------------------------------------- one observation

  /** The exact status of every observation of a task that no one cancelled before. */
  lemma ObservedStatus(env: Env, t: Target, startedAt: real, w: World)
    requires t.sink in env.tasks && Resolved(t) && t.sink !in w.cancelled
    ensures var task, step := env.tasks[t.sink], Observe(env, t, startedAt, w).0;
      var early, inTime := FinishedBy(task, w.now), FinishedBy(task, Deadline(env, t, startedAt, w));
      && (step.Aborted? <==> !early && CancelledMeanwhile(env, w, Some(WaitEnds(env, t, startedAt, w))))
      && (!step.Aborted? ==>
            && (step == Recording(t.sink, Committed) <==> inTime && task.outcome.Commits?)
            && (step.Recorded? && step.result.status == Failed <==>
                  early && (task.outcome.Fails? || task.outcome.RaisesTimeout?))
            && (step == Recording(t.sink, TimedOut) <==>
                  !inTime || (early && task.outcome.IsCancelled?) || (!early && task.outcome.RaisesTimeout?))
            && (step.Raised? <==> inTime && !early && (task.outcome.Fails? || task.outcome.IsCancelled?)))
  {
    DeadlineIsAhead(env, t, startedAt, w);
  }

  lemma DeadlineIsAhead(env: Env, t: Target, startedAt: real, w: World)
    requires t.sink in env.tasks && Resolved(t)
    ensures w.now <= Deadline(env, t, startedAt, w)
    ensures !Done(env, w, t.sink) ==> w.now <= WaitEnds(env, t, startedAt, w) <= Deadline(env, t, startedAt, w)
  {
    assert env.timerLag(w.awaits) >= 0.0;
  }

  /** How the state moves in one observation. */
  lemma ObservationMoves(env: Env, t: Target, startedAt: real, w: World)
    requires t.sink in env.tasks
    ensures var w' := Observe(env, t, startedAt, w).1;
      && w.now <= w'.now && w.awaits <= w'.awaits <= w.awaits + 1 && (w'.awaits == w.awaits ==> w' == w)
      && (w'.cancelled == w.cancelled || (w'.cancelled == w.cancelled + {t.sink} && !Done(env, w, t.sink)))
  {
    assert env.wakeLag(w.awaits) >= 0.0;
    if Resolved(t) {
      DeadlineIsAhead(env, t, startedAt, w);
    }
  }

  // ---------------------------------------------------------------- optional phase

  lemma {:induction false} OptionalPhaseOutcome(env: Env, targets: seq<Target>, startedAt: real, w: World)
    requires Scheduled(env, targets)
    ensures var phase := ObserveOptional(env, targets, startedAt, w).0;
      && (phase.AllObserved? ==> ResultSinks(phase.results) == SinksOf(targets, false))
      && (env.cancelAt.None? ==>
            (phase.AllObserved? <==>
              forall i | 0 <= i < |targets| ::
                  !Interrupts(env, targets[i], startedAt, Before(env, targets, startedAt, w, i))))
  {
    if targets != [] {
      var t, rest := targets[0], targets[1..];
      var w' := if t.required then w else Observe(env, t, startedAt, w).1;
      OptionalPhaseOutcome(env, rest, startedAt, w');
      assert Before(env, targets, startedAt, w, 0) == w;
      forall i | 0 < i < |targets|
        ensures targets[i] == rest[i - 1]
        ensures Before(env, targets, startedAt, w, i) == Before(env, rest, startedAt, w', i - 1)
      {
      }
      assert env.cancelAt.None? ==>
        (t.required || Observe(env, t, startedAt, w).0.Recorded? <==> !Interrupts(env, t, startedAt, w));
    }
  }

  lemma {:induction false} OptionalResultAt(env: Env, targets: seq<Target>, startedAt: real, w: World, i: nat)
    requires Scheduled(env, targets) && i < |targets| && !targets[i].required
    requires ObserveOptional(env, targets, startedAt, w).0.AllObserved?
    ensures var results := ObserveOptional(env, targets, startedAt, w).0.results;
      && Rank(targets, i) < |results|
      && Observe(env, targets[i], startedAt, Before(env, targets, startedAt, w, i)).0
          == Recorded(results[Rank(targets, i)])
  {
    var t, rest := targets[0], targets[1..];
    if i > 0 {
      var w' := if t.required then w else Observe(env, t, startedAt, w).1;
      OptionalResultAt(env, rest, startedAt, w', i - 1);
      assert targets[..i][0] == t && targets[..i][1..] == rest[..i - 1];
    }
  }

  /** Time only moves forward, and no task that had ended is ever cancelled. */
  lemma {:induction false} BeforeMoves(env: Env, targets: seq<Target>, startedAt: real, w: World, i: nat)
    requires Scheduled(env, targets) && i <= |targets|
    ensures var b := Before(env, targets, startedAt, w, i);
      && w.now <= b.now && w.cancelled <= b.cancelled <= w.cancelled + Names(targets[..i])
      && forall n | n in b.cancelled - w.cancelled :: n in env.tasks && !FinishedBy(env.tasks[n], w.now)
  {
    if i > 0 {
      var t, rest := targets[0], targets[1..];
      var w' := if t.required then w else Observe(env, t, startedAt, w).1;
      ObservationMoves(env, t, startedAt, w);
      BeforeMoves(env, rest, startedAt, w', i - 1);
      assert targets[..i] == [t] + rest[..i - 1];
    }
  }

  // ---------------------------------------------------------------- time bounds

  /** The lateness of the event loop over suspensions a, ..., b - 1. */
  function LagOf(env: Env, a: nat, b: nat): real
    decreases b - a
  {
    if a >= b then 0.0 else env.timerLag(a) + env.wakeLag(a) + LagOf(env, a + 1, b)
  }

  function TotalMinimumWaitMs(targets: seq<Target>): nat {
    if targets == [] then 0
    else
      var t := targets[0];
      (if t.required || t.minimumWaitMs.None? then 0 else Max(0, t.minimumWaitMs.value))
          + TotalMinimumWaitMs(targets[1..])
  }

  /** No later than every optional timeout counted from the start, one millisecond of rounding included. */
  predicate CoversTimeouts(targets: seq<Target>, startedAt: real, limit: real) {
    forall t | t in targets && !t.required && t.timeoutMs.Some? ::
      startedAt + (t.timeoutMs.value as real + 1.0) / 1000.0 <= limit
  }

  /** The floor in elapsed_ms costs at most one millisecond. */
  lemma ObservationEnds(env: Env, t: Target, startedAt: real, w: World, limit: real)
    requires t.sink in env.tasks
    requires w.now <= limit && CoversTimeouts([t], startedAt, limit) && !t.required
    ensures var w' := Observe(env, t, startedAt, w).1;
      && w'.now <= limit + LagOf(env, w.awaits, w'.awaits)
      && w'.now <= w.now + TotalMinimumWaitMs([t]) as real / 1000.0 + LagOf(env, w.awaits, w'.awaits)
  {
    var w' := Observe(env, t, startedAt, w).1;
    assert t in [t];
    var timer, wake := env.timerLag(w.awaits), env.wakeLag(w.awaits);
    assert timer >= 0.0 && wake >= 0.0;
    if Resolved(t) && !Done(env, w, t.sink) {
      assert w'.awaits == w.awaits + 1
          && LagOf(env, w.awaits, w'.awaits) == timer + wake + LagOf(env, w.awaits + 1, w'.awaits);
      DeadlineIsAhead(env, t, startedAt, w);
      assert w'.now <= Deadline(env, t, startedAt, w) + wake;
      DeadlineIsBounded(env, t, startedAt, w, limit);
    }
  }

  lemma DeadlineIsBounded(env: Env, t: Target, startedAt: real, w: World, limit: real)
    requires Resolved(t) && w.now <= limit && startedAt + (t.timeoutMs.value as real + 1.0) / 1000.0 <= limit
             && !t.required
    ensures Deadline(env, t, startedAt, w) <= limit + env.timerLag(w.awaits)
    ensures Deadline(env, t, startedAt, w) <= w.now + TotalMinimumWaitMs([t]) as real / 1000.0 + env.timerLag(w.awaits)
  {
    assert env.timerLag(w.awaits) >= 0.0;
    var bounded := BoundedWaitMs(t, startedAt, w.now);
    if bounded > 0 {
      var elapsed := ElapsedMs(startedAt, w.now);
      assert bounded <= t.timeoutMs.value - elapsed;
      assert elapsed as real > (w.now - startedAt) * 1000.0 - 1.0;
      assert bounded as real / 1000.0 <= (t.timeoutMs.value as real + 1.0) / 1000.0 - (w.now - startedAt);
      assert TotalMinimumWaitMs([t]) >= bounded;
    }
  }

  lemma {:induction false} LagSplits(env: Env, a: nat, b: nat, c: nat)
    requires a <= b <= c
    ensures LagOf(env, a, c) == LagOf(env, a, b) + LagOf(env, b, c)
    ensures LagOf(env, a, b) >= 0.0
    decreases b - a
  {
    if a < b {
      LagSplits(env, a + 1, b, c);
      assert env.timerLag(a) >= 0.0 && env.wakeLag(a) >= 0.0;
    }
  }

  lemma {:induction false} OptionalPhaseEnds(env: Env, targets: seq<Target>, startedAt: real, w: World, limit: real)
    requires Scheduled(env, targets) && w.now <= limit && CoversTimeouts(targets, startedAt, limit)
    ensures var end := ObserveOptional(env, targets, startedAt, w).1;
      && w.awaits <= end.awaits <= w.awaits + |targets| && w.now <= end.now
      && end.now <= limit + LagOf(env, w.awaits, end.awaits)
      && end.now <= w.now + TotalMinimumWaitMs(targets) as real / 1000.0 + LagOf(env, w.awaits, end.awaits)
    decreases |targets|
  {
    if targets != [] {
      var t, rest := targets[0], targets[1..];
      if t.required {
        OptionalPhaseEnds(env, rest, startedAt, w, limit);
      } else {
        var (step, w') := Observe(env, t, startedAt, w);
        ObservationMoves(env, t, startedAt, w);
        assert CoversTimeouts([t], startedAt, limit);
        ObservationEnds(env, t, startedAt, w, limit);
        assert TotalMinimumWaitMs(targets) == TotalMinimumWaitMs([t]) + TotalMinimumWaitMs(rest);
        if step.Recorded? {
          var end := ObserveOptional(env, rest, startedAt, w').1;
          var lag := LagOf(env, w.awaits, w'.awaits);
          LagSplits(env, w.awaits, w'.awaits, w'.awaits);
          assert CoversTimeouts(rest, startedAt, limit + lag);
          OptionalPhaseEnds(env, rest, startedAt, w', limit + lag);
          LagSplits(env, w.awaits, w'.awaits, end.awaits);
        }
      }
    }
  }

  function Later(finish: Option<real>, time: real): real {
    if finish.Some? then MaxReal(finish.value, time) else time
  }

  /** When the last required operation ends, or startedAt if that is later. */
  function LastRequiredFinish(env: Env, targets: seq<Target>, startedAt: real): real
    requires Scheduled(env, targets)
  {
    if targets == [] then startedAt
    else if targets[0].required then
        Later(env.tasks[targets[0].sink].finish, LastRequiredFinish(env, targets[1..], startedAt))
    else LastRequiredFinish(env, targets[1..], startedAt)
  }

  predicate NoneBlocks(env: Env, targets: seq<Target>)
    requires Scheduled(env, targets)
  {
    forall i | 0 <= i < |targets| :: !Blocks(env, targets[i])
  }

  /** Every required operation ends by itself, one way or another. */
  predicate NoneHangs(env: Env, targets: seq<Target>)
    requires Scheduled(env, targets)
  {
    forall i | 0 <= i < |targets| && targets[i].required :: env.tasks[targets[i].sink].finish.Some?
  }

  /**
   Awaiting in list order costs no time: the phase ends with the last required operation, or before that when
   one of them fails or the gate is cancelled.
   */
  lemma {:induction false} RequiredPhaseEnds(env: Env, targets: seq<Target>, w: World, limit: real)
    requires Scheduled(env, targets) && w.cancelled == {} && NoneHangs(env, targets)
    requires LastRequiredFinish(env, targets, w.now) <= limit
    ensures var (phase, end) := AwaitRequired(env, targets, w);
      && w.now <= end.now <= limit + LagOf(env, w.awaits, end.awaits)
      && w.awaits <= end.awaits <= w.awaits + |targets|
      && (phase.AllCommitted? ==>
            && LastRequiredFinish(env, targets, w.now) <= end.now
            && forall t | t in targets && t.required :: FinishedBy(env.tasks[t.sink], end.now))
    decreases |targets|
  {
    if targets != [] {
      var t, rest := targets[0], targets[1..];
      FinishAtLeast(env, rest, w.now);
      assert env.timerLag(w.awaits) >= 0.0 && env.wakeLag(w.awaits) >= 0.0;
      assert (t.required ==> env.tasks[targets[0].sink].finish.Some?) && forall i | 0 <= i < |rest| ::
          rest[i] == targets[i + 1];
      if t.required && !Done(env, w, t.sink) {
        assert LagOf(env, w.awaits, w.awaits + 1)
            == env.timerLag(w.awaits) + env.wakeLag(w.awaits) + LagOf(env, w.awaits + 1, w.awaits + 1);
      }
      if !(t.required && !Done(env, w, t.sink) && CancelledMeanwhile(env, w, env.tasks[t.sink].finish)) {
        var w' := if !t.required || Done(env, w, t.sink) then w else AwaitTask(env, t.sink, w);
        var lag := LagOf(env, w.awaits, w'.awaits);
        FinishMoves(env, rest, w.now, w'.now);
        RequiredPhaseEnds(env, rest, w', limit + lag);
        var end := AwaitRequired(env, rest, w').1;
        LagSplits(env, w.awaits, w'.awaits, end.awaits);
        assert forall u | u in targets :: u == t || u in rest;
      }
    }
  }

  lemma {:induction false} FinishAtLeast(env: Env, targets: seq<Target>, startedAt: real)
    requires Scheduled(env, targets)
    ensures startedAt <= LastRequiredFinish(env, targets, startedAt)
  {
    if targets != [] {
      FinishAtLeast(env, targets[1..], startedAt);
    }
  }

  lemma {:induction false} FinishMoves(env: Env, targets: seq<Target>, early: real, late: real)
    requires Scheduled(env, targets) && early <= late
    ensures LastRequiredFinish(env, targets, late) == MaxReal(late, LastRequiredFinish(env, targets, early))
  {
    if targets != [] {
      FinishMoves(env, targets[1..], early, late);
    }
  }

  // ---------------------------------------------------------------- cancellation of the gate

  /** The same schedule without cancellation of the gate. */
  function Undisturbed(env: Env): Env {
    env.(cancelAt := None)
  }

  /** The gate is cancelled while it would still be suspended: it waits forever, or it last wakes up later than that. */
  predicate Hit(env: Env, w: World, end: World, waitsForever: bool) {
    env.cancelAt.Some? && (waitsForever || (w.awaits < end.awaits && env.cancelAt.value < end.now))
  }

  predicate WaitsForever(phase: RequiredPhase) {
    phase.Stopped? && phase.exit.NeverReturns?
  }

  /** Cancellation takes effect in this run of the gate. */
  predicate Disturbed(env: Env, targets: seq<Target>, startedAt: real) {
    var (exit, end) := Gate(Undisturbed(env), targets, startedAt);
    Hit(env, AtStart(startedAt), end, exit.NeverReturns?)
  }

  lemma {:induction false} RequiredUnderCancellation(env: Env, targets: seq<Target>, w: World)
    requires Scheduled(env, targets)
    ensures var (phase, end) := AwaitRequired(Undisturbed(env), targets, w);
      && w.now <= end.now && w.awaits <= end.awaits && (end.awaits == w.awaits ==> end == w)
      && (phase.Stopped? ==> !phase.exit.GateCancelled?)
      && (if Hit(env, w, end, WaitsForever(phase)) then AwaitRequired(env, targets, w).0 == Stopped(GateCancelled)
          else AwaitRequired(env, targets, w) == (phase, end))
    decreases |targets|
  {
    if targets != [] {
      var t, rest := targets[0], targets[1..];
      assert env.wakeLag(w.awaits) >= 0.0;
      if !t.required || Done(env, w, t.sink) {
        RequiredUnderCancellation(env, rest, w);
      } else if env.tasks[t.sink].finish.Some? {
        RequiredUnderCancellation(env, rest, AwaitTask(env, t.sink, w));
      }
    }
  }

  lemma {:induction false} OptionalUnderCancellation(env: Env, targets: seq<Target>, startedAt: real, w: World)
    requires Scheduled(env, targets)
    ensures var (phase, end) := ObserveOptional(Undisturbed(env), targets, startedAt, w);
      && w.now <= end.now && w.awaits <= end.awaits && (end.awaits == w.awaits ==> end == w)
      && (phase.Interrupted? ==> !phase.exit.GateCancelled?)
      && (if Hit(env, w, end, false) then ObserveOptional(env, targets, startedAt, w).0 == Interrupted(GateCancelled)
          else ObserveOptional(env, targets, startedAt, w) == (phase, end))
    decreases |targets|
  {
    if targets != [] {
      var t, rest := targets[0], targets[1..];
      if t.required {
        OptionalUnderCancellation(env, rest, startedAt, w);
      } else {
        ObservationMoves(Undisturbed(env), t, startedAt, w);
        ObservationUnderCancellation(env, t, startedAt, w);
        OptionalUnderCancellation(env, rest, startedAt, Observe(Undisturbed(env), t, startedAt, w).1);
      }
    }
  }

  lemma ObservationUnderCancellation(env: Env, t: Target, startedAt: real, w: World)
    requires t.sink in env.tasks
    ensures var (step, w') := Observe(Undisturbed(env), t, startedAt, w);
      && !step.Aborted?
      && (if Hit(env, w, w', false) then Observe(env, t, startedAt, w).0.Aborted?
          else Observe(env, t, startedAt, w) == (step, w'))
  {
    if Resolved(t) && !Done(env, w, t.sink) {
      assert WaitEnds(Undisturbed(env), t, startedAt, w) == WaitEnds(env, t, startedAt, w);
      assert EndsInWindow(Undisturbed(env), t, startedAt, w) == EndsInWindow(env, t, startedAt, w);
    }
  }

  lemma CleanupAnyway(env: Env, names: set<string>, w: World)
    requires names <= env.tasks.Keys
    ensures CancelPending(Undisturbed(env), names, w) == CancelPending(env, names, w)
  {
    assert forall n | n in names :: Done(Undisturbed(env), w, n) == Done(env, w, n);
  }

  /**
   Cancelling the gate reaches its caller exactly when it comes before the gate's last wake-up, or the gate
   would wait forever; otherwise the run is, step for step, the run without cancellation.
   */
  lemma CancellationTakesEffectExactly(env: Env, targets: seq<Target>, startedAt: real)
    ensures Gate(env, targets, startedAt).0.GateCancelled? <==> Disturbed(env, targets, startedAt)
    ensures !Disturbed(env, targets, startedAt) ==>
      Gate(env, targets, startedAt) == Gate(Undisturbed(env), targets, startedAt)
  {
    if Scheduled(env, targets) {
      var calm, start := Undisturbed(env), AtStart(startedAt);
      RequiredUnderCancellation(env, targets, start);
      var (required, w) := AwaitRequired(calm, targets, start);
      if required.Stopped? {
        assert Disturbed(env, targets, startedAt) == Hit(env, start, w, WaitsForever(required));
        CleanupAnyway(env, Names(targets), w);
      } else {
        OptionalUnderCancellation(env, targets, startedAt, w);
        OptionalExits(calm, targets, startedAt, w);
        var end := ObserveOptional(calm, targets, startedAt, w).1;
        assert Disturbed(env, targets, startedAt) == Hit(env, start, end, false);
        CleanupAnyway(env, Names(targets), end);
      }
    }
  }

  lemma {:induction false} RequiredCancelledEnds(env: Env, targets: seq<Target>, w: World)
    requires Scheduled(env, targets) && w.cancelled == {} && AwaitRequired(env, targets, w).0 == Stopped(GateCancelled)
    ensures var end := AwaitRequired(env, targets, w).1;
      && env.cancelAt.Some? && w.awaits < end.awaits
      && env.cancelAt.value <= end.now <= MaxReal(env.cancelAt.value, w.now) + env.wakeLag(end.awaits - 1)
      && end.cancelled <= Names(targets)
      && forall n | n in end.cancelled ::
          !FinishedBy(env.tasks[n], MinReal(MaxReal(env.cancelAt.value, w.now), end.now))
    decreases |targets|
  {
    var t, rest := targets[0], targets[1..];
    assert env.wakeLag(w.awaits) >= 0.0;
    assert t in targets && t.sink in Names(targets);
    assert forall u | u in rest :: u in targets;
    if !t.required || Done(env, w, t.sink) {
      RequiredCancelledEnds(env, rest, w);
    } else if !CancelledMeanwhile(env, w, env.tasks[t.sink].finish) {
      RequiredCancelledEnds(env, rest, AwaitTask(env, t.sink, w));
    }
  }

  // ---------------------------------------------------------------- main results

  /** The state in which the undisturbed optional phase comes to target i. */
  function CalmBefore(env: Env, targets: seq<Target>, startedAt: real, i: nat): World
    requires Scheduled(env, targets) && i <= |targets|
  {
    Before(Undisturbed(env), targets, startedAt, RequiredEnd(Undisturbed(env), targets, startedAt), i)
  }

  /**
   The gate returns a result exactly when nothing blocks it, no optional exception escapes and it is not
   cancelled.
   */
  lemma GateReturnsExactly(env: Env, targets: seq<Target>, startedAt: real)
    ensures var exit := Gate(env, targets, startedAt).0;
      && (exit.MissingOperations? <==> !Scheduled(env, targets))
      && (exit.MissingOperations? ==>
            exit.names == set t | t in targets && t.sink !in env.tasks :: t.sink)
      && (exit.Returned? <==>
            && Scheduled(env, targets) && NoneBlocks(env, targets)
            && (forall i | 0 <= i < |targets| ::
                  !Interrupts(env, targets[i], startedAt, CalmBefore(env, targets, startedAt, i)))
            && !Disturbed(env, targets, startedAt))
  {
    CancellationTakesEffectExactly(env, targets, startedAt);
    if Scheduled(env, targets) {
      GateIsNotMissing(env, targets, startedAt);
      CalmGateReturnsExactly(Undisturbed(env), targets, startedAt);
      forall i | 0 <= i < |targets|
        ensures Interrupts(env, targets[i], startedAt, CalmBefore(env, targets, startedAt, i)) <==>
                Interrupts(Undisturbed(env), targets[i], startedAt, CalmBefore(env, targets, startedAt, i))
      {
        InterruptsAnyway(env, targets[i], startedAt, CalmBefore(env, targets, startedAt, i));
      }
    }
  }

  lemma GateIsNotMissing(env: Env, targets: seq<Target>, startedAt: real)
    requires Scheduled(env, targets)
    ensures !Gate(env, targets, startedAt).0.MissingOperations?
  {
    RequiredPhaseOutcome(env, targets, AtStart(startedAt));
    OptionalExits(env, targets, startedAt, RequiredEnd(env, targets, startedAt));
  }

  lemma InterruptsAnyway(env: Env, t: Target, startedAt: real, w: World)
    requires t.sink in env.tasks
    ensures Interrupts(Undisturbed(env), t, startedAt, w) == Interrupts(env, t, startedAt, w)
  {
  }

  lemma CalmGateReturnsExactly(env: Env, targets: seq<Target>, startedAt: real)
    requires env.cancelAt.None? && Scheduled(env, targets)
    ensures Gate(env, targets, startedAt).0.Returned? <==>
      && NoneBlocks(env, targets)
      && forall i | 0 <= i < |targets| ::
           !Interrupts(env, targets[i], startedAt,
               Before(env, targets, startedAt, RequiredEnd(env, targets, startedAt), i))
  {
    RequiredPhaseOutcome(env, targets, AtStart(startedAt));
    OptionalPhaseOutcome(env, targets, startedAt, RequiredEnd(env, targets, startedAt));
    OptionalExits(env, targets, startedAt, RequiredEnd(env, targets, startedAt));
  }

  lemma {:induction false} OptionalExits(env: Env, targets: seq<Target>, startedAt: real, w: World)
    requires Scheduled(env, targets)
    ensures var phase := ObserveOptional(env, targets, startedAt, w).0;
      phase.Interrupted? ==> phase.exit.Escaped? || phase.exit.WaitsNotResolved? || phase.exit.GateCancelled?
  {
    if targets != [] {
      var t, rest := targets[0], targets[1..];
      OptionalExits(env, rest, startedAt, if t.required then w else Observe(env, t, startedAt, w).1);
    }
  }

  /** A gate that returned got through both of its phases. */
  lemma ReturnedPhases(env: Env, targets: seq<Target>, startedAt: real)
    requires Gate(env, targets, startedAt).0.Returned?
    ensures Scheduled(env, targets) && AwaitRequired(env, targets, AtStart(startedAt)).0.AllCommitted?
    ensures RequiredEnd(env, targets, startedAt).cancelled == {}
    ensures ObserveOptional(env, targets, startedAt, RequiredEnd(env, targets, startedAt)).0.AllObserved?
  {
    RequiredPhaseOutcome(env, targets, AtStart(startedAt));
    OptionalExits(env, targets, startedAt, RequiredEnd(env, targets, startedAt));
  }

  /** A returned result lists every target once, in configured order, the required ones committed. */
  lemma GateResultIsComplete(env: Env, targets: seq<Target>, startedAt: real)
    requires Gate(env, targets, startedAt).0.Returned?
    ensures var result := Gate(env, targets, startedAt).0.result;
      && ResultSinks(result.required) == SinksOf(targets, true)
      && ResultSinks(result.optional) == SinksOf(targets, false)
      && (forall r | r in result.required :: r.status == Committed)
      && (forall t | t in targets && t.required :: env.tasks[t.sink].outcome.Commits?)
  {
    ReturnedPhases(env, targets, startedAt);
    RequiredPhaseOutcome(env, targets, AtStart(startedAt));
    OptionalPhaseOutcome(env, targets, startedAt, RequiredEnd(env, targets, startedAt));
    forall t | t in targets && t.required
      ensures env.tasks[t.sink].outcome.Commits?
    {
      var i :| 0 <= i < |targets| && targets[i] == t;
      assert !Blocks(env, targets[i]);
    }
  }

  /**
   Unless the gate is cancelled, the failure reported is the first blocking target in list order, whatever
   finished first.
   */
  lemma RequiredFailureIsFirstInListOrder(env: Env, targets: seq<Target>, startedAt: real, k: nat)
    requires Scheduled(env, targets) && FirstBlocking(env, targets, k)
    ensures Gate(env, targets, startedAt).0 ==
            if Disturbed(env, targets, startedAt) then GateCancelled else BlockExit(env, targets[k])
  {
    var calm := Undisturbed(env);
    CancellationTakesEffectExactly(env, targets, startedAt);
    assert Scheduled(calm, targets) && FirstBlocking(calm, targets, k);
    RequiredPhaseOutcome(calm, targets, AtStart(startedAt));
    var phase := AwaitRequired(calm, targets, AtStart(startedAt)).0;
    var j: nat :| FirstBlocking(calm, targets, j) && phase.exit == BlockExit(calm, targets[j]);
    assert j == k;
    assert BlockExit(calm, targets[k]) == BlockExit(env, targets[k]);
  }

  lemma RequiredFailureNeedsBlockingTarget(env: Env, targets: seq<Target>, startedAt: real)
    requires Gate(env, targets, startedAt).0.RequiredSinkFailed? || Gate(env, targets, startedAt).0.NeverReturns?
    ensures exists k: nat :: Scheduled(env, targets) && FirstBlocking(env, targets, k)
  {
    RequiredPhaseOutcome(env, targets, AtStart(startedAt));
    OptionalExits(env, targets, startedAt, RequiredEnd(env, targets, startedAt));
  }

  /** Only a required operation that never ends keeps the gate forever, and only as long as no one cancels the gate. */
  lemma NeverReturnsExactly(env: Env, targets: seq<Target>, startedAt: real)
    requires Scheduled(env, targets)
    ensures Gate(env, targets, startedAt).0.NeverReturns? <==>
      env.cancelAt.None? && exists k: nat :: FirstBlocking(env, targets, k) && env.tasks[targets[k].sink].finish.None?
  {
    var calm := Undisturbed(env);
    CancellationTakesEffectExactly(env, targets, startedAt);
    RequiredPhaseOutcome(env, targets, AtStart(startedAt));
    OptionalExits(env, targets, startedAt, RequiredEnd(env, targets, startedAt));
    if k: nat :| FirstBlocking(env, targets, k) && env.tasks[targets[k].sink].finish.None? {
      RequiredFailureIsFirstInListOrder(env, targets, startedAt, k);
      if env.cancelAt.Some? {
        assert FirstBlocking(calm, targets, k);
        RequiredFailureIsFirstInListOrder(calm, targets, startedAt, k);
      }
    }
  }

  /** The two bounds on the moment the gate lets go, whether or not the required operations succeed. */
  lemma GateEndsInTime(env: Env, targets: seq<Target>, startedAt: real, limit: real)
    requires Scheduled(env, targets) && NoneHangs(env, targets)
    requires LastRequiredFinish(env, targets, startedAt) <= limit && CoversTimeouts(targets, startedAt, limit)
    ensures var (exit, end) := Gate(env, targets, startedAt);
      && end.awaits <= 2 * |targets|
      && end.now <= limit + LagOf(env, 0, end.awaits)
      && end.now <= LastRequiredFinish(env, targets, startedAt)
                    + TotalMinimumWaitMs(targets) as real / 1000.0 + LagOf(env, 0, end.awaits)
      && (exit.Returned? ==> LastRequiredFinish(env, targets, startedAt) <= end.now)
  {
    RequiredPhaseOutcome(env, targets, AtStart(startedAt));
    RequiredPhaseEnds(env, targets, AtStart(startedAt), LastRequiredFinish(env, targets, startedAt));
    var w := RequiredEnd(env, targets, startedAt);
    LagSplits(env, 0, w.awaits, w.awaits);
    if AwaitRequired(env, targets, AtStart(startedAt)).0.AllCommitted? {
      var end := ObserveOptional(env, targets, startedAt, w).1;
      OptionalPhaseEnds(env, targets, startedAt, w, limit + LagOf(env, 0, w.awaits));
      LagSplits(env, 0, w.awaits, end.awaits);
    }
  }

  /** No operation that had ended by then is cancelled: the end of the required phase, or cancellation during it. */
  function Horizon(env: Env, targets: seq<Target>, startedAt: real): real
    requires Scheduled(env, targets)
  {
    var end := RequiredEnd(env, targets, startedAt).now;
    if env.cancelAt.None? then end else MinReal(MaxReal(env.cancelAt.value, startedAt), end)
  }

  /**
   Whatever the exit, cancellation of the gate included, nothing scheduled is left running, nor cancelled
   without need.
   */
  lemma GateLeavesNothingRunning(env: Env, targets: seq<Target>, startedAt: real)
    requires Scheduled(env, targets)
    ensures var (exit, end) := Gate(env, targets, startedAt);
      || (exit.NeverReturns? && env.cancelAt.None?)
      || (&& (forall n | n in Names(targets) :: Done(env, end, n))
          && end.cancelled <= Names(targets)
          && (forall n | n in end.cancelled :: !FinishedBy(env.tasks[n], Horizon(env, targets, startedAt)))
          && (exit.Returned? ==> forall t | t in targets && t.required :: t.sink !in end.cancelled))
  {
    var w := RequiredEnd(env, targets, startedAt);
    NeverReturnsExactly(env, targets, startedAt);
    RequiredPhaseOutcome(env, targets, AtStart(startedAt));
    var (required, _) := AwaitRequired(env, targets, AtStart(startedAt));
    if required.AllCommitted? {
      RequiredPhaseEnds(env, targets, AtStart(startedAt), LastRequiredFinish(env, targets, startedAt));
      OptionalPhaseCancels(env, targets, startedAt, w);
    } else if required == Stopped(GateCancelled) {
      RequiredCancelledEnds(env, targets, AtStart(startedAt));
    }
  }

  /** A cancelled gate lets go at its next wake-up, and not before it was cancelled. */
  lemma CancelledGateLetsGo(env: Env, targets: seq<Target>, startedAt: real)
    requires Gate(env, targets, startedAt).0.GateCancelled?
    ensures var end := Gate(env, targets, startedAt).1;
      && env.cancelAt.Some? && end.awaits > 0
      && env.cancelAt.value <= end.now <= MaxReal(env.cancelAt.value, startedAt) + env.wakeLag(end.awaits - 1)
  {
    CancellationTakesEffectExactly(env, targets, startedAt);
    RequiredPhaseOutcome(env, targets, AtStart(startedAt));
    var (required, w) := AwaitRequired(env, targets, AtStart(startedAt));
    if required.AllCommitted? {
      RequiredUnderCancellation(env, targets, AtStart(startedAt));
      OptionalCancelledEnds(env, targets, startedAt, w, MaxReal(env.cancelAt.value, startedAt));
    } else {
      RequiredCancelledEnds(env, targets, AtStart(startedAt));
    }
  }

  lemma {:induction false} OptionalCancelledEnds(env: Env, targets: seq<Target>, startedAt: real, w: World, limit: real)
    requires Scheduled(env, targets) && ObserveOptional(env, targets, startedAt, w).0 == Interrupted(GateCancelled)
    requires env.cancelAt.Some? && w.now <= limit && env.cancelAt.value <= limit
    ensures var end := ObserveOptional(env, targets, startedAt, w).1;
      w.awaits < end.awaits && env.cancelAt.value <= end.now <= limit + env.wakeLag(end.awaits - 1)
    decreases |targets|
  {
    var t, rest := targets[0], targets[1..];
    if t.required {
      OptionalCancelledEnds(env, rest, startedAt, w, limit);
    } else {
      var (step, w') := Observe(env, t, startedAt, w);
      ObservationMoves(env, t, startedAt, w);
      if !step.Aborted? {
        assert w'.now <= limit;
        OptionalCancelledEnds(env, rest, startedAt, w', limit);
      }
    }
  }

  lemma {:induction false} OptionalPhaseCancels(env: Env, targets: seq<Target>, startedAt: real, w: World)
    requires Scheduled(env, targets)
    ensures var end := ObserveOptional(env, targets, startedAt, w).1;
      && w.now <= end.now && w.cancelled <= end.cancelled <= w.cancelled + Names(targets)
      && forall n | n in end.cancelled - w.cancelled :: !FinishedBy(env.tasks[n], w.now)
  {
    if targets != [] {
      var t, rest := targets[0], targets[1..];
      ObservationMoves(env, t, startedAt, w);
      OptionalPhaseCancels(env, rest, startedAt, if t.required then w else Observe(env, t, startedAt, w).1);
      assert t in targets && t.sink in Names(targets);
    }
  }

  /** Fairness: an optional copy that had succeeded when the required phase ended is reported committed. */
  lemma EarlySuccessIsCommitted(env: Env, targets: seq<Target>, startedAt: real, i: nat)
    requires Gate(env, targets, startedAt).0.Returned? && i < |targets| && !targets[i].required
    requires Scheduled(env, targets) && env.tasks[targets[i].sink].outcome.Commits?
    requires FinishedBy(env.tasks[targets[i].sink], RequiredEnd(env, targets, startedAt).now)
    ensures var optional := Gate(env, targets, startedAt).0.result.optional;
      Rank(targets, i) < |optional| && optional[Rank(targets, i)].status == Committed
  {
    var w := RequiredEnd(env, targets, startedAt);
    ReturnedPhases(env, targets, startedAt);
    BeforeMoves(env, targets, startedAt, w, i);
    OptionalResultAt(env, targets, startedAt, w, i);
  }

  /** With distinct sink names, an optional target is reported committed exactly when it succeeds by its deadline. */
  lemma CommittedExactlyByDeadline(env: Env, targets: seq<Target>, startedAt: real, i: nat)
    requires Gate(env, targets, startedAt).0.Returned? && DistinctNames(targets)
    requires Scheduled(env, targets) && i < |targets| && !targets[i].required
    ensures var t, task := targets[i], env.tasks[targets[i].sink];
      var optional := Gate(env, targets, startedAt).0.result.optional;
      var b := Before(env, targets, startedAt, RequiredEnd(env, targets, startedAt), i);
      && Resolved(t) && Rank(targets, i) < |optional|
      && (optional[Rank(targets, i)].status == Committed <==>
            task.outcome.Commits? && FinishedBy(task, Deadline(env, t, startedAt, b)))
      && (optional[Rank(targets, i)].status == Failed <==>
            (task.outcome.Fails? || task.outcome.RaisesTimeout?) && FinishedBy(task, b.now))
  {
    var t, w := targets[i], RequiredEnd(env, targets, startedAt);
    var b := Before(env, targets, startedAt, w, i);
    ReturnedPhases(env, targets, startedAt);
    OptionalResultAt(env, targets, startedAt, w, i);
    BeforeMoves(env, targets, startedAt, w, i);
    assert t.sink !in Names(targets[..i]);
    ObservedStatus(env, t, startedAt, b);
  }

  /** "Optional targets never block the ACK" is not what the code does: one failing inside its window escapes. */
  lemma OptionalFailureCanEscape()
    ensures exists env: Env, targets: seq<Target> ::
      && Scheduled(env, targets) && DistinctNames(targets) && NoneBlocks(env, targets)
      && (forall t | t in targets :: t.required || Resolved(t))
      && Gate(env, targets, 0.0).0 == Escaped("audit", Fails("RuntimeError"))
  {
    var zero: nat -> Lag := (n: nat) => 0.0;
    var tasks := map["primary" := Task(Some(0.0), Commits), "audit" := Task(Some(0.01), Fails("RuntimeError"))];
    var env := Env(tasks, zero, zero, None);
    var primary, audit := Target("primary", true, None, None), Target("audit", false, Some(25), Some(100));
    var targets := [primary, audit];
    assert targets[1..] == [audit];
    var w := AtStart(0.0);
    assert AwaitRequired(env, [audit], w) == (AllCommitted([]), w);
    assert Done(env, w, "primary") && EffectiveOutcome(env, w, "primary").Commits?;
    assert AwaitRequired(env, targets, w) == (PrependRequired([RequiredCommitted("primary")], AllCommitted([])), w);
    assert EndsInWindow(env, audit, 0.0, w);
    assert Observe(env, audit, 0.0, w).0 == Raised(Fails("RuntimeError"));
    assert ObserveOptional(env, targets, 0.0, w).0 == ObserveOptional(env, [audit], 0.0, w).0;
    assert Gate(env, targets, 0.0).0 == Escaped("audit", Fails("RuntimeError"));
  }
}
