/** How long the gate waits for an optional target, said in seconds on the clock. */
module AckGateWindows {
  import opened Prelude
  import opened AckGate
  import opened AckGateProofs

  /** Within the minimum wait, counted from now, and within the timeout, counted from the start. */
  predicate InTime(t: Target, startedAt: real, now: real, moment: real)
    requires Resolved(t)
  {
    && moment <= now + t.minimumWaitMs.value as real / 1000.0
    && moment <= startedAt + t.timeoutMs.value as real / 1000.0
  }

  /** Past one of the two, even with the millisecond lost in rounding and the timer's own lag. */
  predicate TooLate(t: Target, startedAt: real, now: real, lag: real, moment: real)
    requires Resolved(t)
  {
    || moment > now + t.minimumWaitMs.value as real / 1000.0 + lag
    || moment > startedAt + (t.timeoutMs.value as real + 1.0) / 1000.0 + lag
  }

  /** The target is observed in w before its operation has ended, and the gate is not cancelled meanwhile. */
  predicate Watched(env: Env, t: Target, startedAt: real, w: World) {
    && t.sink in env.tasks && Resolved(t) && t.sink !in w.cancelled && !FinishedBy(env.tasks[t.sink], w.now)
    && !Observe(env, t, startedAt, w).0.Aborted?
  }

  function Report(sink: string, status: Status, errorType: Option<string>): Step {
    Recorded(TargetResult(sink, false, status, errorType))
  }

  /** What an operation that ends while it is watched leads to. */
  predicate EndsWith(step: Step, sink: string, outcome: Outcome) {
    && (outcome.Commits? ==> step == Report(sink, Committed, None))
    && (outcome.RaisesTimeout? ==> step == Report(sink, TimedOut, None))
    && (outcome.Fails? || outcome.IsCancelled? ==> step == Raised(outcome))
  }

  /**
   Exactly how a watched operation is reported and when: elapsed is the number of whole milliseconds since the
   start, and allowed the milliseconds the gate waits from now on.
   */
  lemma WatchedExactly(env: Env, t: Target, startedAt: real, w: World, elapsed: int, allowed: int)
    requires Watched(env, t, startedAt, w)
    requires elapsed as real <= (w.now - startedAt) * 1000.0 < elapsed as real + 1.0
    requires allowed == t.minimumWaitMs.value || allowed == t.timeoutMs.value - elapsed
    requires allowed <= t.minimumWaitMs.value && allowed <= t.timeoutMs.value - elapsed
    ensures var (step, w') := Observe(env, t, startedAt, w);
      var task, close := env.tasks[t.sink], w.now + allowed as real / 1000.0 + env.timerLag(w.awaits);
      if allowed > 0 && FinishedBy(task, close) then
        EndsWith(step, t.sink, task.outcome) && w'.now == task.finish.value + env.wakeLag(w.awaits)
      else
        && step == Report(t.sink, TimedOut, None) && t.sink in w'.cancelled
        && w'.now == (if allowed > 0 then close else w.now) + env.wakeLag(w.awaits)
  {
    WholeMilliseconds(startedAt, w.now, elapsed);
  }

  lemma WholeMilliseconds(startedAt: real, now: real, elapsed: int)
    requires elapsed as real <= (now - startedAt) * 1000.0 < elapsed as real + 1.0
    ensures ElapsedMs(startedAt, now) == elapsed
  {
  }

  /** Ending in time is enough, and ending too late is not. */
  lemma WatchedInTime(env: Env, t: Target, startedAt: real, w: World)
    requires Watched(env, t, startedAt, w)
    ensures var task, step := env.tasks[t.sink], Observe(env, t, startedAt, w).0;
      && (task.finish.Some? && InTime(t, startedAt, w.now, task.finish.value) ==>
            EndsWith(step, t.sink, task.outcome))
      && (task.finish.None? || TooLate(t, startedAt, w.now, env.timerLag(w.awaits), task.finish.value) ==>
            step == Report(t.sink, TimedOut, None))
  {
    var elapsed := ((w.now - startedAt) * 1000.0).Floor;
    var wait, rest := t.minimumWaitMs.value, t.timeoutMs.value - elapsed;
    var allowed := if wait < rest then wait else rest;
    WatchedExactly(env, t, startedAt, w, elapsed, allowed);
    RestOfTimeout(startedAt, w.now, t.timeoutMs.value, elapsed);
    assert env.timerLag(w.awaits) >= 0.0;
  }

  lemma RestOfTimeout(startedAt: real, now: real, timeout: int, elapsed: int)
    requires elapsed as real <= (now - startedAt) * 1000.0 < elapsed as real + 1.0
    ensures var rest := now + (timeout - elapsed) as real / 1000.0;
      startedAt + timeout as real / 1000.0 <= rest <= startedAt + (timeout as real + 1.0) / 1000.0
  {
  }

  /** An operation that had ended before it was observed is reported by how it ended, whatever the waits. */
  lemma EndedBefore(env: Env, t: Target, startedAt: real, w: World)
    requires t.sink in env.tasks && Resolved(t)
    requires t.sink in w.cancelled || FinishedBy(env.tasks[t.sink], w.now)
    ensures var (step, w') := Observe(env, t, startedAt, w);
      var outcome := env.tasks[t.sink].outcome;
      && w' == w
      && (if t.sink in w.cancelled || outcome.IsCancelled? then step == Report(t.sink, TimedOut, None)
          else if outcome.Commits? then step == Report(t.sink, Committed, None)
          else step == Report(t.sink, Failed, Some(if outcome.Fails? then outcome.errorType else "TimeoutError")))
  {
  }

  // ---------------------------------------------------------------- the gate's result

  lemma NotCancelledBefore(env: Env, targets: seq<Target>, startedAt: real, i: nat)
    requires Gate(env, targets, startedAt).0.Returned? && DistinctNames(targets) && i < |targets|
    ensures Scheduled(env, targets)
    ensures var w := RequiredEnd(env, targets, startedAt);
      var b := Before(env, targets, startedAt, w, i);
      targets[i].sink !in b.cancelled && w.now <= b.now
  {
    ReturnedPhases(env, targets, startedAt);
    BeforeMoves(env, targets, startedAt, RequiredEnd(env, targets, startedAt), i);
    assert targets[i].sink !in Names(targets[..i]);
  }

  /**
   A copy that succeeds within its minimum wait, counted from the end of the required phase, and within its
   timeout, counted from the start, is reported committed.
   */
  lemma CommittedInTime(env: Env, targets: seq<Target>, startedAt: real, i: nat)
    requires Gate(env, targets, startedAt).0.Returned? && DistinctNames(targets) && Scheduled(env, targets)
    requires i < |targets| && !targets[i].required && Resolved(targets[i])
    requires var task := env.tasks[targets[i].sink];
      && task.outcome.Commits? && task.finish.Some?
      && InTime(targets[i], startedAt, RequiredEnd(env, targets, startedAt).now, task.finish.value)
    ensures var optional := Gate(env, targets, startedAt).0.result.optional;
      && Rank(targets, i) < |optional|
      && optional[Rank(targets, i)] == TargetResult(targets[i].sink, false, Committed, None)
  {
    var t, w := targets[i], RequiredEnd(env, targets, startedAt);
    var b := Before(env, targets, startedAt, w, i);
    ReturnedPhases(env, targets, startedAt);
    OptionalResultAt(env, targets, startedAt, w, i);
    NotCancelledBefore(env, targets, startedAt, i);
    if FinishedBy(env.tasks[t.sink], b.now) {
      EndedBefore(env, t, startedAt, b);
    } else {
      WatchedInTime(env, t, startedAt, b);
    }
  }

  /** A copy that is still pending when the gate comes to it, and ends too late or never, is reported timed out. */
  lemma TimedOutTooLate(env: Env, targets: seq<Target>, startedAt: real, i: nat)
    requires Gate(env, targets, startedAt).0.Returned? && DistinctNames(targets) && Scheduled(env, targets)
    requires i < |targets| && !targets[i].required && Resolved(targets[i])
    requires var task := env.tasks[targets[i].sink];
      var b := Before(env, targets, startedAt, RequiredEnd(env, targets, startedAt), i);
      task.finish.Some? ==>
        && task.finish.value > b.now
        && TooLate(targets[i], startedAt, b.now, env.timerLag(b.awaits), task.finish.value)
    ensures var optional := Gate(env, targets, startedAt).0.result.optional;
      && Rank(targets, i) < |optional|
      && optional[Rank(targets, i)] == TargetResult(targets[i].sink, false, TimedOut, None)
  {
    var t, w := targets[i], RequiredEnd(env, targets, startedAt);
    ReturnedPhases(env, targets, startedAt);
    OptionalResultAt(env, targets, startedAt, w, i);
    NotCancelledBefore(env, targets, startedAt, i);
    WatchedInTime(env, t, startedAt, Before(env, targets, startedAt, w, i));
  }

  // ---------------------------------------------------------------- the gate's other exits

  lemma {:induction false} FirstInterruptionDecides(env: Env, targets: seq<Target>, startedAt: real, w: World, k: nat)
    requires env.cancelAt.None? && Scheduled(env, targets) && k < |targets|
    requires Interrupts(env, targets[k], startedAt, Before(env, targets, startedAt, w, k))
    requires forall j | 0 <= j < k :: !Interrupts(env, targets[j], startedAt, Before(env, targets, startedAt, w, j))
    ensures var t := targets[k];
      ObserveOptional(env, targets, startedAt, w).0 ==
      Interrupted(if Resolved(t) then Escaped(t.sink, env.tasks[t.sink].outcome) else WaitsNotResolved(t.sink))
    decreases k
  {
    var t, rest := targets[0], targets[1..];
    assert Before(env, targets, startedAt, w, 0) == w;
    if k > 0 {
      var w' := if t.required then w else Observe(env, t, startedAt, w).1;
      assert !Interrupts(env, t, startedAt, w);
      forall j | 0 <= j < |rest|
        ensures targets[j + 1] == rest[j]
        ensures Before(env, targets, startedAt, w, j + 1) == Before(env, rest, startedAt, w', j)
      {
      }
      FirstInterruptionDecides(env, rest, startedAt, w', k - 1);
    }
  }

  /** The exception that escapes is that of the first optional target, in list order, to raise inside its window. */
  lemma EscapeIsFirstInListOrder(env: Env, targets: seq<Target>, startedAt: real, k: nat)
    requires env.cancelAt.None? && Scheduled(env, targets) && NoneBlocks(env, targets) && k < |targets|
    requires Interrupts(env, targets[k], startedAt, CalmBefore(env, targets, startedAt, k))
    requires forall j | 0 <= j < k ::
      !Interrupts(env, targets[j], startedAt, CalmBefore(env, targets, startedAt, j))
    ensures var t := targets[k];
      Gate(env, targets, startedAt).0 ==
      if Resolved(t) then Escaped(t.sink, env.tasks[t.sink].outcome) else WaitsNotResolved(t.sink)
  {
    assert Undisturbed(env) == env;
    RequiredPhaseOutcome(env, targets, AtStart(startedAt));
    FirstInterruptionDecides(env, targets, startedAt, RequiredEnd(env, targets, startedAt), k);
  }

  /** So a copy that fails in time, while it is watched, makes the gate raise its failure. */
  lemma FailureInTimeEscapes(env: Env, targets: seq<Target>, startedAt: real, k: nat)
    requires env.cancelAt.None? && Scheduled(env, targets) && NoneBlocks(env, targets) && k < |targets|
    requires DistinctNames(targets) && !targets[k].required && Resolved(targets[k])
    requires forall j | 0 <= j < k ::
      !Interrupts(env, targets[j], startedAt, CalmBefore(env, targets, startedAt, j))
    requires var task, now := env.tasks[targets[k].sink], CalmBefore(env, targets, startedAt, k).now;
      && task.outcome.Fails? && task.finish.Some? && task.finish.value > now
      && InTime(targets[k], startedAt, now, task.finish.value)
    ensures Gate(env, targets, startedAt).0 == Escaped(targets[k].sink, env.tasks[targets[k].sink].outcome)
  {
    var t, b := targets[k], CalmBefore(env, targets, startedAt, k);
    assert Undisturbed(env) == env;
    RequiredPhaseOutcome(env, targets, AtStart(startedAt));
    BeforeMoves(env, targets, startedAt, RequiredEnd(env, targets, startedAt), k);
    assert t.sink !in Names(targets[..k]);
    WatchedInTime(env, t, startedAt, b);
    assert EndsInWindow(env, t, startedAt, b);
    EscapeIsFirstInListOrder(env, targets, startedAt, k);
  }
}
