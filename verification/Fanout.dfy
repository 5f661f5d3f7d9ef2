/** From a batch to the child sinks' own batches (src/nats_sinks/core/fanout_sink.py). */
module Fanout {
  import opened Prelude
  import opened AckGate
  import opened Routing
  import RoutingProofs

  /** What one child sink is asked to write, by position in the batch, and how strictly. */
  datatype Selected = Selected(policy: Target, messages: seq<nat>)

  /** Message i, once for each target of the given name. */
  function SentBy(i: nat, targets: seq<Target>, sink: string): seq<nat> {
    if targets == [] then []
    else SentBy(i, targets[..|targets| - 1], sink) + if targets[|targets| - 1].sink == sink then [i] else []
  }

  type Selection = Matching -> Result<seq<Target>, SelectionError>

  function SelectionOf(p: Policy): Selection {
    e => SelectTargets(p, e)
  }

  /** The messages among the first n that are sent to a sink, in order. */
  function Sends(p: Policy, batch: seq<Matching>, n: nat, sink: string): seq<nat>
    requires n <= |batch|
  {
    SendsUnder(SelectionOf(p), batch, n, sink)
  }

  function SendsUnder(select: Selection, batch: seq<Matching>, n: nat, sink: string): seq<nat>
    requires n <= |batch|
  {
    if n == 0 then []
    else
      var selected := select(batch[n - 1]);
      SendsUnder(select, batch, n - 1, sink) + if selected.Success? then SentBy(n - 1, selected.value, sink) else []
  }

  function SelectedFor(p: Policy, batch: seq<Matching>): Result<seq<Selected>, SelectionError> {
    var targets :- GateTargets(p, batch);
    Success(seq(|targets|, k requires 0 <= k < |targets| =>
      Selected(targets[k], Sends(p, batch, |batch|, targets[k].sink))))
  }

  // ---------------------------------------------------------------- the dictionaries

  /** The dictionary of policies and the order of its keys say the same as the merged list. */
  predicate Describes(ordered: seq<string>, policies: map<string, Target>, merged: seq<Target>) {
    && |ordered| == |merged| && DistinctNames(merged) && policies.Keys == Names(merged)
    && forall k | 0 <= k < |merged| ::
         ordered[k] == merged[k].sink && ordered[k] in policies && policies[ordered[k]] == merged[k]
  }

  function MessagesOf(grouped: map<string, seq<nat>>, sink: string): seq<nat> {
    if sink in grouped then grouped[sink] else []
  }

  lemma NewSink(ordered: seq<string>, policies: map<string, Target>, merged: seq<Target>, t: Target)
    requires Describes(ordered, policies, merged) && t.sink !in policies
    ensures Describes(ordered + [t.sink], policies[t.sink := t], MergeInto(merged, t))
  {
    var j := RoutingProofs.MergeIntoAt(merged, t);
    assert forall k | 0 <= k < |merged| :: merged[k].sink in Names(merged);
    assert j == |merged|;
    RoutingProofs.AddedNames(merged, t);
  }

  lemma KnownSink(ordered: seq<string>, policies: map<string, Target>, merged: seq<Target>, t: Target)
    requires Describes(ordered, policies, merged) && t.sink in policies
    ensures Describes(ordered, policies[t.sink := Merge(policies[t.sink], t)], MergeInto(merged, t))
  {
    var j := RoutingProofs.MergeIntoAt(merged, t);
    if j == |merged| {
      RoutingProofs.NotNamed(merged, t.sink);
      assert false;
    }
    var m := Merge(merged[j], t);
    RoutingProofs.ReplacedNames(merged, j, m);
    assert policies[t.sink] == merged[j];
  }

  lemma {:induction false} MergeOneMore(merged: seq<Target>, selected: seq<Target>, t: Target)
    ensures MergeAll(merged, selected + [t]) == MergeInto(MergeAll(merged, selected), t)
    decreases |selected|
  {
    if selected == [] {
      assert (selected + [t])[1..] == [];
    } else {
      assert (selected + [t])[0] == selected[0] && (selected + [t])[1..] == selected[1..] + [t];
      MergeOneMore(MergeInto(merged, selected[0]), selected[1..], t);
    }
  }

  /** Message i has been added for the given targets. */
  ghost predicate Grown(before: map<string, seq<nat>>, after: map<string, seq<nat>>, i: nat, targets: seq<Target>) {
    forall sink :: MessagesOf(after, sink) == MessagesOf(before, sink) + SentBy(i, targets, sink)
  }

  /** One turn of the inner loop of _select_targets. */
  method AddTarget(i: nat, t: Target, ordered: seq<string>, policies: map<string, Target>,
                   grouped: map<string, seq<nat>>, ghost merged: seq<Target>)
    returns (ordered': seq<string>, policies': map<string, Target>, grouped': map<string, seq<nat>>)
    requires Describes(ordered, policies, merged) && grouped.Keys == policies.Keys
    ensures Describes(ordered', policies', MergeInto(merged, t)) && grouped'.Keys == policies'.Keys
    ensures grouped' == grouped[t.sink := MessagesOf(grouped, t.sink) + [i]]
  {
    ordered', policies', grouped' := ordered, policies, grouped;
    if t.sink !in policies {
      NewSink(ordered, policies, merged, t);
      ordered', policies', grouped' := ordered + [t.sink], policies[t.sink := t], grouped[t.sink := []];
    } else {
      KnownSink(ordered, policies, merged, t);
      policies' := policies[t.sink := Merge(policies[t.sink], t)];
    }
    grouped' := grouped'[t.sink := grouped'[t.sink] + [i]];
  }

  /** Its inner loop: the selection of message i is added, target by target. */
  method AddSelection(i: nat, selected: seq<Target>, ordered: seq<string>, policies: map<string, Target>,
                      grouped: map<string, seq<nat>>, ghost merged: seq<Target>)
    returns (ordered': seq<string>, policies': map<string, Target>, grouped': map<string, seq<nat>>)
    requires Describes(ordered, policies, merged) && grouped.Keys == policies.Keys
    ensures Describes(ordered', policies', MergeAll(merged, selected)) && grouped'.Keys == policies'.Keys
    ensures Grown(grouped, grouped', i, selected)
  {
    ordered', policies', grouped' := ordered, policies, grouped;
    NothingSent(i, selected, grouped);
    for j := 0 to |selected|
      invariant Describes(ordered', policies', MergeAll(merged, selected[..j])) && grouped'.Keys == policies'.Keys
      invariant Grown(grouped, grouped', i, selected[..j])
    {
      ghost var now, before := MergeAll(merged, selected[..j]), grouped';
      ordered', policies', grouped' := AddTarget(i, selected[j], ordered', policies', grouped', now);
      MergeOneMore(merged, selected[..j], selected[j]);
      OneMoreSent(i, selected, j, grouped, before);
    }
    assert selected[..|selected|] == selected;
  }

  lemma NothingSent(i: nat, selected: seq<Target>, grouped: map<string, seq<nat>>)
    ensures selected[..0] == [] && Grown(grouped, grouped, i, [])
  {
  }

  lemma SentToOneMore(i: nat, targets: seq<Target>, t: Target, sink: string)
    ensures SentBy(i, targets + [t], sink) == SentBy(i, targets, sink) + if sink == t.sink then [i] else []
  {
    assert (targets + [t])[..|targets|] == targets;
  }

  lemma OneMoreSent(i: nat, selected: seq<Target>, j: nat, start: map<string, seq<nat>>, before: map<string, seq<nat>>)
    requires j < |selected| && Grown(start, before, i, selected[..j])
    ensures selected[..j + 1] == selected[..j] + [selected[j]]
    ensures var sink := selected[j].sink;
      Grown(start, before[sink := MessagesOf(before, sink) + [i]], i, selected[..j + 1])
  {
    var t := selected[j];
    var after := before[t.sink := MessagesOf(before, t.sink) + [i]];
    assert selected[..j + 1] == selected[..j] + [t];
    forall sink
      ensures MessagesOf(after, sink) == MessagesOf(start, sink) + SentBy(i, selected[..j + 1], sink)
    {
      SentToOneMore(i, selected[..j], t, sink);
      AddedAtTheEnd(MessagesOf(start, sink), SentBy(i, selected[..j], sink), if sink == t.sink then [i] else []);
    }
  }

  lemma AddedAtTheEnd(a: seq<nat>, b: seq<nat>, c: seq<nat>)
    ensures a + (b + c) == (a + b) + c && a + b + [] == a + b
  {
  }

  lemma {:induction false} SelectionFailsAt(p: Policy, batch: seq<Matching>, i: nat)
    requires i < |batch| && SelectAll(p, batch[..i]).Success? && SelectTargets(p, batch[i]).Failure?
    ensures SelectAll(p, batch) == Failure(SelectTargets(p, batch[i]).error)
  {
    if i > 0 {
      assert batch[..i][0] == batch[0] && batch[..i][1..] == batch[1..][..i - 1];
      SelectionFailsAt(p, batch[1..], i - 1);
    }
  }

  lemma SelectionGrows(p: Policy, batch: seq<Matching>, i: nat)
    requires i < |batch| && SelectAll(p, batch[..i]).Success? && SelectTargets(p, batch[i]).Success?
    ensures SelectAll(p, batch[..i + 1]) == Success(SelectAll(p, batch[..i]).value + SelectTargets(p, batch[i]).value)
  {
    assert batch[..i + 1] == batch[..i] + [batch[i]];
    var selected := SelectTargets(p, batch[i]).value;
    assert [batch[i]] + [] == [batch[i]] && selected + [] == selected;
    RoutingProofs.SelectedOfCons(p, batch[i], []);
    RoutingProofs.SelectedOfConcat(p, batch[..i], [batch[i]]);
  }

  lemma {:induction false} MergeInTwo(merged: seq<Target>, a: seq<Target>, b: seq<Target>)
    ensures MergeAll(merged, a + b) == MergeAll(MergeAll(merged, a), b)
    decreases |a|
  {
    if a == [] {
      assert a + b == b;
    } else {
      assert (a + b)[0] == a[0] && (a + b)[1..] == a[1..] + b;
      MergeInTwo(MergeInto(merged, a[0]), a[1..], b);
    }
  }

  /** _select_targets. */
  method SelectForBatch(p: Policy, batch: seq<Matching>) returns (result: Result<seq<Selected>, SelectionError>)
    ensures result == SelectedFor(p, batch)
  {
    var ordered: seq<string>, policies: map<string, Target>, grouped: map<string, seq<nat>> := [], map[], map[];
    assert batch[..0] == [];
    for i := 0 to |batch|
      invariant SelectAll(p, batch[..i]).Success? && grouped.Keys == policies.Keys
      invariant Describes(ordered, policies, MergeAll([], SelectAll(p, batch[..i]).value))
      invariant forall sink :: MessagesOf(grouped, sink) == Sends(p, batch, i, sink)
    {
      var selection := SelectTargets(p, batch[i]);
      if selection.Failure? {
        SelectionFailsAt(p, batch, i);
        return Failure(selection.error);
      }
      SelectionGrows(p, batch, i);
      ghost var sofar := SelectAll(p, batch[..i]).value;
      MergeInTwo([], sofar, selection.value);
      ordered, policies, grouped := AddSelection(i, selection.value, ordered, policies, grouped, MergeAll([], sofar));
    }
    assert batch[..|batch|] == batch;
    result := Success(seq(|ordered|, k requires 0 <= k < |ordered| && ordered[k] in policies && ordered[k] in grouped =>
      Selected(policies[ordered[k]], grouped[ordered[k]])));
    assert result.value == SelectedFor(p, batch).value by {
      forall k | 0 <= k < |ordered|
        ensures result.value[k] == SelectedFor(p, batch).value[k]
      {
        assert MessagesOf(grouped, ordered[k]) == Sends(p, batch, |batch|, ordered[k]);
      }
    }
  }
}

/** What acknowledging a fanned-out batch means for each of its messages. */
module FanoutProofs {
  import opened Prelude
  import opened AckGate
  import opened AckGateProofs
  import opened Routing
  import opened RoutingProofs
  import opened Fanout

  lemma {:induction false} SentByExactly(i: nat, targets: seq<Target>, sink: string, m: nat)
    ensures m in SentBy(i, targets, sink) <==> m == i && sink in Names(targets)
  {
    if targets != [] {
      var front, last := targets[..|targets| - 1], targets[|targets| - 1];
      assert targets == front + [last];
      SentByExactly(i, front, sink, m);
      NamesOfAppend(front, last);
    }
  }

  lemma {:induction false} SendsUnderExactly(select: Selection, batch: seq<Matching>, n: nat, sink: string, m: nat)
    requires n <= |batch|
    ensures m in SendsUnder(select, batch, n, sink) <==>
            m < n && select(batch[m]).Success? && sink in Names(select(batch[m]).value)
  {
    if n > 0 {
      SendsUnderExactly(select, batch, n - 1, sink, m);
      var selected := select(batch[n - 1]);
      if selected.Success? {
        SentByExactly(n - 1, selected.value, sink, m);
      }
    }
  }

  /** A sink is sent exactly the messages whose selection names it. */
  lemma SendsExactly(p: Policy, batch: seq<Matching>, n: nat, sink: string, m: nat)
    requires n <= |batch|
    ensures m in Sends(p, batch, n, sink) <==>
            m < n && SelectTargets(p, batch[m]).Success? && sink in Names(SelectTargets(p, batch[m]).value)
  {
    SendsUnderExactly(SelectionOf(p), batch, n, sink, m);
  }

  predicate Increasing(s: seq<nat>) {
    forall i, j | 0 <= i < j < |s| :: s[i] < s[j]
  }

  lemma {:induction false} SentOnce(i: nat, targets: seq<Target>, sink: string)
    requires DistinctNames(targets)
    ensures SentBy(i, targets, sink) == if sink in Names(targets) then [i] else []
  {
    if targets != [] {
      var front, last := targets[..|targets| - 1], targets[|targets| - 1];
      assert targets == front + [last];
      SentOnce(i, front, sink);
      NamesOfAppend(front, last);
      if last.sink == sink {
        NotNamed(front, sink);
      }
    }
  }

  predicate IncreasingBelow(s: seq<nat>, n: nat) {
    Increasing(s) && forall m | m in s :: m < n
  }

  lemma OneMoreInOrder(s: seq<nat>, n: nat)
    requires IncreasingBelow(s, n)
    ensures IncreasingBelow(s + [n], n + 1) && IncreasingBelow(s, n + 1)
  {
    assert forall k | 0 <= k < |s| :: s[k] in s;
  }

  predicate DistinctSelection(select: Selection, e: Matching) {
    select(e).Success? ==> DistinctNames(select(e).value)
  }

  lemma SendsStep(select: Selection, batch: seq<Matching>, n: nat, sink: string)
    requires n < |batch| && DistinctSelection(select, batch[n])
    ensures var before, after := SendsUnder(select, batch, n, sink), SendsUnder(select, batch, n + 1, sink);
      after == before || after == before + [n]
  {
    var before := SendsUnder(select, batch, n, sink);
    assert before + [] == before;
    if select(batch[n]).Success? {
      SentOnce(n, select(batch[n]).value, sink);
    }
  }

  lemma {:induction false} SendsUnderInOrder(select: Selection, batch: seq<Matching>, n: nat, sink: string)
    requires n <= |batch| && forall m | 0 <= m < n :: DistinctSelection(select, batch[m])
    ensures IncreasingBelow(SendsUnder(select, batch, n, sink), n)
  {
    if n > 0 {
      SendsUnderInOrder(select, batch, n - 1, sink);
      OneMoreInOrder(SendsUnder(select, batch, n - 1, sink), n - 1);
      SendsStep(select, batch, n - 1, sink);
    }
  }

  lemma SelectionIsDistinct(p: Policy, e: Matching)
    requires PolicyReady(p) && SelectTargets(p, e).Success?
    ensures DistinctNames(SelectTargets(p, e).value)
  {
    MatchedAreOffered(p.routes, p.mode, e, []);
    AppendStaysDistinct([], Offered(p.routes, p.mode, e));
  }

  /** Each sink gets each of its messages once, in the order of the batch. */
  lemma SendsAreInOrder(p: Policy, batch: seq<Matching>, n: nat, sink: string)
    requires PolicyReady(p) && n <= |batch|
    ensures Increasing(Sends(p, batch, n, sink))
  {
    forall m | 0 <= m < n
      ensures DistinctSelection(SelectionOf(p), batch[m])
    {
      if SelectTargets(p, batch[m]).Success? {
        SelectionIsDistinct(p, batch[m]);
      }
    }
    SendsUnderInOrder(SelectionOf(p), batch, n, sink);
  }

  /** Each sink's own batch: the merged policy, and exactly the messages whose selection names the sink, in order. */
  lemma OwnBatchesExactly(p: Policy, batch: seq<Matching>, k: nat, m: nat)
    requires PolicyReady(p) && SelectedFor(p, batch).Success? && k < |SelectedFor(p, batch).value|
    ensures var own := SelectedFor(p, batch).value[k];
      && GateTargets(p, batch).Success? && |GateTargets(p, batch).value| == |SelectedFor(p, batch).value|
      && own.policy == GateTargets(p, batch).value[k] && Increasing(own.messages)
      && (m in own.messages <==>
            m < |batch| && SelectTargets(p, batch[m]).Success?
            && own.policy.sink in Names(SelectTargets(p, batch[m]).value))
  {
    var sink := GateTargets(p, batch).value[k].sink;
    SendsExactly(p, batch, |batch|, sink, m);
    SendsAreInOrder(p, batch, |batch|, sink);
  }

  lemma {:induction false} SelectedInAll(p: Policy, batch: seq<Matching>, i: nat, t: Target)
    requires SelectAll(p, batch).Success? && i < |batch|
    requires SelectTargets(p, batch[i]).Success? && t in SelectTargets(p, batch[i]).value
    ensures t in SelectAll(p, batch).value
  {
    if i > 0 {
      SelectedInAll(p, batch[1..], i - 1, t);
    }
  }

  /** The operations of a batch: each selected sink writes the messages sent to it. */
  function Writes(p: Policy, batch: seq<Matching>, write: (string, seq<nat>) -> Task): string -> Task {
    sink => write(sink, Sends(p, batch, |batch|, sink))
  }

  /** The merged target of a sink that some message requires is required. */
  lemma RequiredStaysRequired(p: Policy, batch: seq<Matching>, i: nat, t: Target) returns (m: Target)
    requires PolicyReady(p) && GateTargets(p, batch).Success? && i < |batch|
    requires SelectTargets(p, batch[i]).Success? && t in SelectTargets(p, batch[i]).value && t.required
    ensures m in GateTargets(p, batch).value && m.sink == t.sink && m.required
  {
    GateTargetsAccountForBatch(p, batch);
    SelectedInAll(p, batch, i, t);
    var targets := GateTargets(p, batch).value;
    assert t.sink in Names(targets);
    m :| m in targets && m.sink == t.sink;
    assert AtLeastAsStrict(m, t);
  }

  /** By the time the gate returns, every required operation has committed. */
  lemma ReturnedAfterCommit(env: Env, targets: seq<Target>, startedAt: real, m: Target)
    requires Gate(env, targets, startedAt).0.Returned? && m in targets && m.required
    ensures m.sink in env.tasks && env.tasks[m.sink].outcome.Commits?
    ensures FinishedBy(env.tasks[m.sink], Gate(env, targets, startedAt).1.now)
  {
    GateResultIsComplete(env, targets, startedAt);
    GateReturnsExactly(env, targets, startedAt);
    assert forall i | 0 <= i < |targets| :: !Blocks(env, targets[i]);
    ReturnedPhases(env, targets, startedAt);
    RequiredPhaseEnds(env, targets, AtStart(startedAt), LastRequiredFinish(env, targets, startedAt));
    OptionalPhaseCancels(env, targets, startedAt, RequiredEnd(env, targets, startedAt));
    assert m.sink in Names(targets);
  }

  /**
   Custody, end to end: once the gate returns and the batch may be acknowledged, every message is in the committed
   batch of every sink its own selection requires, whatever the other messages select and however the writes go.
   */
  lemma AcknowledgedMeansStored(p: Policy, batch: seq<Matching>, write: (string, seq<nat>) -> Task,
                                timerLag: nat -> Lag, wakeLag: nat -> Lag, cancelAt: Option<real>, startedAt: real,
                                i: nat, t: Target)
    requires PolicyReady(p) && GateTargets(p, batch).Success? && i < |batch|
    requires SelectTargets(p, batch[i]).Success? && t in SelectTargets(p, batch[i]).value && t.required
    ensures var targets := GateTargets(p, batch).value;
      var env := BatchEnv(targets, Writes(p, batch, write), timerLag, wakeLag, cancelAt);
      var messages := Sends(p, batch, |batch|, t.sink);
      Gate(env, targets, startedAt).0.Returned? ==>
        && i in messages && write(t.sink, messages).outcome.Commits?
        && FinishedBy(write(t.sink, messages), Gate(env, targets, startedAt).1.now)
  {
    var targets := GateTargets(p, batch).value;
    var env := BatchEnv(targets, Writes(p, batch, write), timerLag, wakeLag, cancelAt);
    var m := RequiredStaysRequired(p, batch, i, t);
    SendsExactly(p, batch, |batch|, t.sink, i);
    if Gate(env, targets, startedAt).0.Returned? {
      ReturnedAfterCommit(env, targets, startedAt, m);
    }
  }
}
