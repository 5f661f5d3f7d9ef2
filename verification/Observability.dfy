/**
 Counting of advisories (src/nats_sinks/core/advisory.py) and of fan-out
 outcomes (src/nats_sinks/core/fanout_observability.py), with a recorder that
 accepts every update.
 */
module Observability {
  import opened Prelude
  import opened AckGate

  datatype AdvisoryKind =
    | ApiAudit | ConsumerAction | ConsumerLeaderElected | ConsumerQuorumLost | MaxDeliver
    | Nak | StreamAction | StreamLeaderElected | StreamQuorumLost | Terminated

  datatype Counter =
    | AdvisoriesFiltered | AdvisoriesReceived | AdvisoryParseErrors | AdvisoriesUnsupported
    | AdvisoriesOfKind(kind: AdvisoryKind)
    | RequiredSuccess | RequiredFailure | OptionalSuccess | OptionalFailure | OptionalTimeout
    | MessagesAcked | MessagesAckBlocked

  /** The recorder's totals: a counter never incremented stands at zero. */
  type Counters = multiset<Counter>

  function Add(counters: Counters, counter: Counter, amount: nat): Counters {
    counters[counter := counters[counter] + amount]
  }

  /** An advisory message: whether its subject is wanted, its data readable, and what parsing finds. */
  datatype Parsed = Invalid | Unsupported | Known(kind: AdvisoryKind)

  datatype Advisory = Advisory(wanted: bool, bytesLike: bool, parsed: Parsed)

  /** The counter that says what became of a received advisory. */
  function Verdict(a: Advisory): Counter {
    if !a.bytesLike || a.parsed.Invalid? then AdvisoryParseErrors
    else if a.parsed.Unsupported? then AdvisoriesUnsupported
    else AdvisoriesOfKind(a.parsed.kind)
  }

  function AfterAdvisory(counters: Counters, enabled: bool, a: Advisory): Counters {
    if !enabled then counters
    else if !a.wanted then Add(counters, AdvisoriesFiltered, 1)
    else Add(Add(counters, AdvisoriesReceived, 1), Verdict(a), 1)
  }

  function CountStatus(results: seq<TargetResult>, status: Status): nat {
    if results == [] then 0 else (if results[0].status == status then 1 else 0) + CountStatus(results[1..], status)
  }

  /** What is recorded about one batch: a result of the gate, or a required failure. */
  datatype FanoutEvent = GateResultRecorded(result: GateResult, acked: bool) | RequiredFailureRecorded

  /** The amounts one record adds, counter by counter. */
  datatype Amounts = Amounts(requiredSuccess: nat, requiredFailure: nat, optionalSuccess: nat, optionalFailure: nat,
                             optionalTimeout: nat, acked: nat, blocked: nat)

  lemma {:induction false} CountIsBounded(results: seq<TargetResult>, status: Status)
    ensures CountStatus(results, status) <= |results|
  {
    if results != [] {
      CountIsBounded(results[1..], status);
    }
  }

  function AmountsOf(result: GateResult, acked: bool): Amounts {
    CountIsBounded(result.required, Committed);
    var success := CountStatus(result.required, Committed);
    Amounts(success, |result.required| - success, CountStatus(result.optional, Committed),
            CountStatus(result.optional, Failed), CountStatus(result.optional, TimedOut),
            if acked then 1 else 0, if acked then 0 else 1)
  }

  function Record(counters: Counters, a: Amounts): Counters {
    var c := Add(Add(counters, RequiredSuccess, a.requiredSuccess), RequiredFailure, a.requiredFailure);
    var c := Add(Add(c, OptionalSuccess, a.optionalSuccess), OptionalFailure, a.optionalFailure);
    Add(Add(Add(c, OptionalTimeout, a.optionalTimeout), MessagesAcked, a.acked), MessagesAckBlocked, a.blocked)
  }

  function AfterFanout(counters: Counters, event: FanoutEvent): Counters {
    if event.RequiredFailureRecorded? then Add(Add(counters, RequiredFailure, 1), MessagesAckBlocked, 1)
    else Record(counters, AmountsOf(event.result, event.acked))
  }

  function AdvisoryRun(counters: Counters, enabled: bool, advisories: seq<Advisory>): Counters
    decreases |advisories|
  {
    if advisories == [] then counters
    else AdvisoryRun(AfterAdvisory(counters, enabled, advisories[0]), enabled, advisories[1..])
  }

  function FanoutRun(counters: Counters, events: seq<FanoutEvent>): Counters
    decreases |events|
  {
    if events == [] then counters else FanoutRun(AfterFanout(counters, events[0]), events[1..])
  }

  class MetricsRecorder {
    var counters: Counters

    constructor ()
      ensures counters == multiset{}
    {
      counters := multiset{};
    }

    /** _increment: an amount of zero does not reach the recorder. */
    method Increment(counter: Counter, amount: nat)
      modifies this
      ensures counters == Add(old(counters), counter, amount)
    {
      assert counters[counter := counters[counter]] == counters;
      if amount > 0 {
        counters := counters[counter := counters[counter] + amount];
      }
    }

    /** observe_jetstream_advisory_message. */
    method ObserveAdvisory(enabled: bool, a: Advisory)
      modifies this
      ensures counters == AfterAdvisory(old(counters), enabled, a)
    {
      if !enabled {
        return;
      }
      if !a.wanted {
        Increment(AdvisoriesFiltered, 1);
        return;
      }
      Increment(AdvisoriesReceived, 1);
      if !a.bytesLike {
        Increment(AdvisoryParseErrors, 1);
        return;
      }
      match a.parsed
      case Invalid => Increment(AdvisoryParseErrors, 1);
      case Unsupported => Increment(AdvisoriesUnsupported, 1);
      case Known(kind) => Increment(AdvisoriesOfKind(kind), 1);
    }

    /** record_fanout_ack_gate_result; the amounts recorded are also its summary. */
    method RecordGateResult(result: GateResult, acked: bool) returns (summary: Amounts)
      modifies this
      ensures summary == AmountsOf(result, acked)
      ensures counters == AfterFanout(old(counters), GateResultRecorded(result, acked))
    {
      summary := AmountsOf(result, acked);
      RecordAmounts(summary);
    }

    method RecordAmounts(a: Amounts)
      modifies this
      ensures counters == Record(old(counters), a)
    {
      Increment(RequiredSuccess, a.requiredSuccess);
      Increment(RequiredFailure, a.requiredFailure);
      Increment(OptionalSuccess, a.optionalSuccess);
      Increment(OptionalFailure, a.optionalFailure);
      Increment(OptionalTimeout, a.optionalTimeout);
      Increment(MessagesAcked, a.acked);
      Increment(MessagesAckBlocked, a.blocked);
    }

    /** record_fanout_required_failure. */
    method RecordRequiredFailure() returns (summary: Amounts)
      modifies this
      ensures summary == Amounts(0, 1, 0, 0, 0, 0, 1)
      ensures counters == AfterFanout(old(counters), RequiredFailureRecorded)
    {
      Increment(RequiredFailure, 1);
      Increment(MessagesAckBlocked, 1);
      summary := Amounts(0, 1, 0, 0, 0, 0, 1);
    }
  }
}

module ObservabilityProofs {
  import opened Prelude
  import opened AckGate
  import opened Observability
  import AckGateProofs

  function KindTotal(c: Counters): nat {
    c[AdvisoriesOfKind(ApiAudit)] + c[AdvisoriesOfKind(ConsumerAction)]
    + c[AdvisoriesOfKind(ConsumerLeaderElected)] + c[AdvisoriesOfKind(ConsumerQuorumLost)]
    + c[AdvisoriesOfKind(MaxDeliver)] + c[AdvisoriesOfKind(Nak)]
    + c[AdvisoriesOfKind(StreamAction)] + c[AdvisoriesOfKind(StreamLeaderElected)]
    + c[AdvisoriesOfKind(StreamQuorumLost)] + c[AdvisoriesOfKind(Terminated)]
  }

  function Judged(c: Counters): nat {
    c[AdvisoryParseErrors] + c[AdvisoriesUnsupported] + KindTotal(c)
  }

  /** Nothing is lost or counted twice: every advisory seen is filtered or received, every received one is judged. */
  lemma {:induction false} AdvisoriesAreConserved(c: Counters, advisories: seq<Advisory>)
    ensures var end := AdvisoryRun(c, true, advisories);
      && end[AdvisoriesFiltered] + end[AdvisoriesReceived]
         == c[AdvisoriesFiltered] + c[AdvisoriesReceived] + |advisories|
      && end[AdvisoriesReceived] + Judged(c) == c[AdvisoriesReceived] + Judged(end)
    decreases |advisories|
  {
    if advisories != [] {
      OneAdvisory(c, advisories[0]);
      AdvisoriesAreConserved(AfterAdvisory(c, true, advisories[0]), advisories[1..]);
    }
  }

  lemma OneMoreOfKind(c: Counters, kind: AdvisoryKind)
    ensures KindTotal(Add(c, AdvisoriesOfKind(kind), 1)) == KindTotal(c) + 1
  {
    match kind
    case ApiAudit =>
    case ConsumerAction =>
    case ConsumerLeaderElected =>
    case ConsumerQuorumLost =>
    case MaxDeliver =>
    case Nak =>
    case StreamAction =>
    case StreamLeaderElected =>
    case StreamQuorumLost =>
    case Terminated =>
  }

  lemma SameKinds(c: Counters, counter: Counter)
    requires !counter.AdvisoriesOfKind?
    ensures KindTotal(Add(c, counter, 1)) == KindTotal(c)
  {
  }

  predicate IsVerdict(counter: Counter) {
    counter == AdvisoryParseErrors || counter == AdvisoriesUnsupported || counter.AdvisoriesOfKind?
  }

  lemma OneJudgement(c: Counters, counter: Counter)
    ensures Judged(Add(c, counter, 1)) == Judged(c) + if IsVerdict(counter) then 1 else 0
  {
    if counter.AdvisoriesOfKind? {
      OneMoreOfKind(c, counter.kind);
    } else {
      SameKinds(c, counter);
    }
  }

  lemma OneAdvisory(c: Counters, a: Advisory)
    ensures var next := AfterAdvisory(c, true, a);
      && next[AdvisoriesFiltered] + next[AdvisoriesReceived]
         == c[AdvisoriesFiltered] + c[AdvisoriesReceived] + 1
      && Judged(next) - Judged(c) == next[AdvisoriesReceived] - c[AdvisoriesReceived]
  {
    if !a.wanted {
      OneJudgement(c, AdvisoriesFiltered);
    } else {
      OneJudgement(c, AdvisoriesReceived);
      OneJudgement(Add(c, AdvisoriesReceived, 1), Verdict(a));
    }
  }

  // ---------------------------------------------------------------- what each counter says

  /** The advisory is one that this counter counts. */
  predicate CountedBy(a: Advisory, counter: Counter) {
    match counter
    case AdvisoriesFiltered => !a.wanted
    case AdvisoriesReceived => a.wanted
    case AdvisoryParseErrors => a.wanted && (!a.bytesLike || a.parsed == Invalid)
    case AdvisoriesUnsupported => a.wanted && a.bytesLike && a.parsed == Unsupported
    case AdvisoriesOfKind(kind) => a.wanted && a.bytesLike && a.parsed == Known(kind)
    case _ => false
  }

  function Tally(advisories: seq<Advisory>, counter: Counter): nat {
    if advisories == [] then 0
    else (if CountedBy(advisories[0], counter) then 1 else 0) + Tally(advisories[1..], counter)
  }

  /** Over any run each counter grows by the advisories it counts; with advisories disabled none does. */
  lemma {:induction false} AdvisoriesAreTallied(c: Counters, enabled: bool, advisories: seq<Advisory>, counter: Counter)
    ensures AdvisoryRun(c, enabled, advisories)[counter]
         == c[counter] + if enabled then Tally(advisories, counter) else 0
    decreases |advisories|
  {
    if advisories != [] {
      AdvisoriesAreTallied(AfterAdvisory(c, enabled, advisories[0]), enabled, advisories[1..], counter);
    }
  }

  /** The results of a given status, by position. */
  function WithStatus(results: seq<TargetResult>, status: Status): set<nat> {
    set i: nat | i < |results| && results[i].status == status
  }

  lemma {:induction false} CountIsSize(results: seq<TargetResult>, status: Status)
    ensures CountStatus(results, status) == |WithStatus(results, status)|
    decreases |results|
  {
    if results != [] {
      var n := |results| - 1;
      var front := results[..n];
      assert results == front + [results[n]];
      CountOfSnoc(front, results[n], status);
      CountIsSize(front, status);
      StatusOfSnoc(front, results[n], status);
    }
  }

  lemma StatusOfSnoc(results: seq<TargetResult>, last: TargetResult, status: Status)
    ensures |WithStatus(results + [last], status)|
         == |WithStatus(results, status)| + if last.status == status then 1 else 0
  {
    var own: set<nat> := if last.status == status then {|results|} else {};
    assert WithStatus(results + [last], status) == WithStatus(results, status) + own;
  }

  lemma {:induction false} CountOfSnoc(results: seq<TargetResult>, last: TargetResult, status: Status)
    ensures CountStatus(results + [last], status)
         == CountStatus(results, status) + if last.status == status then 1 else 0
  {
    if results == [] {
      assert (results + [last])[1..] == [];
    } else {
      assert (results + [last])[1..] == results[1..] + [last];
      CountOfSnoc(results[1..], last, status);
    }
  }

  /** What one record adds to a counter. */
  function Share(event: FanoutEvent, counter: Counter): nat {
    if event.RequiredFailureRecorded? then
      if counter == RequiredFailure || counter == MessagesAckBlocked then 1 else 0
    else
      match counter
      case RequiredSuccess => |WithStatus(event.result.required, Committed)|
      case RequiredFailure =>
        |WithStatus(event.result.required, Failed)| + |WithStatus(event.result.required, TimedOut)|
      case OptionalSuccess => |WithStatus(event.result.optional, Committed)|
      case OptionalFailure => |WithStatus(event.result.optional, Failed)|
      case OptionalTimeout => |WithStatus(event.result.optional, TimedOut)|
      case MessagesAcked => if event.acked then 1 else 0
      case MessagesAckBlocked => if event.acked then 0 else 1
      case _ => 0
  }

  function Shares(events: seq<FanoutEvent>, counter: Counter): nat {
    if events == [] then 0 else Share(events[0], counter) + Shares(events[1..], counter)
  }

  function AmountIn(a: Amounts, counter: Counter): nat {
    match counter
    case RequiredSuccess => a.requiredSuccess
    case RequiredFailure => a.requiredFailure
    case OptionalSuccess => a.optionalSuccess
    case OptionalFailure => a.optionalFailure
    case OptionalTimeout => a.optionalTimeout
    case MessagesAcked => a.acked
    case MessagesAckBlocked => a.blocked
    case _ => 0
  }

  lemma AddAdds(c: Counters, added: Counter, amount: nat, counter: Counter)
    ensures Add(c, added, amount)[counter] == c[counter] + if counter == added then amount else 0
  {
  }

  lemma RecordAdds(c: Counters, a: Amounts, counter: Counter)
    ensures Record(c, a)[counter] == c[counter] + AmountIn(a, counter)
  {
    var c1 := Add(c, RequiredSuccess, a.requiredSuccess);
    var c2 := Add(c1, RequiredFailure, a.requiredFailure);
    var c3 := Add(c2, OptionalSuccess, a.optionalSuccess);
    var c4 := Add(c3, OptionalFailure, a.optionalFailure);
    var c5 := Add(c4, OptionalTimeout, a.optionalTimeout);
    var c6 := Add(c5, MessagesAcked, a.acked);
    AddAdds(c, RequiredSuccess, a.requiredSuccess, counter);
    AddAdds(c1, RequiredFailure, a.requiredFailure, counter);
    AddAdds(c2, OptionalSuccess, a.optionalSuccess, counter);
    AddAdds(c3, OptionalFailure, a.optionalFailure, counter);
    AddAdds(c4, OptionalTimeout, a.optionalTimeout, counter);
    AddAdds(c5, MessagesAcked, a.acked, counter);
    AddAdds(c6, MessagesAckBlocked, a.blocked, counter);
  }

  lemma AmountsAreShares(result: GateResult, acked: bool, counter: Counter)
    ensures AmountIn(AmountsOf(result, acked), counter) == Share(GateResultRecorded(result, acked), counter)
  {
    CountIsSize(result.required, Committed);
    CountIsSize(result.required, Failed);
    CountIsSize(result.required, TimedOut);
    CountIsSize(result.optional, Committed);
    CountIsSize(result.optional, Failed);
    CountIsSize(result.optional, TimedOut);
    StatusesPartition(result.required);
  }

  lemma RecordAddsShare(c: Counters, event: FanoutEvent, counter: Counter)
    ensures AfterFanout(c, event)[counter] == c[counter] + Share(event, counter)
  {
    if event.GateResultRecorded? {
      RecordAdds(c, AmountsOf(event.result, event.acked), counter);
      AmountsAreShares(event.result, event.acked, counter);
    }
  }

  /** Over any run of records each counter grows by exactly its share of them. */
  lemma {:induction false} FanoutIsTallied(c: Counters, events: seq<FanoutEvent>, counter: Counter)
    ensures FanoutRun(c, events)[counter] == c[counter] + Shares(events, counter)
    decreases |events|
  {
    if events != [] {
      RecordAddsShare(c, events[0], counter);
      FanoutIsTallied(AfterFanout(c, events[0]), events[1..], counter);
    }
  }

  // ---------------------------------------------------------------- conservation over records

  function Targets(events: seq<FanoutEvent>): nat {
    if events == [] then 0 else TargetsOf(events[0]) + Targets(events[1..])
  }

  lemma {:induction false} StatusesPartition(results: seq<TargetResult>)
    ensures CountStatus(results, Committed) + CountStatus(results, Failed) + CountStatus(results, TimedOut) == |results|
  {
    if results != [] {
      StatusesPartition(results[1..]);
    }
  }

  function ChildOutcomes(c: Counters): nat {
    c[RequiredSuccess] + c[RequiredFailure]
    + c[OptionalSuccess] + c[OptionalFailure] + c[OptionalTimeout]
  }

  /** Every recorded batch is acked or blocked, and every target of it is counted in exactly one status. */
  lemma {:induction false} FanoutIsConserved(c: Counters, events: seq<FanoutEvent>)
    ensures var end := FanoutRun(c, events);
      && end[MessagesAcked] + end[MessagesAckBlocked]
         == c[MessagesAcked] + c[MessagesAckBlocked] + |events|
      && ChildOutcomes(end) == ChildOutcomes(c) + Targets(events)
    decreases |events|
  {
    if events != [] {
      OneFanout(c, events[0]);
      FanoutIsConserved(AfterFanout(c, events[0]), events[1..]);
    }
  }

  function TargetsOf(event: FanoutEvent): nat {
    if event.GateResultRecorded? then |event.result.required| + |event.result.optional| else 1
  }

  lemma RecordCounts(c: Counters, a: Amounts)
    ensures var next := Record(c, a);
      && next[RequiredFailure] == c[RequiredFailure] + a.requiredFailure
      && next[MessagesAcked] + next[MessagesAckBlocked]
          == c[MessagesAcked] + c[MessagesAckBlocked] + a.acked + a.blocked
      && ChildOutcomes(next) == ChildOutcomes(c) + a.requiredSuccess + a.requiredFailure
                                + a.optionalSuccess + a.optionalFailure + a.optionalTimeout
  {
  }

  lemma AmountsAddUp(result: GateResult, acked: bool)
    ensures var a := AmountsOf(result, acked);
      && a.acked + a.blocked == 1
      && a.requiredSuccess + a.requiredFailure + a.optionalSuccess + a.optionalFailure + a.optionalTimeout
         == |result.required| + |result.optional|
  {
    StatusesPartition(result.optional);
  }

  /** One record counts one batch and each of its targets once. */
  lemma OneFanout(c: Counters, event: FanoutEvent)
    ensures var next := AfterFanout(c, event);
      && next[MessagesAcked] + next[MessagesAckBlocked] == c[MessagesAcked] + c[MessagesAckBlocked] + 1
      && ChildOutcomes(next) == ChildOutcomes(c) + TargetsOf(event)
  {
    if event.GateResultRecorded? {
      RecordCounts(c, AmountsOf(event.result, event.acked));
      AmountsAddUp(event.result, event.acked);
    }
  }

  lemma {:induction false} AllCommittedCount(results: seq<TargetResult>)
    requires forall r | r in results :: r.status == Committed
    ensures CountStatus(results, Committed) == |results|
  {
    if results != [] {
      AllCommittedCount(results[1..]);
    }
  }

  /** A result the gate returned counts every target exactly once and no required failure. */
  lemma GateResultsAddNoRequiredFailure(env: Env, targets: seq<Target>, startedAt: real, acked: bool, c: Counters)
    requires Gate(env, targets, startedAt).0.Returned?
    ensures var end := AfterFanout(c, GateResultRecorded(Gate(env, targets, startedAt).0.result, acked));
      && end[RequiredFailure] == c[RequiredFailure]
      && ChildOutcomes(end) == ChildOutcomes(c) + |targets|
  {
    var result := Gate(env, targets, startedAt).0.result;
    AckGateProofs.GateResultIsComplete(env, targets, startedAt);
    AllCommittedCount(result.required);
    RecordCounts(c, AmountsOf(result, acked));
    AmountsAddUp(result, acked);
    SinksPartition(targets);
    assert |AckGateProofs.ResultSinks(result.required)| == |result.required|;
    assert |AckGateProofs.ResultSinks(result.optional)| == |result.optional|;
  }

  lemma {:induction false} SinksPartition(targets: seq<Target>)
    ensures |AckGateProofs.SinksOf(targets, true)| + |AckGateProofs.SinksOf(targets, false)| == |targets|
  {
    if targets != [] {
      SinksPartition(targets[1..]);
    }
  }
}
