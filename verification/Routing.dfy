/**
 From a routing policy to the targets the ACK gate is called with:
 target defaulting (src/nats_sinks/core/config.py), route selection
 (src/nats_sinks/core/routing_policy.py) and the per-batch merge
 (src/nats_sinks/core/fanout_sink.py).
 */
module Routing {
  import opened Prelude
  import opened AckGate

  const MAX_ROUTING_TARGETS := 64
  const MAX_FANOUT_OPTIONAL_WAIT_MS := 60_000
  const MAX_FANOUT_OPTIONAL_TIMEOUT_MS := 300_000

  datatype SinkType = Coherence | File | Http | Mysql | Oracle | OracleNosql | S3 | Spool

  datatype Waits = Waits(minimumWaitMs: int, timeoutMs: int)

  function OptionalAckDefaults(sinkType: SinkType): Waits {
    match sinkType
    case File | Spool => Waits(100, 1_000)
    case _ => Waits(1_000, 5_000)
  }

  predicate WithinLimit(wait: Option<int>, maximum: int) {
    wait.Some? ==> 0 <= wait.value <= maximum
  }

  /** The field and model validators of RouteTargetConfig. */
  predicate ValidTarget(t: Target) {
    && WithinLimit(t.minimumWaitMs, MAX_FANOUT_OPTIONAL_WAIT_MS)
    && WithinLimit(t.timeoutMs, MAX_FANOUT_OPTIONAL_TIMEOUT_MS)
    && (t.required ==> t.minimumWaitMs.None? && t.timeoutMs.None?)
    && (Resolved(t) ==> t.minimumWaitMs.value <= t.timeoutMs.value)
  }

  predicate ValidTargetList(targets: seq<Target>) {
    && 1 <= |targets| <= MAX_ROUTING_TARGETS
    && (forall t | t in targets :: ValidTarget(t))
    && DistinctNames(targets)
  }

  /** One entry of a configured target list: a bare name, an object, or something else. */
  datatype RawTarget = Name(sink: string) | Object(target: Target) | Other

  /** The configured value: a single entry or a collection of them, in the order in which it is read. */
  datatype RawTargets = Single(entry: RawTarget) | Many(entries: seq<RawTarget>)

  function Entries(raw: RawTargets): seq<RawTarget> {
    if raw.Single? then [raw.entry] else raw.entries
  }

  /** A bare name stands for a required target. */
  function ReadTarget(entry: RawTarget): Option<Target> {
    match entry
    case Name(sink) => Some(Target(sink, true, None, None))
    case Object(t) => if ValidTarget(t) then Some(t) else None
    case Other => None
  }

  predicate Readable(entries: seq<RawTarget>) {
    forall e | e in entries :: ReadTarget(e).Some?
  }

  function ReadAll(entries: seq<RawTarget>): seq<Target>
    requires Readable(entries)
  {
    seq(|entries|, i requires 0 <= i < |entries| => assert entries[i] in entries; ReadTarget(entries[i]).value)
  }

  /** _normalize_route_target_configs. */
  method NormalizeRouteTargets(raw: RawTargets) returns (normalized: Option<seq<Target>>)
    ensures normalized == if Readable(Entries(raw)) && ValidTargetList(ReadAll(Entries(raw))) then
            Some(ReadAll(Entries(raw)))
                          else None
  {
    var entries := Entries(raw);
    if entries == [] || |entries| > MAX_ROUTING_TARGETS {
      return None;
    }
    var targets: seq<Target> := [];
    var seen: set<string> := {};
    for i := 0 to |entries|
      invariant Readable(entries[..i]) && targets == ReadAll(entries[..i]) && seen == Names(targets)
      invariant (forall t | t in targets :: ValidTarget(t)) && DistinctNames(targets)
    {
      var t := ReadTarget(entries[i]);
      assert entries[i] in entries && entries[..i + 1] == entries[..i] + [entries[i]];
      if t.None? {
        return None;
      }
      if t.value.sink in seen {
        RepeatedName(entries, i);
        return None;
      }
      seen := seen + {t.value.sink};
      targets := targets + [t.value];
    }
    assert entries[..|entries|] == entries;
    normalized := Some(targets);
  }

  lemma RepeatedName(entries: seq<RawTarget>, i: nat)
    requires i < |entries| && Readable(entries[..i]) && ReadTarget(entries[i]).Some?
    requires ReadTarget(entries[i]).value.sink in Names(ReadAll(entries[..i]))
    ensures Readable(entries) ==> !DistinctNames(ReadAll(entries))
  {
    if Readable(entries) {
      var j :| 0 <= j < i && ReadAll(entries[..i])[j].sink == ReadTarget(entries[i]).value.sink;
      assert ReadAll(entries)[j].sink == ReadAll(entries)[i].sink;
    }
  }

  // ---------------------------------------------------------------- defaults

  datatype PolicyError = SinkTypeRequired(sink: string) | TimeoutBelowMinimum(sink: string)

  function Defaulted(t: Target, sinkTypes: map<string, SinkType>): Result<Target, PolicyError> {
    if t.required || (t.sink !in sinkTypes && Resolved(t)) then Success(t)
    else if t.sink !in sinkTypes then Failure(SinkTypeRequired(t.sink))
    else
      var defaults := OptionalAckDefaults(sinkTypes[t.sink]);
      var wait, timeout := t.minimumWaitMs.GetOr(defaults.minimumWaitMs), t.timeoutMs.GetOr(defaults.timeoutMs);
      if timeout < wait then Failure(TimeoutBelowMinimum(t.sink))
      else Success(t.(minimumWaitMs := Some(wait), timeoutMs := Some(timeout)))
  }

  function DefaultAll(targets: seq<Target>, sinkTypes: map<string, SinkType>): Result<seq<Target>, PolicyError> {
    if targets == [] then Success([])
    else
      var first :- Defaulted(targets[0], sinkTypes);
      var rest :- DefaultAll(targets[1..], sinkTypes);
      Success([first] + rest)
  }

  /** One configured target; only its two waits change after construction. */
  class RouteTargetConfig {
    const sink: string
    const required: bool
    var minimumWaitMs: Option<int>
    var timeoutMs: Option<int>

    constructor (t: Target)
      ensures View() == t
    {
      sink, required, minimumWaitMs, timeoutMs := t.sink, t.required, t.minimumWaitMs, t.timeoutMs;
    }

    function View(): Target
      reads this
    {
      Target(sink, required, minimumWaitMs, timeoutMs)
    }

    /** One turn of the loop in _apply_ack_gate_defaults. */
    method ApplyDefaults(sinkTypes: map<string, SinkType>) returns (error: Option<PolicyError>)
      modifies this
      ensures match Defaulted(old(View()), sinkTypes)
              case Success(t) => error == None && View() == t
              case Failure(e) => error == Some(e)
    {
      if required {
        return None;
      }
      if sink !in sinkTypes {
        return if minimumWaitMs.Some? && timeoutMs.Some? then None else Some(SinkTypeRequired(sink));
      }
      var defaults := OptionalAckDefaults(sinkTypes[sink]);
      if minimumWaitMs.None? {
        minimumWaitMs := Some(defaults.minimumWaitMs);
      }
      if timeoutMs.None? {
        timeoutMs := Some(defaults.timeoutMs);
      }
      error := if timeoutMs.value < minimumWaitMs.value then Some(TimeoutBelowMinimum(sink)) else None;
    }
  }

  function Views(targets: seq<RouteTargetConfig>): seq<Target>
    reads targets
  {
    seq(|targets|, i requires 0 <= i < |targets| reads targets => targets[i].View())
  }

  /** _apply_ack_gate_defaults: the targets are updated in place, in order, up to the first error. */
  method ApplyAckGateDefaults(targets: seq<RouteTargetConfig>, sinkTypes: map<string, SinkType>)
    returns (error: Option<PolicyError>)
    requires forall i, j | 0 <= i < j < |targets| :: targets[i] != targets[j]
    modifies targets
    ensures match DefaultAll(old(Views(targets)), sinkTypes)
            case Success(ts) => error == None && Views(targets) == ts
            case Failure(e) => error == Some(e)
  {
    ghost var before := Views(targets);
    ghost var done: seq<Target> := [];
    DefaultNext(before, sinkTypes, done, 0);
    for i := 0 to |targets|
      invariant |done| == i
      invariant forall j | 0 <= j < i :: targets[j].View() == done[j]
      invariant forall j | i <= j < |targets| :: targets[j].View() == before[j]
      invariant DefaultAll(before, sinkTypes) == DefaultRest(before, sinkTypes, done)
    {
      DefaultNext(before, sinkTypes, done, i);
      error := targets[i].ApplyDefaults(sinkTypes);
      if error.Some? {
        return;
      }
      done := done + [targets[i].View()];
    }
    assert Views(targets) == done;
    error := None;
  }

  /** The outcome of the whole pass when the first |done| targets have been defaulted to done. */
  ghost function DefaultRest(targets: seq<Target>, sinkTypes: map<string, SinkType>, done: seq<Target>)
    : Result<seq<Target>, PolicyError>
    requires |done| <= |targets|
    ensures |done| == |targets| ==> DefaultRest(targets, sinkTypes, done) == Success(done)
  {
    assert done + [] == done && (|done| == |targets| ==> targets[|done|..] == []);
    var rest :- DefaultAll(targets[|done|..], sinkTypes);
    Success(done + rest)
  }

  lemma DefaultNext(targets: seq<Target>, sinkTypes: map<string, SinkType>, done: seq<Target>, i: nat)
    requires |done| == i <= |targets|
    ensures i == 0 ==> DefaultRest(targets, sinkTypes, done) == DefaultAll(targets, sinkTypes)
    ensures i < |targets| ==>
      var next := Defaulted(targets[i], sinkTypes);
      DefaultRest(targets, sinkTypes, done) ==
      if next.Failure? then Failure(next.error) else DefaultRest(targets, sinkTypes, done + [next.value])
  {
    if i == 0 {
      assert targets[0..] == targets && done == [];
      var whole := DefaultAll(targets, sinkTypes);
      assert whole.Success? ==> done + whole.value == whole.value;
    }
    if i < |targets| {
      assert targets[i..][0] == targets[i] && targets[i..][1..] == targets[i + 1..];
      var first, rest := Defaulted(targets[i], sinkTypes), DefaultAll(targets[i + 1..], sinkTypes);
      assert first.Success? && rest.Success? ==>
          done + ([first.value] + rest.value) == (done + [first.value]) + rest.value;
    }
  }

  // ---------------------------------------------------------------- policy and selection

  datatype Mode = First | All
  datatype NoMatch = Reject | DefaultRoute | Ignore

  datatype Route = Route(name: string, targets: seq<Target>)

  datatype Policy = Policy(enabled: bool, mode: Mode, noMatch: NoMatch, sinkTypes: map<string, SinkType>,
                           defaultTargets: seq<Target>, routes: seq<Route>)

  /** The routes whose match clause holds for one envelope. */
  type Matching = set<string>

  function DefaultRoutes(routes: seq<Route>, sinkTypes: map<string, SinkType>): Result<seq<Route>, PolicyError> {
    if routes == [] then Success([])
    else
      var targets :- DefaultAll(routes[0].targets, sinkTypes);
      var rest :- DefaultRoutes(routes[1..], sinkTypes);
      Success([routes[0].(targets := targets)] + rest)
  }

  /** The shape the field validators leave: every configured target list is normalised. */
  predicate Normalized(p: Policy) {
    && (p.defaultTargets == [] || ValidTargetList(p.defaultTargets))
    && forall r | r in p.routes :: ValidTargetList(r.targets)
  }

  datatype ValidationError = NeedsRoute | NeedsDefaultTargets | UnusedDefaultTargets | Targets(error: PolicyError)

  /** validate_policy, with the defaults applied to default targets first and then to each route. */
  function Validated(p: Policy): Result<Policy, ValidationError> {
    if p.enabled && p.routes == [] then Failure(NeedsRoute)
    else if p.noMatch.DefaultRoute? && p.defaultTargets == [] then Failure(NeedsDefaultTargets)
    else if !p.noMatch.DefaultRoute? && p.defaultTargets != [] then Failure(UnusedDefaultTargets)
    else if !p.enabled && p.defaultTargets == [] then Success(p)
    else
      match DefaultAll(p.defaultTargets, p.sinkTypes)
      case Failure(e) => Failure(Targets(e))
      case Success(defaults) =>
        match DefaultRoutes(p.routes, p.sinkTypes)
        case Failure(e) => Failure(Targets(e))
        case Success(routes) => Success(p.(defaultTargets := defaults, routes := routes))
  }

  /** _append_targets: a target whose name was selected already is dropped. */
  function AppendTargets(selected: seq<Target>, targets: seq<Target>): seq<Target>
    decreases |targets|
  {
    if targets == [] then selected
    else AppendTargets(if targets[0].sink in Names(selected) then selected else selected + [targets[0]], targets[1..])
  }

  function MatchedTargets(routes: seq<Route>, mode: Mode, matching: Matching, selected: seq<Target>): seq<Target> {
    if routes == [] then selected
    else if routes[0].name !in matching then MatchedTargets(routes[1..], mode, matching, selected)
    else
      var selected' := AppendTargets(selected, routes[0].targets);
      if mode.First? then selected' else MatchedTargets(routes[1..], mode, matching, selected')
  }

  datatype SelectionError = RoutingDisabled | NoRouteMatched

  /** select_route_targets followed by _handle_no_route. */
  function SelectTargets(p: Policy, matching: Matching): Result<seq<Target>, SelectionError> {
    if !p.enabled then Failure(RoutingDisabled)
    else if exists r | r in p.routes :: r.name in matching then Success(MatchedTargets(p.routes, p.mode, matching, []))
    else
      match p.noMatch
      case DefaultRoute => Success(p.defaultTargets)
      case Ignore => Success([])
      case Reject => Failure(NoRouteMatched)
  }

  /** _merge_target_policy. */
  function Merge(left: Target, right: Target): Target {
    if left.required || right.required then Target(left.sink, true, None, None)
    else Target(left.sink, false,
                Some(Max(left.minimumWaitMs.GetOr(0), right.minimumWaitMs.GetOr(0))),
                Some(Max(left.timeoutMs.GetOr(0), right.timeoutMs.GetOr(0))))
  }

  function MergeInto(merged: seq<Target>, t: Target): seq<Target> {
    if merged == [] then [t]
    else if merged[0].sink == t.sink then [Merge(merged[0], t)] + merged[1..]
    else [merged[0]] + MergeInto(merged[1..], t)
  }

  function MergeAll(merged: seq<Target>, selected: seq<Target>): seq<Target>
    decreases |selected|
  {
    if selected == [] then merged else MergeAll(MergeInto(merged, selected[0]), selected[1..])
  }

  /** Every target selected for some envelope of the batch, in order of selection. */
  function SelectAll(p: Policy, batch: seq<Matching>): Result<seq<Target>, SelectionError> {
    if batch == [] then Success([])
    else
      var first :- SelectTargets(p, batch[0]);
      var rest :- SelectAll(p, batch[1..]);
      Success(first + rest)
  }

  /** FanoutSink._select_targets: the policies handed to the ACK gate. */
  function GateTargets(p: Policy, batch: seq<Matching>): Result<seq<Target>, SelectionError> {
    var selected :- SelectAll(p, batch);
    Success(MergeAll([], selected))
  }
}

/** The gate's preconditions hold for every batch routed by a validated policy. */
module RoutingProofs {
  import opened Permutations
  import opened Prelude
  import opened AckGate
  import opened Routing
  import AckGateProofs

  /** What the gate needs to know of a target. */
  predicate GateReady(t: Target) {
    ValidTarget(t) && (t.required || Resolved(t))
  }

  predicate AllReady(targets: seq<Target>) {
    forall t | t in targets :: GateReady(t)
  }

  predicate PolicyReady(p: Policy) {
    && AllReady(p.defaultTargets) && DistinctNames(p.defaultTargets)
    && forall r | r in p.routes :: AllReady(r.targets) && DistinctNames(r.targets)
  }

  /** left waits at least as long as right for the same sink. */
  predicate AtLeastAsStrict(left: Target, right: Target) {
    && left.sink == right.sink
    && (left.required ||
        (!right.required && Resolved(left) && Resolved(right)
         && left.minimumWaitMs.value >= right.minimumWaitMs.value && left.timeoutMs.value >= right.timeoutMs.value))
  }

  // ---------------------------------------------------------------- validation

  lemma {:induction false} DefaultsMakeReady(targets: seq<Target>, sinkTypes: map<string, SinkType>)
    requires forall t | t in targets :: ValidTarget(t)
    requires DefaultAll(targets, sinkTypes).Success?
    ensures var ts := DefaultAll(targets, sinkTypes).value;
      && |ts| == |targets| && AllReady(ts)
      && forall i | 0 <= i < |ts| ::
           && ts[i].sink == targets[i].sink && ts[i].required == targets[i].required
           && (targets[i].minimumWaitMs.Some? ==> ts[i].minimumWaitMs == targets[i].minimumWaitMs)
           && (targets[i].timeoutMs.Some? ==> ts[i].timeoutMs == targets[i].timeoutMs)
  {
    if targets != [] {
      assert targets[0] in targets;
      assert forall t | t in targets[1..] :: t in targets;
      DefaultsMakeReady(targets[1..], sinkTypes);
    }
  }

  lemma {:induction false} RoutesBecomeReady(routes: seq<Route>, sinkTypes: map<string, SinkType>)
    requires forall r | r in routes :: ValidTargetList(r.targets)
    requires DefaultRoutes(routes, sinkTypes).Success?
    ensures forall r | r in DefaultRoutes(routes, sinkTypes).value :: AllReady(r.targets) && DistinctNames(r.targets)
  {
    if routes != [] {
      assert routes[0] in routes;
      DefaultsMakeReady(routes[0].targets, sinkTypes);
      assert forall r | r in routes[1..] :: r in routes;
      RoutesBecomeReady(routes[1..], sinkTypes);
    }
  }

  /** A validated policy that can select anything has every wait in place. */
  lemma ValidatedPolicyIsReady(p: Policy)
    requires Normalized(p) && p.enabled && Validated(p).Success?
    ensures PolicyReady(Validated(p).value) && Validated(p).value.enabled
  {
    DefaultsMakeReady(p.defaultTargets, p.sinkTypes);
    RoutesBecomeReady(p.routes, p.sinkTypes);
  }

  // ---------------------------------------------------------------- selection

  /** The targets the matching routes offer one envelope: those of the first match, or of all. */
  function Offered(routes: seq<Route>, mode: Mode, matching: Matching): seq<Target> {
    if routes == [] then []
    else if routes[0].name !in matching then Offered(routes[1..], mode, matching)
    else if mode.First? then routes[0].targets
    else routes[0].targets + Offered(routes[1..], mode, matching)
  }

  /** t is the first of its name. */
  predicate FirstOfName(targets: seq<Target>, t: Target) {
    exists i | 0 <= i < |targets| :: targets[i] == t && forall j | 0 <= j < i :: targets[j].sink != t.sink
  }

  lemma {:induction false} AppendOfConcat(selected: seq<Target>, a: seq<Target>, b: seq<Target>)
    ensures AppendTargets(AppendTargets(selected, a), b) == AppendTargets(selected, a + b)
    decreases |a|
  {
    if a == [] {
      assert a + b == b;
    } else {
      assert (a + b)[0] == a[0] && (a + b)[1..] == a[1..] + b;
      AppendOfConcat(if a[0].sink in Names(selected) then selected else selected + [a[0]], a[1..], b);
    }
  }

  lemma {:induction false} MatchedAreOffered(routes: seq<Route>, mode: Mode, matching: Matching, selected: seq<Target>)
    ensures MatchedTargets(routes, mode, matching, selected) == AppendTargets(selected, Offered(routes, mode, matching))
    decreases |routes|
  {
    if routes != [] {
      var targets := routes[0].targets;
      MatchedAreOffered(routes[1..], mode, matching, selected);
      MatchedAreOffered(routes[1..], mode, matching, AppendTargets(selected, targets));
      AppendOfConcat(selected, targets, Offered(routes[1..], mode, matching));
    }
  }

  lemma FirstOrLater(targets: seq<Target>, t: Target)
    requires targets != []
    ensures FirstOfName(targets, t) <==> t == targets[0] || (t.sink != targets[0].sink && FirstOfName(targets[1..], t))
  {
    var rest := targets[1..];
    if t == targets[0] {
      assert targets[0] == t;
    } else if t.sink != targets[0].sink {
      if FirstOfName(rest, t) {
        var i :| 0 <= i < |rest| && rest[i] == t && forall j | 0 <= j < i :: rest[j].sink != t.sink;
        assert targets[i + 1] == t;
        assert forall j | 0 < j < i + 1 :: targets[j] == rest[j - 1];
      }
      if FirstOfName(targets, t) {
        var i :| 0 <= i < |targets| && targets[i] == t && forall j | 0 <= j < i :: targets[j].sink != t.sink;
        assert rest[i - 1] == t && forall j | 0 <= j < i - 1 :: rest[j] == targets[j + 1];
      }
    }
  }

  lemma {:induction false} AppendTakesFirst(selected: seq<Target>, targets: seq<Target>, t: Target)
    ensures t in AppendTargets(selected, targets) <==>
            t in selected || (t.sink !in Names(selected) && FirstOfName(targets, t))
    decreases |targets|
  {
    if targets != [] {
      var next := if targets[0].sink in Names(selected) then selected else selected + [targets[0]];
      NamesOfAppend(selected, targets[0]);
      AppendTakesFirst(next, targets[1..], t);
      FirstOrLater(targets, t);
    }
  }

  lemma {:induction false} AppendStaysDistinct(selected: seq<Target>, targets: seq<Target>)
    requires DistinctNames(selected)
    ensures DistinctNames(AppendTargets(selected, targets))
    decreases |targets|
  {
    if targets != [] {
      assert forall i | 0 <= i < |selected| :: selected[i].sink in Names(selected);
      AppendStaysDistinct(if targets[0].sink in Names(selected) then selected
          else selected + [targets[0]], targets[1..]);
    }
  }

  /** One envelope is sent to exactly the first offer of each name, once; a later route's policy for it is dropped. */
  lemma SelectionTakesFirstOffers(routes: seq<Route>, mode: Mode, matching: Matching, t: Target)
    ensures var selected := MatchedTargets(routes, mode, matching, []);
      && (t in selected <==> FirstOfName(Offered(routes, mode, matching), t))
      && DistinctNames(selected)
  {
    MatchedAreOffered(routes, mode, matching, []);
    AppendTakesFirst([], Offered(routes, mode, matching), t);
    AppendStaysDistinct([], Offered(routes, mode, matching));
  }

  lemma {:induction false} FirstExists(targets: seq<Target>, sink: string) returns (t: Target)
    requires sink in Names(targets)
    ensures FirstOfName(targets, t) && t.sink == sink
  {
    if targets[0].sink == sink {
      t := targets[0];
    } else {
      t := FirstExists(targets[1..], sink);
    }
    FirstOrLater(targets, t);
  }

  /** A sink that some matching route requires is required for the envelope exactly if its first offer requires it. */
  lemma RequiredIsHonouredExactly(routes: seq<Route>, mode: Mode, matching: Matching, offer: Target)
    requires offer in Offered(routes, mode, matching) && offer.required
    ensures (exists u | u in MatchedTargets(routes, mode, matching, []) :: u.sink == offer.sink && u.required) <==>
            (forall u | FirstOfName(Offered(routes, mode, matching), u) && u.sink == offer.sink :: u.required)
  {
    var offered := Offered(routes, mode, matching);
    var first := FirstExists(offered, offer.sink);
    forall u
      ensures u in MatchedTargets(routes, mode, matching, []) <==> FirstOfName(offered, u)
    {
      SelectionTakesFirstOffers(routes, mode, matching, u);
    }
    assert forall u | FirstOfName(offered, u) && u.sink == offer.sink :: u == first;
  }

  lemma DefaultedAlone(t: Target, sinkTypes: map<string, SinkType>)
    requires Defaulted(t, sinkTypes) == Success(t)
    ensures DefaultAll([t], sinkTypes) == Success([t])
  {
    assert [t][1..] == [] && DefaultAll([], sinkTypes) == Success([]);
    assert [t] + [] == [t];
  }

  /** In one envelope's selection, unlike in a batch, a required target can be overruled by an earlier optional one. */
  lemma RequiredCanBeOverruled()
    ensures exists p: Policy, matching: Matching, t: Target ::
      && Normalized(p) && p.enabled && Validated(p).Success? && t.required
      && t in Offered(Validated(p).value.routes, p.mode, matching)
      && SelectTargets(Validated(p).value, matching).Success?
      && exists u | u in SelectTargets(Validated(p).value, matching).value :: u.sink == t.sink && !u.required
  {
    var optional, required := Target("archive", false, Some(100), Some(1_000)), Target("archive", true, None, None);
    var bulk, audit := Route("bulk", [optional]), Route("audit", [required]);
    var p, matching := Policy(true, Mode.All, Reject, map[], [], [bulk, audit]), {"bulk", "audit"};
    DefaultedAlone(optional, map[]);
    DefaultedAlone(required, map[]);
    assert [audit][1..] == [] && p.routes[1..] == [audit];
    assert DefaultRoutes([], map[]) == Success([]);
    assert DefaultRoutes([audit], map[]) == Success([audit] + []) && [audit] + [] == [audit];
    assert DefaultRoutes(p.routes, map[]) == Success([bulk] + [audit]);
    assert [bulk] + [audit] == p.routes && DefaultAll(p.defaultTargets, p.sinkTypes) == Success([]);
    assert Validated(p) == Success(p);
    assert Offered([audit], Mode.All, matching) == [required] + [];
    var offered := Offered(p.routes, Mode.All, matching);
    assert offered == [optional] + ([required] + []);
    assert offered[0] == optional && offered[1] == required;
    assert FirstOfName(offered, optional);
    SelectionTakesFirstOffers(p.routes, Mode.All, matching, optional);
    assert bulk in p.routes && bulk.name in matching;
    assert optional in SelectTargets(p, matching).value && required in offered;
  }

  lemma {:induction false} AppendKeepsReady(selected: seq<Target>, targets: seq<Target>)
    requires AllReady(selected) && AllReady(targets)
    ensures AllReady(AppendTargets(selected, targets))
    decreases |targets|
  {
    if targets != [] {
      AppendKeepsReady(if targets[0].sink in Names(selected) then selected else selected + [targets[0]], targets[1..]);
    }
  }

  lemma {:induction false} MatchedKeepReady(routes: seq<Route>, mode: Mode, matching: Matching, selected: seq<Target>)
    requires AllReady(selected) && forall r | r in routes :: AllReady(r.targets)
    ensures AllReady(MatchedTargets(routes, mode, matching, selected))
    decreases |routes|
  {
    if routes != [] {
      assert routes[0] in routes && forall r | r in routes[1..] :: r in routes;
      AppendKeepsReady(selected, routes[0].targets);
      MatchedKeepReady(routes[1..], mode, matching, selected);
      MatchedKeepReady(routes[1..], mode, matching, AppendTargets(selected, routes[0].targets));
    }
  }

  lemma {:induction false} SelectedAreReady(p: Policy, batch: seq<Matching>)
    requires PolicyReady(p) && SelectAll(p, batch).Success?
    ensures AllReady(SelectAll(p, batch).value)
  {
    if batch != [] {
      MatchedKeepReady(p.routes, p.mode, batch[0], []);
      SelectedAreReady(p, batch[1..]);
    }
  }

  // ---------------------------------------------------------------- merging

  /** m is the least strict target that is at least as strict as every selected one of its name. */
  ghost predicate LeastUpperBound(m: Target, selected: seq<Target>) {
    && (forall t | t in selected && t.sink == m.sink :: AtLeastAsStrict(m, t))
    && forall u | GateReady(u) && u.sink == m.sink
                  && (forall t | t in selected && t.sink == m.sink :: AtLeastAsStrict(u, t)) :: AtLeastAsStrict(u, m)
  }

  /** merged accounts exactly for the targets selected so far. */
  ghost predicate Accounts(merged: seq<Target>, selected: seq<Target>) {
    && AllReady(merged) && DistinctNames(merged) && Names(merged) == Names(selected)
    && forall m | m in merged :: LeastUpperBound(m, selected)
  }

  /** j is where t lands: on the entry of its name, or at the end. */
  lemma {:induction false} MergeIntoAt(merged: seq<Target>, t: Target) returns (j: nat)
    requires DistinctNames(merged)
    ensures j <= |merged|
    ensures forall i | 0 <= i < |merged| && i != j :: merged[i].sink != t.sink
    ensures if j < |merged| then merged[j].sink == t.sink && MergeInto(merged, t) == merged[j := Merge(merged[j], t)]
            else MergeInto(merged, t) == merged + [t]
  {
    j := 0;
    if merged != [] && merged[0].sink != t.sink {
      var rest := merged[1..];
      var k := MergeIntoAt(rest, t);
      assert MergeInto(merged, t) == [merged[0]] + MergeInto(rest, t);
      assert k < |rest| ==> [merged[0]] + rest[k := Merge(rest[k], t)] == merged[k + 1 := Merge(rest[k], t)];
      assert forall i | 0 < i < |merged| :: merged[i] == merged[1..][i - 1];
      j := k + 1;
    }
  }

  lemma LubOfMerge(l: Target, t: Target, selected: seq<Target>)
    requires GateReady(l) && GateReady(t) && l.sink == t.sink && LeastUpperBound(l, selected)
    ensures GateReady(Merge(l, t)) && LeastUpperBound(Merge(l, t), selected + [t])
  {
    var m, selected' := Merge(l, t), selected + [t];
    assert t in selected' && forall s | s in selected' :: s == t || s in selected;
    forall u | GateReady(u) && u.sink == m.sink && forall s | s in selected' && s.sink == m.sink ::
        AtLeastAsStrict(u, s)
      ensures AtLeastAsStrict(u, m)
    {
      assert forall s | s in selected && s.sink == l.sink :: s in selected' && AtLeastAsStrict(u, s);
      assert AtLeastAsStrict(u, l) && AtLeastAsStrict(u, t);
    }
  }

  lemma LubOfFresh(t: Target, selected: seq<Target>)
    requires GateReady(t) && t.sink !in Names(selected)
    ensures LeastUpperBound(t, selected + [t])
  {
    assert forall s | s in selected :: s.sink in Names(selected);
    assert t in selected + [t];
  }

  lemma LubOfOther(m: Target, t: Target, selected: seq<Target>)
    requires LeastUpperBound(m, selected) && m.sink != t.sink
    ensures LeastUpperBound(m, selected + [t])
  {
    assert forall s: Target | s.sink == m.sink :: s in selected <==> s in selected + [t];
  }

  lemma MergedLub(merged: seq<Target>, t: Target, selected: seq<Target>, m: Target)
    requires Accounts(merged, selected) && GateReady(t) && m in MergeInto(merged, t)
    ensures GateReady(m) && LeastUpperBound(m, selected + [t])
  {
    var j := MergeIntoAt(merged, t);
    var i :| 0 <= i < |MergeInto(merged, t)| && MergeInto(merged, t)[i] == m;
    if i != j {
      assert m == merged[i] && m in merged;
      LubOfOther(m, t, selected);
    } else if j < |merged| {
      assert merged[j] in merged && m == Merge(merged[j], t);
      LubOfMerge(merged[j], t, selected);
    } else {
      NotNamed(merged, t.sink);
      LubOfFresh(t, selected);
    }
  }

  lemma NotNamed(targets: seq<Target>, sink: string)
    requires forall i | 0 <= i < |targets| :: targets[i].sink != sink
    ensures sink !in Names(targets)
  {
  }

  lemma ReplacedNames(targets: seq<Target>, j: nat, m: Target)
    requires j < |targets| && m.sink == targets[j].sink && DistinctNames(targets)
    ensures DistinctNames(targets[j := m]) && Names(targets[j := m]) == Names(targets) && m.sink in Names(targets)
  {
    SameNames(targets, targets[j := m]);
    assert targets[j] in targets;
  }

  lemma AddedNames(targets: seq<Target>, t: Target)
    requires DistinctNames(targets) && forall i | 0 <= i < |targets| :: targets[i].sink != t.sink
    ensures DistinctNames(targets + [t]) && Names(targets + [t]) == Names(targets) + {t.sink}
  {
    NamesOfAppend(targets, t);
  }

  lemma MergedNames(merged: seq<Target>, t: Target)
    requires DistinctNames(merged)
    ensures DistinctNames(MergeInto(merged, t)) && Names(MergeInto(merged, t)) == Names(merged) + {t.sink}
  {
    var j := MergeIntoAt(merged, t);
    if j < |merged| {
      var m := Merge(merged[j], t);
      ReplacedNames(merged, j, m);
      assert Names(merged) + {t.sink} == Names(merged);
    } else {
      AddedNames(merged, t);
    }
  }

  lemma NamesOfAppend(targets: seq<Target>, t: Target)
    ensures Names(targets + [t]) == Names(targets) + {t.sink}
  {
    assert t in targets + [t] && forall u | u in targets :: u in targets + [t];
  }

  lemma MergeAccounts(merged: seq<Target>, t: Target, selected: seq<Target>)
    requires Accounts(merged, selected) && GateReady(t)
    ensures Accounts(MergeInto(merged, t), selected + [t])
  {
    MergedNames(merged, t);
    NamesOfAppend(selected, t);
    forall m | m in MergeInto(merged, t)
      ensures GateReady(m) && LeastUpperBound(m, selected + [t])
    {
      MergedLub(merged, t, selected, m);
    }
  }

  lemma SameNames(a: seq<Target>, b: seq<Target>)
    requires |a| == |b| && forall i | 0 <= i < |a| :: a[i].sink == b[i].sink
    ensures Names(a) == Names(b)
  {
    assert forall i | 0 <= i < |a| :: a[i].sink in Names(b) && b[i].sink in Names(a);
  }

  lemma {:induction false} MergeAllAccounts(merged: seq<Target>, before: seq<Target>, selected: seq<Target>)
    requires Accounts(merged, before) && AllReady(selected)
    ensures Accounts(MergeAll(merged, selected), before + selected)
    decreases |selected|
  {
    if selected == [] {
      assert before + selected == before;
    } else {
      assert selected[0] in selected;
      MergeAccounts(merged, selected[0], before);
      assert before + [selected[0]] + selected[1..] == before + selected;
      MergeAllAccounts(MergeInto(merged, selected[0]), before + [selected[0]], selected[1..]);
    }
  }

  // ---------------------------------------------------------------- main results

  /**
   The targets of a batch are distinct, have their waits, and each is the least strict policy
   that honours every envelope's own policy, so the batch is not released earlier than any of them allows.
   */
  lemma GateTargetsAccountForBatch(p: Policy, batch: seq<Matching>)
    requires PolicyReady(p) && GateTargets(p, batch).Success?
    ensures Accounts(GateTargets(p, batch).value, SelectAll(p, batch).value)
  {
    SelectedAreReady(p, batch);
    assert Accounts([], []);
    MergeAllAccounts([], [], SelectAll(p, batch).value);
    assert [] + SelectAll(p, batch).value == SelectAll(p, batch).value;
  }

  /** A least upper bound is unique. */
  lemma BoundsAreUnique(m: Target, n: Target, selected: seq<Target>, reordered: seq<Target>)
    requires multiset(selected) == multiset(reordered)
    requires GateReady(m) && GateReady(n) && m.sink == n.sink
    requires LeastUpperBound(m, selected) && LeastUpperBound(n, reordered)
    ensures m == n
  {
    forall t
      ensures t in selected <==> t in reordered
    {
      SameItems(selected, reordered, t);
    }
    assert AtLeastAsStrict(m, n) && AtLeastAsStrict(n, m);
  }

  lemma {:induction false} AllSelectable(p: Policy, batch: seq<Matching>)
    ensures SelectAll(p, batch).Success? <==> forall e | e in batch :: SelectTargets(p, e).Success?
  {
    if batch != [] {
      assert batch == [batch[0]] + batch[1..];
      AllSelectable(p, batch[1..]);
    }
  }

  lemma SelectedOfCons(p: Policy, e: Matching, rest: seq<Matching>)
    requires SelectTargets(p, e).Success? && SelectAll(p, rest).Success?
    ensures SelectAll(p, [e] + rest) == Success(SelectTargets(p, e).value + SelectAll(p, rest).value)
  {
    assert ([e] + rest)[0] == e && ([e] + rest)[1..] == rest;
  }

  lemma {:induction false} SelectedOfConcat(p: Policy, a: seq<Matching>, b: seq<Matching>)
    requires SelectAll(p, a).Success? && SelectAll(p, b).Success?
    ensures SelectAll(p, a + b) == Success(SelectAll(p, a).value + SelectAll(p, b).value)
  {
    if a == [] {
      assert a + b == b && [] + SelectAll(p, b).value == SelectAll(p, b).value;
    } else {
      var e, rest := a[0], a[1..];
      assert a == [e] + rest && a + b == [e] + (rest + b);
      SelectedOfConcat(p, rest, b);
      SelectedOfCons(p, e, rest);
      SelectedOfCons(p, e, rest + b);
      var x, y, z := SelectTargets(p, e).value, SelectAll(p, rest).value, SelectAll(p, b).value;
      assert x + (y + z) == x + y + z;
    }
  }

  lemma SelectedAround(p: Policy, front: seq<Matching>, e: Matching, rest: seq<Matching>)
    requires SelectAll(p, front + [e] + rest).Success?
    ensures SelectTargets(p, e).Success? && SelectAll(p, front + rest).Success?
    ensures multiset(SelectAll(p, front + [e] + rest).value)
         == multiset(SelectTargets(p, e).value) + multiset(SelectAll(p, front + rest).value)
  {
    AllSelectable(p, front + [e] + rest);
    AllSelectable(p, front);
    AllSelectable(p, rest);
    assert e in front + [e] + rest && (forall f | f in front :: f in front + [e] + rest);
    SelectedOfCons(p, e, rest);
    SelectedOfConcat(p, front, [e] + rest);
    SelectedOfConcat(p, front, rest);
    assert front + ([e] + rest) == front + [e] + rest;
  }

  lemma SelectedHead(p: Policy, a: seq<Matching>)
    requires a != [] && SelectAll(p, a).Success?
    ensures SelectTargets(p, a[0]).Success? && SelectAll(p, a[1..]).Success?
    ensures multiset(SelectAll(p, a).value)
            == multiset(SelectTargets(p, a[0]).value) + multiset(SelectAll(p, a[1..]).value)
  {
  }

  lemma {:induction false} SelectedOfPermuted(p: Policy, a: seq<Matching>, b: seq<Matching>)
    requires multiset(a) == multiset(b) && SelectAll(p, a).Success? && SelectAll(p, b).Success?
    ensures multiset(SelectAll(p, a).value) == multiset(SelectAll(p, b).value)
    decreases |a|
  {
    if a == [] {
      assert |multiset(a)| == |multiset(b)|;
    } else {
      var front, rest := TakeFirst(a, b);
      SelectedHead(p, a);
      SelectedAround(p, front, a[0], rest);
      SelectedOfPermuted(p, a[1..], front + rest);
    }
  }

  lemma SelectableInAnyOrder(p: Policy, a: seq<Matching>, b: seq<Matching>)
    requires multiset(a) == multiset(b)
    ensures SelectAll(p, a).Success? <==> SelectAll(p, b).Success?
  {
    AllSelectable(p, a);
    AllSelectable(p, b);
    forall e
      ensures e in a <==> e in b
    {
      SameItems(a, b, e);
    }
  }

  lemma MergedEitherWay(p: Policy, a: seq<Matching>, b: seq<Matching>, m: Target)
    requires PolicyReady(p) && multiset(a) == multiset(b)
    requires GateTargets(p, a).Success? && GateTargets(p, b).Success? && m in GateTargets(p, a).value
    ensures m in GateTargets(p, b).value
  {
    SelectedOfPermuted(p, a, b);
    var x, y := SelectAll(p, a).value, SelectAll(p, b).value;
    GateTargetsAccountForBatch(p, a);
    GateTargetsAccountForBatch(p, b);
    assert m.sink in Names(x);
    var t :| t in x && t.sink == m.sink;
    SameItems(x, y, t);
    assert t.sink in Names(y);
    var n :| n in GateTargets(p, b).value && n.sink == m.sink;
    BoundsAreUnique(m, n, x, y);
  }

  /** The order of the messages in a batch decides neither whether it is routed nor the policy of any sink. */
  lemma MergeIsOrderIndependent(p: Policy, a: seq<Matching>, b: seq<Matching>)
    requires PolicyReady(p) && multiset(a) == multiset(b)
    ensures GateTargets(p, a).Success? <==> GateTargets(p, b).Success?
    ensures GateTargets(p, a).Success? ==> forall m :: m in GateTargets(p, a).value <==> m in GateTargets(p, b).value
  {
    SelectableInAnyOrder(p, a, b);
    if GateTargets(p, a).Success? {
      forall m
        ensures m in GateTargets(p, a).value <==> m in GateTargets(p, b).value
      {
        if m in GateTargets(p, a).value {
          MergedEitherWay(p, a, b, m);
        }
        if m in GateTargets(p, b).value {
          MergedEitherWay(p, b, a, m);
        }
      }
    }
  }

  /** The schedule of a batch: one operation for each selected sink. */
  function BatchEnv(targets: seq<Target>, behaviour: string -> Task, timerLag: nat -> Lag, wakeLag: nat -> Lag,
                    cancelAt: Option<real>): Env
  {
    Env(map sink | sink in Names(targets) :: behaviour(sink), timerLag, wakeLag, cancelAt)
  }

  /**
   End to end, for every batch routed by a validated policy and every schedule of its writes: the gate has an
   operation and the waits for each target, and lets go in bounded time.
   */
  lemma ValidatedRoutingMeetsGate(p: Policy, batch: seq<Matching>, behaviour: string -> Task, timerLag: nat -> Lag,
                                  wakeLag: nat -> Lag, cancelAt: Option<real>, startedAt: real)
    requires Normalized(p) && p.enabled && Validated(p).Success? && GateTargets(Validated(p).value, batch).Success?
    ensures var targets := GateTargets(Validated(p).value, batch).value;
      var env := BatchEnv(targets, behaviour, timerLag, wakeLag, cancelAt);
      var (exit, end) := Gate(env, targets, startedAt);
      && DistinctNames(targets) && !exit.MissingOperations? && !exit.WaitsNotResolved?
      && (AckGateProofs.NoneHangs(env, targets) ==>
            end.now <= MaxReal(AckGateProofs.LastRequiredFinish(env, targets, startedAt), startedAt + 300.001)
                       + AckGateProofs.LagOf(env, 0, end.awaits))
  {
    ValidatedPolicyIsReady(p);
    var ready := Validated(p).value;
    GateTargetsAccountForBatch(ready, batch);
    var targets := GateTargets(ready, batch).value;
    ReadyTargetsMeetGate(targets, BatchEnv(targets, behaviour, timerLag, wakeLag, cancelAt), startedAt);
  }

  lemma ReadyTargetsMeetGate(targets: seq<Target>, env: Env, startedAt: real)
    requires AllReady(targets) && Scheduled(env, targets)
    ensures var (exit, end) := Gate(env, targets, startedAt);
      && !exit.MissingOperations? && !exit.WaitsNotResolved?
      && (AckGateProofs.NoneHangs(env, targets) ==>
            end.now <= MaxReal(AckGateProofs.LastRequiredFinish(env, targets, startedAt), startedAt + 300.001)
                       + AckGateProofs.LagOf(env, 0, end.awaits))
  {
    AckGateProofs.RequiredPhaseOutcome(env, targets, AtStart(startedAt));
    WaitsAreResolved(env, targets, startedAt, RequiredEnd(env, targets, startedAt));
    if AckGateProofs.NoneHangs(env, targets) {
      var limit := MaxReal(AckGateProofs.LastRequiredFinish(env, targets, startedAt), startedAt + 300.001);
      assert AckGateProofs.CoversTimeouts(targets, startedAt, limit);
      AckGateProofs.GateEndsInTime(env, targets, startedAt, limit);
    }
  }

  lemma {:induction false} WaitsAreResolved(env: Env, targets: seq<Target>, startedAt: real, w: World)
    requires Scheduled(env, targets) && AllReady(targets)
    ensures var phase := ObserveOptional(env, targets, startedAt, w).0;
      phase.Interrupted? ==> phase.exit.Escaped? || phase.exit.GateCancelled?
    decreases |targets|
  {
    if targets != [] {
      var t, rest := targets[0], targets[1..];
      assert GateReady(t);
      WaitsAreResolved(env, rest, startedAt, if t.required then w else Observe(env, t, startedAt, w).1);
    }
  }
}
