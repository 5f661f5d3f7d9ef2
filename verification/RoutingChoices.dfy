/** Which waits targets end up with, and which targets a message goes to, read off the configuration. */
module RoutingChoices {
  import opened Prelude
  import opened AckGate
  import opened Routing
  import opened RoutingProofs

  // ---------------------------------------------------------------- reading targets

  /** The bounds of a configured target, in milliseconds. */
  lemma ReadsExactly(entry: RawTarget, t: Target)
    ensures ReadTarget(entry) == Some(t) <==>
      || (entry == Name(t.sink) && t.required && t.minimumWaitMs == None && t.timeoutMs == None)
      || (&& entry == Object(t)
          && (t.minimumWaitMs.Some? ==> 0 <= t.minimumWaitMs.value <= 60_000)
          && (t.timeoutMs.Some? ==> 0 <= t.timeoutMs.value <= 300_000)
          && (t.required ==> t.minimumWaitMs == None && t.timeoutMs == None)
          && (t.minimumWaitMs.Some? && t.timeoutMs.Some? ==> t.minimumWaitMs.value <= t.timeoutMs.value))
  {
  }

  /** How many targets a list may hold, and which. */
  lemma ListsExactly(targets: seq<Target>)
    ensures ValidTargetList(targets) <==>
      && 1 <= |targets| <= 64
      && (forall t | t in targets :: ReadTarget(Object(t)) == Some(t))
      && forall i, j | 0 <= i < j < |targets| :: targets[i].sink != targets[j].sink
  {
  }

  // ---------------------------------------------------------------- defaults

  predicate Local(sinkType: SinkType) {
    sinkType == File || sinkType == Spool
  }

  /** The waits of an optional target whose sink type is known: its own, or those of the type. */
  function WaitOf(t: Target, sinkType: SinkType): int {
    if t.minimumWaitMs.Some? then t.minimumWaitMs.value else if Local(sinkType) then 100 else 1_000
  }

  function TimeoutOf(t: Target, sinkType: SinkType): int {
    if t.timeoutMs.Some? then t.timeoutMs.value else if Local(sinkType) then 1_000 else 5_000
  }

  /** An optional target that lacks a wait and a type to take it from, or would time out before its minimum wait. */
  predicate Undefaultable(t: Target, sinkTypes: map<string, SinkType>) {
    && !t.required
    && if t.sink in sinkTypes then TimeoutOf(t, sinkTypes[t.sink]) < WaitOf(t, sinkTypes[t.sink])
       else t.minimumWaitMs.None? || t.timeoutMs.None?
  }

  /** A target with its waits filled in; one of unknown type has both already. */
  function Filled(t: Target, sinkTypes: map<string, SinkType>): Target {
    if t.required || t.sink !in sinkTypes then t
    else Target(t.sink, false, Some(WaitOf(t, sinkTypes[t.sink])), Some(TimeoutOf(t, sinkTypes[t.sink])))
  }

  function Blame(t: Target, sinkTypes: map<string, SinkType>): PolicyError {
    if t.sink in sinkTypes then TimeoutBelowMinimum(t.sink) else SinkTypeRequired(t.sink)
  }

  lemma OneDefaults(t: Target, sinkTypes: map<string, SinkType>)
    ensures Defaulted(t, sinkTypes) ==
            if Undefaultable(t, sinkTypes) then Failure(Blame(t, sinkTypes)) else Success(Filled(t, sinkTypes))
  {
  }

  lemma {:induction false} DefaultsNameTheFirst(targets: seq<Target>, sinkTypes: map<string, SinkType>, k: nat)
    requires k < |targets| && Undefaultable(targets[k], sinkTypes)
    requires forall j | 0 <= j < k :: !Undefaultable(targets[j], sinkTypes)
    ensures DefaultAll(targets, sinkTypes) == Failure(Blame(targets[k], sinkTypes))
  {
    OneDefaults(targets[0], sinkTypes);
    if k > 0 {
      DefaultsNameTheFirst(targets[1..], sinkTypes, k - 1);
    }
  }

  lemma {:induction false} DefaultsFill(targets: seq<Target>, sinkTypes: map<string, SinkType>)
    requires forall j | 0 <= j < |targets| :: !Undefaultable(targets[j], sinkTypes)
    ensures var result := DefaultAll(targets, sinkTypes);
      && result.Success? && |result.value| == |targets|
      && forall i | 0 <= i < |targets| :: result.value[i] == Filled(targets[i], sinkTypes)
  {
    if targets != [] {
      OneDefaults(targets[0], sinkTypes);
      DefaultsFill(targets[1..], sinkTypes);
    }
  }

  /**
   Defaulting a list fails exactly when one of its targets cannot be defaulted, and then for the first of them;
   otherwise required targets stay as they are and optional ones get exactly these waits.
   */
  lemma DefaultsExactly(targets: seq<Target>, sinkTypes: map<string, SinkType>)
    ensures var result := DefaultAll(targets, sinkTypes);
      && (result.Success? <==> AllDefaultable(targets, sinkTypes))
      && (result.Success? ==>
            |result.value| == |targets|
            && forall i | 0 <= i < |targets| :: result.value[i] == Filled(targets[i], sinkTypes))
      && (result.Failure? ==>
            exists k | 0 <= k < |targets| ::
              && Undefaultable(targets[k], sinkTypes) && result.error == Blame(targets[k], sinkTypes)
              && forall j | 0 <= j < k :: !Undefaultable(targets[j], sinkTypes))
  {
    var k := 0;
    while k < |targets| && !Undefaultable(targets[k], sinkTypes)
      invariant k <= |targets| && forall j | 0 <= j < k :: !Undefaultable(targets[j], sinkTypes)
    {
      k := k + 1;
    }
    if k < |targets| {
      DefaultsNameTheFirst(targets, sinkTypes, k);
      assert targets[k] in targets;
    } else {
      DefaultsFill(targets, sinkTypes);
    }
  }

  predicate AllDefaultable(targets: seq<Target>, sinkTypes: map<string, SinkType>) {
    forall t | t in targets :: !Undefaultable(t, sinkTypes)
  }

  lemma {:induction false} RoutesDefault(routes: seq<Route>, sinkTypes: map<string, SinkType>)
    ensures var result := DefaultRoutes(routes, sinkTypes);
      && (result.Success? <==> forall r | r in routes :: AllDefaultable(r.targets, sinkTypes))
      && (result.Success? ==>
            && |result.value| == |routes|
            && forall i | 0 <= i < |routes| ::
                 result.value[i].name == routes[i].name
                 && DefaultAll(routes[i].targets, sinkTypes) == Success(result.value[i].targets))
  {
    if routes != [] {
      assert routes == [routes[0]] + routes[1..];
      DefaultsExactly(routes[0].targets, sinkTypes);
      RoutesDefault(routes[1..], sinkTypes);
    }
  }

  /**
   A policy is valid exactly when an enabled one has routes, default targets are given just for the default route,
   and every target in it can be defaulted; only the targets' waits change, and none in a disabled policy without
   default targets.
   */
  lemma ValidatesExactly(p: Policy)
    ensures var result := Validated(p);
      var inUse := p.enabled || p.defaultTargets != [];
      && (result.Success? <==>
            && (p.enabled ==> p.routes != []) && (p.noMatch.DefaultRoute? <==> p.defaultTargets != [])
            && (inUse ==>
                  && AllDefaultable(p.defaultTargets, p.sinkTypes)
                  && forall r | r in p.routes :: AllDefaultable(r.targets, p.sinkTypes)))
      && (result.Success? && !inUse ==> result.value == p)
      && (result.Success? && inUse ==>
            && result.value == p.(defaultTargets := result.value.defaultTargets, routes := result.value.routes)
            && DefaultAll(p.defaultTargets, p.sinkTypes) == Success(result.value.defaultTargets)
            && |result.value.routes| == |p.routes|
            && forall i | 0 <= i < |p.routes| ::
                 result.value.routes[i].name == p.routes[i].name
                 && DefaultAll(p.routes[i].targets, p.sinkTypes) == Success(result.value.routes[i].targets))
      && (result == Failure(NeedsRoute) <==> p.enabled && p.routes == [])
  {
    DefaultsExactly(p.defaultTargets, p.sinkTypes);
    RoutesDefault(p.routes, p.sinkTypes);
  }

  // ---------------------------------------------------------------- selection for one message

  /** Route k is looked at for its targets: it matches, and in first mode no earlier one does. */
  predicate Counts(routes: seq<Route>, mode: Mode, matching: Matching, k: nat) {
    && k < |routes| && routes[k].name in matching
    && (mode == Mode.First ==> forall j | 0 <= j < k :: routes[j].name !in matching)
  }

  /** Route k offers t, and nothing before that offers its sink. */
  predicate OffersFirst(routes: seq<Route>, mode: Mode, matching: Matching, t: Target, k: nat) {
    && Counts(routes, mode, matching, k) && FirstOfName(routes[k].targets, t)
    && forall j | 0 <= j < k && Counts(routes, mode, matching, j) :: t.sink !in Names(routes[j].targets)
  }

  lemma NamesOfCons(t: Target, rest: seq<Target>)
    ensures Names([t] + rest) == {t.sink} + Names(rest)
  {
    assert t in [t] + rest && forall u | u in rest :: u in [t] + rest;
  }

  lemma {:induction false} FirstOfConcat(a: seq<Target>, b: seq<Target>, t: Target)
    ensures FirstOfName(a + b, t) <==> FirstOfName(a, t) || (t.sink !in Names(a) && FirstOfName(b, t))
  {
    if a == [] {
      assert a + b == b;
    } else {
      assert (a + b)[0] == a[0] && (a + b)[1..] == a[1..] + b && a == [a[0]] + a[1..];
      FirstOrLater(a + b, t);
      FirstOrLater(a, t);
      NamesOfCons(a[0], a[1..]);
      FirstOfConcat(a[1..], b, t);
    }
  }

  lemma CountsNext(routes: seq<Route>, mode: Mode, matching: Matching, k: nat)
    requires routes != []
    ensures Counts(routes, mode, matching, k + 1) <==>
      Counts(routes[1..], mode, matching, k) && (mode == Mode.First ==> routes[0].name !in matching)
  {
    var rest := routes[1..];
    assert forall j | 0 <= j < |rest| :: rest[j] == routes[j + 1];
    if Counts(rest, mode, matching, k) && mode == Mode.First && routes[0].name !in matching {
      assert forall j | 0 < j < k + 1 :: routes[j] == rest[j - 1];
    }
    if Counts(routes, mode, matching, k + 1) && mode == Mode.First {
      assert forall j | 0 <= j < k :: rest[j] == routes[j + 1];
    }
  }

  lemma OffersNext(routes: seq<Route>, mode: Mode, matching: Matching, t: Target, k: nat)
    requires routes != [] && (mode == Mode.First ==> routes[0].name !in matching)
    ensures OffersFirst(routes, mode, matching, t, k + 1) <==>
      && OffersFirst(routes[1..], mode, matching, t, k)
      && (routes[0].name in matching ==> t.sink !in Names(routes[0].targets))
  {
    var rest := routes[1..];
    CountsNext(routes, mode, matching, k);
    forall j | 0 <= j < k
      ensures Counts(routes, mode, matching, j + 1) <==> Counts(rest, mode, matching, j)
      ensures j < |rest| ==> routes[j + 1] == rest[j]
    {
      CountsNext(routes, mode, matching, j);
    }
    assert Counts(routes, mode, matching, 0) <==> routes[0].name in matching;
    if OffersFirst(routes, mode, matching, t, k + 1) {
      forall j | 0 <= j < k && Counts(rest, mode, matching, j)
        ensures t.sink !in Names(rest[j].targets)
      {
        assert Counts(routes, mode, matching, j + 1);
      }
    }
    if OffersFirst(rest, mode, matching, t, k) && (routes[0].name in matching ==> t.sink !in Names(routes[0].targets)) {
      forall j | 0 <= j < k + 1 && Counts(routes, mode, matching, j)
        ensures t.sink !in Names(routes[j].targets)
      {
        if j > 0 {
          assert Counts(rest, mode, matching, j - 1);
        }
      }
    }
  }

  lemma {:induction false} FirstOffer(routes: seq<Route>, mode: Mode, matching: Matching, t: Target)
    ensures FirstOfName(Offered(routes, mode, matching), t) <==>
            exists k: nat :: OffersFirst(routes, mode, matching, t, k)
  {
    if routes != [] {
      var rest := routes[1..];
      FirstOffer(rest, mode, matching, t);
      FirstOfConcat(routes[0].targets, Offered(rest, mode, matching), t);
      assert OffersFirst(routes, mode, matching, t, 0) <==>
        routes[0].name in matching && FirstOfName(routes[0].targets, t);
      if routes[0].name in matching && mode == Mode.First {
        assert forall k: nat | OffersFirst(routes, mode, matching, t, k) :: k == 0;
      } else {
        if k: nat :| OffersFirst(routes, mode, matching, t, k) {
          if k > 0 {
            OffersNext(routes, mode, matching, t, k - 1);
          }
        }
        if k: nat :| OffersFirst(rest, mode, matching, t, k) {
          OffersNext(routes, mode, matching, t, k);
        }
      }
    }
  }

  /**
   What one message is selected for: an enabled policy with a matching route selects exactly the first offer of each
   sink; without one, its default targets, nothing, or a refusal, as configured.
   */
  lemma SelectsExactly(p: Policy, matching: Matching, t: Target)
    ensures var selection := SelectTargets(p, matching);
      var matches := exists r | r in p.routes :: r.name in matching;
      && (selection == Failure(RoutingDisabled) <==> !p.enabled)
      && (selection == Failure(NoRouteMatched) <==> p.enabled && !matches && p.noMatch == Reject)
      && (p.enabled && !matches && p.noMatch == DefaultRoute ==> selection == Success(p.defaultTargets))
      && (p.enabled && !matches && p.noMatch == Ignore ==> selection == Success([]))
      && (p.enabled && matches ==>
            && selection.Success? && DistinctNames(selection.value)
            && (t in selection.value <==> exists k: nat :: OffersFirst(p.routes, p.mode, matching, t, k)))
  {
    SelectionTakesFirstOffers(p.routes, p.mode, matching, t);
    FirstOffer(p.routes, p.mode, matching, t);
  }

  // ---------------------------------------------------------------- order

  /** Where a sink is named first; |targets| if nowhere. */
  function FirstIndex(targets: seq<Target>, sink: string): (i: nat)
    ensures i <= |targets|
  {
    if targets == [] || targets[0].sink == sink then 0 else 1 + FirstIndex(targets[1..], sink)
  }

  predicate NamedBefore(named: seq<Target>, x: string, y: string) {
    FirstIndex(named, x) < FirstIndex(named, y) < |named|
  }

  /** The sinks are listed in the order in which they are first named. */
  predicate InOrder(listed: seq<Target>, named: seq<Target>) {
    forall i, j | 0 <= i < j < |listed| :: NamedBefore(named, listed[i].sink, listed[j].sink)
  }

  lemma {:induction false} IndexOfConcat(a: seq<Target>, b: seq<Target>, sink: string)
    ensures FirstIndex(a + b, sink) == if sink in Names(a) then FirstIndex(a, sink) else |a| + FirstIndex(b, sink)
    ensures FirstIndex(a, sink) < |a| <==> sink in Names(a)
  {
    if a == [] {
      assert a + b == b;
    } else {
      assert (a + b)[0] == a[0] && (a + b)[1..] == a[1..] + b;
      assert a == [a[0]] + a[1..];
      NamesOfCons(a[0], a[1..]);
      IndexOfConcat(a[1..], b, sink);
    }
  }

  lemma {:induction false} DistinctIndex(targets: seq<Target>, i: nat)
    requires DistinctNames(targets) && i < |targets|
    ensures FirstIndex(targets, targets[i].sink) == i
  {
    if i > 0 {
      DistinctIndex(targets[1..], i - 1);
    }
  }

  lemma IndexAfterDropping(a: seq<Target>, t: Target, b: seq<Target>, sink: string)
    requires t.sink in Names(a)
    ensures var i, j := FirstIndex(a + b, sink), FirstIndex(a + ([t] + b), sink);
      if i < |a| then j == i else j == i + 1
  {
    IndexOfConcat(a, b, sink);
    IndexOfConcat(a, [t] + b, sink);
    if sink !in Names(a) {
      var tb := [t] + b;
      assert tb[0] == t && tb[1..] == b && t.sink != sink;
      assert FirstIndex(tb, sink) == 1 + FirstIndex(b, sink);
    }
  }

  lemma DroppingIsIrrelevant(listed: seq<Target>, a: seq<Target>, t: Target, b: seq<Target>)
    requires InOrder(listed, a + b) && t.sink in Names(a)
    ensures InOrder(listed, a + ([t] + b))
  {
    forall i, j | 0 <= i < j < |listed|
      ensures NamedBefore(a + ([t] + b), listed[i].sink, listed[j].sink)
    {
      assert NamedBefore(a + b, listed[i].sink, listed[j].sink);
      IndexAfterDropping(a, t, b, listed[i].sink);
      IndexAfterDropping(a, t, b, listed[j].sink);
    }
  }

  lemma {:induction false} AppendedInOrder(selected: seq<Target>, targets: seq<Target>)
    requires DistinctNames(selected)
    ensures InOrder(AppendTargets(selected, targets), selected + targets)
    decreases |targets|
  {
    if targets == [] {
      assert selected + targets == selected;
      forall i | 0 <= i < |selected|
        ensures FirstIndex(selected, selected[i].sink) == i
      {
        DistinctIndex(selected, i);
      }
    } else {
      var t, rest := targets[0], targets[1..];
      assert targets == [t] + rest;
      if t.sink in Names(selected) {
        AppendedInOrder(selected, rest);
        DroppingIsIrrelevant(AppendTargets(selected, rest), selected, t, rest);
      } else {
        assert forall i | 0 <= i < |selected| :: selected[i].sink in Names(selected);
        AppendedInOrder(selected + [t], rest);
        assert selected + [t] + rest == selected + targets;
      }
    }
  }

  /** A message's targets stand in the order in which the routes offer their sinks. */
  lemma SelectionKeepsOrder(routes: seq<Route>, mode: Mode, matching: Matching)
    ensures InOrder(MatchedTargets(routes, mode, matching, []), Offered(routes, mode, matching))
  {
    MatchedAreOffered(routes, mode, matching, []);
    AppendedInOrder([], Offered(routes, mode, matching));
    assert [] + Offered(routes, mode, matching) == Offered(routes, mode, matching);
  }

  predicate SameSinks(a: seq<Target>, b: seq<Target>) {
    |a| == |b| && forall i | 0 <= i < |a| :: a[i].sink == b[i].sink
  }

  lemma MergeNamesOne(merged: seq<Target>, selected: seq<Target>, t: Target)
    requires DistinctNames(merged) && SameSinks(merged, selected)
    ensures var next := if t.sink in Names(selected) then selected else selected + [t];
      SameSinks(MergeInto(merged, t), next) && DistinctNames(MergeInto(merged, t))
  {
    var j := MergeIntoAt(merged, t);
    MergedNames(merged, t);
    RoutingProofs.SameNames(merged, selected);
    if j < |merged| {
      assert merged[j] in merged;
    } else {
      NotNamed(merged, t.sink);
    }
  }

  lemma {:induction false} MergeNamesAll(merged: seq<Target>, selected: seq<Target>, targets: seq<Target>)
    requires DistinctNames(merged) && SameSinks(merged, selected)
    ensures SameSinks(MergeAll(merged, targets), AppendTargets(selected, targets))
    decreases |targets|
  {
    if targets != [] {
      MergeNamesOne(merged, selected, targets[0]);
      MergeNamesAll(MergeInto(merged, targets[0]),
          if targets[0].sink in Names(selected) then selected else selected + [targets[0]], targets[1..]);
    }
  }

  /** The gate's targets stand in the order in which the batch first selects their sinks. */
  lemma MergeKeepsOrder(p: Policy, batch: seq<Matching>)
    requires GateTargets(p, batch).Success?
    ensures SelectAll(p, batch).Success? && InOrder(GateTargets(p, batch).value, SelectAll(p, batch).value)
  {
    var selected := SelectAll(p, batch).value;
    MergeNamesAll([], [], selected);
    AppendedInOrder([], selected);
    assert [] + selected == selected;
  }

  /** A batch is refused exactly when one of its messages is, and then as the first such message is. */
  lemma {:induction false} BatchIsRefusedExactly(p: Policy, batch: seq<Matching>)
    ensures GateTargets(p, batch).Failure? <==> exists k | 0 <= k < |batch| :: SelectTargets(p, batch[k]).Failure?
    ensures GateTargets(p, batch).Failure? ==>
      exists k | 0 <= k < |batch| ::
        && SelectTargets(p, batch[k]) == Failure(GateTargets(p, batch).error)
        && forall j | 0 <= j < k :: SelectTargets(p, batch[j]).Success?
  {
    if batch != [] {
      var rest := batch[1..];
      BatchIsRefusedExactly(p, rest);
      if SelectTargets(p, batch[0]).Success? {
        assert forall k | 0 < k < |batch| :: batch[k] == rest[k - 1];
        if GateTargets(p, rest).Failure? {
          var k :| 0 <= k < |rest| && SelectTargets(p, rest[k]) == Failure(GateTargets(p, rest).error)
            && forall j | 0 <= j < k :: SelectTargets(p, rest[j]).Success?;
          assert batch[k + 1] == rest[k];
        }
      } else {
        assert SelectTargets(p, batch[0]) == Failure(GateTargets(p, batch).error);
      }
    }
  }
}
