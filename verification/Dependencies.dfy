/** Expansion of self-referencing optional dependencies (scripts/update-dependency-manifests.py). */
module Dependencies {
  import opened Prelude
  import opened Text

  const PREFIX := "nats-sinks["

  type Groups = map<string, seq<string>>

  datatype Problem = Recursive(group: string) | Unknown(group: string)

  predicate IsSelfReference(requirement: string) {
    StartsWith(requirement, PREFIX) && EndsWith(requirement, "]")
  }

  /** The items once normalised, without those that become empty. */
  function TrimmedBy(strip: string -> string, items: seq<string>): seq<string> {
    if items == [] then []
    else (if strip(items[0]) == "" then [] else [strip(items[0])]) + TrimmedBy(strip, items[1..])
  }

  function Trimmed(items: seq<string>): seq<string> {
    TrimmedBy(Strip, items)
  }

  /** The group names a requirement refers to; the closing bracket cannot be part of the prefix. */
  function Extras(requirement: string): seq<string>
    requires IsSelfReference(requirement)
  {
    assert requirement[|PREFIX| - 1] == '[' && requirement[|requirement| - 1] == ']';
    Trimmed(Split(requirement[|PREFIX|..|requirement| - 1], ','))
  }

  /** The groups one list of requirements refers to, in order. */
  function References(requirements: seq<string>): seq<string> {
    if requirements == [] then []
    else (if IsSelfReference(requirements[0]) then Extras(requirements[0]) else []) + References(requirements[1..])
  }

  // ---------------------------------------------------------------- de-duplication

  /** The items not in seen, each at its first occurrence only. */
  function FirstSeen(items: seq<string>, seen: set<string>): seq<string> {
    if items == [] then []
    else if items[0] in seen then FirstSeen(items[1..], seen)
    else [items[0]] + FirstSeen(items[1..], seen + {items[0]})
  }

  function Deduped(requirements: seq<string>): seq<string> {
    FirstSeen(Trimmed(requirements), {})
  }

  lemma TrimmedNext(strip: string -> string, items: seq<string>, i: nat)
    requires i < |items|
    ensures TrimmedBy(strip, items[i..]) ==
            (if strip(items[i]) == "" then [] else [strip(items[i])]) + TrimmedBy(strip, items[i + 1..])
  {
    assert items[i..][0] == items[i] && items[i..][1..] == items[i + 1..];
  }

  lemma FirstSeenNext(item: string, rest: seq<string>, seen: set<string>)
    ensures FirstSeen([item] + rest, seen) ==
            if item in seen then FirstSeen(rest, seen) else [item] + FirstSeen(rest, seen + {item})
  {
    assert ([item] + rest)[1..] == rest;
  }

  /** _dedupe. */
  method Dedupe(requirements: seq<string>) returns (result: seq<string>)
    ensures result == Deduped(requirements)
  {
    result := DedupeBy(Strip, requirements);
  }

  /** Its loop, for any way of normalising. */
  method DedupeBy(strip: string -> string, requirements: seq<string>) returns (result: seq<string>)
    ensures result == FirstSeen(TrimmedBy(strip, requirements), {})
  {
    result := [];
    var seen: set<string> := {};
    assert requirements[0..] == requirements;
    for i := 0 to |requirements|
      invariant result + FirstSeen(TrimmedBy(strip, requirements[i..]), seen)
                == FirstSeen(TrimmedBy(strip, requirements), {})
    {
      var normalized := strip(requirements[i]);
      ghost var rest := TrimmedBy(strip, requirements[i + 1..]);
      TrimmedNext(strip, requirements, i);
      FirstSeenNext(normalized, rest, seen);
      if normalized == "" {
        assert [] + rest == rest;
        continue;
      }
      if normalized in seen {
        continue;
      }
      ghost var tail := FirstSeen(rest, seen + {normalized});
      assert result + ([normalized] + tail) == (result + [normalized]) + tail;
      seen := seen + {normalized};
      result := result + [normalized];
    }
  }

  // ---------------------------------------------------------------- expansion

  type Expansion = Result<seq<string>, Problem>

  function Append(first: Expansion, second: Expansion): Expansion {
    var a :- first;
    var b :- second;
    Success(a + b)
  }

  /** _expand_requirements; every list of requirements is de-duplicated after its parts are expanded. */
  function Expand(requirements: seq<string>, groups: Groups, seen: set<string>): Expansion
    decreases |groups.Keys - seen|, 3, 0
  {
    var expanded :- ExpandEach(requirements, groups, seen);
    Success(Deduped(expanded))
  }

  function ExpandEach(requirements: seq<string>, groups: Groups, seen: set<string>): Expansion
    decreases |groups.Keys - seen|, 2, |requirements|
  {
    if requirements == [] then Success([])
    else
      Append(if IsSelfReference(requirements[0]) then ExpandGroups(Extras(requirements[0]), groups, seen)
             else Success([requirements[0]]),
             ExpandEach(requirements[1..], groups, seen))
  }

  /** The loop of _expand_self_reference. */
  function ExpandGroups(extras: seq<string>, groups: Groups, seen: set<string>): Expansion
    decreases |groups.Keys - seen|, 1, |extras|
  {
    if extras == [] then Success([])
    else if extras[0] in seen then Failure(Recursive(extras[0]))
    else if extras[0] !in groups then Failure(Unknown(extras[0]))
    else
      Shrinks(groups, seen, extras[0]);
      Append(Expand(groups[extras[0]], groups, seen + {extras[0]}), ExpandGroups(extras[1..], groups, seen))
  }

  lemma Shrinks(groups: Groups, seen: set<string>, group: string)
    requires group in groups && group !in seen
    ensures |groups.Keys - (seen + {group})| < |groups.Keys - seen|
  {
    assert groups.Keys - seen == (groups.Keys - (seen + {group})) + {group};
  }

  // ---------------------------------------------------------------- the loops

  method ExpandRequirements(requirements: seq<string>, groups: Groups, seen: set<string>) returns (result: Expansion)
    ensures result == Expand(requirements, groups, seen)
    decreases |groups.Keys - seen|, 1
  {
    var expanded: seq<string> := [];
    ghost var whole := ExpandEach(requirements, groups, seen);
    AppendToNothing(whole);
    assert requirements[0..] == requirements;
    for i := 0 to |requirements|
      invariant Append(Success(expanded), ExpandEach(requirements[i..], groups, seen)) == whole
    {
      assert requirements[i..][0] == requirements[i] && requirements[i..][1..] == requirements[i + 1..];
      var part := ExpandSelfReference(requirements[i], groups, seen);
      if part.Failure? {
        return part;
      }
      AppendAssociates(expanded, part.value, ExpandEach(requirements[i + 1..], groups, seen));
      expanded := expanded + part.value;
    }
    assert requirements[|requirements|..] == [] && expanded + [] == expanded;
    var deduped := Dedupe(expanded);
    result := Success(deduped);
  }

  method ExpandSelfReference(requirement: string, groups: Groups, seen: set<string>) returns (result: Expansion)
    ensures result == if IsSelfReference(requirement) then ExpandGroups(Extras(requirement), groups, seen)
                      else Success([requirement])
    decreases |groups.Keys - seen|, 0, 1
  {
    if !IsSelfReference(requirement) {
      return Success([requirement]);
    }
    result := ExpandExtras(Extras(requirement), groups, seen);
  }

  method ExpandExtras(extras: seq<string>, groups: Groups, seen: set<string>) returns (result: Expansion)
    ensures result == ExpandGroups(extras, groups, seen)
    decreases |groups.Keys - seen|, 0, 0
  {
    var expanded: seq<string> := [];
    ghost var whole := ExpandGroups(extras, groups, seen);
    AppendToNothing(whole);
    assert extras[0..] == extras;
    for i := 0 to |extras|
      invariant Append(Success(expanded), ExpandGroups(extras[i..], groups, seen)) == whole
    {
      assert extras[i..][0] == extras[i] && extras[i..][1..] == extras[i + 1..];
      if extras[i] in seen {
        return Failure(Recursive(extras[i]));
      }
      if extras[i] !in groups {
        return Failure(Unknown(extras[i]));
      }
      Shrinks(groups, seen, extras[i]);
      var part := ExpandRequirements(groups[extras[i]], groups, seen + {extras[i]});
      if part.Failure? {
        return part;
      }
      AppendAssociates(expanded, part.value, ExpandGroups(extras[i + 1..], groups, seen));
      expanded := expanded + part.value;
    }
    assert extras[|extras|..] == [] && expanded + [] == expanded;
    result := Success(expanded);
  }

  lemma AppendToNothing(rest: Expansion)
    ensures Append(Success([]), rest) == rest
  {
    if rest.Success? {
      assert [] + rest.value == rest.value;
    }
  }

  lemma AppendAssociates(a: seq<string>, b: seq<string>, rest: Expansion)
    ensures Append(Success(a), Append(Success(b), rest)) == Append(Success(a + b), rest)
  {
    if rest.Success? {
      assert a + (b + rest.value) == (a + b) + rest.value;
    }
  }
}

module DependencyProofs {
  import opened Prelude
  import opened Text
  import opened Dependencies

  // ---------------------------------------------------------------- de-duplication

  function Elements(items: seq<string>): set<string> {
    set r | r in items
  }

  lemma {:induction false} FirstSeenContents(items: seq<string>, seen: set<string>)
    ensures var result := FirstSeen(items, seen);
      && Elements(result) == Elements(items) - seen
      && forall i, j | 0 <= i < j < |result| :: result[i] != result[j]
  {
    if items != [] {
      assert items == [items[0]] + items[1..];
      if items[0] in seen {
        FirstSeenContents(items[1..], seen);
      } else {
        var rest := FirstSeen(items[1..], seen + {items[0]});
        FirstSeenContents(items[1..], seen + {items[0]});
        assert forall i | 0 <= i < |rest| :: rest[i] in Elements(rest);
        assert Elements([items[0]] + rest) == {items[0]} + Elements(rest);
      }
    }
  }

  /** Where an item first occurs; |items| if nowhere. */
  function FirstAt(items: seq<string>, item: string): (i: nat)
    ensures i <= |items| && (i < |items| <==> item in items)
  {
    if items == [] || items[0] == item then 0 else 1 + FirstAt(items[1..], item)
  }

  /** De-duplication keeps items in the order in which they first occur. */
  lemma {:induction false} FirstSeenOrder(items: seq<string>, seen: set<string>, i: nat, j: nat)
    requires i < j < |FirstSeen(items, seen)|
    ensures var result := FirstSeen(items, seen); FirstAt(items, result[i]) < FirstAt(items, result[j]) < |items|
  {
    var rest := FirstSeen(items[1..], seen + {items[0]});
    if items[0] in seen {
      SeenIsLeftOut(items[1..], seen, items[0]);
      FirstSeenOrder(items[1..], seen, i, j);
    } else {
      SeenIsLeftOut(items[1..], seen + {items[0]}, items[0]);
      SeenIsPart(items[1..], seen + {items[0]}, rest[j - 1]);
      if i > 0 {
        FirstSeenOrder(items[1..], seen + {items[0]}, i - 1, j - 1);
      }
    }
  }

  lemma SeenIsLeftOut(items: seq<string>, seen: set<string>, item: string)
    requires item in seen
    ensures item !in FirstSeen(items, seen)
  {
    FirstSeenContents(items, seen);
    assert item !in Elements(FirstSeen(items, seen));
  }

  lemma SeenIsPart(items: seq<string>, seen: set<string>, item: string)
    requires item in FirstSeen(items, seen)
    ensures item in items
  {
    FirstSeenContents(items, seen);
    assert item in Elements(FirstSeen(items, seen));
  }

  lemma {:induction false} FirstSeenOfConcat(a: seq<string>, b: seq<string>, seen: set<string>)
    ensures FirstSeen(a + b, seen) == FirstSeen(a, seen) + FirstSeen(b, seen + Elements(a))
  {
    if a == [] {
      assert a + b == b && seen + Elements(a) == seen;
    } else {
      assert (a + b)[0] == a[0] && (a + b)[1..] == a[1..] + b && a == [a[0]] + a[1..];
      var seen' := seen + {a[0]};
      FirstSeenOfConcat(a[1..], b, if a[0] in seen then seen else seen');
      assert seen + Elements(a) == seen' + Elements(a[1..]);
      assert a[0] in seen ==> seen == seen';
    }
  }

  lemma {:induction false} FirstSeenTwice(items: seq<string>, inner: set<string>, outer: set<string>)
    ensures FirstSeen(FirstSeen(items, inner), outer) == FirstSeen(items, inner + outer)
  {
    if items != [] {
      var r := items[0];
      if r in inner {
        FirstSeenTwice(items[1..], inner, outer);
      } else {
        var rest := FirstSeen(items[1..], inner + {r});
        assert ([r] + rest)[1..] == rest;
        if r in outer {
          FirstSeenTwice(items[1..], inner + {r}, outer);
          assert inner + {r} + outer == inner + outer;
        } else {
          FirstSeenTwice(items[1..], inner + {r}, outer + {r});
          assert inner + {r} + (outer + {r}) == inner + outer + {r};
        }
      }
    }
  }

  lemma TrimmedOfConcat(a: seq<string>, b: seq<string>)
    ensures Trimmed(a + b) == Trimmed(a) + Trimmed(b)
  {
    TrimmedByOfConcat(Strip, a, b);
  }

  lemma {:induction false} TrimmedByOfConcat(strip: string -> string, a: seq<string>, b: seq<string>)
    ensures TrimmedBy(strip, a + b) == TrimmedBy(strip, a) + TrimmedBy(strip, b)
  {
    if a == [] {
      assert a + b == b;
    } else {
      assert (a + b)[0] == a[0] && (a + b)[1..] == a[1..] + b;
      TrimmedByOfConcat(strip, a[1..], b);
    }
  }

  lemma {:induction false} TrimmedShape(requirements: seq<string>)
    ensures forall r | r in Trimmed(requirements) :: Stripped(r) && r != ""
  {
    if requirements != [] {
      TrimmedShape(requirements[1..]);
    }
  }

  lemma {:induction false} TrimmedFixes(items: seq<string>)
    requires forall r | r in items :: Stripped(r) && r != ""
    ensures Trimmed(items) == items
  {
    if items != [] {
      StripFixes(items[0]);
      TrimmedFixes(items[1..]);
    }
  }

  lemma DedupedIsTrimmed(requirements: seq<string>)
    ensures Trimmed(Deduped(requirements)) == Deduped(requirements)
    ensures Elements(Deduped(requirements)) == Elements(Trimmed(requirements))
  {
    var result := Deduped(requirements);
    TrimmedShape(requirements);
    FirstSeenContents(Trimmed(requirements), {});
    forall r | r in result
      ensures Stripped(r) && r != ""
    {
      assert r in Elements(result);
    }
    TrimmedFixes(result);
  }

  // ---------------------------------------------------------------- references

  /** A reference is the project's own name with something in brackets. */
  lemma ReferencesLookLikeThis(requirement: string)
    ensures IsSelfReference(requirement) <==> exists inside :: requirement == "nats-sinks[" + inside + "]"
  {
    if IsSelfReference(requirement) {
      var n := |requirement|;
      assert requirement[10] == '[' && requirement[n - 1] == ']';
      var inside := requirement[11..n - 1];
      assert requirement[..11] == "nats-sinks[" && requirement[n - 1..] == "]";
      assert requirement == requirement[..11] + requirement[11..n - 1] + requirement[n - 1..];
    }
    if inside :| requirement == "nats-sinks[" + inside + "]" {
      assert requirement[..11] == "nats-sinks[" && requirement[|requirement| - 1..] == "]";
    }
  }

  /** The groups named in the brackets, separated by commas, are read back in order; white space and blanks drop out. */
  lemma NamedGroupsAreRead(names: seq<string>)
    requires names != [] && forall n | n in names :: ',' !in n
    ensures var requirement := "nats-sinks[" + Join(names, ",") + "]";
      && IsSelfReference(requirement) && Extras(requirement) == Trimmed(names)
      && ((forall n | n in names :: Stripped(n) && n != "") ==> Extras(requirement) == names)
  {
    var requirement := "nats-sinks[" + Join(names, ",") + "]";
    ReferencesLookLikeThis(requirement);
    assert requirement[11..|requirement| - 1] == Join(names, ",");
    assert [','] == ",";
    SplitOfJoin(names, ',');
    if forall n | n in names :: Stripped(n) && n != "" {
      TrimmedFixes(names);
    }
  }

  // ---------------------------------------------------------------- plain depth-first expansion

  /** The expansion without any de-duplication on the way. */
  function Plain(requirements: seq<string>, groups: Groups, seen: set<string>): Expansion
    decreases |groups.Keys - seen|, 2, |requirements|
  {
    if requirements == [] then Success([])
    else
      Append(if IsSelfReference(requirements[0]) then PlainGroups(Extras(requirements[0]), groups, seen)
             else Success([requirements[0]]),
             Plain(requirements[1..], groups, seen))
  }

  function PlainGroups(extras: seq<string>, groups: Groups, seen: set<string>): Expansion
    decreases |groups.Keys - seen|, 1, |extras|
  {
    if extras == [] then Success([])
    else if extras[0] in seen then Failure(Recursive(extras[0]))
    else if extras[0] !in groups then Failure(Unknown(extras[0]))
    else
      Shrinks(groups, seen, extras[0]);
      Append(Plain(groups[extras[0]], groups, seen + {extras[0]}), PlainGroups(extras[1..], groups, seen))
  }

  /** Lists that no later de-duplication can tell apart. */
  ghost predicate Alike(a: seq<string>, b: seq<string>) {
    && Elements(Trimmed(a)) == Elements(Trimmed(b))
    && forall seen :: FirstSeen(Trimmed(a), seen) == FirstSeen(Trimmed(b), seen)
  }

  ghost predicate Equivalent(x: Expansion, y: Expansion) {
    if x.Success? && y.Success? then Alike(x.value, y.value) else x == y
  }

  lemma ConcatSeen(a: seq<string>, a': seq<string>, b: seq<string>, b': seq<string>, seen: set<string>)
    requires Elements(a) == Elements(a') && FirstSeen(a, seen) == FirstSeen(a', seen)
    requires FirstSeen(b, seen + Elements(a)) == FirstSeen(b', seen + Elements(a))
    ensures FirstSeen(a + b, seen) == FirstSeen(a' + b', seen)
  {
    FirstSeenOfConcat(a, b, seen);
    FirstSeenOfConcat(a', b', seen);
  }

  lemma ConcatAlike(a: seq<string>, a': seq<string>, b: seq<string>, b': seq<string>)
    requires Alike(a, a') && Alike(b, b')
    ensures Alike(a + b, a' + b')
  {
    TrimmedOfConcat(a, b);
    TrimmedOfConcat(a', b');
    forall seen: set<string>
      ensures FirstSeen(Trimmed(a + b), seen) == FirstSeen(Trimmed(a' + b'), seen)
    {
      ConcatSeen(Trimmed(a), Trimmed(a'), Trimmed(b), Trimmed(b'), seen);
    }
    ElementsOfConcat(Trimmed(a), Trimmed(b));
    ElementsOfConcat(Trimmed(a'), Trimmed(b'));
  }

  lemma ElementsOfConcat(a: seq<string>, b: seq<string>)
    ensures Elements(a + b) == Elements(a) + Elements(b)
  {
  }

  lemma AppendEquivalent(x: Expansion, x': Expansion, y: Expansion, y': Expansion)
    requires Equivalent(x, x') && Equivalent(y, y')
    ensures Equivalent(Append(x, y), Append(x', y'))
  {
    if x.Success? && y.Success? && x'.Success? && y'.Success? {
      ConcatAlike(x.value, x'.value, y.value, y'.value);
    }
  }

  lemma {:induction false} EachIsPlain(requirements: seq<string>, groups: Groups, seen: set<string>)
    ensures Equivalent(ExpandEach(requirements, groups, seen), Plain(requirements, groups, seen))
    decreases |groups.Keys - seen|, 2, |requirements|
  {
    if requirements != [] {
      EachIsPlain(requirements[1..], groups, seen);
      if IsSelfReference(requirements[0]) {
        var extras := Extras(requirements[0]);
        GroupsArePlain(extras, groups, seen);
        AppendEquivalent(ExpandGroups(extras, groups, seen), PlainGroups(extras, groups, seen),
                         ExpandEach(requirements[1..], groups, seen), Plain(requirements[1..], groups, seen));
      } else {
        var leaf: Expansion := Success([requirements[0]]);
        AppendEquivalent(leaf, leaf, ExpandEach(requirements[1..], groups, seen),
            Plain(requirements[1..], groups, seen));
      }
    }
  }

  lemma {:induction false} GroupsArePlain(extras: seq<string>, groups: Groups, seen: set<string>)
    ensures Equivalent(ExpandGroups(extras, groups, seen), PlainGroups(extras, groups, seen))
    decreases |groups.Keys - seen|, 1, |extras|
  {
    if extras != [] && extras[0] !in seen && extras[0] in groups {
      var inner := seen + {extras[0]};
      Shrinks(groups, seen, extras[0]);
      EachIsPlain(groups[extras[0]], groups, inner);
      DedupeEquivalent(ExpandEach(groups[extras[0]], groups, inner), Plain(groups[extras[0]], groups, inner));
      GroupsArePlain(extras[1..], groups, seen);
      AppendEquivalent(Expand(groups[extras[0]], groups, inner), Plain(groups[extras[0]], groups, inner),
                       ExpandGroups(extras[1..], groups, seen), PlainGroups(extras[1..], groups, seen));
    }
  }

  function DedupedOnce(x: Expansion): Expansion {
    var requirements :- x;
    Success(Deduped(requirements))
  }

  lemma DedupeEquivalent(x: Expansion, y: Expansion)
    requires Equivalent(x, y)
    ensures Equivalent(DedupedOnce(x), y)
  {
    if x.Success? {
      DedupedIsTrimmed(x.value);
      forall seen: set<string>
        ensures FirstSeen(Deduped(x.value), seen) == FirstSeen(Trimmed(y.value), seen)
      {
        FirstSeenTwice(Trimmed(x.value), {}, seen);
        assert {} + seen == seen;
      }
    }
  }

  /** De-duplicating at every level is de-duplicating the plain expansion once. */
  lemma NestedDedupeIsOneDedupe(requirements: seq<string>, groups: Groups, seen: set<string>)
    ensures Expand(requirements, groups, seen) == DedupedOnce(Plain(requirements, groups, seen))
  {
    EachIsPlain(requirements, groups, seen);
  }

  // ---------------------------------------------------------------- reachability

  /** p continues along references between groups. */
  predicate Chained(groups: Groups, p: seq<string>) {
    |p| <= 1 || (p[0] in groups && p[1] in References(groups[p[0]]) && Chained(groups, p[1..]))
  }

  /** A chain of groups whose first member is one of the given ones. */
  predicate Path(groups: Groups, from: seq<string>, p: seq<string>) {
    p != [] && p[0] in from && Chained(groups, p)
  }

  function End(p: seq<string>): string
    requires p != []
  {
    p[|p| - 1]
  }

  /** The chain ends in a group that does not exist, is being expanded already, or occurred before. */
  predicate Dead(groups: Groups, seen: set<string>, p: seq<string>)
    requires p != []
  {
    End(p) !in groups || End(p) in seen || End(p) in p[..|p| - 1]
  }

  /** Why a dead chain is dead: its end was there before, or else does not exist. */
  function Cause(seen: set<string>, p: seq<string>): Problem
    requires p != []
  {
    if End(p) in seen || End(p) in p[..|p| - 1] then Recursive(End(p)) else Unknown(End(p))
  }

  predicate LeafOf(requirements: seq<string>, leaf: string) {
    leaf in requirements && !IsSelfReference(leaf)
  }

  ghost predicate Reaches(groups: Groups, from: seq<string>, leaf: string) {
    exists p :: Path(groups, from, p) && End(p) in groups && LeafOf(groups[End(p)], leaf)
  }

  lemma Extend(groups: Groups, seen: set<string>, x: string, p: seq<string>)
    requires x in groups && Path(groups, References(groups[x]), p)
    ensures Path(groups, [x], [x] + p) && End([x] + p) == End(p)
    ensures Dead(groups, seen + {x}, p) ==> Dead(groups, seen, [x] + p)
    ensures Cause(seen + {x}, p) == Cause(seen, [x] + p)
  {
    var q := [x] + p;
    assert q[1..] == p && q[..|q| - 1] == [x] + p[..|p| - 1];
  }

  lemma {:induction false} FailureHasPath(requirements: seq<string>, groups: Groups, seen: set<string>)
      returns (p: seq<string>)
    requires Plain(requirements, groups, seen).Failure?
    ensures Path(groups, References(requirements), p) && Dead(groups, seen, p)
    ensures Plain(requirements, groups, seen).error == Cause(seen, p)
    decreases |groups.Keys - seen|, 2, |requirements|
  {
    if IsSelfReference(requirements[0]) && PlainGroups(Extras(requirements[0]), groups, seen).Failure? {
      p := GroupFailureHasPath(Extras(requirements[0]), groups, seen);
    } else {
      p := FailureHasPath(requirements[1..], groups, seen);
    }
  }

  lemma {:induction false} GroupFailureHasPath(extras: seq<string>, groups: Groups, seen: set<string>)
      returns (p: seq<string>)
    requires PlainGroups(extras, groups, seen).Failure?
    ensures Path(groups, extras, p) && Dead(groups, seen, p)
    ensures PlainGroups(extras, groups, seen).error == Cause(seen, p)
    decreases |groups.Keys - seen|, 1, |extras|
  {
    var x := extras[0];
    if x in seen || x !in groups {
      p := [x];
    } else {
      Shrinks(groups, seen, x);
      if Plain(groups[x], groups, seen + {x}).Failure? {
        var q := FailureHasPath(groups[x], groups, seen + {x});
        Extend(groups, seen, x, q);
        p := [x] + q;
      } else {
        p := GroupFailureHasPath(extras[1..], groups, seen);
      }
    }
  }

  lemma PlainFailsNext(requirements: seq<string>, groups: Groups, seen: set<string>)
    requires requirements != []
    ensures Plain(requirements, groups, seen).Failure? <==>
      || (IsSelfReference(requirements[0]) && PlainGroups(Extras(requirements[0]), groups, seen).Failure?)
      || Plain(requirements[1..], groups, seen).Failure?
  {
  }

  lemma ReferencesNext(requirements: seq<string>, group: string)
    ensures group in References(requirements) <==>
      && requirements != []
      && ((IsSelfReference(requirements[0]) && group in Extras(requirements[0]))
          || group in References(requirements[1..]))
  {
  }

  lemma {:induction false} DeadPathFails(requirements: seq<string>, groups: Groups, seen: set<string>, p: seq<string>)
    requires Path(groups, References(requirements), p) && Dead(groups, seen, p)
    ensures Plain(requirements, groups, seen).Failure?
    decreases |groups.Keys - seen|, 2, |requirements|
  {
    ReferencesNext(requirements, p[0]);
    PlainFailsNext(requirements, groups, seen);
    if IsSelfReference(requirements[0]) && p[0] in Extras(requirements[0]) {
      DeadGroupPathFails(Extras(requirements[0]), groups, seen, p);
    } else {
      DeadPathFails(requirements[1..], groups, seen, p);
    }
  }

  lemma {:induction false} DeadGroupPathFails(extras: seq<string>, groups: Groups, seen: set<string>, p: seq<string>)
    requires Path(groups, extras, p) && Dead(groups, seen, p)
    ensures PlainGroups(extras, groups, seen).Failure?
    decreases |groups.Keys - seen|, 1, |extras|
  {
    var x := extras[0];
    if x !in seen && x in groups {
      Shrinks(groups, seen, x);
      if x == p[0] {
        assert |p| > 1;
        assert p[..|p| - 1] == [x] + p[1..][..|p| - 2];
        DeadPathFails(groups[x], groups, seen + {x}, p[1..]);
      } else {
        DeadGroupPathFails(extras[1..], groups, seen, p);
      }
    }
  }

  lemma {:induction false} LeafIsReached(requirements: seq<string>, groups: Groups, seen: set<string>, leaf: string)
    requires Plain(requirements, groups, seen).Success? && leaf in Plain(requirements, groups, seen).value
    ensures LeafOf(requirements, leaf) || Reaches(groups, References(requirements), leaf)
    decreases |groups.Keys - seen|, 2, |requirements|
  {
    var rest := requirements[1..];
    if leaf in Plain(rest, groups, seen).value {
      LeafIsReached(rest, groups, seen, leaf);
      if !LeafOf(rest, leaf) {
        var p :| Path(groups, References(rest), p) && End(p) in groups && LeafOf(groups[End(p)], leaf);
        assert Path(groups, References(requirements), p);
      }
    } else if IsSelfReference(requirements[0]) {
      GroupLeafIsReached(Extras(requirements[0]), groups, seen, leaf);
      var p :| Path(groups, Extras(requirements[0]), p) && End(p) in groups && LeafOf(groups[End(p)], leaf);
      assert Path(groups, References(requirements), p);
    }
  }

  lemma {:induction false} GroupLeafIsReached(extras: seq<string>, groups: Groups, seen: set<string>, leaf: string)
    requires PlainGroups(extras, groups, seen).Success? && leaf in PlainGroups(extras, groups, seen).value
    ensures Reaches(groups, extras, leaf)
    decreases |groups.Keys - seen|, 1, |extras|
  {
    var x := extras[0];
    Shrinks(groups, seen, x);
    if leaf in Plain(groups[x], groups, seen + {x}).value {
      LeafIsReached(groups[x], groups, seen + {x}, leaf);
      if LeafOf(groups[x], leaf) {
        assert Path(groups, extras, [x]) && End([x]) == x;
      } else {
        var q :| Path(groups, References(groups[x]), q) && End(q) in groups && LeafOf(groups[End(q)], leaf);
        Extend(groups, seen, x, q);
        assert Path(groups, extras, [x] + q);
      }
    } else {
      GroupLeafIsReached(extras[1..], groups, seen, leaf);
      var p :| Path(groups, extras[1..], p) && End(p) in groups && LeafOf(groups[End(p)], leaf);
      assert Path(groups, extras, p);
    }
  }

  lemma {:induction false} OwnLeafIsListed(requirements: seq<string>, groups: Groups, seen: set<string>, leaf: string)
    requires Plain(requirements, groups, seen).Success? && LeafOf(requirements, leaf)
    ensures leaf in Plain(requirements, groups, seen).value
  {
    if requirements[0] != leaf {
      OwnLeafIsListed(requirements[1..], groups, seen, leaf);
    }
  }

  lemma {:induction false} ReachedLeafIsListed(requirements: seq<string>, groups: Groups, seen: set<string>,
                                               p: seq<string>, leaf: string)
    requires Plain(requirements, groups, seen).Success?
    requires Path(groups, References(requirements), p) && End(p) in groups && LeafOf(groups[End(p)], leaf)
    ensures leaf in Plain(requirements, groups, seen).value
    decreases |groups.Keys - seen|, 2, |requirements|
  {
    if IsSelfReference(requirements[0]) && p[0] in Extras(requirements[0]) {
      ReachedGroupLeafIsListed(Extras(requirements[0]), groups, seen, p, leaf);
    } else {
      ReachedLeafIsListed(requirements[1..], groups, seen, p, leaf);
    }
  }

  lemma {:induction false} ReachedGroupLeafIsListed(extras: seq<string>, groups: Groups, seen: set<string>,
                                                    p: seq<string>, leaf: string)
    requires PlainGroups(extras, groups, seen).Success?
    requires Path(groups, extras, p) && End(p) in groups && LeafOf(groups[End(p)], leaf)
    ensures leaf in PlainGroups(extras, groups, seen).value
    decreases |groups.Keys - seen|, 1, |extras|
  {
    var x := extras[0];
    Shrinks(groups, seen, x);
    if x != p[0] {
      ReachedGroupLeafIsListed(extras[1..], groups, seen, p, leaf);
    } else if |p| == 1 {
      OwnLeafIsListed(groups[x], groups, seen + {x}, leaf);
    } else {
      ReachedLeafIsListed(groups[x], groups, seen + {x}, p[1..], leaf);
    }
  }

  // ---------------------------------------------------------------- main results

  /** Expansion fails exactly when some chain of references is dead, and for the reason one of them is. */
  lemma ExpansionFailsExactly(requirements: seq<string>, groups: Groups, seen: set<string>)
    ensures Expand(requirements, groups, seen).Failure? <==>
            exists p :: Path(groups, References(requirements), p) && Dead(groups, seen, p)
    ensures Expand(requirements, groups, seen).Failure? ==>
            exists p :: Path(groups, References(requirements), p) && Dead(groups, seen, p)
                        && Expand(requirements, groups, seen).error == Cause(seen, p)
  {
    NestedDedupeIsOneDedupe(requirements, groups, seen);
    if Plain(requirements, groups, seen).Failure? {
      var p := FailureHasPath(requirements, groups, seen);
    } else if exists p :: Path(groups, References(requirements), p) && Dead(groups, seen, p) {
      var p :| Path(groups, References(requirements), p) && Dead(groups, seen, p);
      DeadPathFails(requirements, groups, seen, p);
    }
  }

  /** A walk from a group that ends in an unknown group or where it has been before. */
  predicate Stuck(groups: Groups, w: seq<string>)
    requires w != []
  {
    End(w) !in groups || End(w) in w[..|w| - 1]
  }

  lemma StuckStart(groups: Groups, group: string, p: seq<string>)
    requires group in groups && Path(groups, References(groups[group]), p) && Dead(groups, {group}, p)
    ensures Path(groups, [group], [group] + p) && Stuck(groups, [group] + p)
  {
    assert {group} == {} + {group};
    Extend(groups, {}, group, p);
  }

  lemma StuckRest(groups: Groups, group: string, w: seq<string>)
    requires group in groups && Path(groups, [group], w) && Stuck(groups, w)
    ensures |w| > 1 && Path(groups, References(groups[group]), w[1..]) && Dead(groups, {group}, w[1..])
  {
    assert w[..|w| - 1] == [group] + w[1..][..|w| - 2];
  }

  lemma StuckExactly(group: string, groups: Groups)
    requires group in groups
    ensures (exists p :: Path(groups, References(groups[group]), p) && Dead(groups, {group}, p)) <==>
            exists w :: Path(groups, [group], w) && Stuck(groups, w)
  {
    if p :| Path(groups, References(groups[group]), p) && Dead(groups, {group}, p) {
      StuckStart(groups, group, p);
    }
    if w :| Path(groups, [group], w) && Stuck(groups, w) {
      StuckRest(groups, group, w);
    }
  }

  /** The manifest of a group fails exactly when an unknown group or a cycle can be reached from it. */
  lemma ManifestFailsExactly(group: string, groups: Groups)
    requires group in groups
    ensures Expand(groups[group], groups, {group}).Failure? <==>
            exists w :: Path(groups, [group], w) && Stuck(groups, w)
  {
    ExpansionFailsExactly(groups[group], groups, {group});
    StuckExactly(group, groups);
  }

  /** A successful expansion lists, once each, the stripped non-blank leaves that can be reached. */
  lemma ExpansionListsReachableLeaves(requirements: seq<string>, groups: Groups, seen: set<string>, entry: string)
    ensures var expansion := Expand(requirements, groups, seen);
      expansion.Success? ==>
        && (forall i, j | 0 <= i < j < |expansion.value| :: expansion.value[i] != expansion.value[j])
        && (entry in expansion.value <==>
              && entry != ""
              && (exists leaf :: Strip(leaf) == entry
                    && (LeafOf(requirements, leaf) || Reaches(groups, References(requirements), leaf))))
  {
    NestedDedupeIsOneDedupe(requirements, groups, seen);
    if Plain(requirements, groups, seen).Success? {
      ListsReachableLeaves(requirements, groups, seen, entry);
    }
  }

  lemma ListsReachableLeaves(requirements: seq<string>, groups: Groups, seen: set<string>, entry: string)
    requires Plain(requirements, groups, seen).Success?
    ensures var result := Deduped(Plain(requirements, groups, seen).value);
      && (forall i, j | 0 <= i < j < |result| :: result[i] != result[j])
      && (entry in result <==>
            && entry != ""
            && (exists leaf :: Strip(leaf) == entry
                  && (LeafOf(requirements, leaf) || Reaches(groups, References(requirements), leaf))))
  {
    var plain := Plain(requirements, groups, seen).value;
    DedupedIsTrimmed(plain);
    FirstSeenContents(Trimmed(plain), {});
    TrimmedHas(plain, entry);
    assert entry in Deduped(plain) <==> entry in Elements(Deduped(plain));
    forall leaf
      ensures leaf in plain <==> LeafOf(requirements, leaf) || Reaches(groups, References(requirements), leaf)
    {
      if leaf in plain {
        LeafIsReached(requirements, groups, seen, leaf);
      }
      if LeafOf(requirements, leaf) {
        OwnLeafIsListed(requirements, groups, seen, leaf);
      } else if Reaches(groups, References(requirements), leaf) {
        var p :| Path(groups, References(requirements), p) && End(p) in groups && LeafOf(groups[End(p)], leaf);
        ReachedLeafIsListed(requirements, groups, seen, p, leaf);
      }
    }
  }

  lemma {:induction false} TrimmedHas(requirements: seq<string>, entry: string)
    ensures entry in Trimmed(requirements) <==>
            entry != "" && exists leaf | leaf in requirements :: Strip(leaf) == entry
  {
    if requirements != [] {
      TrimmedHas(requirements[1..], entry);
      assert forall leaf :: leaf in requirements <==> leaf == requirements[0] || leaf in requirements[1..];
    }
  }
}
