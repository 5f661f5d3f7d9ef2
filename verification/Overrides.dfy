/** Environment overrides on a configuration tree (src/nats_sinks/core/config.py). */
module Overrides {
  import opened Prelude
  import opened JsonTree

  type Path = p: seq<string> | p != [] witness [""]

  type Tree = map<string, Json>

  datatype Override = Override(path: Path, value: string)

  /** _set_nested; the error names the path that could not be set. */
  function SetNested(tree: Tree, path: Path, value: string): Result<Tree, Path>
    decreases |path|
  {
    if |path| == 1 then Success(tree[path[0] := Str(value)])
    else
      var child := if path[0] in tree then tree[path[0]] else Obj(map[]);
      if !child.Obj? then Failure(path)
      else
        match SetNested(child.fields, path[1..], value)
        case Failure(_) => Failure(path)
        case Success(fields) => Success(tree[path[0] := Obj(fields)])
  }

  function ApplyAll(tree: Tree, overrides: seq<Override>): Result<Tree, Path>
    decreases |overrides|
  {
    if overrides == [] then Success(tree)
    else
      var next :- SetNested(tree, overrides[0].path, overrides[0].value);
      ApplyAll(next, overrides[1..])
  }

  /** The overrides whose variable is set, in the order of the table. */
  function Present(table: seq<(string, Path)>, environment: map<string, string>): seq<Override> {
    if table == [] then []
    else (if table[0].0 in environment then [Override(table[0].1, environment[table[0].0])] else [])
         + Present(table[1..], environment)
  }

  /** Overridable settings that share a parent object. */
  datatype Section = Section(parent: seq<string>, leaves: seq<string>)

  /** The paths of ENV_OVERRIDES, grouped by parent. */
  const ENV_SECTIONS: seq<Section> := [
    Section(["nats"], ["url", "stream", "consumer", "subject", "no_echo"]),
    Section(["consumer_management"], ["mode"]),
    Section(["logging"], ["level"]),
    Section(["encryption"], ["enabled", "algorithm", "key_id", "key_b64_env"]),
    Section(["message_authenticity"], ["enabled", "signature_header", "algorithm_header", "key_id_header"]),
    Section(["message_metadata", "priority"], ["header", "default"]),
    Section(["message_metadata", "classification"], ["header", "default"]),
    Section(["message_metadata", "labels"], ["header", "default"]),
    Section(["mission_metadata"], ["enabled", "header"]),
    Section(["security_labels"], ["enabled", "header"]),
    Section(["custody"], ["enabled", "algorithm", "key_id"]),
    Section(["advisories"], ["enabled"]),
    Section(["sink"], ["type"])]
}

module OverrideProofs {
  import opened Permutations
  import opened Prelude
  import opened JsonTree
  import opened Overrides

  predicate Incomparable(p: Path, q: Path) {
    !(p <= q) && !(q <= p)
  }

  predicate PrefixFree(overrides: seq<Override>) {
    forall i, j | 0 <= i < j < |overrides| :: Incomparable(overrides[i].path, overrides[j].path)
  }

  /** Every node on the way to the path is an object or absent. */
  predicate Settable(tree: Tree, path: Path)
    decreases |path|
  {
    |path| == 1 || path[0] !in tree || (tree[path[0]].Obj? && Settable(tree[path[0]].fields, path[1..]))
  }

  function Get(tree: Tree, path: Path): Option<Json>
    decreases |path|
  {
    if path[0] !in tree then None
    else if |path| == 1 then Some(tree[path[0]])
    else if tree[path[0]].Obj? then Get(tree[path[0]].fields, path[1..])
    else None
  }

  /** Both fail, or both succeed with the same tree. */
  predicate Agree(x: Result<Tree, Path>, y: Result<Tree, Path>) {
    if x.Success? then x == y else y.Failure?
  }

  lemma {:induction false} EmptyIsSettable(path: Path)
    ensures Settable(map[], path)
  {
  }

  lemma {:induction false} SetsExactlyWhenSettable(tree: Tree, path: Path, value: string)
    ensures SetNested(tree, path, value).Success? <==> Settable(tree, path)
    decreases |path|
  {
    if |path| > 1 {
      var child := if path[0] in tree then tree[path[0]] else Obj(map[]);
      if child.Obj? {
        SetsExactlyWhenSettable(child.fields, path[1..], value);
      }
    }
  }

  lemma IncomparableTails(p: Path, q: Path)
    requires Incomparable(p, q) && p[0] == q[0]
    ensures |p| > 1 && |q| > 1 && Incomparable(p[1..], q[1..])
  {
    assert |p| == 1 ==> p <= q;
    assert |q| == 1 ==> q <= p;
  }

  /** What one override reads back as, and what it leaves alone. */
  lemma {:induction false} SetReads(tree: Tree, p: Path, value: string, q: Path)
    requires Settable(tree, p)
    ensures SetNested(tree, p, value).Success?
    ensures Get(SetNested(tree, p, value).value, p) == Some(Str(value))
    ensures Incomparable(p, q) ==>
      && Get(SetNested(tree, p, value).value, q) == Get(tree, q)
      && (Settable(SetNested(tree, p, value).value, q) <==> Settable(tree, q))
    decreases |p|
  {
    SetsExactlyWhenSettable(tree, p, value);
    if |p| > 1 {
      var fields := if p[0] in tree then tree[p[0]].fields else map[];
      if Incomparable(p, q) && p[0] == q[0] {
        IncomparableTails(p, q);
        SetReads(fields, p[1..], value, q[1..]);
      } else {
        SetReads(fields, p[1..], value, p[1..]);
      }
    } else if p[0] == q[0] {
      assert p <= q;
    }
  }

  lemma {:induction false} SetsCommute(tree: Tree, p: Path, v: string, q: Path, w: string)
    requires Incomparable(p, q) && Settable(tree, p) && Settable(tree, q)
    ensures SetNested(tree, p, v).Success? && SetNested(tree, q, w).Success?
    ensures SetNested(SetNested(tree, p, v).value, q, w) == SetNested(SetNested(tree, q, w).value, p, v)
    decreases |p|
  {
    SetReads(tree, p, v, q);
    SetReads(tree, q, w, p);
    SetsExactlyWhenSettable(SetNested(tree, p, v).value, q, w);
    SetsExactlyWhenSettable(SetNested(tree, q, w).value, p, v);
    var a, b := SetNested(SetNested(tree, p, v).value, q, w).value, SetNested(SetNested(tree, q, w).value, p, v).value;
    if p[0] == q[0] {
      IncomparableTails(p, q);
      var fields := if p[0] in tree then tree[p[0]].fields else map[];
      EmptyIsSettable(p[1..]);
      EmptyIsSettable(q[1..]);
      SetsCommute(fields, p[1..], v, q[1..], w);
      assert a == b;
    } else {
      assert a == b;
    }
  }

  // ---------------------------------------------------------------- sequences of overrides

  lemma {:induction false} AppliesExactlyWhenSettable(tree: Tree, overrides: seq<Override>)
    requires PrefixFree(overrides)
    ensures ApplyAll(tree, overrides).Success? <==> forall o | o in overrides :: Settable(tree, o.path)
    decreases |overrides|
  {
    if overrides != [] {
      var o, rest := overrides[0], overrides[1..];
      assert overrides == [o] + rest;
      SetsExactlyWhenSettable(tree, o.path, o.value);
      if Settable(tree, o.path) {
        var tree' := SetNested(tree, o.path, o.value).value;
        AppliesExactlyWhenSettable(tree', rest);
        forall r | r in rest
          ensures Settable(tree', r.path) <==> Settable(tree, r.path)
        {
          SetReads(tree, o.path, o.value, r.path);
        }
      }
    }
  }

  lemma SwapFirstTwo(tree: Tree, a: Override, b: Override, rest: seq<Override>)
    requires Incomparable(a.path, b.path)
    ensures Agree(ApplyAll(tree, [a, b] + rest), ApplyAll(tree, [b, a] + rest))
  {
    assert ([a, b] + rest)[1..] == [b] + rest && ([b, a] + rest)[1..] == [a] + rest;
    assert ([a] + rest)[1..] == rest && ([b] + rest)[1..] == rest;
    SetsExactlyWhenSettable(tree, a.path, a.value);
    SetsExactlyWhenSettable(tree, b.path, b.value);
    if Settable(tree, a.path) && Settable(tree, b.path) {
      SetsCommute(tree, a.path, a.value, b.path, b.value);
    } else if Settable(tree, a.path) {
      SetReads(tree, a.path, a.value, b.path);
      SetsExactlyWhenSettable(SetNested(tree, a.path, a.value).value, b.path, b.value);
    } else if Settable(tree, b.path) {
      SetReads(tree, b.path, b.value, a.path);
      SetsExactlyWhenSettable(SetNested(tree, b.path, b.value).value, a.path, a.value);
    }
  }

  lemma {:induction false} MoveToFront(tree: Tree, front: seq<Override>, o: Override, rest: seq<Override>)
    requires forall f | f in front :: Incomparable(f.path, o.path)
    ensures Agree(ApplyAll(tree, front + [o] + rest), ApplyAll(tree, [o] + front + rest))
    decreases |front|
  {
    if front == [] {
      assert front + [o] + rest == [o] + front + rest;
    } else {
      var f, front' := front[0], front[1..];
      assert front + [o] + rest == [f] + (front' + [o] + rest);
      var moved := [o] + front' + rest;
      var next := SetNested(tree, f.path, f.value);
      assert ([f] + (front' + [o] + rest))[1..] == front' + [o] + rest && ([f] + moved)[1..] == moved;
      if next.Success? {
        MoveToFront(next.value, front', o, rest);
      }
      assert Agree(ApplyAll(tree, front + [o] + rest), ApplyAll(tree, [f] + moved));
      assert [f] + moved == [f, o] + (front' + rest) && [o] + front + rest == [o, f] + (front' + rest);
      SwapFirstTwo(tree, f, o, front' + rest);
    }
  }

  lemma PermutedIsPrefixFree(a: seq<Override>, b: seq<Override>)
    requires multiset(a) == multiset(b) && PrefixFree(a)
    ensures PrefixFree(b)
  {
    forall i, j | 0 <= i < j < |b|
      ensures Incomparable(b[i].path, b[j].path)
    {
      if b[i] == b[j] {
        assert b == b[..i] + [b[i]] + b[i + 1..j] + [b[j]] + b[j + 1..];
        assert multiset(b)[b[i]] >= 2;
        OccursTwice(a, b[i]);
      } else {
        assert b[i] in multiset(a) && b[j] in multiset(a);
        var k :| 0 <= k < |a| && a[k] == b[i];
        var l :| 0 <= l < |a| && a[l] == b[j];
        assert Incomparable(a[k].path, a[l].path) || Incomparable(a[l].path, a[k].path);
      }
    }
  }

  lemma OccursTwice(a: seq<Override>, o: Override)
    requires multiset(a)[o] >= 2
    ensures exists i, j :: 0 <= i < j < |a| && a[i] == o && a[j] == o
  {
    var i :| 0 <= i < |a| && a[i] == o;
    assert a == a[..i] + [o] + a[i + 1..];
    assert multiset(a) == multiset(a[..i]) + multiset{o} + multiset(a[i + 1..]);
    if o in a[..i] {
      var j :| 0 <= j < i && a[j] == o;
    } else {
      assert o in a[i + 1..];
      var j :| 0 <= j < |a[i + 1..]| && a[i + 1..][j] == o;
      assert a[i + 1 + j] == o;
    }
  }

  lemma FrontIsIncomparable(front: seq<Override>, o: Override, rest: seq<Override>)
    requires PrefixFree(front + [o] + rest)
    ensures forall f | f in front :: Incomparable(f.path, o.path)
  {
    var all := front + [o] + rest;
    forall i | 0 <= i < |front|
      ensures Incomparable(front[i].path, o.path)
    {
      assert all[i] == front[i] && all[|front|] == o;
    }
  }

  /** Main result: whatever the order, prefix-free overrides lead to the same tree, or none succeeds. */
  lemma {:induction false} OverridesCommute(tree: Tree, a: seq<Override>, b: seq<Override>)
    requires multiset(a) == multiset(b) && PrefixFree(a)
    ensures Agree(ApplyAll(tree, a), ApplyAll(tree, b))
    decreases |a|
  {
    if a == [] {
      assert |multiset(a)| == |multiset(b)|;
    } else {
      var o := a[0];
      assert a == [o] + a[1..];
      var front, rest := TakeFirst(a, b);
      PermutedIsPrefixFree(a, b);
      FrontIsIncomparable(front, o, rest);
      MoveToFront(tree, front, o, rest);
      assert [o] + front + rest == [o] + (front + rest);
      FirstThenRest(tree, o, front + rest);
      FirstThenRest(tree, o, a[1..]);
      var next := SetNested(tree, o.path, o.value);
      if next.Success? {
        OverridesCommute(next.value, a[1..], front + rest);
      }
    }
  }

  lemma FirstThenRest(tree: Tree, o: Override, rest: seq<Override>)
    ensures var next := SetNested(tree, o.path, o.value);
      ApplyAll(tree, [o] + rest) == if next.Success? then ApplyAll(next.value, rest) else next
  {
    assert ([o] + rest)[1..] == rest;
  }

  /** Each override reads back its own value; paths comparable with none of them keep theirs. */
  lemma {:induction false} OverridesReadBack(tree: Tree, overrides: seq<Override>, q: Path)
    requires PrefixFree(overrides) && ApplyAll(tree, overrides).Success?
    ensures var result := ApplyAll(tree, overrides).value;
      && (forall o | o in overrides && o.path == q :: Get(result, q) == Some(Str(o.value)))
      && ((forall o | o in overrides :: Incomparable(o.path, q)) ==> Get(result, q) == Get(tree, q))
    decreases |overrides|
  {
    if overrides != [] {
      var o, rest := overrides[0], overrides[1..];
      assert overrides == [o] + rest;
      SetsExactlyWhenSettable(tree, o.path, o.value);
      SetReads(tree, o.path, o.value, q);
      OverridesReadBack(SetNested(tree, o.path, o.value).value, rest, q);
      if o.path == q {
        forall r | r in rest
          ensures Incomparable(r.path, q)
        {
          var i :| 0 <= i < |rest| && rest[i] == r;
          assert overrides[i + 1] == r && Incomparable(overrides[0].path, overrides[i + 1].path);
        }
      }
    }
  }

  // ---------------------------------------------------------------- tables

  type Entry = (string, Path)

  predicate PrefixFreeTable(table: seq<Entry>) {
    forall i, j | 0 <= i < j < |table| :: Incomparable(table[i].1, table[j].1)
  }

  lemma {:induction false} PresentIsPrefixFree(table: seq<Entry>, environment: map<string, string>)
    requires PrefixFreeTable(table)
    ensures PrefixFree(Present(table, environment))
    ensures forall o | o in Present(table, environment) :: exists i | 0 <= i < |table| :: table[i].1 == o.path
  {
    if table != [] {
      var rest := table[1..];
      PresentIsPrefixFree(rest, environment);
      forall o | o in Present(rest, environment)
        ensures Incomparable(table[0].1, o.path)
        ensures exists i | 0 <= i < |table| :: table[i].1 == o.path
      {
        var i :| 0 <= i < |rest| && rest[i].1 == o.path;
        assert table[i + 1].1 == o.path;
      }
    }
  }

  lemma {:induction false} PresentOfConcat(a: seq<Entry>, b: seq<Entry>, environment: map<string, string>)
    ensures Present(a + b, environment) == Present(a, environment) + Present(b, environment)
  {
    if a == [] {
      assert a + b == b;
    } else {
      assert (a + b)[0] == a[0] && (a + b)[1..] == a[1..] + b;
      PresentOfConcat(a[1..], b, environment);
    }
  }

  lemma {:induction false} PresentOfPermuted(a: seq<Entry>, b: seq<Entry>, environment: map<string, string>)
    requires multiset(a) == multiset(b)
    ensures multiset(Present(a, environment)) == multiset(Present(b, environment))
  {
    if a == [] {
      assert |multiset(a)| == |multiset(b)|;
    } else {
      assert a == [a[0]] + a[1..];
      var front, rest := TakeFirst(a, b);
      PresentOfPermuted(a[1..], front + rest, environment);
      PresentOfConcat([a[0]], a[1..], environment);
      PresentOfConcat(front + [a[0]], rest, environment);
      PresentOfConcat(front, [a[0]], environment);
      PresentOfConcat(front, rest, environment);
    }
  }

  lemma {:induction false} PresentHas(table: seq<Entry>, environment: map<string, string>, o: Override)
    ensures o in Present(table, environment) <==>
      exists i | 0 <= i < |table| ::
        table[i].0 in environment && o.path == table[i].1 && o.value == environment[table[i].0]
  {
    if table != [] {
      var rest := table[1..];
      PresentHas(rest, environment, o);
      assert forall i | 0 < i < |table| :: table[i] == rest[i - 1];
      assert forall i | 0 <= i < |rest| :: rest[i] == table[i + 1];
    }
  }

  /** The environment can be applied exactly when the path of every variable that is set can be set. */
  lemma EnvironmentAppliesExactly(raw: Tree, table: seq<Entry>, environment: map<string, string>)
    requires PrefixFreeTable(table)
    ensures ApplyAll(raw, Present(table, environment)).Success? <==>
      forall i | 0 <= i < |table| && table[i].0 in environment :: Settable(raw, table[i].1)
  {
    PresentIsPrefixFree(table, environment);
    AppliesExactlyWhenSettable(raw, Present(table, environment));
    forall o: Override
      ensures o in Present(table, environment) <==>
        exists i | 0 <= i < |table| ::
          table[i].0 in environment && o.path == table[i].1 && o.value == environment[table[i].0]
    {
      PresentHas(table, environment, o);
    }
    forall i | 0 <= i < |table| && table[i].0 in environment
      ensures Override(table[i].1, environment[table[i].0]) in Present(table, environment)
    {
      PresentHas(table, environment, Override(table[i].1, environment[table[i].0]));
    }
  }

  /** A setting whose variable is set has its text, and any other keeps what it was. */
  lemma EnvironmentReadsBack(raw: Tree, table: seq<Entry>, environment: map<string, string>, i: nat)
    requires PrefixFreeTable(table) && i < |table| && ApplyAll(raw, Present(table, environment)).Success?
    ensures Get(ApplyAll(raw, Present(table, environment)).value, table[i].1) ==
      if table[i].0 in environment then Some(Str(environment[table[i].0])) else Get(raw, table[i].1)
  {
    var overrides := Present(table, environment);
    PresentIsPrefixFree(table, environment);
    OverridesReadBack(raw, overrides, table[i].1);
    if table[i].0 in environment {
      PresentHas(table, environment, Override(table[i].1, environment[table[i].0]));
    } else {
      forall o | o in overrides
        ensures Incomparable(o.path, table[i].1)
      {
        PresentHas(table, environment, o);
        var j :| 0 <= j < |table| && table[j].0 in environment && o.path == table[j].1
                 && o.value == environment[table[j].0];
        assert Incomparable(table[j].1, table[i].1) || Incomparable(table[i].1, table[j].1);
      }
    }
  }

  /** The first override that cannot be set is the one that is named. */
  lemma {:induction false} FirstUnsettableIsNamed(tree: Tree, overrides: seq<Override>, k: nat)
    requires PrefixFree(overrides) && k < |overrides| && !Settable(tree, overrides[k].path)
    requires forall j | 0 <= j < k :: Settable(tree, overrides[j].path)
    ensures ApplyAll(tree, overrides) == Failure(overrides[k].path)
    decreases k
  {
    var o, rest := overrides[0], overrides[1..];
    SetsExactlyWhenSettable(tree, o.path, o.value);
    if k > 0 {
      var tree' := SetNested(tree, o.path, o.value).value;
      forall j | 0 <= j < |rest|
        ensures rest[j] == overrides[j + 1]
        ensures Settable(tree', rest[j].path) <==> Settable(tree, rest[j].path)
      {
        assert Incomparable(overrides[0].path, overrides[j + 1].path);
        SetReads(tree, o.path, o.value, rest[j].path);
      }
      FirstUnsettableIsNamed(tree', rest, k - 1);
    } else {
      FailureNamesThePath(tree, o.path, o.value);
    }
  }

  lemma FailureNamesThePath(tree: Tree, path: Path, value: string)
    ensures SetNested(tree, path, value).Failure? ==> SetNested(tree, path, value).error == path
  {
  }

  /** The order of a prefix-free table is irrelevant, whichever of its variables are set. */
  lemma TableOrderIsIrrelevant(raw: Tree, table: seq<Entry>, reordered: seq<Entry>, environment: map<string, string>)
    requires multiset(table) == multiset(reordered) && PrefixFreeTable(table)
    ensures Agree(ApplyAll(raw, Present(table, environment)), ApplyAll(raw, Present(reordered, environment)))
  {
    PresentIsPrefixFree(table, environment);
    PresentOfPermuted(table, reordered, environment);
    OverridesCommute(raw, Present(table, environment), Present(reordered, environment));
  }

  // ---------------------------------------------------------------- the table in use

  predicate Diverge(p: seq<string>, q: seq<string>) {
    p != [] && q != [] && (p[0] != q[0] || Diverge(p[1..], q[1..]))
  }

  lemma {:induction false} DivergingStaysIncomparable(p: seq<string>, q: seq<string>, a: string, b: string)
    requires Diverge(p, q)
    ensures Incomparable(p + [a], q + [b])
  {
    assert (p + [a])[0] == p[0] && (q + [b])[0] == q[0];
    if p[0] == q[0] {
      DivergingStaysIncomparable(p[1..], q[1..], a, b);
      assert (p + [a])[1..] == p[1..] + [a] && (q + [b])[1..] == q[1..] + [b];
    }
  }

  lemma SectionsDiverge(i: nat, j: nat)
    requires i < j < |ENV_SECTIONS|
    ensures Diverge(ENV_SECTIONS[i].parent, ENV_SECTIONS[j].parent)
  {
  }

  lemma LeavesDiffer(i: nat, k: nat, l: nat)
    requires i < |ENV_SECTIONS| && k < l < |ENV_SECTIONS[i].leaves|
    ensures ENV_SECTIONS[i].leaves[k] != ENV_SECTIONS[i].leaves[l]
  {
  }

  function PathsOf(section: Section): seq<Path> {
    seq(|section.leaves|, k requires 0 <= k < |section.leaves| => section.parent + [section.leaves[k]])
  }

  /** All paths of the sections, in order. */
  function Flatten(sections: seq<Section>): seq<Path> {
    if sections == [] then [] else PathsOf(sections[0]) + Flatten(sections[1..])
  }

  predicate PrefixFreePaths(paths: seq<Path>) {
    forall i, j | 0 <= i < j < |paths| :: Incomparable(paths[i], paths[j])
  }

  predicate DivergingSections(sections: seq<Section>) {
    && (forall i, j | 0 <= i < j < |sections| :: Diverge(sections[i].parent, sections[j].parent))
    && forall i, k, l | 0 <= i < |sections| && 0 <= k < l < |sections[i].leaves| ::
        sections[i].leaves[k] != sections[i].leaves[l]
  }

  lemma {:induction false} FlattenedFrom(sections: seq<Section>, p: Path) returns (i: nat, k: nat)
    requires p in Flatten(sections)
    ensures i < |sections| && k < |sections[i].leaves| && p == sections[i].parent + [sections[i].leaves[k]]
  {
    if p in PathsOf(sections[0]) {
      i := 0;
      k :| 0 <= k < |sections[0].leaves| && PathsOf(sections[0])[k] == p;
    } else {
      var j, l := FlattenedFrom(sections[1..], p);
      i, k := j + 1, l;
    }
  }

  lemma LeavesAreIncomparable(parent: seq<string>, a: string, b: string)
    requires a != b
    ensures Incomparable(parent + [a], parent + [b])
  {
    assert (parent + [a])[|parent|] == a && (parent + [b])[|parent|] == b;
  }

  lemma {:induction false} FlattenIsPrefixFree(sections: seq<Section>)
    requires DivergingSections(sections)
    ensures PrefixFreePaths(Flatten(sections))
  {
    if sections != [] {
      var own, rest := PathsOf(sections[0]), Flatten(sections[1..]);
      FlattenIsPrefixFree(sections[1..]);
      forall i, j | 0 <= i < j < |own + rest|
        ensures Incomparable((own + rest)[i], (own + rest)[j])
      {
        if j < |own| {
          LeavesAreIncomparable(sections[0].parent, sections[0].leaves[i], sections[0].leaves[j]);
        } else if i < |own| {
          var m, l := FlattenedFrom(sections[1..], rest[j - |own|]);
          DivergingStaysIncomparable(sections[0].parent, sections[1..][m].parent, sections[0].leaves[i],
              sections[1..][m].leaves[l]);
        } else {
          assert Incomparable(rest[i - |own|], rest[j - |own|]);
        }
      }
    }
  }

  /** The table with the paths of the sections, each set by the variable of the given name. */
  function TableOf(sections: seq<Section>, variable: Path -> string): seq<Entry> {
    var paths := Flatten(sections);
    seq(|paths|, i requires 0 <= i < |paths| => (variable(paths[i]), paths[i]))
  }

  lemma TableOfIsPrefixFree(sections: seq<Section>, variable: Path -> string)
    requires DivergingSections(sections)
    ensures PrefixFreeTable(TableOf(sections, variable))
  {
    FlattenIsPrefixFree(sections);
    assert forall i, j | 0 <= i < j < |Flatten(sections)| :: Incomparable(Flatten(sections)[i], Flatten(sections)[j]);
  }

  lemma SectionsInUseDiverge()
    ensures DivergingSections(ENV_SECTIONS)
  {
    forall i, j | 0 <= i < j < |ENV_SECTIONS|
      ensures Diverge(ENV_SECTIONS[i].parent, ENV_SECTIONS[j].parent)
    {
      SectionsDiverge(i, j);
    }
    forall i, k, l | 0 <= i < |ENV_SECTIONS| && 0 <= k < l < |ENV_SECTIONS[i].leaves|
      ensures ENV_SECTIONS[i].leaves[k] != ENV_SECTIONS[i].leaves[l]
    {
      LeavesDiffer(i, k, l);
    }
  }

  /** No path of the table in use is a prefix of another. */
  lemma TableIsPrefixFree(variable: Path -> string)
    ensures PrefixFreeTable(TableOf(ENV_SECTIONS, variable))
  {
    SectionsInUseDiverge();
    TableOfIsPrefixFree(ENV_SECTIONS, variable);
  }

  /** For the table in use: every order of its entries leads to the same tree, whichever variables are set. */
  lemma EnvironmentOrderIsIrrelevant(raw: Tree, variable: Path -> string, reordered: seq<Entry>,
                                     environment: map<string, string>)
    ensures var table := TableOf(ENV_SECTIONS, variable);
      multiset(table) == multiset(reordered) ==>
      Agree(ApplyAll(raw, Present(table, environment)), ApplyAll(raw, Present(reordered, environment)))
  {
    TableIsPrefixFree(variable);
    ReorderedAgrees(raw, TableOf(ENV_SECTIONS, variable), reordered, environment);
  }

  lemma ReorderedAgrees(raw: Tree, table: seq<Entry>, reordered: seq<Entry>, environment: map<string, string>)
    requires PrefixFreeTable(table)
    ensures multiset(table) == multiset(reordered) ==>
      Agree(ApplyAll(raw, Present(table, environment)), ApplyAll(raw, Present(reordered, environment)))
  {
    if multiset(table) == multiset(reordered) {
      TableOrderIsIrrelevant(raw, table, reordered, environment);
    }
  }
}
