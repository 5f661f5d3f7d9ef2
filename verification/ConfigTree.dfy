/** The configuration as the nested dictionaries it is, copied deeply and then updated in place. */
module ConfigTree {
  import opened Prelude
  import opened JsonTree
  import opened Overrides
  import OverrideProofs

  /** A value in a dictionary: another dictionary, or anything else. */
  datatype Entry = Leaf(json: Json) | Sub(table: Table)

  /** One dictionary. */
  class Table {
    var entries: map<string, Entry>
    /** This dictionary and those below it. */
    ghost var repr: set<Table>

    constructor ()
      ensures Valid() && View() == map[] && repr == {this}
    {
      entries := map[];
      repr := {this};
    }

    /** The dictionaries form a tree. */
    ghost predicate Valid()
      reads this, repr
      decreases repr
    {
      && this in repr
      && (forall k | k in entries && entries[k].Leaf? :: !entries[k].json.Obj?)
      && (forall k | k in entries && entries[k].Sub? ::
            var t := entries[k].table; t in repr && t.repr < repr && this !in t.repr && t.Valid())
      && forall j, k | j in entries && k in entries && j != k && entries[j].Sub? && entries[k].Sub? ::
           entries[j].table.repr !! entries[k].table.repr
    }

    ghost function View(): Tree
      requires Valid()
      reads this, repr
      decreases repr
    {
      map k | k in entries :: EntryView(k)
    }

    ghost function EntryView(k: string): Json
      requires Valid() && k in entries
      reads this, repr
      decreases repr, 0
    {
      if entries[k].Leaf? then entries[k].json else Obj(entries[k].table.View())
    }

    method PutLeaf(key: string, json: Json)
      requires Valid() && !json.Obj?
      modifies this`entries
      ensures Valid() && View() == old(View())[key := json]
    {
      entries := entries[key := Leaf(json)];
    }

    /** A change to this dictionary alone leaves those below it as they were. */
    twostate lemma TablesKept()
      requires old(Valid()) && forall o | o in old(repr) && o != this :: unchanged(o)
      ensures forall k | k in old(entries) && old(entries[k].Sub?) ::
        var t := old(entries[k].table); t.repr == old(t.repr) && t.Valid() && t.View() == old(t.View())
    {
    }

    /** Adds a tree of dictionaries that shares nothing with this one. */
    method Attach(key: string, table: Table)
      requires Valid() && table.Valid() && key !in entries && repr !! table.repr
      modifies this
      ensures Valid() && repr == old(repr) + table.repr && View() == old(View())[key := Obj(table.View())]
    {
      ghost var before := View();
      assert forall k | k in entries :: before[k] == EntryView(k);
      entries := entries[key := Sub(table)];
      TablesKept();
      Adopt(key, before[key := Obj(table.View())]);
    }

    /** dict.setdefault(key, {}), and the dictionary found there, if it is one. */
    method Child(key: string) returns (child: Option<Table>)
      requires Valid()
      modifies this
      ensures Valid() && fresh(repr - old(repr)) && old(repr) <= repr
      ensures View() == if key in old(entries) then old(View()) else old(View())[key := Obj(map[])]
      ensures key in entries && child == if entries[key].Sub? then Some(entries[key].table) else None
    {
      if key !in entries {
        var empty := new Table();
        Attach(key, empty);
        assert key in View();
      }
      child := if entries[key].Sub? then Some(entries[key].table) else None;
    }

    /** A change confined to one child leaves the other children as they were. */
    twostate lemma OthersKept(key: string)
      requires old(Valid()) && key in old(entries) && old(entries[key].Sub?) && unchanged(this)
      requires forall o | o in old(repr) && o !in old(entries[key].table.repr) :: unchanged(o)
      ensures forall k | k in entries && k != key && entries[k].Sub? ::
        var t := entries[k].table; t.repr == old(t.repr) && t.Valid() && t.View() == old(t.View())
    {
    }

    /** Takes the dictionaries a child has gained into account. */
    ghost method Adopt(key: string, before: Tree)
      requires this in repr && key in entries && entries[key].Sub?
      requires forall k | k in entries && entries[k].Leaf? :: !entries[k].json.Obj?
      requires forall k | k in entries && entries[k].Sub? ::
        var t := entries[k].table; t.Valid() && this !in t.repr && (k == key || t.repr <= repr)
      requires forall j, k | j in entries && k in entries && j != k && entries[j].Sub? && entries[k].Sub? ::
        entries[j].table.repr !! entries[k].table.repr
      requires before.Keys == entries.Keys
      requires forall k | k in entries && k != key ::
        before[k] == if entries[k].Leaf? then entries[k].json else Obj(entries[k].table.View())
      modifies this`repr
      ensures Valid() && repr == old(repr) + entries[key].table.repr
      ensures View() == before[key := Obj(entries[key].table.View())]
    {
      repr := repr + entries[key].table.repr;
    }

    /** _set_nested, one dictionary at a time. */
    method Set(path: Path, value: string) returns (ok: bool)
      requires Valid()
      modifies repr
      ensures Valid() && fresh(repr - old(repr)) && old(repr) <= repr
      ensures match SetNested(old(View()), path, value)
              case Success(tree) => ok && View() == tree
              case Failure(_) => !ok && View() == old(View())
      decreases |path|
    {
      if |path| == 1 {
        PutLeaf(path[0], Str(value));
        return true;
      }
      OverrideProofs.EmptyIsSettable(path[1..]);
      OverrideProofs.SetsExactlyWhenSettable(map[], path[1..], value);
      var child := Child(path[0]);
      assert View()[path[0]] == EntryView(path[0]);
      if child.None? {
        return false;
      }
      ok := SetBelow(path[0], child.value, path, value);
    }

    method SetBelow(key: string, child: Table, path: Path, value: string) returns (ok: bool)
      requires Valid() && key in entries && entries[key] == Sub(child) && |path| > 1
      modifies repr
      ensures Valid() && fresh(repr - old(repr)) && old(repr) <= repr
      ensures match SetNested(old(child.View()), path[1..], value)
              case Success(tree) => ok && View() == old(View())[key := Obj(tree)]
              case Failure(_) => !ok && View() == old(View())
      decreases |path|, 0
    {
      ghost var before := View();
      assert forall k | k in entries :: before[k] == EntryView(k);
      ok := child.Set(path[1..], value);
      OthersKept(key);
      assert before[key := Obj(child.View())][key] == Obj(child.View());
      Adopt(key, before);
    }

    /** copy.deepcopy: new dictionaries with the same contents. */
    method DeepCopy() returns (copy: Table)
      requires Valid()
      ensures fresh(copy.repr) && copy.Valid() && copy.View() == View()
      decreases repr, 2
    {
      copy := new Table();
      CopyInto(copy);
    }

    method CopyInto(copy: Table)
      requires Valid() && copy.Valid() && repr !! copy.repr && copy.View() == map[]
      modifies copy
      ensures copy.Valid() && fresh(copy.repr - old(copy.repr)) && copy.View() == old(View())
      decreases repr, 1
    {
      ghost var whole := View();
      var rest := entries.Keys;
      while rest != {}
        invariant rest <= whole.Keys && Apart(copy) && View() == whole
        invariant fresh(copy.repr - old(copy.repr)) && copy.View() == whole - rest
        decreases |rest|
      {
        var key :| key in rest;
        CopyEntry(key, copy);
        rest := rest - {key};
      }
      assert whole - {} == whole;
    }

    /** Two trees of dictionaries that share nothing. */
    ghost predicate Apart(copy: Table)
      reads this, repr, copy, copy.repr
    {
      Valid() && copy.Valid() && repr !! copy.repr
    }

    method CopyEntry(key: string, copy: Table)
      requires Apart(copy) && key in View() && key !in copy.View()
      modifies copy
      ensures Apart(copy) && View() == old(View()) && fresh(copy.repr - old(copy.repr))
      ensures copy.View() == old(copy.View())[key := View()[key]]
      decreases repr, 0
    {
      assert View()[key] == EntryView(key);
      if entries[key].Leaf? {
        copy.PutLeaf(key, entries[key].json);
      } else {
        var below := entries[key].table.DeepCopy();
        AttachApart(key, below, copy);
      }
    }

    /** Attaching to a copy new dictionaries does not touch these. */
    method AttachApart(key: string, below: Table, copy: Table)
      requires Apart(copy) && below.Valid() && key !in copy.entries && repr !! below.repr && copy.repr !! below.repr
      modifies copy
      ensures Apart(copy) && View() == old(View()) && copy.repr == old(copy.repr) + below.repr
      ensures copy.View() == old(copy.View())[key := Obj(old(below.View()))]
    {
      copy.Attach(key, below);
    }
  }

  /** apply_environment_overrides: the copy is updated in place, and the configuration given is left alone. */
  method ApplyEnvironmentOverrides(raw: Table, table: seq<(string, Path)>, environment: map<string, string>)
    returns (config: Table, ok: bool)
    requires raw.Valid()
    ensures fresh(config.repr) && config.Valid()
    ensures raw.Valid() && raw.repr == old(raw.repr) && raw.View() == old(raw.View())
    ensures ok == ApplyAll(raw.View(), Present(table, environment)).Success?
    ensures ok ==> config.View() == ApplyAll(raw.View(), Present(table, environment)).value
  {
    config := raw.DeepCopy();
    ok := SetPresent(config, table, environment);
  }

  /** Its loop. */
  method SetPresent(config: Table, table: seq<(string, Path)>, environment: map<string, string>) returns (ok: bool)
    requires config.Valid()
    modifies config.repr
    ensures config.Valid() && fresh(config.repr - old(config.repr))
    ensures ok == ApplyAll(old(config.View()), Present(table, environment)).Success?
    ensures ok ==> config.View() == ApplyAll(old(config.View()), Present(table, environment)).value
  {
    ghost var whole := ApplyAll(config.View(), Present(table, environment));
    assert table[0..] == table;
    for i := 0 to |table|
      invariant config.Valid() && fresh(config.repr - old(config.repr))
      invariant ApplyAll(config.View(), Present(table[i..], environment)) == whole
    {
      PresentNext(config.View(), table, i, environment);
      if table[i].0 in environment {
        ok := config.Set(table[i].1, environment[table[i].0]);
        if !ok {
          return;
        }
      }
    }
    assert table[|table|..] == [];
    ok := true;
  }

  lemma PresentNext(tree: Tree, table: seq<(string, Path)>, i: nat, environment: map<string, string>)
    requires i < |table|
    ensures var rest := Present(table[i + 1..], environment);
      ApplyAll(tree, Present(table[i..], environment)) ==
      if table[i].0 !in environment then ApplyAll(tree, rest)
      else
        var next := SetNested(tree, table[i].1, environment[table[i].0]);
        if next.Success? then ApplyAll(next.value, rest) else next
  {
    assert table[i..][0] == table[i] && table[i..][1..] == table[i + 1..];
    var rest := Present(table[i + 1..], environment);
    if table[i].0 in environment {
      OverrideProofs.FirstThenRest(tree, Override(table[i].1, environment[table[i].0]), rest);
    } else {
      assert [] + rest == rest;
    }
  }
}
