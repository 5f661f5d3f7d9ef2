/**
 Idempotent storage (src/nats_sinks/coherence/sink.py).

 An attempt to write a batch can be cut off at any message, before or after
 that message's write took effect; the batch is then delivered again.
 */
module CoherenceSink {
  import opened Prelude

  datatype DuplicatePolicy = SkipExisting | Replace | FailExisting

  type Store<V> = map<string, V>

  /** A message after mapping: its key and value, or rejected by the mapping. */
  datatype Message<V> = Ready(key: string, value: V) | Unserializable

  /** Where an attempt is interrupted, if anywhere, and whether that message's write still took effect. */
  datatype Cut = Uncut | Lost(at: nat, applied: bool)

  datatype Exit = Committed | NotStarted | Rejected | KeyExists | Unavailable

  datatype Attempt<V> = Attempt(messages: seq<Message<V>>, cut: Cut)

  function Shift(cut: Cut): Cut {
    match cut
    case Uncut => Uncut
    case Lost(at, applied) => if at == 0 then Uncut else Lost(at - 1, applied)
  }

  /** The effect of one put or put_if_absent on the collection. */
  function WriteOne<V>(policy: DuplicatePolicy, store: Store<V>, key: string, value: V): Store<V> {
    if policy.Replace? || key !in store then store[key := value] else store
  }

  function WriteBatch<V>(policy: DuplicatePolicy, store: Store<V>, messages: seq<Message<V>>, cut: Cut)
    : (Exit, Store<V>)
    decreases |messages|
  {
    if messages == [] then (Committed, store)
    else
      match messages[0]
      case Unserializable => (Rejected, store)
      case Ready(key, value) =>
        if cut == Lost(0, false) then (Unavailable, store)
        else
          var store' := WriteOne(policy, store, key, value);
          if cut == Lost(0, true) then (Unavailable, store')
          else if policy.FailExisting? && key in store then (KeyExists, store)
          else WriteBatch(policy, store', messages[1..], Shift(cut))
  }

  /** The store after a sequence of attempts on the same destination. */
  function Run<V>(policy: DuplicatePolicy, store: Store<V>, attempts: seq<Attempt<V>>): Store<V>
    decreases |attempts|
  {
    if attempts == [] then store
    else Run(policy, WriteBatch(policy, store, attempts[0].messages, attempts[0].cut).1, attempts[1..])
  }

  /** The external map or cache. */
  class Collection<V(==)> {
    var entries: Store<V>

    constructor ()
      ensures entries == map[]
    {
      entries := map[];
    }

    method PutEntry(key: string, value: V)
      modifies this
      ensures entries == old(entries)[key := value]
    {
      entries := entries[key := value];
    }

    /** put_if_absent returns the previous value, if there was one. */
    method PutIfAbsent(key: string, value: V) returns (previous: Option<V>)
      modifies this
      ensures previous == if key in old(entries) then Some(old(entries)[key]) else None
      ensures entries == if key in old(entries) then old(entries) else old(entries)[key := value]
    {
      if key in entries {
        return Some(entries[key]);
      }
      entries := entries[key := value];
      previous := None;
    }
  }

  class Sink<V(==)> {
    const policy: DuplicatePolicy
    var collection: Collection?<V>

    constructor (policy: DuplicatePolicy)
      ensures this.policy == policy && collection == null
    {
      this.policy := policy;
      collection := null;
    }

    method Start(handle: Collection<V>)
      modifies this
      ensures collection == if old(collection) != null then old(collection) else handle
    {
      if collection == null {
        collection := handle;
      }
    }

    method Stop()
      modifies this
      ensures collection == null
    {
      collection := null;
    }

    /** _write_one; false means the key exists under fail_existing. */
    method WriteMessage(target: Collection<V>, key: string, value: V) returns (ok: bool)
      modifies target
      ensures target.entries == WriteOne(policy, old(target.entries), key, value)
      ensures ok == !(policy.FailExisting? && key in old(target.entries))
    {
      if policy.Replace? {
        target.PutEntry(key, value);
        return true;
      }
      var previous := target.PutIfAbsent(key, value);
      ok := previous.None? || policy.SkipExisting?;
    }

    /** write_batch under the given interruption. */
    method Write(messages: seq<Message<V>>, cut: Cut) returns (exit: Exit)
      modifies collection
      ensures collection != null ==>
        (exit, collection.entries) == WriteBatch(policy, old(collection.entries), messages, cut)
      ensures collection == null ==> exit == if messages == [] then Committed else NotStarted
    {
      if messages == [] {
        return Committed;
      }
      if collection == null {
        return NotStarted;
      }
      var target := collection;
      var rest := cut;
      assert messages[0..] == messages;
      for i := 0 to |messages|
        invariant WriteBatch(policy, old(collection.entries), messages, cut) ==
                  WriteBatch(policy, target.entries, messages[i..], rest)
      {
        assert messages[i..][0] == messages[i] && messages[i..][1..] == messages[i + 1..];
        if messages[i].Unserializable? {
          return Rejected;
        }
        if rest == Lost(0, false) {
          return Unavailable;
        }
        var ok := WriteMessage(target, messages[i].key, messages[i].value);
        if rest == Lost(0, true) {
          return Unavailable;
        }
        if !ok {
          return KeyExists;
        }
        rest := Shift(rest);
      }
      exit := Committed;
    }
  }
}

module CoherenceSinkProofs {
  import opened Prelude
  import opened CoherenceSink
  import opened Envelope
  import opened Keys

  /** One write that reached the collection. */
  datatype Issued<V> = Issued(key: string, value: V)

  /** The writes an attempt got through to the collection, in order. */
  function IssuedWrites<V>(policy: DuplicatePolicy, store: Store<V>, messages: seq<Message<V>>, cut: Cut)
    : seq<Issued<V>>
    decreases |messages|
  {
    if messages == [] || messages[0].Unserializable? || cut == Lost(0, false) then []
    else
      var m := messages[0];
      if cut == Lost(0, true) || (policy.FailExisting? && m.key in store) then [Issued(m.key, m.value)]
      else
        var rest := IssuedWrites(policy, WriteOne(policy, store, m.key, m.value), messages[1..], Shift(cut));
        [Issued(m.key, m.value)] + rest
  }

  /** All writes of a run. */
  function Log<V>(policy: DuplicatePolicy, store: Store<V>, attempts: seq<Attempt<V>>): seq<Issued<V>>
    decreases |attempts|
  {
    if attempts == [] then []
    else
      var a := attempts[0];
      IssuedWrites(policy, store, a.messages, a.cut)
      + Log(policy, WriteBatch(policy, store, a.messages, a.cut).1, attempts[1..])
  }

  function Find<V>(store: Store<V>, key: string): Option<V> {
    if key in store then Some(store[key]) else None
  }

  function FirstWrite<V>(log: seq<Issued<V>>, key: string): Option<V> {
    if log == [] then None else if log[0].key == key then Some(log[0].value) else FirstWrite(log[1..], key)
  }

  function LastWrite<V>(log: seq<Issued<V>>, key: string): Option<V> {
    if log == [] then None
    else if LastWrite(log[1..], key).Some? then LastWrite(log[1..], key)
    else if log[0].key == key then Some(log[0].value)
    else None
  }

  function Else<V>(first: Option<V>, second: Option<V>): Option<V> {
    if first.Some? then first else second
  }

  /** What a destination holds, said without replaying it: first write wins, or last write wins. */
  function Expected<V>(policy: DuplicatePolicy, store: Store<V>, log: seq<Issued<V>>, key: string): Option<V> {
    if policy.Replace? then Else(LastWrite(log, key), Find(store, key))
    else Else(Find(store, key), FirstWrite(log, key))
  }

  lemma {:induction false} FirstOfBoth<V>(a: seq<Issued<V>>, b: seq<Issued<V>>, key: string)
    ensures FirstWrite(a + b, key) == Else(FirstWrite(a, key), FirstWrite(b, key))
    ensures LastWrite(a + b, key) == Else(LastWrite(b, key), LastWrite(a, key))
  {
    if a == [] {
      assert a + b == b;
    } else {
      assert (a + b)[0] == a[0] && (a + b)[1..] == a[1..] + b;
      FirstOfBoth(a[1..], b, key);
    }
  }

  lemma {:induction false} BatchHolds<V>(policy: DuplicatePolicy, store: Store<V>, messages: seq<Message<V>>,
                                         cut: Cut, key: string)
    ensures Find(WriteBatch(policy, store, messages, cut).1, key)
            == Expected(policy, store, IssuedWrites(policy, store, messages, cut), key)
    decreases |messages|
  {
    var log := IssuedWrites(policy, store, messages, cut);
    if log != [] {
      var m := messages[0];
      var store' := WriteOne(policy, store, m.key, m.value);
      if !(cut == Lost(0, true) || (policy.FailExisting? && m.key in store)) {
        BatchHolds(policy, store', messages[1..], Shift(cut), key);
        assert log[1..] == IssuedWrites(policy, store', messages[1..], Shift(cut));
      } else {
        var only := if m.key == key then Some(m.value) else None;
        assert log == [Issued(m.key, m.value)] && log[1..] == [];
        assert FirstWrite(log, key) == only && LastWrite(log, key) == only;
      }
    }
  }

  /** Redelivery safety: after any run, each key holds its first effective write, or its last under replace. */
  lemma {:induction false} RunHolds<V>(policy: DuplicatePolicy, store: Store<V>, attempts: seq<Attempt<V>>, key: string)
    ensures Find(Run(policy, store, attempts), key) == Expected(policy, store, Log(policy, store, attempts), key)
    decreases |attempts|
  {
    if attempts != [] {
      var a := attempts[0];
      var writes, store' := IssuedWrites(policy, store, a.messages, a.cut),
          WriteBatch(policy, store, a.messages, a.cut).1;
      BatchHolds(policy, store, a.messages, a.cut, key);
      RunHolds(policy, store', attempts[1..], key);
      FirstOfBoth(writes, Log(policy, store', attempts[1..]), key);
    }
  }

  /** A committed attempt issued every message of the batch, in order. */
  lemma {:induction false} CommittedIssuesAll<V>(policy: DuplicatePolicy, store: Store<V>, messages: seq<Message<V>>,
                                                 cut: Cut)
    requires WriteBatch(policy, store, messages, cut).0 == Committed
    ensures var log := IssuedWrites(policy, store, messages, cut);
      |log| == |messages| && forall i | 0 <= i < |messages| :: messages[i] == Ready(log[i].key, log[i].value)
    decreases |messages|
  {
    if messages != [] {
      var m := messages[0];
      CommittedIssuesAll(policy, WriteOne(policy, store, m.key, m.value), messages[1..], Shift(cut));
      assert forall i | 0 < i < |messages| :: messages[i] == messages[1..][i - 1];
    }
  }

  lemma {:induction false} IssuedIsFound<V>(log: seq<Issued<V>>, i: nat)
    requires i < |log|
    ensures FirstWrite(log, log[i].key).Some? && LastWrite(log, log[i].key).Some?
  {
    if i > 0 {
      IssuedIsFound(log[1..], i - 1);
    }
  }

  /** When the last attempt commits, every message of it is stored; under replace, with its last value in the batch. */
  lemma CommittedRunStoresBatch<V>(policy: DuplicatePolicy, store: Store<V>, earlier: seq<Attempt<V>>,
                                   last: Attempt<V>, i: nat)
    requires WriteBatch(policy, Run(policy, store, earlier), last.messages, last.cut).0 == Committed
             && i < |last.messages|
    ensures last.messages[i].Ready?
    ensures var end := WriteBatch(policy, Run(policy, store, earlier), last.messages, last.cut).1;
      var batch := IssuedWrites(policy, Run(policy, store, earlier), last.messages, last.cut);
      var key := last.messages[i].key;
      && key in end
      && (policy.Replace? ==> Some(end[key]) == LastWrite(batch, key))
      && (!policy.Replace? ==>
            Some(end[key]) == Else(Find(store, key), FirstWrite(Log(policy, store, earlier) + batch, key)))
  {
    var middle := Run(policy, store, earlier);
    var batch := IssuedWrites(policy, middle, last.messages, last.cut);
    CommittedIssuesAll(policy, middle, last.messages, last.cut);
    var key := last.messages[i].key;
    IssuedIsFound(batch, i);
    BatchHolds(policy, middle, last.messages, last.cut, key);
    RunHolds(policy, store, earlier, key);
    FirstOfBoth(Log(policy, store, earlier), batch, key);
  }

  // ---------------------------------------------------------------- how an attempt ends

  predicate Under<V>(m: Message<V>, key: string) {
    m.Ready? && m.key == key
  }

  /** Message i meets an entry under its key: one stored before, or that of an earlier message of the batch. */
  ghost predicate MeetsEntry<V>(store: Store<V>, messages: seq<Message<V>>, i: nat)
    requires i < |messages|
  {
    && messages[i].Ready?
    && (messages[i].key in store || exists j | 0 <= j < i :: Under(messages[j], messages[i].key))
  }

  /** The first n messages are stored or skipped without a failure of their own. */
  ghost predicate Passes<V>(policy: DuplicatePolicy, store: Store<V>, messages: seq<Message<V>>, n: nat)
    requires n <= |messages|
  {
    forall i | 0 <= i < n :: messages[i].Ready? && (policy == FailExisting ==> !MeetsEntry(store, messages, i))
  }

  /** The attempt is not cut off before message i. */
  predicate Comes(cut: Cut, i: nat) {
    cut == Uncut || cut.at >= i
  }

  /** What the first message does to the questions about the rest. */
  lemma EntriesNext<V>(policy: DuplicatePolicy, store: Store<V>, messages: seq<Message<V>>, i: nat)
    requires messages != [] && messages[0].Ready? && i + 1 < |messages|
    ensures MeetsEntry(store, messages, i + 1) <==>
            MeetsEntry(WriteOne(policy, store, messages[0].key, messages[0].value), messages[1..], i)
  {
    var rest := messages[1..];
    assert rest[i] == messages[i + 1];
    if rest[i].Ready? {
      var key := rest[i].key;
      if j :| 0 <= j < i + 1 && Under(messages[j], key) {
        assert j > 0 ==> rest[j - 1] == messages[j];
      }
      if j :| 0 <= j < i && Under(rest[j], key) {
        assert messages[j + 1] == rest[j];
      }
    }
  }

  lemma PassesNext<V>(policy: DuplicatePolicy, store: Store<V>, messages: seq<Message<V>>, n: nat)
    requires messages != [] && messages[0].Ready? && n + 1 <= |messages|
    ensures Passes(policy, store, messages, n + 1) <==>
      && (policy == FailExisting ==> messages[0].key !in store)
      && Passes(policy, WriteOne(policy, store, messages[0].key, messages[0].value), messages[1..], n)
  {
    var rest, store' := messages[1..], WriteOne(policy, store, messages[0].key, messages[0].value);
    forall i | 0 <= i < n
      ensures MeetsEntry(store, messages, i + 1) <==> MeetsEntry(store', rest, i)
      ensures messages[i + 1] == rest[i]
    {
      EntriesNext(policy, store, messages, i);
    }
    assert MeetsEntry(store, messages, 0) <==> messages[0].key in store;
    if Passes(policy, store, messages, n + 1) {
      assert messages[0].Ready? && (policy == FailExisting ==> !MeetsEntry(store, messages, 0));
      forall i | 0 <= i < n
        ensures rest[i].Ready? && (policy == FailExisting ==> !MeetsEntry(store', rest, i))
      {
        assert messages[i + 1].Ready? && (policy == FailExisting ==> !MeetsEntry(store, messages, i + 1));
      }
    }
    if Passes(policy, store', rest, n) && (policy == FailExisting ==> messages[0].key !in store) {
      forall i | 0 <= i < n + 1
        ensures messages[i].Ready? && (policy == FailExisting ==> !MeetsEntry(store, messages, i))
      {
        if i > 0 {
          assert rest[i - 1].Ready? && (policy == FailExisting ==> !MeetsEntry(store', rest, i - 1));
        }
      }
    }
  }

  /** Where an attempt stops, and why; |messages| stands for its end. */
  ghost predicate StopsFor<V>(policy: DuplicatePolicy, store: Store<V>, messages: seq<Message<V>>, cut: Cut, exit: Exit,
                              i: nat)
  {
    && i <= |messages| && Passes(policy, store, messages, i) && Comes(cut, i)
    && match exit
       case Committed => i == |messages|
       case Rejected => i < |messages| && messages[i].Unserializable?
       case Unavailable => i < |messages| && messages[i].Ready? && cut != Uncut && cut.at == i
       case KeyExists => i < |messages| && policy == FailExisting && MeetsEntry(store, messages, i) && Comes(cut, i + 1)
       case NotStarted => false
  }

  lemma StopsNext<V>(policy: DuplicatePolicy, store: Store<V>, messages: seq<Message<V>>, cut: Cut, exit: Exit, i: nat)
    requires messages != [] && messages[0].Ready? && (policy == FailExisting ==> messages[0].key !in store)
    requires cut != Uncut ==> cut.at > 0
    ensures var store' := WriteOne(policy, store, messages[0].key, messages[0].value);
      StopsFor(policy, store, messages, cut, exit, i + 1) <==>
      StopsFor(policy, store', messages[1..], Shift(cut), exit, i)
  {
    if i + 1 <= |messages| {
      PassesNext(policy, store, messages, i);
    }
    if i + 1 < |messages| {
      EntriesNext(policy, store, messages, i);
    }
  }

  /** An attempt has one end, and this is how it exits. */
  lemma {:induction false} ExitHasItsReason<V>(policy: DuplicatePolicy, store: Store<V>, messages: seq<Message<V>>,
                                               cut: Cut)
    returns (i: nat)
    ensures StopsFor(policy, store, messages, cut, WriteBatch(policy, store, messages, cut).0, i)
    decreases |messages|
  {
    i := 0;
    if messages != [] && messages[0].Ready? && (cut == Uncut || cut.at > 0) {
      var m := messages[0];
      if !(policy == FailExisting && m.key in store) {
        var store' := WriteOne(policy, store, m.key, m.value);
        var k := ExitHasItsReason(policy, store', messages[1..], Shift(cut));
        StopsNext(policy, store, messages, cut, WriteBatch(policy, store', messages[1..], Shift(cut)).0, k);
        i := k + 1;
      }
    }
  }

  lemma ReasonsExclude<V>(policy: DuplicatePolicy, store: Store<V>, messages: seq<Message<V>>, cut: Cut,
                          a: Exit, i: nat, b: Exit, j: nat)
    requires StopsFor(policy, store, messages, cut, a, i) && StopsFor(policy, store, messages, cut, b, j)
    ensures a == b && i == j
  {
  }

  /** Main result: an attempt exits in a given way exactly when it stops somewhere for that reason. */
  lemma ExitsExactly<V>(policy: DuplicatePolicy, store: Store<V>, messages: seq<Message<V>>, cut: Cut, exit: Exit)
    ensures WriteBatch(policy, store, messages, cut).0 == exit <==>
            exists i :: StopsFor(policy, store, messages, cut, exit, i)
  {
    var k := ExitHasItsReason(policy, store, messages, cut);
    if exists i :: StopsFor(policy, store, messages, cut, exit, i) {
      var i :| StopsFor(policy, store, messages, cut, exit, i);
      ReasonsExclude(policy, store, messages, cut, exit, i, WriteBatch(policy, store, messages, cut).0, k);
    }
  }

  /** How many messages had reached the collection; the one the attempt stopped at may be among them. */
  function Reached(exit: Exit, cut: Cut, i: nat): nat {
    if exit == KeyExists || (exit == Unavailable && cut != Uncut && cut.applied) then i + 1 else i
  }

  /** The writes of an attempt are those of the messages up to where it stopped. */
  lemma {:induction false} WritesUpToTheStop<V>(policy: DuplicatePolicy, store: Store<V>, messages: seq<Message<V>>,
                                                cut: Cut, exit: Exit, i: nat)
    requires StopsFor(policy, store, messages, cut, exit, i)
    ensures var log := IssuedWrites(policy, store, messages, cut);
      && |log| == Reached(exit, cut, i) <= |messages|
      && forall j | 0 <= j < |log| :: messages[j] == Ready(log[j].key, log[j].value)
    decreases i
  {
    if i > 0 {
      var m, rest := messages[0], messages[1..];
      assert m.Ready? && (policy == FailExisting ==> !MeetsEntry(store, messages, 0));
      StopsNext(policy, store, messages, cut, exit, i - 1);
      WritesUpToTheStop(policy, WriteOne(policy, store, m.key, m.value), rest, Shift(cut), exit, i - 1);
      assert forall j | 0 < j < |messages| :: messages[j] == rest[j - 1];
    } else if i < |messages| {
      assert MeetsEntry(store, messages, 0) <==> messages[0].Ready? && messages[0].key in store;
    }
  }

  /** Under the other two policies an attempt commits exactly when all is serializable and nothing cuts it off. */
  lemma CommitsExactly<V>(policy: DuplicatePolicy, store: Store<V>, messages: seq<Message<V>>, cut: Cut)
    requires policy != FailExisting
    ensures WriteBatch(policy, store, messages, cut).0 == Committed <==>
            (forall m | m in messages :: m.Ready?) && (cut == Uncut || cut.at >= |messages|)
    ensures WriteBatch(policy, store, messages, cut).0 != KeyExists
  {
    ExitsExactly(policy, store, messages, cut, Committed);
    ExitsExactly(policy, store, messages, cut, KeyExists);
    if (forall m | m in messages :: m.Ready?) && (cut == Uncut || cut.at >= |messages|) {
      assert forall i | 0 <= i < |messages| :: messages[i] in messages;
      assert StopsFor(policy, store, messages, cut, Committed, |messages|);
    }
  }

  /** So under them a batch that can be stored at all is committed by its first undisturbed redelivery. */
  lemma RedeliveryCommits<V>(policy: DuplicatePolicy, store: Store<V>, earlier: seq<Attempt<V>>,
                             messages: seq<Message<V>>)
    requires policy != FailExisting && forall m | m in messages :: m.Ready?
    ensures WriteBatch(policy, Run(policy, store, earlier), messages, Uncut).0 == Committed
  {
    CommitsExactly(policy, Run(policy, store, earlier), messages, Uncut);
  }

  // ---------------------------------------------------------------- fail_existing

  ghost predicate FreshKeys<V>(store: Store<V>, messages: seq<Message<V>>) {
    && (forall m | m in messages :: m.Ready? && m.key !in store)
    && forall i, j | 0 <= i < j < |messages| :: messages[i].Ready? && messages[j].Ready? ==>
        messages[i].key != messages[j].key
  }

  lemma FreshHead<V>(store: Store<V>, m: Message<V>, rest: seq<Message<V>>)
    requires m.Ready? && FreshKeys(store, [m] + rest)
    ensures m.key !in store && FreshKeys(store[m.key := m.value], rest)
  {
    var messages := [m] + rest;
    assert messages[0] in messages;
    forall r | r in rest
      ensures r.Ready? && r.key !in store[m.key := m.value]
    {
      var j :| 0 <= j < |rest| && rest[j] == r;
      assert messages[j + 1] == r && messages[j + 1] in messages && messages[0].key != messages[j + 1].key;
    }
    assert forall i | 0 <= i < |rest| :: rest[i] == messages[i + 1];
  }

  lemma FreshMore<V>(store: Store<V>, m: Message<V>, rest: seq<Message<V>>)
    requires m.Ready? && m.key !in store && FreshKeys(store[m.key := m.value], rest)
    ensures FreshKeys(store, [m] + rest)
  {
    var messages := [m] + rest;
    forall i, j | 0 <= i < j < |messages| && messages[i].Ready? && messages[j].Ready?
      ensures messages[i].key != messages[j].key
    {
      assert messages[j] == rest[j - 1] && rest[j - 1] in rest;
    }
  }

  /** Under fail_existing a batch commits exactly when all its keys are new and different. */
  lemma {:induction false} FailExistingCommitsExactly<V>(store: Store<V>, messages: seq<Message<V>>)
    ensures WriteBatch(FailExisting, store, messages, Uncut).0 == Committed <==> FreshKeys(store, messages)
    decreases |messages|
  {
    if messages != [] {
      var m, rest := messages[0], messages[1..];
      assert messages == [m] + rest && m in messages;
      if m.Ready? && m.key !in store {
        FailExistingCommitsExactly(store[m.key := m.value], rest);
        if FreshKeys(store, messages) {
          FreshHead(store, m, rest);
        } else if FreshKeys(store[m.key := m.value], rest) {
          FreshMore(store, m, rest);
        }
      }
    }
  }

  lemma {:induction false} BatchOnlyAdds<V>(policy: DuplicatePolicy, store: Store<V>, messages: seq<Message<V>>,
                                            cut: Cut)
    ensures store.Keys <= WriteBatch(policy, store, messages, cut).1.Keys
    decreases |messages|
  {
    if messages != [] && messages[0].Ready? {
      BatchOnlyAdds(policy, WriteOne(policy, store, messages[0].key, messages[0].value), messages[1..], Shift(cut));
    }
  }

  lemma {:induction false} RunOnlyAdds<V>(policy: DuplicatePolicy, store: Store<V>, attempts: seq<Attempt<V>>)
    ensures store.Keys <= Run(policy, store, attempts).Keys
    decreases |attempts|
  {
    if attempts != [] {
      BatchOnlyAdds(policy, store, attempts[0].messages, attempts[0].cut);
      RunOnlyAdds(policy, WriteBatch(policy, store, attempts[0].messages, attempts[0].cut).1, attempts[1..]);
    }
  }

  lemma {:induction false} InterruptedNeverCommits<V>(policy: DuplicatePolicy, store: Store<V>,
                                                      messages: seq<Message<V>>, cut: Cut)
    requires WriteBatch(policy, store, messages, cut).0 == Committed
    ensures WriteBatch(policy, store, messages, Uncut) == WriteBatch(policy, store, messages, cut)
    decreases |messages|
  {
    if messages != [] {
      InterruptedNeverCommits(policy, WriteOne(policy, store, messages[0].key, messages[0].value), messages[1..],
          Shift(cut));
    }
  }

  /**
   fail_existing is not safe under redelivery: once an attempt had any effect, no later attempt on its batch
   commits.
   */
  lemma PartialEffectBlocksRetry<V>(store: Store<V>, first: Attempt<V>, between: seq<Attempt<V>>, retry: Attempt<V>)
    requires retry.messages == first.messages
    requires IssuedWrites(FailExisting, store, first.messages, first.cut) != []
    ensures var later := Run(FailExisting, store, [first] + between);
      WriteBatch(FailExisting, later, retry.messages, retry.cut).0 != Committed
  {
    var m := first.messages[0];
    var after := WriteBatch(FailExisting, store, first.messages, first.cut).1;
    var later := Run(FailExisting, store, [first] + between);
    assert ([first] + between)[1..] == between;
    assert m in retry.messages;
    assert m.key in after by {
      BatchOnlyAdds(FailExisting, WriteOne(FailExisting, store, m.key, m.value), first.messages[1..], Shift(first.cut));
    }
    RunOnlyAdds(FailExisting, after, between);
    if WriteBatch(FailExisting, later, retry.messages, retry.cut).0 == Committed {
      InterruptedNeverCommits(FailExisting, later, retry.messages, retry.cut);
      FailExistingCommitsExactly(later, retry.messages);
      assert false;
    }
  }

  // ---------------------------------------------------------------- keys and storage together

  /** The batch as mapped for storage; the value is the message itself with the attempt's time stamp. */
  function Mapped(lib: Library, config: KeyConfig, batch: seq<Envelope>, stamp: int): seq<Message<(Envelope, int)>> {
    seq(|batch|, i requires 0 <= i < |batch| =>
      var key := KeyFor(lib, config, batch[i]);
      if key.Success? then Ready(key.value, (batch[i], stamp)) else Unserializable)
  }

  /** Every value sits under the key of the message it came from. */
  predicate Filed(lib: Library, config: KeyConfig, store: Store<(Envelope, int)>) {
    forall key | key in store :: KeyFor(lib, config, store[key].0) == Success(key)
  }

  predicate FromEnvelopes(lib: Library, config: KeyConfig, messages: seq<Message<(Envelope, int)>>) {
    forall m | m in messages && m.Ready? :: KeyFor(lib, config, m.value.0) == Success(m.key)
  }

  lemma {:induction false} BatchStaysFiled(lib: Library, config: KeyConfig, policy: DuplicatePolicy,
                                           store: Store<(Envelope, int)>, messages: seq<Message<(Envelope, int)>>,
                                           cut: Cut)
    requires Filed(lib, config, store) && FromEnvelopes(lib, config, messages)
    ensures Filed(lib, config, WriteBatch(policy, store, messages, cut).1)
    decreases |messages|
  {
    if messages != [] && messages[0].Ready? {
      assert messages[0] in messages && forall m | m in messages[1..] :: m in messages;
      BatchStaysFiled(lib, config, policy, WriteOne(policy, store, messages[0].key, messages[0].value), messages[1..],
          Shift(cut));
    }
  }

  lemma {:induction false} RunStaysFiled(lib: Library, config: KeyConfig, policy: DuplicatePolicy,
                                         store: Store<(Envelope, int)>, attempts: seq<Attempt<(Envelope, int)>>)
    requires Filed(lib, config, store) && forall a | a in attempts :: FromEnvelopes(lib, config, a.messages)
    ensures Filed(lib, config, Run(policy, store, attempts))
    decreases |attempts|
  {
    if attempts != [] {
      var a := attempts[0];
      assert a in attempts && forall b | b in attempts[1..] :: b in attempts;
      BatchStaysFiled(lib, config, policy, store, a.messages, a.cut);
      RunStaysFiled(lib, config, policy, WriteBatch(policy, store, a.messages, a.cut).1, attempts[1..]);
    }
  }

  /**
   End to end: starting empty, after any run of interrupted deliveries that ends with a committed one,
   looking up a message of the last batch finds a message of the same identity, whatever else was delivered.
   */
  lemma StoredMessageIsFound(lib: Library, config: KeyConfig, policy: DuplicatePolicy,
                             earlier: seq<Attempt<(Envelope, int)>>, batch: seq<Envelope>, stamp: int, cut: Cut, i: nat)
    requires HexDigests(lib) && i < |batch|
    requires forall a | a in earlier :: FromEnvelopes(lib, config, a.messages)
    requires WriteBatch(policy, Run(policy, map[], earlier), Mapped(lib, config, batch, stamp), cut).0 == Committed
    ensures var end := WriteBatch(policy, Run(policy, map[], earlier), Mapped(lib, config, batch, stamp), cut).1;
      var key := KeyFor(lib, config, batch[i]);
      && key.Success? && key.value in end
      && KeyFor(lib, config, end[key.value].0) == key
      && IdentityOf(lib, config.strategy, end[key.value].0) == IdentityOf(lib, config.strategy, batch[i])
  {
    var middle, messages := Run(policy, map[], earlier), Mapped(lib, config, batch, stamp);
    RunStaysFiled(lib, config, policy, map[], earlier);
    BatchStaysFiled(lib, config, policy, middle, messages, cut);
    CommittedRunStoresBatch(policy, map[], earlier, Attempt(messages, cut), i);
    var end := WriteBatch(policy, middle, messages, cut).1;
    KeysIdentifyMessages(lib, config, end[messages[i].key].0, batch[i]);
  }
}
