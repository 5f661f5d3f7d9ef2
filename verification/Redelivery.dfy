/**
 A message encrypted anew at each delivery: the nonce is fresh, so the stored bytes differ, and whether it is
 still stored once depends on where its key comes from.
 */
module Redelivery {
  import opened Prelude
  import opened Envelope
  import opened Keys
  import opened CoherenceSink
  import opened CoherenceSinkProofs
  import opened Encryption
  import opened EncryptionProofs
  import EnvelopeProofs

  /** The key is computed from the bytes, for want of anything else or by strategy. */
  predicate KeyFromBytes(strategy: KeyStrategy, e: Envelope) {
    || strategy.ByPayload?
    || (strategy.ByIdempotencyKey? && !(Truthy(e.stream) && e.streamSequence.Some?) && !Truthy(e.messageId))
  }

  lemma IdentityUnderNewBytes(lib: Library, strategy: KeyStrategy, e: Envelope, x: seq<byte>, y: seq<byte>)
    requires RawKey(lib, strategy, e.(data := x)).Success? && RawKey(lib, strategy, e.(data := y)).Success?
    ensures IdentityOf(lib, strategy, e.(data := x)) == IdentityOf(lib, strategy, e.(data := y)) <==>
            !KeyFromBytes(strategy, e) || lib.sha256Hex(x) == lib.sha256Hex(y)
  {
  }

  /** What one delivery of e hands to the sink. */
  function Delivered(lib: Library, crypto: Crypto, policy: Policy, nonce: Bytes, e: Envelope): Envelope {
    EncryptEnvelope(lib, crypto, policy, nonce, e)
  }

  lemma DeliveredKeepsTheRest(lib: Library, crypto: Crypto, policy: Policy, nonce: Bytes, e: Envelope)
    requires Sound(crypto) && Received(lib, e)
    ensures var d := Delivered(lib, crypto, policy, nonce, e); d == e.(data := d.data)
  {
    var encryptor := EncryptorFor(policy.rules, policy.fallback, e.subject);
    if encryptor.Some? {
      var raw, headers :| e == Construct(lib, raw, headers);
      var bytes := EncryptBytes(lib, crypto, encryptor.value, nonce, e.data);
      EnvelopeProofs.ReplaceKeepsTheRest(lib, raw, headers, bytes);
    }
  }

  predicate Encrypts(policy: Policy, e: Envelope) {
    EncryptorFor(policy.rules, policy.fallback, e.subject).Some?
  }

  lemma NonceIsPartOfTheBytes(lib: Library, crypto: Crypto, encryptor: Encryptor, first: Bytes, second: Bytes,
                              text: Bytes)
    requires Sound(crypto) && first != second
    ensures EncryptBytes(lib, crypto, encryptor, first, text) != EncryptBytes(lib, crypto, encryptor, second, text)
  {
    var x := crypto.parse(EncryptBytes(lib, crypto, encryptor, first, text));
    var y := crypto.parse(EncryptBytes(lib, crypto, encryptor, second, text));
    assert x.Some? && x.value.nonce == first && y.Some? && y.value.nonce == second;
  }

  /** A fresh nonce makes the bytes of a delivery new exactly when the message is encrypted at all. */
  lemma FreshNonceChangesBytesExactly(lib: Library, crypto: Crypto, policy: Policy, e: Envelope, first: Bytes,
                                      second: Bytes)
    requires Sound(crypto) && first != second
    ensures Delivered(lib, crypto, policy, first, e).data != Delivered(lib, crypto, policy, second, e).data <==>
            Encrypts(policy, e)
  {
    var encryptor := EncryptorFor(policy.rules, policy.fallback, e.subject);
    if encryptor.Some? {
      NonceIsPartOfTheBytes(lib, crypto, encryptor.value, first, second, e.data);
      assert Delivered(lib, crypto, policy, first, e).data == EncryptBytes(lib, crypto, encryptor.value, first, e.data);
      assert Delivered(lib, crypto, policy, second, e).data
          == EncryptBytes(lib, crypto, encryptor.value, second, e.data);
    }
  }

  /**
   Whatever the nonces, two deliveries get the same key exactly when it is not taken from the bytes, or digests
   agree.
   */
  lemma SameKeyByDigest(lib: Library, crypto: Crypto, policy: Policy, config: KeyConfig, e: Envelope,
                        first: Bytes, second: Bytes)
    requires Sound(crypto) && HexDigests(lib) && Received(lib, e)
    requires KeyFor(lib, config, Delivered(lib, crypto, policy, first, e)).Success?
    requires KeyFor(lib, config, Delivered(lib, crypto, policy, second, e)).Success?
    ensures var x, y := Delivered(lib, crypto, policy, first, e), Delivered(lib, crypto, policy, second, e);
      KeyFor(lib, config, x) == KeyFor(lib, config, y) <==>
      !KeyFromBytes(config.strategy, e) || lib.sha256Hex(x.data) == lib.sha256Hex(y.data)
  {
    var x, y := Delivered(lib, crypto, policy, first, e), Delivered(lib, crypto, policy, second, e);
    DeliveredKeepsTheRest(lib, crypto, policy, first, e);
    DeliveredKeepsTheRest(lib, crypto, policy, second, e);
    KeysIdentifyMessages(lib, config, x, y);
    IdentityUnderNewBytes(lib, config.strategy, e, x.data, y.data);
  }

  /** The two deliveries have no digest in common unless they have the same bytes. */
  predicate NoCollision(lib: Library, x: Envelope, y: Envelope) {
    lib.sha256Hex(x.data) == lib.sha256Hex(y.data) ==> x.data == y.data
  }

  /**
   Two deliveries with different nonces get the same key exactly when the key is not taken from the bytes or the
   message is not encrypted.
   */
  lemma RedeliveryKeepsKeyExactly(lib: Library, crypto: Crypto, policy: Policy, config: KeyConfig, e: Envelope,
                                  first: Bytes, second: Bytes)
    requires Sound(crypto) && HexDigests(lib) && Received(lib, e) && first != second
    requires NoCollision(lib, Delivered(lib, crypto, policy, first, e), Delivered(lib, crypto, policy, second, e))
    requires KeyFor(lib, config, Delivered(lib, crypto, policy, first, e)).Success?
    requires KeyFor(lib, config, Delivered(lib, crypto, policy, second, e)).Success?
    ensures var x, y := Delivered(lib, crypto, policy, first, e), Delivered(lib, crypto, policy, second, e);
      KeyFor(lib, config, x) == KeyFor(lib, config, y) <==> !KeyFromBytes(config.strategy, e) || !Encrypts(policy, e)
  {
    SameKeyByDigest(lib, crypto, policy, config, e, first, second);
    FreshNonceChangesBytesExactly(lib, crypto, policy, e, first, second);
  }

  // ---------------------------------------------------------------- single writes

  /** One delivered write, and how its attempt was cut off, if at all, after the write. */
  datatype Put<V> = Put(key: string, value: V, cut: Cut)

  ghost predicate TookEffect<V>(puts: seq<Put<V>>) {
    forall p | p in puts :: p.cut == Uncut || p.cut == Lost(0, true)
  }

  function Attempts<V>(puts: seq<Put<V>>): seq<Attempt<V>> {
    seq(|puts|, i requires 0 <= i < |puts| => Attempt([Ready(puts[i].key, puts[i].value)], puts[i].cut))
  }

  lemma OneWrite<V>(store: Store<V>, key: string, value: V, cut: Cut)
    requires cut == Uncut || cut == Lost(0, true)
    ensures WriteBatch(SkipExisting, store, [Ready(key, value)], cut).1 == WriteOne(SkipExisting, store, key, value)
  {
    var messages := [Message<V>.Ready(key, value)];
    assert messages[0] == Ready(key, value) && messages[1..] == [];
    assert WriteBatch(SkipExisting, WriteOne(SkipExisting, store, key, value), [], Shift(cut)).1
        == WriteOne(SkipExisting, store, key, value);
  }

  lemma NextWrite<V>(store: Store<V>, puts: seq<Put<V>>)
    requires puts != [] && TookEffect(puts)
    ensures Run(SkipExisting, store, Attempts(puts)) ==
            Run(SkipExisting, WriteOne(SkipExisting, store, puts[0].key, puts[0].value), Attempts(puts[1..]))
  {
    assert puts[0] in puts && Attempts(puts)[1..] == Attempts(puts[1..]);
    OneWrite(store, puts[0].key, puts[0].value, puts[0].cut);
  }

  lemma TailTookEffect<V>(puts: seq<Put<V>>)
    requires puts != [] && TookEffect(puts)
    ensures TookEffect(puts[1..])
  {
    assert forall p | p in puts[1..] :: p in puts;
  }

  /** Under a key that is taken, nothing changes. */
  lemma {:induction false} RepeatedKey<V>(store: Store<V>, puts: seq<Put<V>>, key: string)
    requires TookEffect(puts) && key in store && forall p | p in puts :: p.key == key
    ensures Run(SkipExisting, store, Attempts(puts)) == store
    decreases |puts|
  {
    if puts != [] {
      NextWrite(store, puts);
      TailTookEffect(puts);
      assert puts[0] in puts && forall p | p in puts[1..] :: p in puts;
      RepeatedKey(store, puts[1..], key);
    }
  }

  ghost predicate NewKeys<V>(store: Store<V>, puts: seq<Put<V>>) {
    && (forall p | p in puts :: p.key !in store)
    && forall i, j | 0 <= i < j < |puts| :: puts[i].key != puts[j].key
  }

  lemma NewKeysNext<V>(store: Store<V>, puts: seq<Put<V>>)
    requires puts != [] && NewKeys(store, puts)
    ensures NewKeys(store[puts[0].key := puts[0].value], puts[1..]) && puts[0].key !in store
  {
    var rest := puts[1..];
    assert puts[0] in puts;
    forall p | p in rest
      ensures p.key !in store[puts[0].key := puts[0].value]
    {
      var j :| 0 <= j < |rest| && rest[j] == p;
      assert puts[j + 1] == p && puts[j + 1] in puts && puts[0].key != puts[j + 1].key;
    }
    assert forall i | 0 <= i < |rest| :: rest[i] == puts[i + 1];
  }

  /** Under new and different keys, every write adds an entry. */
  lemma {:induction false} DifferentKeys<V>(store: Store<V>, puts: seq<Put<V>>)
    requires TookEffect(puts) && NewKeys(store, puts)
    ensures var end := Run(SkipExisting, store, Attempts(puts));
      && |end| == |store| + |puts|
      && forall k | k in store :: k in end && end[k] == store[k]
    decreases |puts|
  {
    if puts != [] {
      NextWrite(store, puts);
      TailTookEffect(puts);
      NewKeysNext(store, puts);
      var store' := store[puts[0].key := puts[0].value];
      DifferentKeys(store', puts[1..]);
      assert store'.Keys == store.Keys + {puts[0].key} && |store'.Keys| == |store'| && |store.Keys| == |store|;
    }
  }

  // ---------------------------------------------------------------- any number of deliveries

  /** One delivery: its nonce, its time stamp, and how its attempt was cut off after the write, if at all. */
  datatype Delivery = Delivery(nonce: Bytes, stamp: int, cut: Cut)

  /** How deliveries of e are protected, keyed and counted. */
  datatype Setting = Setting(lib: Library, crypto: Crypto, policy: Policy, config: KeyConfig, e: Envelope) {
    function Sent(d: Delivery): Envelope {
      Delivered(lib, crypto, policy, d.nonce, e)
    }

    function Key(d: Delivery): Result<string, KeyError> {
      KeyFor(lib, config, Sent(d))
    }

    /** The attempts the sink sees. */
    function Batches(deliveries: seq<Delivery>): seq<Attempt<(Envelope, int)>> {
      seq(|deliveries|, i requires 0 <= i < |deliveries| =>
        Attempt(Mapped(lib, config, [Sent(deliveries[i])], deliveries[i].stamp), deliveries[i].cut))
    }

    /** Deliveries that all took effect, with different nonces and no collision of digests, on keys not yet in store. */
    predicate Proper(store: Store<(Envelope, int)>, deliveries: seq<Delivery>) {
      && (forall d | d in deliveries ::
            (d.cut == Uncut || d.cut == Lost(0, true)) && Key(d).Success? && Key(d).value !in store)
      && forall i, j | 0 <= i < j < |deliveries| ::
           deliveries[i].nonce != deliveries[j].nonce && NoCollision(lib, Sent(deliveries[i]), Sent(deliveries[j]))
    }

    /** The key does not change with the nonce. */
    predicate KeepsKey() {
      !KeyFromBytes(config.strategy, e) || !Encrypts(policy, e)
    }

    function Puts(deliveries: seq<Delivery>): seq<Put<(Envelope, int)>>
      requires forall d | d in deliveries :: Key(d).Success?
    {
      seq(|deliveries|, i requires 0 <= i < |deliveries| =>
        assert deliveries[i] in deliveries;
        Put(Key(deliveries[i]).value, (Sent(deliveries[i]), deliveries[i].stamp), deliveries[i].cut))
    }
  }

  lemma BatchesArePuts(s: Setting, deliveries: seq<Delivery>)
    requires forall d | d in deliveries :: s.Key(d).Success?
    ensures s.Batches(deliveries) == Attempts(s.Puts(deliveries))
  {
    forall i | 0 <= i < |deliveries|
      ensures s.Batches(deliveries)[i] == Attempts(s.Puts(deliveries))[i]
    {
      var d := deliveries[i];
      assert d in deliveries;
      assert Mapped(s.lib, s.config, [s.Sent(d)], d.stamp) == [Ready(s.Key(d).value, (s.Sent(d), d.stamp))];
    }
  }

  lemma SameKeyExactly(s: Setting, store: Store<(Envelope, int)>, deliveries: seq<Delivery>, i: nat, j: nat)
    requires Sound(s.crypto) && HexDigests(s.lib) && Received(s.lib, s.e)
    requires s.Proper(store, deliveries) && i < j < |deliveries|
    ensures s.Key(deliveries[i]) == s.Key(deliveries[j]) <==> s.KeepsKey()
  {
    var x, y := deliveries[i], deliveries[j];
    assert x in deliveries && y in deliveries;
    RedeliveryKeepsKeyExactly(s.lib, s.crypto, s.policy, s.config, s.e, x.nonce, y.nonce);
  }

  lemma PutsAreProper(s: Setting, store: Store<(Envelope, int)>, deliveries: seq<Delivery>)
    requires Sound(s.crypto) && HexDigests(s.lib) && Received(s.lib, s.e) && s.Proper(store, deliveries)
    ensures var puts := s.Puts(deliveries);
      && TookEffect(puts) && (forall p | p in puts :: p.key !in store)
      && forall i, j | 0 <= i < j < |puts| :: puts[i].key == puts[j].key <==> s.KeepsKey()
  {
    var puts := s.Puts(deliveries);
    forall p | p in puts
      ensures p.key !in store && (p.cut == Uncut || p.cut == Lost(0, true))
    {
      var i :| 0 <= i < |puts| && puts[i] == p;
      assert deliveries[i] in deliveries;
    }
    forall i, j | 0 <= i < j < |puts|
      ensures puts[i].key == puts[j].key <==> s.KeepsKey()
    {
      assert deliveries[i] in deliveries && deliveries[j] in deliveries;
      SameKeyExactly(s, store, deliveries, i, j);
    }
  }

  lemma FirstStays<V>(store: Store<V>, puts: seq<Put<V>>)
    requires puts != [] && TookEffect(puts) && puts[0].key !in store
    requires (forall p | p in puts :: p.key == puts[0].key) || NewKeys(store, puts)
    ensures var end := Run(SkipExisting, store, Attempts(puts));
      && |end| == |store| + (if forall p | p in puts :: p.key == puts[0].key then 1 else |puts|)
      && puts[0].key in end && end[puts[0].key] == puts[0].value
      && forall k | k in store :: k in end && end[k] == store[k]
  {
    var first, rest := puts[0], puts[1..];
    var store' := store[first.key := first.value];
    NextWrite(store, puts);
    TailTookEffect(puts);
    assert store'.Keys == store.Keys + {first.key} && |store'.Keys| == |store'| && |store.Keys| == |store|;
    if forall p | p in puts :: p.key == first.key {
      assert forall p | p in rest :: p in puts;
      RepeatedKey(store', rest, first.key);
    } else {
      NewKeysNext(store, puts);
      DifferentKeys(store', rest);
    }
  }

  /**
   Under skip_existing a message delivered any number of times, each time with a fresh nonce and with an effect,
   leaves one entry if its key is not taken from the bytes or it is not encrypted, and one for each delivery
   otherwise; the first delivery's entry and everything stored before always stand.
   */
  lemma RedeliveredOnceExactly(s: Setting, store: Store<(Envelope, int)>, deliveries: seq<Delivery>)
    requires Sound(s.crypto) && HexDigests(s.lib) && Received(s.lib, s.e)
    requires deliveries != [] && s.Proper(store, deliveries)
    ensures var end, first := Run(SkipExisting, store, s.Batches(deliveries)), deliveries[0];
      && |end| == |store| + (if s.KeepsKey() then 1 else |deliveries|)
      && first in deliveries && s.Key(first).value in end
      && end[s.Key(first).value] == (s.Sent(first), first.stamp)
      && forall k | k in store :: k in end && end[k] == store[k]
  {
    var puts := s.Puts(deliveries);
    BatchesArePuts(s, deliveries);
    PutsAreProper(s, store, deliveries);
    assert deliveries[0] in deliveries && puts[0] in puts;
    KeysOfPuts(store, puts, s.KeepsKey());
    FirstStays(store, puts);
  }

  lemma KeysOfPuts<V>(store: Store<V>, puts: seq<Put<V>>, same: bool)
    requires puts != [] && forall p | p in puts :: p.key !in store
    requires forall i, j | 0 <= i < j < |puts| :: puts[i].key == puts[j].key <==> same
    ensures same ==> forall p | p in puts :: p.key == puts[0].key
    ensures !same ==> NewKeys(store, puts)
    ensures !same && |puts| > 1 ==> !(forall p | p in puts :: p.key == puts[0].key)
  {
    if same {
      forall p | p in puts
        ensures p.key == puts[0].key
      {
        var j :| 0 <= j < |puts| && puts[j] == p;
      }
    } else if |puts| > 1 {
      assert puts[1] in puts && puts[0].key != puts[1].key;
    }
  }
}
