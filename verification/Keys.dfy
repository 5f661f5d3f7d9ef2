/** Storage keys (src/nats_sinks/coherence/mapping.py) identify messages. */
module Keys {
  import opened Prelude
  import opened Text
  import opened Envelope

  datatype KeyStrategy = ByIdempotencyKey | ByStreamSequence | ByMessageId | ByPayload

  datatype KeyConfig = KeyConfig(strategy: KeyStrategy, prefix: Option<string>, maxKeyBytes: nat)

  /** len(s.encode("utf-8")). */
  function Utf8Length(s: string): nat {
    if s == "" then 0
    else
      var n := s[0] as int;
      (if n < 0x80 then 1 else if n < 0x800 then 2 else if n < 0x10000 then 3 else 4) + Utf8Length(s[1..])
  }

  /** _raw_key_for_envelope. */
  function RawKey(lib: Library, strategy: KeyStrategy, e: Envelope): Result<string, KeyError> {
    match strategy
    case ByIdempotencyKey => IdempotencyKey(lib, e)
    case ByStreamSequence =>
      if !Truthy(e.stream) || e.streamSequence.None? then Failure(StreamRequired)
      else Success(StreamKey(e.stream.value, e.streamSequence.value))
    case ByMessageId =>
      if !Truthy(e.messageId) then Failure(MessageIdRequired)
      else Success(MessageKey(e.messageId.value))
    case ByPayload => Success(PayloadKey(lib, e))
  }

  /** coherence_key_for_envelope. */
  function KeyFor(lib: Library, config: KeyConfig, e: Envelope): Result<string, KeyError> {
    var raw :- RawKey(lib, config.strategy, e);
    var key := if Truthy(config.prefix) then config.prefix.value + ":" + raw else raw;
    if Utf8Length(key) > config.maxKeyBytes then Failure(KeyTooLong) else Success(key)
  }

  /** What a key is meant to stand for. */
  datatype Identity =
    | StreamPosition(stream: string, sequence: int)
    | MessageId(id: string)
    | Payload(subject: string, digest: string)

  function IdentityOf(lib: Library, strategy: KeyStrategy, e: Envelope): Identity
    requires RawKey(lib, strategy, e).Success?
  {
    if strategy.ByPayload? then Payload(e.subject, lib.sha256Hex(e.data))
    else if strategy.ByMessageId? then MessageId(e.messageId.value)
    else if Truthy(e.stream) && e.streamSequence.Some? then StreamPosition(e.stream.value, e.streamSequence.value)
    else if Truthy(e.messageId) then MessageId(e.messageId.value)
    else Payload(e.subject, lib.sha256Hex(e.data))
  }

  function Rendered(id: Identity): string {
    match id
    case StreamPosition(stream, sequence) => "stream-sequence:" + stream + ":" + Decimal(sequence)
    case MessageId(id) => "message-id:" + id
    case Payload(subject, digest) => "payload-sha256:" + subject + ":" + digest
  }

  // ---------------------------------------------------------------- decimal numbers

  function DigitValue(c: char): int {
    c as int - '0' as int
  }

  function ReadNat(s: string): int {
    if s == "" then 0 else 10 * ReadNat(s[..|s| - 1]) + DigitValue(s[|s| - 1])
  }

  predicate Digits(s: string) {
    s != "" && forall c | c in s :: '0' <= c <= '9'
  }

  lemma DigitIsRead(d: int)
    requires 0 <= d < 10
    ensures DigitValue(Digit(d)) == d && '0' <= Digit(d) <= '9'
  {
  }

  lemma {:induction false} DecimalNatReads(n: nat)
    ensures ReadNat(DecimalNat(n)) == n && Digits(DecimalNat(n))
  {
    DigitIsRead(n % 10);
    var s := DecimalNat(n);
    if n < 10 {
      assert s[..|s| - 1] == "";
    } else {
      DecimalNatReads(n / 10);
      assert s[..|s| - 1] == DecimalNat(n / 10);
    }
  }

  /** Printed integers are told apart and never contain a colon. */
  lemma DecimalIsInjective(m: int, n: int)
    ensures Decimal(m) == Decimal(n) <==> m == n
    ensures ':' !in Decimal(m)
  {
    DecimalNatReads(if m < 0 then -m else m);
    DecimalNatReads(if n < 0 then -n else n);
    assert m < 0 ==> Decimal(m)[0] == '-' && Decimal(m)[1..] == DecimalNat(-m);
    assert n < 0 ==> Decimal(n)[0] == '-' && Decimal(n)[1..] == DecimalNat(-n);
    assert m >= 0 ==> Decimal(m)[0] in Decimal(m);
    assert n >= 0 ==> Decimal(n)[0] in Decimal(n);
  }

  // ---------------------------------------------------------------- injectivity

  /** SHA-256 digests are printed in hexadecimal. */
  ghost predicate HexDigests(lib: Library) {
    forall data: seq<byte> :: ':' !in lib.sha256Hex(data)
  }

  /** A text is split uniquely at its last colon. */
  lemma LastColonSplits(a: string, b: string, c: string, d: string)
    requires a + ":" + b == c + ":" + d && ':' !in b && ':' !in d
    ensures a == c && b == d
  {
    var s := a + ":" + b;
    assert s[|a|] == ':' && s[|c|] == ':';
    assert |a| == |c|;
    assert a == s[..|a|] && c == s[..|c|];
    assert b == s[|a| + 1..] && d == s[|c| + 1..];
  }

  lemma Unprefixed(prefix: string, a: string, b: string)
    requires prefix + a == prefix + b
    ensures a == b
  {
    assert (prefix + a)[|prefix|..] == a && (prefix + b)[|prefix|..] == b;
  }

  predicate ColonFreeDigest(id: Identity) {
    id.Payload? ==> ':' !in id.digest
  }

  /** Keys of different kinds never collide, and keys of one kind only for the same identity. */
  lemma RenderedIsInjective(x: Identity, y: Identity)
    requires ColonFreeDigest(x) && ColonFreeDigest(y) && Rendered(x) == Rendered(y)
    ensures x == y
  {
    var s, t := Rendered(x), Rendered(y);
    assert s[0] == (if x.StreamPosition? then 's' else if x.MessageId? then 'm' else 'p');
    assert t[0] == (if y.StreamPosition? then 's' else if y.MessageId? then 'm' else 'p');
    match (x, y)
    case (StreamPosition(a, m), StreamPosition(b, n)) =>
      DecimalIsInjective(m, n);
      DecimalIsInjective(n, m);
      LastColonSplits("stream-sequence:" + a, Decimal(m), "stream-sequence:" + b, Decimal(n));
      Unprefixed("stream-sequence:", a, b);
    case (MessageId(a), MessageId(b)) =>
      Unprefixed("message-id:", a, b);
    case (Payload(a, d), Payload(b, e)) =>
      LastColonSplits("payload-sha256:" + a, d, "payload-sha256:" + b, e);
      Unprefixed("payload-sha256:", a, b);
    case _ =>
  }

  lemma RawKeyIsRendered(lib: Library, strategy: KeyStrategy, e: Envelope)
    requires RawKey(lib, strategy, e).Success? && HexDigests(lib)
    ensures RawKey(lib, strategy, e).value == Rendered(IdentityOf(lib, strategy, e))
    ensures ColonFreeDigest(IdentityOf(lib, strategy, e))
  {
  }

  predicate Given(value: Option<string>) {
    value.Some? && |value.value| > 0
  }

  /** The message has what the strategy makes its key of. */
  predicate Identified(strategy: KeyStrategy, e: Envelope) {
    var positioned := Given(e.stream) && e.streamSequence.Some?;
    match strategy
    case ByStreamSequence => positioned
    case ByMessageId => Given(e.messageId)
    case ByPayload => true
    case ByIdempotencyKey => positioned || Given(e.messageId) || !e.presence.omitted
  }

  /** The storage key is the rendered identity behind the prefix, if any and if not too long in UTF-8. */
  lemma KeyExactly(lib: Library, config: KeyConfig, e: Envelope)
    requires HexDigests(lib)
    ensures Identified(config.strategy, e) ==>
      && RawKey(lib, config.strategy, e).Success?
      && var text := (if Given(config.prefix) then config.prefix.value + ":" else "")
                     + Rendered(IdentityOf(lib, config.strategy, e));
      KeyFor(lib, config, e) == if Utf8Length(text) <= config.maxKeyBytes then Success(text) else Failure(KeyTooLong)
    ensures !Identified(config.strategy, e) ==>
      KeyFor(lib, config, e) ==
      Failure(if config.strategy.ByStreamSequence? then StreamRequired
              else if config.strategy.ByMessageId? then MessageIdRequired
              else PayloadOmitted)
  {
    if Identified(config.strategy, e) {
      RawKeyIsRendered(lib, config.strategy, e);
      var raw := RawKey(lib, config.strategy, e).value;
      assert "" + raw == raw;
    }
  }

  /** A character more is one to four bytes more. */
  lemma {:induction false} Utf8LengthExactly(s: string, c: char)
    ensures Utf8Length(s + [c]) == Utf8Length(s) + 1
            + (if c as int >= 0x80 then 1 else 0) + (if c as int >= 0x800 then 1 else 0)
            + (if c as int >= 0x10000 then 1 else 0)
  {
    if s == "" {
      assert (s + [c])[1..] == "";
    } else {
      assert (s + [c])[1..] == s[1..] + [c];
      Utf8LengthExactly(s[1..], c);
    }
  }

  /** Two messages share a key exactly when they are the same message. */
  lemma KeysIdentifyMessages(lib: Library, config: KeyConfig, x: Envelope, y: Envelope)
    requires HexDigests(lib) && KeyFor(lib, config, x).Success? && KeyFor(lib, config, y).Success?
    ensures KeyFor(lib, config, x).value == KeyFor(lib, config, y).value <==>
            IdentityOf(lib, config.strategy, x) == IdentityOf(lib, config.strategy, y)
  {
    RawKeyIsRendered(lib, config.strategy, x);
    RawKeyIsRendered(lib, config.strategy, y);
    var a, b := RawKey(lib, config.strategy, x).value, RawKey(lib, config.strategy, y).value;
    if KeyFor(lib, config, x).value == KeyFor(lib, config, y).value {
      if Truthy(config.prefix) {
        Unprefixed(config.prefix.value + ":", a, b);
      }
      RenderedIsInjective(IdentityOf(lib, config.strategy, x), IdentityOf(lib, config.strategy, y));
    }
  }

  /** Keyed by payload, messages that carry no bytes share one key per subject, however many there are. */
  lemma BytelessShareKeyExactly(lib: Library, config: KeyConfig, x: Envelope, y: Envelope)
    requires HexDigests(lib) && config.strategy.ByPayload? && x.data == [] && y.data == []
    requires KeyFor(lib, config, x).Success? && KeyFor(lib, config, y).Success?
    ensures KeyFor(lib, config, x) == KeyFor(lib, config, y) <==> x.subject == y.subject
  {
    KeysIdentifyMessages(lib, config, x, y);
  }

  /** Under the other strategies a message without a body has no key but one of its own stream position or id. */
  lemma OmittedKeyIsItsOwn(lib: Library, config: KeyConfig, x: Envelope, y: Envelope)
    requires HexDigests(lib) && !config.strategy.ByPayload? && x.presence.omitted && y.presence.omitted
    requires KeyFor(lib, config, x).Success? && KeyFor(lib, config, y).Success?
    ensures KeyFor(lib, config, x) == KeyFor(lib, config, y) ==>
      || (Truthy(x.stream) && x.stream == y.stream && x.streamSequence == y.streamSequence)
      || (Truthy(x.messageId) && x.messageId == y.messageId)
  {
    KeysIdentifyMessages(lib, config, x, y);
  }
}
