/** The normalised message envelope and its idempotency key (src/nats_sinks/core/envelope.py). */
module Envelope {
  import opened Prelude
  import opened Text

  type byte = n: int | 0 <= n < 256

  /** Python library functions whose results are not modelled further. */
  datatype Library = Library(
    casefold: string -> string,
    lower: string -> string,
    parseInt: string -> Option<int>,
    sha256Hex: seq<byte> -> string)

  // ---------------------------------------------------------------- headers

  /** A header value as received: None, text, a list of items (some unprintable), or unprintable. */
  datatype RawValue = Null | Text(text: string) | Many(items: seq<Option<string>>) | Unprintable

  /** A received header; the name is None when it cannot be rendered as text. */
  datatype RawHeader = RawHeader(name: Option<string>, value: RawValue)

  datatype Header = Header(name: string, value: string)

  /** A dictionary in insertion order. */
  type Headers = seq<Header>

  predicate IsControl(c: char) {
    c as int <= 31 || c as int == 127
  }

  predicate HasControl(s: string) {
    exists c | c in s :: IsControl(c)
  }

  function Printable(items: seq<Option<string>>): seq<string> {
    if items == [] then [] else (if items[0].Some? then [items[0].value] else []) + Printable(items[1..])
  }

  function RenderedName(name: Option<string>): Option<string> {
    if name.None? || Strip(name.value) == "" || HasControl(Strip(name.value)) then None else Some(Strip(name.value))
  }

  function RenderedValue(value: RawValue): Option<string> {
    match value
    case Null => None
    case Text(text) => Some(text)
    case Many(items) => Some(Join(Printable(items), ","))
    case Unprintable => None
  }

  /** dict[name] = value: an existing name keeps its place. */
  function Put(headers: Headers, name: string, value: string): Headers {
    if headers == [] then [Header(name, value)]
    else if headers[0].name == name then [Header(name, value)] + headers[1..]
    else [headers[0]] + Put(headers[1..], name, value)
  }

  function PutRaw(headers: Headers, raw: RawHeader): Headers {
    var name, value := RenderedName(raw.name), RenderedValue(raw.value);
    if name.Some? && value.Some? then Put(headers, name.value, value.value) else headers
  }

  function PutAll(headers: Headers, raw: seq<RawHeader>): Headers
    decreases |raw|
  {
    if raw == [] then headers else PutAll(PutRaw(headers, raw[0]), raw[1..])
  }

  /** _normalise_headers. */
  method NormaliseHeaders(raw: seq<RawHeader>) returns (normalised: Headers)
    ensures normalised == PutAll([], raw)
  {
    normalised := [];
    assert raw[0..] == raw;
    for i := 0 to |raw|
      invariant PutAll(normalised, raw[i..]) == PutAll([], raw)
    {
      assert raw[i..][0] == raw[i] && raw[i..][1..] == raw[i + 1..];
      if raw[i].value.Null? {
        continue;
      }
      var name := RenderedName(raw[i].name);
      if name.None? {
        continue;
      }
      var value := RenderedValue(raw[i].value);
      if value.None? {
        continue;
      }
      normalised := Put(normalised, name.value, value.value);
    }
  }

  function AsReceived(headers: Headers): seq<RawHeader> {
    seq(|headers|, i requires 0 <= i < |headers| => RawHeader(Some(headers[i].name), Text(headers[i].value)))
  }

  /** First header whose name matches under the given folding. */
  function LookUp(headers: Headers, fold: string -> string, name: string): Option<string> {
    if headers == [] then None
    else if fold(headers[0].name) == fold(name) then Some(headers[0].value)
    else LookUp(headers[1..], fold, name)
  }

  // ---------------------------------------------------------------- the envelope

  /** What is known about the message body besides its bytes. */
  datatype Presence = Presence(present: bool, omitted: bool, omittedReason: Option<string>,
                               originalSize: Option<int>, sizeHeaderMalformed: bool)

  datatype Envelope = Envelope(
    subject: string, data: seq<byte>, headers: Headers,
    stream: Option<string>, streamSequence: Option<int>, messageId: Option<string>,
    priority: Option<string>, classification: Option<string>, presence: Presence)

  /** normalise_metadata_value on text. */
  function NormaliseMetadata(value: Option<string>): Option<string> {
    if value.Some? && Strip(value.value) != "" then Some(Strip(value.value)) else None
  }

  function Or(value: Option<string>, default: Option<string>): Option<string> {
    if value.Some? && value.value != "" then value else default
  }

  /** _parse_nats_msg_size: the size, and whether the header is malformed. */
  function ParseMsgSize(lib: Library, header: Option<string>): (Option<int>, bool) {
    if header.None? then (None, false)
    else
      var size := lib.parseInt(Strip(header.value));
      if size.None? || size.value < 0 then (None, true) else (size, false)
  }

  function SizeHeader(lib: Library, headers: Headers): Option<string> {
    LookUp(headers, lib.casefold, "Nats-Msg-Size")
  }

  /** The message has no bytes and a readable size header. */
  predicate HeadersOnly(lib: Library, sizeHeader: Option<string>, dataSize: nat) {
    dataSize == 0 && ParseMsgSize(lib, sizeHeader).0.Some?
  }

  /** The presence fields an envelope ends up with, case by case. */
  function SettledPresence(parsed: Option<int>, malformed: bool, reason: Option<string>, dataSize: nat, p: Presence)
    : Presence
  {
    var headersOnly := dataSize == 0 && parsed.Some?;
    var omitted := p.omitted || headersOnly;
    var negative := p.originalSize.Some? && p.originalSize.value < 0;
    Presence(
      present := p.present && !omitted,
      omitted := omitted,
      omittedReason := if omitted then Or(reason, Some("headers_only")) else if p.present then None else reason,
      originalSize := if headersOnly then parsed
                      else if p.originalSize.Some? && !negative then p.originalSize
                      else Some(parsed.GetOr(dataSize)),
      sizeHeaderMalformed := p.sizeHeaderMalformed || malformed || negative)
  }

  function NormalPresence(lib: Library, sizeHeader: Option<string>, dataSize: nat, p: Presence): Presence {
    var (parsed, malformed) := ParseMsgSize(lib, sizeHeader);
    PresenceBy(NormaliseMetadata, parsed, malformed, dataSize, p)
  }

  function PresenceBy(normalise: Option<string> -> Option<string>, parsed: Option<int>, malformed: bool,
                      dataSize: nat, p: Presence)
    : Presence
  {
    SettledPresence(parsed, malformed, normalise(p.omittedReason), dataSize, p)
  }

  /** _normalize_payload_presence, after the size header has been parsed. */
  method NormalizePayloadPresence(parsed: Option<int>, malformed: bool, normalisedReason: Option<string>,
                                  dataSize: nat, p: Presence)
    returns (r: Presence)
    ensures r == SettledPresence(parsed, malformed, normalisedReason, dataSize, p)
  {
    var present, omitted, reason, size := p.present, p.omitted, normalisedReason, p.originalSize;
    var headerMalformed := p.sizeHeaderMalformed || malformed;
    if size.Some? && size.value < 0 {
      size := None;
      headerMalformed := true;
    }
    if parsed.Some? && dataSize == 0 {
      present := false;
      omitted := true;
      reason := Or(reason, Some("headers_only"));
      size := parsed;
    } else if size.None? {
      size := if parsed.Some? then parsed else Some(dataSize);
    }
    if omitted {
      present := false;
      reason := Or(reason, Some("headers_only"));
    } else if present {
      reason := None;
    }
    r := Presence(present, omitted, reason, size, headerMalformed);
  }

  function DerivedMessageId(lib: Library, headers: Headers): Option<string> {
    Or(Or(LookUp(headers, lib.lower, "Nats-Msg-Id"), LookUp(headers, lib.lower, "Nats-Message-Id")),
       LookUp(headers, lib.lower, "message-id"))
  }

  /** __post_init__, for an envelope whose headers are normalised already. */
  function Normalised(lib: Library, e: Envelope): Envelope {
    e.(
      presence := NormalPresence(lib, SizeHeader(lib, e.headers), |e.data|, e.presence),
      messageId := if e.messageId.Some? then e.messageId else DerivedMessageId(lib, e.headers),
      priority := NormaliseMetadata(e.priority), classification := NormaliseMetadata(e.classification))
  }

  /** Construction from received headers. */
  function Construct(lib: Library, e: Envelope, received: seq<RawHeader>): Envelope {
    Normalised(lib, e.(headers := PutAll([], received)))
  }

  /** dataclasses.replace(envelope, data=...): everything is normalised again. */
  function ReplaceData(lib: Library, e: Envelope, data: seq<byte>): Envelope {
    Construct(lib, e.(data := data), AsReceived(e.headers))
  }

  // ---------------------------------------------------------------- keys

  function Digit(d: int): char
    requires 0 <= d < 10
  {
    "0123456789"[d]
  }

  function DecimalNat(n: nat): string {
    if n < 10 then [Digit(n)] else DecimalNat(n / 10) + [Digit(n % 10)]
  }

  /** str(int). */
  function Decimal(n: int): string {
    if n < 0 then "-" + DecimalNat(-n) else DecimalNat(n)
  }

  predicate Truthy(value: Option<string>) {
    value.Some? && value.value != ""
  }

  function StreamKey(stream: string, sequence: int): string {
    "stream-sequence:" + stream + ":" + Decimal(sequence)
  }

  function MessageKey(id: string): string {
    "message-id:" + id
  }

  function PayloadKey(lib: Library, e: Envelope): string {
    "payload-sha256:" + e.subject + ":" + lib.sha256Hex(e.data)
  }

  datatype KeyError = PayloadOmitted | StreamRequired | MessageIdRequired | KeyTooLong

  /** idempotency_key. */
  function IdempotencyKey(lib: Library, e: Envelope): Result<string, KeyError> {
    if Truthy(e.stream) && e.streamSequence.Some? then Success(StreamKey(e.stream.value, e.streamSequence.value))
    else if Truthy(e.messageId) then Success(MessageKey(e.messageId.value))
    else if e.presence.omitted then Failure(PayloadOmitted)
    else Success(PayloadKey(lib, e))
  }
}

module EnvelopeProofs {
  import opened Prelude
  import opened Text
  import opened Envelope

  // ---------------------------------------------------------------- headers

  predicate WellFormedName(name: string) {
    Stripped(name) && name != "" && !HasControl(name)
  }

  predicate WellFormed(headers: Headers) {
    && (forall h | h in headers :: WellFormedName(h.name))
    && forall i, j | 0 <= i < j < |headers| :: headers[i].name != headers[j].name
  }

  predicate Unused(headers: Headers, name: string) {
    forall i | 0 <= i < |headers| :: headers[i].name != name
  }

  lemma {:induction false} PutUnused(headers: Headers, name: string, value: string)
    requires Unused(headers, name)
    ensures Put(headers, name, value) == headers + [Header(name, value)]
  {
    if headers != [] {
      PutUnused(headers[1..], name, value);
    }
  }

  lemma {:induction false} PutKeepsNames(headers: Headers, name: string, value: string)
    ensures var r := Put(headers, name, value);
      && |headers| <= |r| <= |headers| + 1
      && (forall i | 0 <= i < |headers| :: r[i].name == headers[i].name)
      && (|r| == |headers| + 1 ==> r[|headers|].name == name && Unused(headers, name))
  {
    if headers != [] && headers[0].name != name {
      PutKeepsNames(headers[1..], name, value);
    }
  }

  lemma PutWellFormed(headers: Headers, name: string, value: string)
    requires WellFormed(headers) && WellFormedName(name)
    ensures WellFormed(Put(headers, name, value))
  {
    PutKeepsNames(headers, name, value);
    var r := Put(headers, name, value);
    forall i | 0 <= i < |r|
      ensures WellFormedName(r[i].name)
    {
      if i < |headers| {
        assert headers[i] in headers;
      }
    }
  }

  lemma {:induction false} PutAllWellFormed(headers: Headers, raw: seq<RawHeader>)
    requires WellFormed(headers)
    ensures WellFormed(PutAll(headers, raw))
    decreases |raw|
  {
    if raw != [] {
      var name, value := RenderedName(raw[0].name), RenderedValue(raw[0].value);
      if name.Some? && value.Some? {
        PutWellFormed(headers, name.value, value.value);
      }
      PutAllWellFormed(PutRaw(headers, raw[0]), raw[1..]);
    }
  }

  lemma PutRawBack(headers: Headers, h: Header)
    requires WellFormedName(h.name) && Unused(headers, h.name)
    ensures PutRaw(headers, RawHeader(Some(h.name), Text(h.value))) == headers + [h]
  {
    StripFixes(h.name);
    PutUnused(headers, h.name, h.value);
  }

  lemma PutBackNext(headers: Headers, i: nat)
    requires WellFormed(headers) && i < |headers|
    ensures PutAll(headers[..i], AsReceived(headers[i..])) == PutAll(headers[..i + 1], AsReceived(headers[i + 1..]))
  {
    var rest := AsReceived(headers[i..]);
    assert headers[i] in headers && headers[..i] + [headers[i]] == headers[..i + 1];
    PutRawBack(headers[..i], headers[i]);
    assert rest[1..] == AsReceived(headers[i + 1..]);
  }

  lemma {:induction false} PutBack(headers: Headers, i: nat)
    requires WellFormed(headers) && i <= |headers|
    ensures PutAll(headers[..i], AsReceived(headers[i..])) == headers
    decreases |headers| - i
  {
    if i < |headers| {
      PutBackNext(headers, i);
      PutBack(headers, i + 1);
    } else {
      assert AsReceived(headers[i..]) == [] && headers[..i] == headers;
    }
  }

  /** Normalising headers a second time changes nothing, not even their order. */
  lemma HeadersNormaliseOnce(raw: seq<RawHeader>)
    ensures PutAll([], AsReceived(PutAll([], raw))) == PutAll([], raw)
  {
    var headers := PutAll([], raw);
    PutAllWellFormed([], raw);
    assert headers[..0] == [] && headers[0..] == headers;
    PutBack(headers, 0);
  }

  // ---------------------------------------------------------------- presence

  lemma MetadataNormalisesOnce(value: Option<string>)
    ensures NormaliseMetadata(NormaliseMetadata(value)) == NormaliseMetadata(value)
  {
    if value.Some? {
      StripFixes(Strip(value.value));
    }
  }

  /** What construction guarantees about the presence fields. */
  lemma PresenceIsConsistent(lib: Library, e: Envelope, received: seq<RawHeader>)
    ensures var n := Construct(lib, e, received);
      var p := n.presence;
      && (p.omitted ==> !p.present && Truthy(p.omittedReason))
      && (p.present ==> p.omittedReason.None?)
      && p.originalSize.Some? && p.originalSize.value >= 0
      && (HeadersOnly(lib, SizeHeader(lib, n.headers), |n.data|) ==> p.omitted)
  {
  }

  /** The marker for messages without a body is a reason like any other. */
  ghost predicate KeepsMarker(normalise: Option<string> -> Option<string>) {
    normalise(None) == None && normalise(Some("headers_only")) == Some("headers_only")
  }

  /** Settling twice is settling once, for any idempotent way of normalising the reason that keeps the marker. */
  lemma PresenceSettlesOnce(normalise: Option<string> -> Option<string>, parsed: Option<int>, malformed: bool,
                            dataSize: nat, later: nat, p: Presence)
    requires later > 0 || later == dataSize
    requires parsed.Some? ==> parsed.value >= 0
    requires normalise(normalise(p.omittedReason)) == normalise(p.omittedReason) && KeepsMarker(normalise)
    ensures var n := PresenceBy(normalise, parsed, malformed, dataSize, p);
      PresenceBy(normalise, parsed, malformed, later, n) == n
  {
  }

  lemma MetadataKeepsMarker()
    ensures KeepsMarker(NormaliseMetadata)
  {
    StrippedIsNormal("headers_only");
  }

  /** A second pass changes nothing, even if bytes have appeared in between. */
  lemma PresenceNormalisesOnce(lib: Library, sizeHeader: Option<string>, dataSize: nat, later: nat, p: Presence)
    requires later > 0 || later == dataSize
    ensures var n := NormalPresence(lib, sizeHeader, dataSize, p); NormalPresence(lib, sizeHeader, later, n) == n
  {
    var (parsed, malformed) := ParseMsgSize(lib, sizeHeader);
    SizeIsNatural(lib, sizeHeader);
    MetadataSettlesOnce(parsed, malformed, dataSize, later, p);
  }

  lemma SizeIsNatural(lib: Library, sizeHeader: Option<string>)
    ensures var parsed := ParseMsgSize(lib, sizeHeader).0; parsed.Some? ==> parsed.value >= 0
  {
  }

  lemma MetadataSettlesOnce(parsed: Option<int>, malformed: bool, dataSize: nat, later: nat, p: Presence)
    requires later > 0 || later == dataSize
    requires parsed.Some? ==> parsed.value >= 0
    ensures var n := PresenceBy(NormaliseMetadata, parsed, malformed, dataSize, p);
      PresenceBy(NormaliseMetadata, parsed, malformed, later, n) == n
  {
    MetadataNormalisesOnce(p.omittedReason);
    MetadataKeepsMarker();
    PresenceSettlesOnce(NormaliseMetadata, parsed, malformed, dataSize, later, p);
  }

  lemma StrippedIsNormal(text: string)
    requires Stripped(text) && text != ""
    ensures NormaliseMetadata(Some(text)) == Some(text)
  {
    StripFixes(text);
  }

  /** Re-normalising with new, non-empty bytes changes those bytes and nothing else. */
  lemma ReplaceKeepsTheRest(lib: Library, e: Envelope, received: seq<RawHeader>, data: seq<byte>)
    requires data != [] || data == e.data
    ensures var n := Construct(lib, e, received); ReplaceData(lib, n, data) == n.(data := data)
  {
    HeadersNormaliseOnce(received);
    var headers := PutAll([], received);
    PresenceNormalisesOnce(lib, SizeHeader(lib, headers), |e.data|, |data|, e.presence);
    MetadataNormalisesOnce(e.priority);
    MetadataNormalisesOnce(e.classification);
  }

  /** A message without bytes keeps being reported as omitted, whatever bytes a transformer puts in its place. */
  lemma OmittedNeverGainsPayloadKey(lib: Library, e: Envelope, received: seq<RawHeader>, data: seq<byte>)
    requires Construct(lib, e, received).presence.omitted && data != []
    ensures var n := Construct(lib, e, received);
      var r := ReplaceData(lib, n, data);
      && r.presence == n.presence && IdempotencyKey(lib, r) == IdempotencyKey(lib, n)
      && (IdempotencyKey(lib, r).Success? ==> Truthy(n.messageId) || (Truthy(n.stream) && n.streamSequence.Some?))
  {
    ReplaceKeepsTheRest(lib, e, received, data);
  }

  /** Replacing the bytes keeps the key exactly when the key does not come from the bytes. */
  lemma KeySurvivesReplacement(lib: Library, e: Envelope, received: seq<RawHeader>, data: seq<byte>)
    requires data != []
    ensures var n := Construct(lib, e, received);
      IdempotencyKey(lib, ReplaceData(lib, n, data)) == IdempotencyKey(lib, n) <==>
        || (Truthy(n.stream) && n.streamSequence.Some?) || Truthy(n.messageId) || n.presence.omitted
        || lib.sha256Hex(data) == lib.sha256Hex(n.data)
  {
    ReplaceKeepsTheRest(lib, e, received, data);
    var n := Construct(lib, e, received);
    var prefix := "payload-sha256:" + n.subject + ":";
    assert PayloadKey(lib, n) == prefix + lib.sha256Hex(n.data);
    assert PayloadKey(lib, n.(data := data)) == prefix + lib.sha256Hex(data);
    assert PayloadKey(lib, n)[|prefix|..] == lib.sha256Hex(n.data);
    assert PayloadKey(lib, n.(data := data))[|prefix|..] == lib.sha256Hex(data);
  }
}
