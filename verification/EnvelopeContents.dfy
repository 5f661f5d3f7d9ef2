/** What a constructed envelope holds, read off what was received. */
module EnvelopeContents {
  import opened Prelude
  import opened Text
  import opened Envelope
  import EnvelopeProofs

  // ---------------------------------------------------------------- headers

  /** The received header counts under this name: stripped, not empty, without control characters. */
  predicate Named(raw: RawHeader, name: string) {
    && raw.name.Some? && name == Strip(raw.name.value) && name != ""
    && forall c | c in name :: !(c as int <= 31 || c as int == 127)
  }

  /** A list counts by its printable items, anything else as its text; None and the unprintable do not count. */
  predicate Valued(raw: RawHeader) {
    raw.value.Text? || raw.value.Many?
  }

  function ValueOf(raw: RawHeader): string
    requires Valued(raw)
  {
    if raw.value.Text? then raw.value.text else Join(Printable(raw.value.items), ",")
  }

  predicate Counts(raw: RawHeader, name: string) {
    Named(raw, name) && Valued(raw)
  }

  /** The received header counts as h. */
  predicate CountsAs(raw: RawHeader, h: Header) {
    Counts(raw, h.name) && ValueOf(raw) == h.value
  }

  /** What a received header adds, if anything. */
  function EventOf(raw: RawHeader): Option<Header> {
    var name, value := RenderedName(raw.name), RenderedValue(raw.value);
    if name.Some? && value.Some? then Some(Header(name.value, value.value)) else None
  }

  function Events(raw: seq<RawHeader>): seq<Option<Header>> {
    seq(|raw|, i requires 0 <= i < |raw| => EventOf(raw[i]))
  }

  function PutEvent(headers: Headers, event: Option<Header>): Headers {
    if event.Some? then Put(headers, event.value.name, event.value.value) else headers
  }

  function PutEvents(events: seq<Option<Header>>): Headers {
    if events == [] then []
    else PutEvent(PutEvents(events[..|events| - 1]), events[|events| - 1])
  }

  lemma NamedExactly(raw: RawHeader, name: string)
    ensures Named(raw, name) <==> RenderedName(raw.name) == Some(name)
  {
  }

  lemma ValuedExactly(raw: RawHeader)
    ensures RenderedValue(raw.value) == if Valued(raw) then Some(ValueOf(raw)) else None
  {
  }

  lemma CountsExactly(raw: RawHeader, h: Header)
    ensures CountsAs(raw, h) <==> EventOf(raw) == Some(h)
  {
    NamedExactly(raw, h.name);
    ValuedExactly(raw);
  }

  lemma {:induction false} PutAllSnoc(headers: Headers, raw: seq<RawHeader>, last: RawHeader)
    ensures PutAll(headers, raw + [last]) == PutRaw(PutAll(headers, raw), last)
    decreases |raw|
  {
    if raw == [] {
      assert (raw + [last])[1..] == [];
    } else {
      assert (raw + [last])[0] == raw[0] && (raw + [last])[1..] == raw[1..] + [last];
      PutAllSnoc(PutRaw(headers, raw[0]), raw[1..], last);
    }
  }

  lemma {:induction false} PutAllPutsEvents(raw: seq<RawHeader>)
    ensures PutAll([], raw) == PutEvents(Events(raw))
    decreases |raw|
  {
    if raw != [] {
      var front, last := raw[..|raw| - 1], raw[|raw| - 1];
      assert raw == front + [last] && Events(raw)[..|raw| - 1] == Events(front);
      PutAllPutsEvents(front);
      PutAllSnoc([], front, last);
    }
  }

  // ---------------------------------------------------------------- what the dictionary holds

  predicate Distinct(headers: Headers) {
    forall i, j | 0 <= i < j < |headers| :: headers[i].name != headers[j].name
  }

  lemma {:induction false} PutOnto(headers: Headers, name: string, value: string, k: nat)
    requires k < |headers| && headers[k].name == name && forall j | 0 <= j < k :: headers[j].name != name
    ensures Put(headers, name, value) == headers[..k] + [Header(name, value)] + headers[k + 1..]
  {
    if k > 0 {
      var rest := headers[1..];
      PutOnto(rest, name, value, k - 1);
      assert [headers[0]] + rest[..k - 1] == headers[..k] && rest[k..] == headers[k + 1..];
      assert [headers[0]] + (rest[..k - 1] + [Header(name, value)] + rest[k..])
          == [headers[0]] + rest[..k - 1] + [Header(name, value)] + rest[k..];
    }
  }

  /** Where a header lands: on the one of its name, or at the end. */
  lemma PutAt(headers: Headers, name: string, value: string) returns (k: nat)
    requires Distinct(headers)
    ensures k <= |headers| && forall j | 0 <= j < |headers| && j != k :: headers[j].name != name
    ensures Put(headers, name, value) ==
            if k < |headers| then headers[k := Header(name, value)] else headers + [Header(name, value)]
    ensures k < |headers| ==> headers[k].name == name
  {
    k := 0;
    while k < |headers| && headers[k].name != name
      invariant k <= |headers| && forall j | 0 <= j < k :: headers[j].name != name
    {
      k := k + 1;
    }
    if k < |headers| {
      PutOnto(headers, name, value, k);
      assert headers[k := Header(name, value)] == headers[..k] + [Header(name, value)] + headers[k + 1..];
    } else {
      EnvelopeProofs.PutUnused(headers, name, value);
    }
  }

  lemma PutIsDistinct(headers: Headers, name: string, value: string)
    requires Distinct(headers)
    ensures Distinct(Put(headers, name, value))
  {
    var k := PutAt(headers, name, value);
  }

  lemma PutHolds(headers: Headers, name: string, value: string, h: Header)
    requires Distinct(headers)
    ensures h in Put(headers, name, value) <==> if h.name == name then h.value == value else h in headers
  {
    var k := PutAt(headers, name, value);
    var next := Put(headers, name, value);
    assert next[k] == Header(name, value);
    if h in headers && h.name != name {
      var j :| 0 <= j < |headers| && headers[j] == h;
      assert next[j] == h;
    }
  }

  predicate IsFor(event: Option<Header>, name: string) {
    event.Some? && event.value.name == name
  }

  /** h is the last event for its name. */
  predicate LastEvent(events: seq<Option<Header>>, h: Header) {
    exists k | 0 <= k < |events| :: events[k] == Some(h) && forall j | k < j < |events| :: !IsFor(events[j], h.name)
  }

  lemma LastEventNext(events: seq<Option<Header>>, last: Option<Header>, h: Header)
    ensures LastEvent(events + [last], h) <==> if IsFor(last, h.name) then last == Some(h) else LastEvent(events, h)
  {
    var all := events + [last];
    assert all[|events|] == last && forall j | 0 <= j < |events| :: all[j] == events[j];
    if LastEvent(events, h) {
      var k :| 0 <= k < |events| && events[k] == Some(h) && forall j | k < j < |events| :: !IsFor(events[j], h.name);
      assert all[k] == Some(h);
    }
  }

  lemma {:induction false} DictionaryHolds(events: seq<Option<Header>>, h: Header)
    ensures Distinct(PutEvents(events)) && (h in PutEvents(events) <==> LastEvent(events, h))
    decreases |events|
  {
    if events != [] {
      var front, last := events[..|events| - 1], events[|events| - 1];
      assert events == front + [last];
      DictionaryHolds(front, h);
      LastEventNext(front, last, h);
      if last.Some? {
        PutIsDistinct(PutEvents(front), last.value.name, last.value.value);
        PutHolds(PutEvents(front), last.value.name, last.value.value, h);
      }
    }
  }

  predicate SeenBefore(events: seq<Option<Header>>, b: nat, name: string)
    requires b <= |events|
  {
    exists a | 0 <= a < b :: IsFor(events[a], name)
  }

  /** Headers stand in the order of the first events for their names. */
  predicate FirstEventOrder(headers: Headers, events: seq<Option<Header>>) {
    forall i, j, b | 0 <= i < j < |headers| && 0 <= b < |events| && IsFor(events[b], headers[j].name) ::
      SeenBefore(events, b, headers[i].name)
  }

  lemma SeenStill(front: seq<Option<Header>>, last: Option<Header>, b: nat, name: string)
    requires b <= |front| && SeenBefore(front, b, name)
    ensures SeenBefore(front + [last], b, name)
  {
    var a :| 0 <= a < b && IsFor(front[a], name);
    assert (front + [last])[a] == front[a];
  }

  lemma NameHasEvent(events: seq<Option<Header>>, k: nat) returns (b: nat)
    requires k < |PutEvents(events)|
    ensures b < |events| && IsFor(events[b], PutEvents(events)[k].name)
  {
    var h := PutEvents(events)[k];
    DictionaryHolds(events, h);
    b :| 0 <= b < |events| && events[b] == Some(h) && forall j | b < j < |events| :: !IsFor(events[j], h.name);
  }

  lemma EventHasName(events: seq<Option<Header>>, b: nat, name: string) returns (k: nat)
    requires b < |events| && IsFor(events[b], name)
    ensures k < |PutEvents(events)| && PutEvents(events)[k].name == name
  {
    var last := |events| - 1;
    while !IsFor(events[last], name)
      invariant b <= last < |events| && forall j | last < j < |events| :: !IsFor(events[j], name)
      decreases last
    {
      last := last - 1;
    }
    var h := events[last].value;
    assert events[last] == Some(h);
    DictionaryHolds(events, h);
    k :| 0 <= k < |PutEvents(events)| && PutEvents(events)[k] == h;
  }

  lemma EarlierEvent(front: seq<Option<Header>>, before: Headers, i: nat, name: string, b: nat)
    requires before == PutEvents(front) && FirstEventOrder(before, front) && Distinct(before)
    requires i < |before| && b < |front| && IsFor(front[b], name)
    requires forall m | 0 <= m <= i :: before[m].name != name
    ensures SeenBefore(front, b, before[i].name)
  {
    var m := EventHasName(front, b, name);
    assert i < m;
  }

  lemma OrderStep(front: seq<Option<Header>>, last: Header, i: nat, j: nat, b: nat)
    requires FirstEventOrder(PutEvents(front), front) && i < j < |Put(PutEvents(front), last.name, last.value)|
    requires b <= |front| && IsFor((front + [Some(last)])[b], Put(PutEvents(front), last.name, last.value)[j].name)
    ensures SeenBefore(front + [Some(last)], b, Put(PutEvents(front), last.name, last.value)[i].name)
  {
    var before, after := PutEvents(front), Put(PutEvents(front), last.name, last.value);
    DictionaryHolds(front, Header("", ""));
    PutIsDistinct(before, last.name, last.value);
    var k := PutAt(before, last.name, last.value);
    assert i < |before| && after[i].name == before[i].name;
    if b < |front| {
      assert forall m | 0 <= m <= i :: before[m].name == after[m].name;
      EarlierEvent(front, before, i, after[j].name, b);
    } else {
      var a := NameHasEvent(front, i);
      assert SeenBefore(front, b, before[i].name);
    }
    SeenStill(front, Some(last), b, before[i].name);
  }

  lemma {:induction false} DictionaryKeepsOrder(events: seq<Option<Header>>)
    ensures FirstEventOrder(PutEvents(events), events)
    decreases |events|
  {
    if events != [] {
      var front, last := events[..|events| - 1], events[|events| - 1];
      assert events == front + [last];
      DictionaryKeepsOrder(front);
      if last.None? {
        forall i, j, b | 0 <= i < j < |PutEvents(front)| && 0 <= b < |events|
                         && IsFor(events[b], PutEvents(front)[j].name)
          ensures SeenBefore(events, b, PutEvents(front)[i].name)
        {
          assert events[b] == front[b];
          SeenStill(front, last, b, PutEvents(front)[i].name);
        }
      } else {
        forall i, j, b | 0 <= i < j < |PutEvents(events)| && 0 <= b < |events|
                         && IsFor(events[b], PutEvents(events)[j].name)
          ensures SeenBefore(events, b, PutEvents(events)[i].name)
        {
          OrderStep(front, last.value, i, j, b);
        }
      }
    }
  }

  lemma EventAt(raw: seq<RawHeader>, h: Header, k: nat)
    requires k < |raw|
    ensures Events(raw)[k] == Some(h) <==> CountsAs(raw[k], h)
    ensures IsFor(Events(raw)[k], h.name) <==> Counts(raw[k], h.name)
  {
    CountsExactly(raw[k], h);
    if Valued(raw[k]) {
      CountsExactly(raw[k], Header(h.name, ValueOf(raw[k])));
    }
    if EventOf(raw[k]).Some? {
      CountsExactly(raw[k], EventOf(raw[k]).value);
    }
  }

  /** Received header k is the last to count under the name, and it counts as h. */
  ghost predicate LastCounts(raw: seq<RawHeader>, h: Header, k: nat) {
    k < |raw| && CountsAs(raw[k], h) && forall j | k < j < |raw| :: !Counts(raw[j], h.name)
  }

  lemma LastEventCounts(raw: seq<RawHeader>, h: Header, k: nat)
    requires k < |raw| && Events(raw)[k] == Some(h) && forall j | k < j < |raw| :: !IsFor(Events(raw)[j], h.name)
    ensures LastCounts(raw, h, k)
  {
    EventAt(raw, h, k);
    forall j | k < j < |raw|
      ensures !Counts(raw[j], h.name)
    {
      EventAt(raw, h, j);
    }
  }

  lemma LastCountIsEvent(raw: seq<RawHeader>, h: Header, k: nat)
    requires LastCounts(raw, h, k)
    ensures LastEvent(Events(raw), h)
  {
    EventAt(raw, h, k);
    forall j | k < j < |raw|
      ensures !IsFor(Events(raw)[j], h.name)
    {
      EventAt(raw, h, j);
    }
  }

  /** Each name has exactly one header, with the value received last for it. */
  lemma HeadersHoldExactly(raw: seq<RawHeader>, h: Header)
    ensures Distinct(PutAll([], raw)) && (h in PutAll([], raw) <==> exists k: nat :: LastCounts(raw, h, k))
  {
    PutAllPutsEvents(raw);
    DictionaryHolds(Events(raw), h);
    if LastEvent(Events(raw), h) {
      var k :| 0 <= k < |raw| && Events(raw)[k] == Some(h)
               && forall j | k < j < |raw| :: !IsFor(Events(raw)[j], h.name);
      LastEventCounts(raw, h, k);
    }
    if k: nat :| LastCounts(raw, h, k) {
      LastCountIsEvent(raw, h, k);
    }
  }

  /** Headers stand in the order in which their names were received first. */
  lemma HeadersKeepOrder(raw: seq<RawHeader>, i: nat, j: nat, b: nat)
    requires i < j < |PutAll([], raw)| && b < |raw| && Counts(raw[b], PutAll([], raw)[j].name)
    ensures exists a | 0 <= a < b :: Counts(raw[a], PutAll([], raw)[i].name)
  {
    var headers, events := PutAll([], raw), Events(raw);
    PutAllPutsEvents(raw);
    DictionaryKeepsOrder(events);
    EventAt(raw, headers[j], b);
    assert SeenBefore(events, b, headers[i].name);
    var a :| 0 <= a < b && IsFor(events[a], headers[i].name);
    EventAt(raw, headers[i], a);
  }

  function Printables(items: seq<string>): seq<Option<string>> {
    seq(|items|, i requires 0 <= i < |items| => Some(items[i]))
  }

  lemma {:induction false} PrintablesArePrinted(items: seq<string>)
    ensures Printable(Printables(items)) == items
  {
    if items != [] {
      assert Printables(items)[1..] == Printables(items[1..]);
      PrintablesArePrinted(items[1..]);
    }
  }

  /** A list of items without commas can be told from its header value. */
  lemma ListReadsBack(name: Option<string>, items: seq<string>)
    requires items != [] && forall item | item in items :: ',' !in item
    ensures var raw := RawHeader(name, Many(Printables(items))); Valued(raw) && Split(ValueOf(raw), ',') == items
  {
    PrintablesArePrinted(items);
    SplitOfJoin(items, ',');
    assert [','] == ",";
  }

  /** Items that cannot be printed are left out. */
  lemma {:induction false} UnprintableIsLeftOut(before: seq<Option<string>>, after: seq<Option<string>>)
    ensures Printable(before + [None] + after) == Printable(before + after)
  {
    if before == [] {
      assert (before + [None] + after)[1..] == after && before + after == after;
    } else {
      assert (before + [None] + after)[1..] == before[1..] + [None] + after;
      assert (before + after)[1..] == before[1..] + after;
      UnprintableIsLeftOut(before[1..], after);
    }
  }

  // ---------------------------------------------------------------- looking headers up

  /** The first header whose name is the wanted one up to case has this value. */
  ghost predicate FirstOfCase(headers: Headers, fold: string -> string, name: string, value: string) {
    exists k | 0 <= k < |headers| ::
      && fold(headers[k].name) == fold(name) && headers[k].value == value
      && forall j | 0 <= j < k :: fold(headers[j].name) != fold(name)
  }

  lemma {:induction false} LooksUpExactly(headers: Headers, fold: string -> string, name: string, value: string)
    ensures LookUp(headers, fold, name) == Some(value) <==> FirstOfCase(headers, fold, name, value)
  {
    if headers != [] {
      var rest := headers[1..];
      LooksUpExactly(rest, fold, name, value);
      assert forall k | 0 < k < |headers| :: headers[k] == rest[k - 1];
      if fold(headers[0].name) != fold(name) {
        if FirstOfCase(rest, fold, name, value) {
          var k :| 0 <= k < |rest| && fold(rest[k].name) == fold(name) && rest[k].value == value
            && forall j | 0 <= j < k :: fold(rest[j].name) != fold(name);
          assert headers[k + 1] == rest[k];
        }
        if FirstOfCase(headers, fold, name, value) {
          var k :| 0 <= k < |headers| && fold(headers[k].name) == fold(name) && headers[k].value == value
            && forall j | 0 <= j < k :: fold(headers[j].name) != fold(name);
          assert headers[k] == rest[k - 1] && forall j | 0 <= j < k - 1 :: rest[j] == headers[j + 1];
        }
      }
    }
  }

  // ---------------------------------------------------------------- presence

  /** The size header, the first one of that name up to case, reads as this size. */
  ghost predicate StatesSize(lib: Library, headers: Headers, size: int) {
    exists text :: FirstOfCase(headers, lib.casefold, "Nats-Msg-Size", text) && ReadsAs(lib, text, size)
  }

  predicate ReadsAs(lib: Library, text: string, size: int) {
    lib.parseInt(Strip(text)) == Some(size) && size >= 0
  }

  ghost predicate HasSizeHeader(lib: Library, headers: Headers) {
    exists text :: FirstOfCase(headers, lib.casefold, "Nats-Msg-Size", text)
  }

  lemma FirstOfCaseIs(headers: Headers, fold: string -> string, name: string, good: string -> bool)
    ensures (exists text :: FirstOfCase(headers, fold, name, text) && good(text)) <==>
            LookUp(headers, fold, name).Some? && good(LookUp(headers, fold, name).value)
  {
    if LookUp(headers, fold, name).Some? {
      LooksUpExactly(headers, fold, name, LookUp(headers, fold, name).value);
    }
    if text :| FirstOfCase(headers, fold, name, text) && good(text) {
      LooksUpExactly(headers, fold, name, text);
    }
  }

  lemma ParsedReads(lib: Library, text: string, size: int)
    ensures ReadsAs(lib, text, size) <==> ParseMsgSize(lib, Some(text)).0 == Some(size)
  {
  }

  lemma StatesWhatIsRead(lib: Library, headers: Headers, size: int)
    ensures StatesSize(lib, headers, size) <==> ParseMsgSize(lib, SizeHeader(lib, headers)).0 == Some(size)
  {
    FirstOfCaseIs(headers, lib.casefold, "Nats-Msg-Size", text => ReadsAs(lib, text, size));
    if SizeHeader(lib, headers).Some? {
      ParsedReads(lib, SizeHeader(lib, headers).value, size);
    }
  }

  lemma MalformedIsUnread(lib: Library, headers: Headers)
    ensures HasSizeHeader(lib, headers) <==> SizeHeader(lib, headers).Some?
    ensures ParseMsgSize(lib, SizeHeader(lib, headers)).1 <==>
      SizeHeader(lib, headers).Some? && ParseMsgSize(lib, SizeHeader(lib, headers)).0.None?
  {
    if SizeHeader(lib, headers).Some? {
      LooksUpExactly(headers, lib.casefold, "Nats-Msg-Size", SizeHeader(lib, headers).value);
    }
    if text :| FirstOfCase(headers, lib.casefold, "Nats-Msg-Size", text) {
      LooksUpExactly(headers, lib.casefold, "Nats-Msg-Size", text);
    }
  }

  /** stated is the size the headers state, if they state one. */
  ghost predicate Stated(lib: Library, headers: Headers, stated: Option<int>) {
    if stated.Some? then StatesSize(lib, headers, stated.value) else forall size :: !StatesSize(lib, headers, size)
  }

  lemma StatedIsParsed(lib: Library, headers: Headers, stated: Option<int>)
    requires Stated(lib, headers, stated)
    ensures ParseMsgSize(lib, SizeHeader(lib, headers)) == (stated, stated.None? && HasSizeHeader(lib, headers))
  {
    MalformedIsUnread(lib, headers);
    var parsed := ParseMsgSize(lib, SizeHeader(lib, headers)).0;
    if stated.Some? {
      StatesWhatIsRead(lib, headers, stated.value);
    } else if parsed.Some? {
      StatesWhatIsRead(lib, headers, parsed.value);
    }
  }

  /** The text without surrounding white space, unless nothing is left. */
  predicate Says(text: Option<string>, stripped: string) {
    text.Some? && stripped == Strip(text.value) && stripped != ""
  }

  /** What a reason given for leaving out the body comes to. */
  predicate ReasonIs(given: Option<string>, reason: Option<string>) {
    if reason.Some? then Says(given, reason.value) else given.None? || Strip(given.value) == ""
  }

  /**
   Every presence field of a constructed message, from the fields given, the size its headers state, if any, the
   reason given, if any, and its bytes.
   */
  lemma PresenceExactly(lib: Library, e: Envelope, received: seq<RawHeader>, stated: Option<int>,
                        reason: Option<string>)
    requires Stated(lib, PutAll([], received), stated) && ReasonIs(e.presence.omittedReason, reason)
    ensures var n, p := Construct(lib, e, received), Construct(lib, e, received).presence;
      var given, headersOnly := e.presence, e.data == [] && stated.Some?;
      && n.headers == PutAll([], received) && n.data == e.data
      && (p.omitted <==> given.omitted || headersOnly)
      && (p.present <==> given.present && !p.omitted)
      && p.originalSize ==
         (if headersOnly then stated
          else if given.originalSize.Some? && given.originalSize.value >= 0 then given.originalSize
          else if stated.Some? then stated
          else Some(|e.data|))
      && (p.sizeHeaderMalformed <==>
            || given.sizeHeaderMalformed || (given.originalSize.Some? && given.originalSize.value < 0)
            || (stated.None? && HasSizeHeader(lib, n.headers)))
      && p.omittedReason ==
         (if p.present then None
          else if reason.Some? then reason
          else if p.omitted then Some("headers_only")
          else None)
  {
    StatedIsParsed(lib, PutAll([], received), stated);
    ReasonIsNormal(e.presence.omittedReason, reason);
  }

  lemma ReasonIsNormal(given: Option<string>, reason: Option<string>)
    requires ReasonIs(given, reason)
    ensures NormaliseMetadata(given) == reason && reason != Some("")
  {
  }

  /** The message id is the given one, or the first of three headers that is not empty, or what the last of them is. */
  lemma MessageIdExactly(lib: Library, e: Envelope, received: seq<RawHeader>)
    ensures var n := Construct(lib, e, received);
      var first := LookUp(n.headers, lib.lower, "Nats-Msg-Id");
      var second := LookUp(n.headers, lib.lower, "Nats-Message-Id");
      && (e.messageId.Some? ==> n.messageId == e.messageId)
      && (e.messageId.None? ==>
            n.messageId ==
            if first.Some? && first.value != "" then first
            else if second.Some? && second.value != "" then second
            else LookUp(n.headers, lib.lower, "message-id"))
      && n.subject == e.subject && n.data == e.data && n.stream == e.stream && n.streamSequence == e.streamSequence
      && (forall text: string :: n.priority == Some(text) <==> Says(e.priority, text))
      && (forall text: string :: n.classification == Some(text) <==> Says(e.classification, text))
  {
  }
}
