/**
 The Acceptance Criteria checklist of an issue body: the writer
 (scripts/comment-backlog-issue.py), the release reader
 (scripts/close-released-backlog-issues.py) and the refresh
 (scripts/sync-backlog-issues.py).
 */
module Checklist {
  import opened Prelude
  import opened Text

  // ---------------------------------------------------------------- lines

  /** The characters str.splitlines breaks at. */
  predicate IsBreak(c: char) {
    var n := c as int;
    0x0A <= n <= 0x0D || 0x1C <= n <= 0x1E || n == 0x85 || n == 0x2028 || n == 0x2029
  }

  function LineLength(s: string): (n: nat)
    ensures n <= |s| && (n < |s| ==> IsBreak(s[n]))
    ensures forall i | 0 <= i < n :: !IsBreak(s[i])
  {
    if s == "" || IsBreak(s[0]) then 0 else 1 + LineLength(s[1..])
  }

  /** Where the line after the break at n starts; a carriage return followed by a line feed is one break. */
  function NextLine(s: string, n: nat): (next: nat)
    requires n < |s|
    ensures n < next <= |s|
  {
    if s[n] == '\r' && n + 1 < |s| && s[n + 1] == '\n' then n + 2 else n + 1
  }

  /** str.splitlines. */
  function SplitLines(s: string): seq<string>
    decreases |s|
  {
    if s == "" then []
    else
      var n := LineLength(s);
      if n == |s| then [s] else [s[..n]] + SplitLines(s[NextLine(s, n)..])
  }

  /** "\n".join(lines), ended by a line feed if the original body was. */
  function Render(lines: seq<string>, body: string): string {
    Join(lines, "\n") + if EndsWith(body, "\n") then "\n" else ""
  }

  // ---------------------------------------------------------------- items

  const UNCHECKED := "- [ ] "
  const CHECKED := "- [x] "

  /** What a line is to a scan: a section heading, an item with its text (and its checked form), or neither. */
  datatype Kind = Heading(acceptance: bool) | OpenItem(text: string, checked: string) | DoneItem(text: string) | Plain

  datatype Line = Line(content: string, kind: Kind)

  predicate IsHeading(line: string) {
    StartsWith(Strip(line), "## ")
  }

  /** Of the characters whose lower case is x there are two, so lower() makes no other difference to a marker. */
  function ItemKind(indent: string, item: string): Kind {
    if StartsWith(item, UNCHECKED) then OpenItem(item[6..], indent + CHECKED + item[6..])
    else if StartsWith(item, CHECKED) || StartsWith(item, "- [X] ") then DoneItem(item[6..])
    else Plain
  }

  function HeadingKind(line: string): Kind {
    Heading(Strip(line) == "## Acceptance Criteria")
  }

  function Indent(line: string): string {
    line[..|line| - |LStrip(line)|]
  }

  /** How the writer and the refresh look at a line: items are recognised after lstrip. */
  function KindOf(line: string): Kind {
    if IsHeading(line) then HeadingKind(line) else ItemKind(Indent(line), LStrip(line))
  }

  /** How the release reader looks at a line: items are recognised after strip. */
  function ReaderKindOf(line: string): Kind {
    if IsHeading(line) then HeadingKind(line) else ItemKind("", Strip(line))
  }

  function Classified(body: string): seq<Line> {
    var lines := SplitLines(body);
    seq(|lines|, i requires 0 <= i < |lines| => Line(lines[i], KindOf(lines[i])))
  }

  function Kinds(lines: seq<Line>): seq<Kind> {
    seq(|lines|, i requires 0 <= i < |lines| => lines[i].kind)
  }

  function ReaderKinds(body: string): seq<Kind> {
    var lines := SplitLines(body);
    seq(|lines|, i requires 0 <= i < |lines| => ReaderKindOf(lines[i]))
  }

  /** Whether a line leaves the scan inside the Acceptance Criteria section. */
  function Inside(before: bool, kind: Kind): bool {
    if kind.Heading? then kind.acceptance else before
  }

  // ---------------------------------------------------------------- writer

  function CompleteLine(inside: bool, line: Line): string {
    if inside && line.kind.OpenItem? then line.kind.checked else line.content
  }

  function CompleteLines(lines: seq<Line>, inside: bool): (r: seq<string>)
    ensures |r| == |lines|
  {
    if lines == [] then []
    else
      var now := Inside(inside, lines[0].kind);
      [CompleteLine(now, lines[0])] + CompleteLines(lines[1..], now)
  }

  predicate HasItem(kinds: seq<Kind>, inside: bool) {
    kinds != [] &&
    var now := Inside(inside, kinds[0]);
    (now && (kinds[0].OpenItem? || kinds[0].DoneItem?)) || HasItem(kinds[1..], now)
  }

  predicate HasOpenItem(kinds: seq<Kind>, inside: bool) {
    kinds != [] &&
    var now := Inside(inside, kinds[0]);
    (now && kinds[0].OpenItem?) || HasOpenItem(kinds[1..], now)
  }

  datatype NoItems = NoItems

  function Complete(body: string): Result<string, NoItems> {
    var lines := Classified(body);
    if !HasItem(Kinds(lines), false) then Failure(NoItems)
    else Success(if HasOpenItem(Kinds(lines), false) then Render(CompleteLines(lines, false), body) else body)
  }

  /** The loop of acceptance_checklist_complete. */
  method CompleteItems(lines: seq<Line>) returns (updated: seq<string>, sawItem: bool, changed: bool)
    ensures updated == CompleteLines(lines, false)
    ensures sawItem == HasItem(Kinds(lines), false) && changed == HasOpenItem(Kinds(lines), false)
  {
    var inside := false;
    updated, sawItem, changed := [], false, false;
    ghost var kinds := Kinds(lines);
    assert lines[0..] == lines && kinds[0..] == kinds;
    for i := 0 to |lines|
      invariant updated + CompleteLines(lines[i..], inside) == CompleteLines(lines, false)
      invariant sawItem || HasItem(kinds[i..], inside) <==> HasItem(kinds, false)
      invariant changed || HasOpenItem(kinds[i..], inside) <==> HasOpenItem(kinds, false)
    {
      var line := lines[i];
      CompleteNext(lines, i, inside, updated);
      if line.kind.Heading? {
        inside := line.kind.acceptance;
      }
      if inside && line.kind.OpenItem? {
        updated := updated + [line.kind.checked];
        sawItem := true;
        changed := true;
      } else {
        if inside && line.kind.DoneItem? {
          sawItem := true;
        }
        updated := updated + [line.content];
      }
    }
    assert lines[|lines|..] == [] && updated + [] == updated;
  }

  lemma CompleteNext(lines: seq<Line>, i: nat, inside: bool, updated: seq<string>)
    requires i < |lines|
    ensures var kinds := Kinds(lines);
      var now := Inside(inside, kinds[i]);
      && updated + CompleteLines(lines[i..], inside)
         == updated + [CompleteLine(now, lines[i])] + CompleteLines(lines[i + 1..], now)
      && HasItem(kinds[i..], inside)
          == ((now && (kinds[i].OpenItem? || kinds[i].DoneItem?)) || HasItem(kinds[i + 1..], now))
      && HasOpenItem(kinds[i..], inside) == ((now && kinds[i].OpenItem?) || HasOpenItem(kinds[i + 1..], now))
  {
    var kinds := Kinds(lines);
    assert lines[i..][0] == lines[i] && lines[i..][1..] == lines[i + 1..];
    assert kinds[i..][0] == kinds[i] && kinds[i..][1..] == kinds[i + 1..];
    var now := Inside(inside, kinds[i]);
    assert updated + ([CompleteLine(now, lines[i])] + CompleteLines(lines[i + 1..], now))
        == updated + [CompleteLine(now, lines[i])] + CompleteLines(lines[i + 1..], now);
  }

  /** acceptance_checklist_complete. */
  method CompleteChecklist(body: string) returns (result: Result<string, NoItems>)
    ensures result == Complete(body)
  {
    var updated, sawItem, changed := CompleteItems(Classified(body));
    if !sawItem {
      return Failure(NoItems);
    }
    result := Success(if changed then Render(updated, body) else body);
  }

  // ---------------------------------------------------------------- reader

  predicate Accepted(kinds: seq<Kind>, inside: bool, saw: bool) {
    if kinds == [] then saw
    else
      match kinds[0]
      case Heading(acceptance) => Accepted(kinds[1..], acceptance, saw)
      case OpenItem(_, _) => !inside && Accepted(kinds[1..], inside, saw)
      case DoneItem(_) => Accepted(kinds[1..], inside, saw || inside)
      case Plain => Accepted(kinds[1..], inside, saw)
  }

  predicate Accepts(body: string) {
    Accepted(ReaderKinds(body), false, false)
  }

  /** acceptance_criteria_complete. */
  method ReadChecklist(body: string) returns (complete: bool)
    ensures complete == Accepts(body)
  {
    var kinds := ReaderKinds(body);
    var inside, sawItem := false, false;
    assert kinds[0..] == kinds;
    for i := 0 to |kinds|
      invariant Accepted(kinds[i..], inside, sawItem) == Accepted(kinds, false, false)
    {
      assert kinds[i..][0] == kinds[i] && kinds[i..][1..] == kinds[i + 1..];
      if kinds[i].Heading? {
        inside := kinds[i].acceptance;
        continue;
      }
      if !inside {
        continue;
      }
      if kinds[i].OpenItem? {
        return false;
      }
      if kinds[i].DoneItem? {
        sawItem := true;
      }
    }
    complete := sawItem;
  }

  // ---------------------------------------------------------------- refresh

  function CheckedTexts(kinds: seq<Kind>, inside: bool): set<string> {
    if kinds == [] then {}
    else
      var now := Inside(inside, kinds[0]);
      (if now && kinds[0].DoneItem? then {kinds[0].text} else {}) + CheckedTexts(kinds[1..], now)
  }

  function RefreshLine(inside: bool, line: Line, checked: set<string>): string {
    if inside && line.kind.OpenItem? && line.kind.text in checked then line.kind.checked else line.content
  }

  function RefreshLines(lines: seq<Line>, inside: bool, checked: set<string>): (r: seq<string>)
    ensures |r| == |lines|
  {
    if lines == [] then []
    else
      var now := Inside(inside, lines[0].kind);
      [RefreshLine(now, lines[0], checked)] + RefreshLines(lines[1..], now, checked)
  }

  function Refresh(newBody: string, existing: string): string {
    var checked := CheckedTexts(Kinds(Classified(existing)), false);
    if checked == {} then newBody else Render(RefreshLines(Classified(newBody), false, checked), newBody)
  }

  /** _acceptance_item_text for checked items. */
  method CollectChecked(kinds: seq<Kind>) returns (texts: set<string>)
    ensures texts == CheckedTexts(kinds, false)
  {
    var inside := false;
    texts := {};
    assert kinds[0..] == kinds;
    for i := 0 to |kinds|
      invariant texts + CheckedTexts(kinds[i..], inside) == CheckedTexts(kinds, false)
    {
      assert kinds[i..][0] == kinds[i] && kinds[i..][1..] == kinds[i + 1..];
      if kinds[i].Heading? {
        inside := kinds[i].acceptance;
      }
      if inside && kinds[i].DoneItem? {
        texts := texts + {kinds[i].text};
      }
    }
  }

  /** The loop of preserve_acceptance_checks. */
  method RefreshItems(source: seq<Line>, checked: set<string>) returns (lines: seq<string>)
    ensures lines == RefreshLines(source, false, checked)
  {
    var inside := false;
    lines := [];
    assert source[0..] == source;
    for i := 0 to |source|
      invariant lines + RefreshLines(source[i..], inside, checked) == RefreshLines(source, false, checked)
    {
      var line := source[i];
      assert source[i..][0] == line && source[i..][1..] == source[i + 1..];
      if line.kind.Heading? {
        inside := line.kind.acceptance;
      }
      ghost var rest := RefreshLines(source[i + 1..], inside, checked);
      if inside && line.kind.OpenItem? && line.kind.text in checked {
        assert lines + ([line.kind.checked] + rest) == (lines + [line.kind.checked]) + rest;
        lines := lines + [line.kind.checked];
        continue;
      }
      assert lines + ([line.content] + rest) == (lines + [line.content]) + rest;
      lines := lines + [line.content];
    }
    assert source[|source|..] == [] && lines + [] == lines;
  }

  /** preserve_acceptance_checks. */
  method PreserveChecks(newBody: string, existing: string) returns (rendered: string)
    ensures rendered == Refresh(newBody, existing)
  {
    var checked := CollectChecked(Kinds(Classified(existing)));
    if checked == {} {
      return newBody;
    }
    var lines := RefreshItems(Classified(newBody), checked);
    rendered := Render(lines, newBody);
  }
}
