/** The writer, the reader and the refresh of Acceptance Criteria checklists agree, for every issue body. */
module ChecklistProofs {
  import opened Prelude
  import opened Text
  import opened Checklist

  // ---------------------------------------------------------------- lines

  predicate BreakFree(line: string) {
    forall c | c in line :: !IsBreak(c)
  }

  predicate AllBreakFree(lines: seq<string>) {
    forall l | l in lines :: BreakFree(l)
  }

  lemma FirstLineIsBreakFree(s: string)
    ensures BreakFree(s[..LineLength(s)])
  {
    var n := LineLength(s);
    assert forall i | 0 <= i < n :: s[..n][i] == s[i];
  }

  lemma {:induction false} SplitLinesAreBreakFree(s: string)
    ensures AllBreakFree(SplitLines(s))
    decreases |s|
  {
    if s != "" {
      FirstLineIsBreakFree(s);
      var n := LineLength(s);
      if n < |s| {
        SplitLinesAreBreakFree(s[NextLine(s, n)..]);
      }
    }
  }

  lemma SplitFirstLine(line: string, rest: string)
    requires BreakFree(line)
    ensures SplitLines(line + "\n" + rest) == [line] + SplitLines(rest)
  {
    var s := line + "\n" + rest;
    var n := LineLength(s);
    assert forall i | 0 <= i < |line| :: s[i] == line[i];
    assert s[|line|] == '\n' && IsBreak('\n');
    assert n == |line|;
    assert s[..n] == line && s[n + 1..] == rest;
  }

  lemma SplitLastLine(line: string)
    requires BreakFree(line) && line != ""
    ensures SplitLines(line) == [line]
  {
    assert forall i | 0 <= i < |line| :: line[i] in line;
  }

  lemma LastLineIsRead(line: string, tail: string)
    requires BreakFree(line) && (tail == "" || tail == "\n")
    ensures SplitLines(line + tail) == [line] || (SplitLines(line + tail) == [] && line == "")
  {
    if tail == "\n" {
      SplitFirstLine(line, "");
      assert line + "\n" + "" == line + tail;
    } else if line != "" {
      SplitLastLine(line);
      assert line + "" == line;
    }
  }

  /** The text is read as these lines, up to one empty line at the very end. */
  predicate ReadAs(s: string, lines: seq<string>) {
    SplitLines(s) == lines || SplitLines(s) + [""] == lines
  }

  lemma ReadOneMore(line: string, rest: string, lines: seq<string>)
    requires BreakFree(line) && ReadAs(rest, lines)
    ensures ReadAs(line + "\n" + rest, [line] + lines)
  {
    SplitFirstLine(line, rest);
    assert [line] + (SplitLines(rest) + [""]) == [line] + SplitLines(rest) + [""];
  }

  /** Rendered lines are read back. */
  lemma {:induction false} JoinedLinesAreRead(lines: seq<string>, tail: string)
    requires lines != [] && AllBreakFree(lines) && (tail == "" || tail == "\n")
    ensures ReadAs(Join(lines, "\n") + tail, lines)
  {
    if |lines| == 1 {
      LastLineIsRead(lines[0], tail);
      assert [] + [""] == [""] && [lines[0]] == lines;
    } else {
      var rest := Join(lines[1..], "\n") + tail;
      assert Join(lines, "\n") + tail == lines[0] + "\n" + rest;
      JoinedLinesAreRead(lines[1..], tail);
      ReadOneMore(lines[0], rest, lines[1..]);
      assert [lines[0]] + lines[1..] == lines;
    }
  }

  predicate OnlyLineFeeds(s: string) {
    forall c | c in s && IsBreak(c) :: c == '\n'
  }

  lemma LastOfSuffix(s: string, n: nat)
    requires n < |s|
    ensures EndsWith(s[n..], "\n") <==> EndsWith(s, "\n")
    ensures EndsWith(s, "\n") <==> s[|s| - 1] == '\n'
  {
    assert s[n..][|s| - n - 1..] == s[|s| - 1..] == [s[|s| - 1]];
  }

  lemma RenderedCons(line: string, lines: seq<string>, rest: string, s: string)
    requires lines != [] && Render(lines, rest) == rest && (EndsWith(rest, "\n") <==> EndsWith(s, "\n"))
    ensures Render([line] + lines, s) == line + "\n" + rest
  {
    assert ([line] + lines)[1..] == lines;
    var tail := if EndsWith(s, "\n") then "\n" else "";
    assert line + "\n" + Join(lines, "\n") + tail == line + "\n" + (Join(lines, "\n") + tail);
  }

  /** A body whose only line breaks are line feeds is its own rendering. */
  lemma {:induction false} LineFeedBodyIsRendered(s: string)
    requires OnlyLineFeeds(s)
    ensures Render(SplitLines(s), s) == s
    decreases |s|
  {
    if s != "" {
      var n := LineLength(s);
      LastOfSuffix(s, 0);
      if n == |s| {
        assert !IsBreak(s[|s| - 1]) && IsBreak('\n');
        assert Render([s], s) == s + "";
      } else {
        var line, rest := s[..n], s[n + 1..];
        assert s[n] in s && s[n] == '\n';
        assert s == line + "\n" + rest;
        assert SplitLines(s) == [line] + SplitLines(rest);
        if rest == "" {
          assert Render([line], s) == line + "\n";
        } else {
          LineFeedBodyIsRendered(rest);
          LastOfSuffix(s, n + 1);
          RenderedCons(line, SplitLines(rest), rest, s);
        }
      }
    }
  }

  // ---------------------------------------------------------------- kinds of lines

  predicate Blank(text: string) {
    forall c | c in text :: IsSpace(c)
  }

  /** A six-character marker ending in a space survives strip exactly when text follows it. */
  lemma MarkerSurvivesStrip(item: string, marker: string)
    requires |marker| == 6 && marker[5] == ' ' && !IsSpace(marker[4])
    ensures StartsWith(RStrip(item), marker) <==> StartsWith(item, marker) && !Blank(item[6..])
  {
    var r := RStrip(item);
    if StartsWith(item, marker) {
      assert item[5] == ' ' && IsSpace(' ');
      assert forall i | |r| <= i < |item| :: IsSpace(item[i]);
      if |r| > 6 {
        assert !IsSpace(r[|r| - 1]) && item[6..][|r| - 7] == r[|r| - 1];
        assert r[..6] == item[..6];
      } else {
        assert |r| != 6;
        assert forall i | 0 <= i < |item[6..]| :: IsSpace(item[6..][i]) by {
          assert forall i | 0 <= i < |item[6..]| :: item[6..][i] == item[6 + i];
        }
      }
    }
  }

  /** What the reader makes of a line, from what the writer makes of it. */
  function Read(kind: Kind): Kind {
    match kind
    case Heading(_) => kind
    case OpenItem(text, _) => if Blank(text) then Plain else OpenItem("", "")
    case DoneItem(text) => if Blank(text) then Plain else DoneItem("")
    case Plain => Plain
  }

  function Shape(kind: Kind): Kind {
    match kind
    case OpenItem(_, _) => OpenItem("", "")
    case DoneItem(_) => DoneItem("")
    case _ => kind
  }

  lemma ReaderSeesText(line: string)
    ensures Shape(ReaderKindOf(line)) == Read(KindOf(line))
  {
    if !IsHeading(line) {
      MarkerSurvivesStrip(LStrip(line), UNCHECKED);
      MarkerSurvivesStrip(LStrip(line), CHECKED);
      MarkerSurvivesStrip(LStrip(line), "- [X] ");
    }
  }

  lemma {:induction false} LStripOfIndented(indent: string, item: string)
    requires Blank(indent) && item != "" && !IsSpace(item[0])
    ensures LStrip(indent + item) == item
  {
    if indent == "" {
      assert indent + item == item;
    } else {
      assert indent[0] in indent && (indent + item)[1..] == indent[1..] + item;
      LStripOfIndented(indent[1..], item);
    }
  }

  lemma RStripKeepsHead(item: string)
    requires item != "" && !IsSpace(item[0])
    ensures StartsWith(RStrip(item), [item[0]])
  {
    assert RStrip(item) != "";
  }

  lemma StripOfIndented(indent: string, item: string)
    requires Blank(indent) && item != "" && !IsSpace(item[0])
    ensures LStrip(indent + item) == item
    ensures StartsWith(Strip(indent + item), [item[0]])
  {
    LStripOfIndented(indent, item);
    RStripKeepsHead(item);
  }

  lemma DashIsNoHeading(line: string)
    requires StartsWith(Strip(line), "-")
    ensures !IsHeading(line)
  {
    assert Strip(line)[..1][0] == '-';
  }

  lemma DoneIsDone(indent: string, text: string)
    ensures ItemKind(indent, CHECKED + text) == DoneItem(text)
  {
    var item := CHECKED + text;
    assert item[..6] == CHECKED && item[6..] == text && item[3] == 'x';
  }

  lemma DoneForm(line: string, indent: string, text: string)
    requires Blank(indent) && line == indent + (CHECKED + text)
    ensures KindOf(line) == DoneItem(text)
  {
    StripOfIndented(indent, CHECKED + text);
    DashIsNoHeading(line);
    DoneIsDone(Indent(line), text);
  }

  lemma OpenParts(indent: string, item: string)
    requires ItemKind(indent, item).OpenItem?
    ensures |item| >= 6 && ItemKind(indent, item) == OpenItem(item[6..], indent + (CHECKED + item[6..]))
  {
    assert indent + CHECKED + item[6..] == indent + (CHECKED + item[6..]);
  }

  lemma IndentIsBlank(line: string)
    ensures line == Indent(line) + LStrip(line) && Blank(Indent(line))
  {
    var n := |line| - |LStrip(line)|;
    assert line[..n] + line[n..] == line;
    assert forall i | 0 <= i < n :: line[..n][i] == line[i];
  }

  /** Checking an open item makes it a done item with the same text. */
  lemma CheckedItemIsDone(line: string)
    requires KindOf(line).OpenItem?
    ensures KindOf(KindOf(line).checked) == DoneItem(KindOf(line).text)
  {
    var indent, item := Indent(line), LStrip(line);
    assert KindOf(line) == ItemKind(indent, item);
    OpenParts(indent, item);
    IndentIsBlank(line);
    DoneForm(KindOf(line).checked, indent, item[6..]);
  }

  lemma CheckedItemIsBreakFree(line: string)
    requires KindOf(line).OpenItem? && BreakFree(line)
    ensures BreakFree(KindOf(line).checked)
  {
    IndentIsBlank(line);
    OpenParts(Indent(line), LStrip(line));
    BreakFreeForm(Indent(line), LStrip(line));
  }

  lemma BreakFreeForm(indent: string, item: string)
    requires BreakFree(indent + item) && |item| >= 6
    ensures BreakFree(indent + (CHECKED + item[6..]))
  {
    BreakFreeParts(indent, item);
    assert item == item[..6] + item[6..];
    BreakFreeParts(item[..6], item[6..]);
    assert BreakFree(CHECKED);
    BreakFreeParts(CHECKED, item[6..]);
    BreakFreeParts(indent, CHECKED + item[6..]);
  }

  lemma BreakFreeParts(a: string, b: string)
    ensures BreakFree(a + b) <==> BreakFree(a) && BreakFree(b)
  {
    assert forall c :: c in a + b <==> c in a || c in b;
  }

  // ---------------------------------------------------------------- scans

  /** An acceptance item, open or done, with something written after its marker. */
  predicate HasText(kinds: seq<Kind>, inside: bool) {
    kinds != [] &&
    var now := Inside(inside, kinds[0]);
    || (now && (kinds[0].OpenItem? || kinds[0].DoneItem?) && !Blank(kinds[0].text))
    || HasText(kinds[1..], now)
  }

  function ItemTexts(kinds: seq<Kind>, inside: bool): set<string> {
    if kinds == [] then {}
    else
      var now := Inside(inside, kinds[0]);
      (if now && (kinds[0].OpenItem? || kinds[0].DoneItem?) then {kinds[0].text} else {}) + ItemTexts(kinds[1..], now)
  }

  /** A plain line at the end, such as a dropped empty one, is irrelevant to every scan. */
  lemma {:induction false} PlainEndIsIrrelevant(kinds: seq<Kind>, inside: bool, saw: bool)
    ensures var more := kinds + [Plain];
      && HasItem(more, inside) == HasItem(kinds, inside) && HasOpenItem(more, inside) == HasOpenItem(kinds, inside)
      && HasText(more, inside) == HasText(kinds, inside)
      && CheckedTexts(more, inside) == CheckedTexts(kinds, inside)
      && ItemTexts(more, inside) == ItemTexts(kinds, inside)
      && Accepted(more, inside, saw) == Accepted(kinds, inside, saw)
    decreases |kinds|
  {
    var more := kinds + [Plain];
    if kinds == [] {
      assert more[1..] == [];
    } else {
      assert more[1..] == kinds[1..] + [Plain] && more[0] == kinds[0];
      PlainEndIsIrrelevant(kinds[1..], Inside(inside, kinds[0]), if kinds[0].DoneItem? then saw || inside else saw);
    }
  }

  /** The lines with the wanted open acceptance items checked, and nothing else changed. */
  function CheckedLines(lines: seq<Line>, inside: bool, wanted: set<string>): (r: seq<Line>)
    ensures |r| == |lines|
    ensures forall i | 0 <= i < |lines| ::
      r[i] == lines[i] || (lines[i].kind.OpenItem? && r[i] == Line(lines[i].kind.checked, DoneItem(lines[i].kind.text)))
  {
    if lines == [] then []
    else
      var now, kind := Inside(inside, lines[0].kind), lines[0].kind;
      [if now && kind.OpenItem? && kind.text in wanted then Line(kind.checked, DoneItem(kind.text)) else lines[0]]
      + CheckedLines(lines[1..], now, wanted)
  }

  function Contents(lines: seq<Line>): seq<string> {
    seq(|lines|, i requires 0 <= i < |lines| => lines[i].content)
  }

  lemma CheckedNext(lines: seq<Line>, inside: bool, wanted: set<string>)
    requires lines != []
    ensures var now := Inside(inside, lines[0].kind);
      Contents(CheckedLines(lines, inside, wanted)) ==
      [RefreshLine(now, lines[0], wanted)] + Contents(CheckedLines(lines[1..], now, wanted))
  {
  }

  /** The refresh does just that. */
  lemma {:induction false} RefreshChecksLines(lines: seq<Line>, inside: bool, wanted: set<string>)
    ensures RefreshLines(lines, inside, wanted) == Contents(CheckedLines(lines, inside, wanted))
    decreases |lines|
  {
    if lines != [] {
      CheckedNext(lines, inside, wanted);
      RefreshChecksLines(lines[1..], Inside(inside, lines[0].kind), wanted);
    }
  }

  /** So does the writer, who wants every item. */
  lemma {:induction false} WriterChecksLines(lines: seq<Line>, inside: bool, wanted: set<string>)
    requires ItemTexts(Kinds(lines), inside) <= wanted
    ensures CompleteLines(lines, inside) == Contents(CheckedLines(lines, inside, wanted))
    decreases |lines|
  {
    if lines != [] {
      var now := Inside(inside, lines[0].kind);
      assert Kinds(lines)[1..] == Kinds(lines[1..]) && Kinds(lines)[0] == lines[0].kind;
      assert now && lines[0].kind.OpenItem? ==> lines[0].kind.text in ItemTexts(Kinds(lines), inside);
      CheckedNext(lines, inside, wanted);
      WriterChecksLines(lines[1..], now, wanted);
    }
  }

  function CheckedKinds(kinds: seq<Kind>, inside: bool, wanted: set<string>): seq<Kind> {
    if kinds == [] then []
    else
      var now := Inside(inside, kinds[0]);
      [if now && kinds[0].OpenItem? && kinds[0].text in wanted then DoneItem(kinds[0].text) else kinds[0]]
      + CheckedKinds(kinds[1..], now, wanted)
  }

  lemma KindsCons(line: Line, lines: seq<Line>)
    ensures Kinds([line] + lines) == [line.kind] + Kinds(lines)
  {
  }

  lemma {:induction false} KindsOfChecked(lines: seq<Line>, inside: bool, wanted: set<string>)
    ensures Kinds(CheckedLines(lines, inside, wanted)) == CheckedKinds(Kinds(lines), inside, wanted)
    decreases |lines|
  {
    if lines != [] {
      var now := Inside(inside, lines[0].kind);
      var first, rest := CheckedLines(lines, inside, wanted)[0], CheckedLines(lines[1..], now, wanted);
      assert lines == [lines[0]] + lines[1..];
      KindsCons(lines[0], lines[1..]);
      KindsCons(first, rest);
      assert Kinds(lines)[1..] == Kinds(lines[1..]);
      KindsOfChecked(lines[1..], now, wanted);
    }
  }

  /** The effect on every scan of checking the wanted items. */
  lemma {:induction false} CheckingChangesScans(a: seq<Kind>, inside: bool, wanted: set<string>)
    ensures var b := CheckedKinds(a, inside, wanted);
      && HasItem(b, inside) == HasItem(a, inside) && ItemTexts(b, inside) == ItemTexts(a, inside)
      && HasText(b, inside) == HasText(a, inside)
      && CheckedTexts(b, inside) == CheckedTexts(a, inside) + (ItemTexts(a, inside) * wanted)
      && (ItemTexts(a, inside) <= wanted ==> !HasOpenItem(b, inside))
  {
    if a != [] {
      var now := Inside(inside, a[0]);
      var rest := CheckedKinds(a[1..], now, wanted);
      assert CheckedKinds(a, inside, wanted)[1..] == rest;
      CheckingChangesScans(a[1..], now, wanted);
    }
  }

  /** With no open item left, the reader accepts exactly when some item has text. */
  lemma {:induction false} ReaderNeedsText(kinds: seq<Kind>, read: seq<Kind>, inside: bool, saw: bool)
    requires |read| == |kinds| && forall i | 0 <= i < |kinds| :: Shape(read[i]) == Read(kinds[i])
    requires !HasOpenItem(kinds, inside)
    ensures Accepted(read, inside, saw) <==> saw || HasText(kinds, inside)
    decreases |kinds|
  {
    if kinds != [] {
      var now := Inside(inside, kinds[0]);
      assert Shape(read[0]) == Read(kinds[0]);
      ReaderNeedsText(kinds[1..], read[1..], now, if read[0].DoneItem? then saw || inside else saw);
    }
  }

  // ---------------------------------------------------------------- bodies

  function BodyKinds(body: string): seq<Kind> {
    Kinds(Classified(body))
  }

  /** A body with its wanted items checked, rendered as the scripts render it. */
  function CheckedBody(body: string, wanted: set<string>): string {
    Render(Contents(CheckedLines(Classified(body), false, wanted)), body)
  }

  lemma CheckedLineIsRead(body: string, wanted: set<string>, i: nat)
    requires i < |SplitLines(body)|
    ensures var line := CheckedLines(Classified(body), false, wanted)[i];
      KindOf(line.content) == line.kind && BreakFree(line.content)
  {
    var line := SplitLines(body)[i];
    SplitLinesAreBreakFree(body);
    assert line in SplitLines(body);
    assert Classified(body)[i] == Line(line, KindOf(line));
    if KindOf(line).OpenItem? {
      CheckedItemIsDone(line);
      CheckedItemIsBreakFree(line);
    }
  }

  function KindsUnder(kindOf: string -> Kind, lines: seq<string>): seq<Kind> {
    seq(|lines|, i requires 0 <= i < |lines| => kindOf(lines[i]))
  }

  lemma KindsBack(kindOf: string -> Kind, read: seq<string>, lines: seq<Line>)
    requires forall i | 0 <= i < |lines| :: kindOf(lines[i].content) == lines[i].kind
    requires read == Contents(lines) || read + [""] == Contents(lines)
    requires kindOf("") == Plain
    ensures KindsUnder(kindOf, read) == Kinds(lines) || KindsUnder(kindOf, read) + [Plain] == Kinds(lines)
  {
    if read == Contents(lines) {
      assert KindsUnder(kindOf, read) == Kinds(lines);
    } else {
      assert forall i | 0 <= i < |read| :: read[i] == Contents(lines)[i];
      assert Contents(lines)[|read|] == "" == lines[|read|].content;
      assert KindsUnder(kindOf, read) + [Plain] == Kinds(lines);
    }
  }

  lemma CheckedContentsAreRead(body: string, wanted: set<string>)
    requires SplitLines(body) != []
    ensures var read := SplitLines(CheckedBody(body, wanted));
      var contents := Contents(CheckedLines(Classified(body), false, wanted));
      read == contents || read + [""] == contents
  {
    var lines := CheckedLines(Classified(body), false, wanted);
    forall i | 0 <= i < |lines|
      ensures BreakFree(Contents(lines)[i])
    {
      CheckedLineIsRead(body, wanted, i);
    }
    JoinedLinesAreRead(Contents(lines), if EndsWith(body, "\n") then "\n" else "");
  }

  lemma BodyKindsAreOfLines(body: string)
    ensures BodyKinds(body) == KindsUnder(KindOf, SplitLines(body))
  {
  }

  /** Reading a checked body back gives the checked lines, up to an empty last line. */
  lemma CheckedBodyIsRead(body: string, wanted: set<string>)
    requires SplitLines(body) != []
    ensures var kinds := Kinds(CheckedLines(Classified(body), false, wanted));
      var back := BodyKinds(CheckedBody(body, wanted));
      back == kinds || back + [Plain] == kinds
  {
    var lines := CheckedLines(Classified(body), false, wanted);
    forall i | 0 <= i < |lines|
      ensures KindOf(lines[i].content) == lines[i].kind
    {
      CheckedLineIsRead(body, wanted, i);
    }
    CheckedContentsAreRead(body, wanted);
    EmptyLineIsPlain();
    KindsBack(KindOf, SplitLines(CheckedBody(body, wanted)), lines);
    BodyKindsAreOfLines(CheckedBody(body, wanted));
  }

  lemma EmptyLineIsPlain()
    ensures KindOf("") == Plain
  {
  }

  // ---------------------------------------------------------------- main results

  lemma ScansOfCheckedBody(body: string, wanted: set<string>)
    requires SplitLines(body) != []
    ensures var a, b := BodyKinds(body), BodyKinds(CheckedBody(body, wanted));
      && HasItem(b, false) == HasItem(a, false) && HasText(b, false) == HasText(a, false)
      && ItemTexts(b, false) == ItemTexts(a, false)
      && CheckedTexts(b, false) == CheckedTexts(a, false) + (ItemTexts(a, false) * wanted)
      && (ItemTexts(a, false) <= wanted ==> !HasOpenItem(b, false))
  {
    var kinds := Kinds(CheckedLines(Classified(body), false, wanted));
    CheckedBodyIsRead(body, wanted);
    KindsOfChecked(Classified(body), false, wanted);
    CheckingChangesScans(BodyKinds(body), false, wanted);
    SameScans(BodyKinds(CheckedBody(body, wanted)), kinds);
  }

  lemma SameScans(back: seq<Kind>, kinds: seq<Kind>)
    requires back == kinds || back + [Plain] == kinds
    ensures HasItem(back, false) == HasItem(kinds, false) && HasOpenItem(back, false) == HasOpenItem(kinds, false)
    ensures HasText(back, false) == HasText(kinds, false)
    ensures CheckedTexts(back, false) == CheckedTexts(kinds, false) && ItemTexts(back, false) == ItemTexts(kinds, false)
  {
    PlainEndIsIrrelevant(back, false, false);
  }

  lemma {:induction false} ItemNeedsLine(kinds: seq<Kind>, inside: bool)
    requires HasItem(kinds, inside)
    ensures ItemTexts(kinds, inside) != {}
  {
    var now := Inside(inside, kinds[0]);
    if now && (kinds[0].OpenItem? || kinds[0].DoneItem?) {
      assert kinds[0].text in ItemTexts(kinds, inside);
    } else {
      ItemNeedsLine(kinds[1..], now);
    }
  }

  /** The completed body: the body itself if nothing was open, and the body with every item checked otherwise. */
  lemma CompletedBody(body: string)
    requires Complete(body).Success?
    ensures SplitLines(body) != []
    ensures var done := Complete(body).value;
      done == if HasOpenItem(BodyKinds(body), false) then CheckedBody(body, ItemTexts(BodyKinds(body), false)) else body
  {
    assert BodyKinds(body) != [];
    WriterChecksLines(Classified(body), false, ItemTexts(BodyKinds(body), false));
  }

  lemma ScansOfCompleted(body: string)
    requires Complete(body).Success?
    ensures var a, b := BodyKinds(body), BodyKinds(Complete(body).value);
      && HasItem(b, false) && !HasOpenItem(b, false) && HasText(b, false) == HasText(a, false)
      && CheckedTexts(b, false) == ItemTexts(a, false) == ItemTexts(b, false)
  {
    CompletedBody(body);
    ScansOfCheckedBody(body, ItemTexts(BodyKinds(body), false));
    AllDone(BodyKinds(Complete(body).value), false);
  }

  lemma {:induction false} AllDone(kinds: seq<Kind>, inside: bool)
    ensures !HasOpenItem(kinds, inside) ==> CheckedTexts(kinds, inside) == ItemTexts(kinds, inside)
  {
    if kinds != [] {
      AllDone(kinds[1..], Inside(inside, kinds[0]));
    }
  }

  lemma ReaderReads(body: string)
    ensures |ReaderKinds(body)| == |BodyKinds(body)|
    ensures forall i | 0 <= i < |BodyKinds(body)| :: Shape(ReaderKinds(body)[i]) == Read(BodyKinds(body)[i])
  {
    forall i | 0 <= i < |BodyKinds(body)|
      ensures Shape(ReaderKinds(body)[i]) == Read(BodyKinds(body)[i])
    {
      ReaderSeesText(SplitLines(body)[i]);
    }
  }

  /** The release reader accepts a completed body exactly when one of its items has some text. */
  lemma CompletedIsAccepted(body: string)
    requires Complete(body).Success?
    ensures Accepts(Complete(body).value) <==> HasText(BodyKinds(body), false)
  {
    var done := Complete(body).value;
    ScansOfCompleted(body);
    ReaderReads(done);
    ReaderNeedsText(BodyKinds(done), ReaderKinds(done), false, false);
  }

  lemma StrippedHeading(line: string)
    requires Stripped(line) && StartsWith(line, "## ")
    ensures KindOf(line) == Heading(line == "## Acceptance Criteria")
  {
    StripFixes(line);
  }

  lemma TitleIsBreakFree(line: string)
    requires line == "## Acceptance Criteria"
    ensures BreakFree(line)
  {
    assert forall i | 0 <= i < |line| :: !IsBreak(line[i]);
  }

  lemma SectionHeading(line: string)
    requires line == "## Acceptance Criteria"
    ensures KindOf(line) == Heading(true) && BreakFree(line)
  {
    TitleIsBreakFree(line);
    assert line[..3] == "## ";
    assert line[0] == '#' && line[|line| - 1] == 'a';
    StrippedHeading(line);
  }

  lemma DashAtStart(line: string)
    requires line != "" && line[0] == '-'
    ensures KindOf(line) == ItemKind("", line)
  {
    assert "" + line == line;
    StripOfIndented("", line);
    DashIsNoHeading(line);
  }

  lemma OpenMarker(indent: string, item: string)
    requires StartsWith(item, UNCHECKED)
    ensures ItemKind(indent, item).OpenItem? && ItemKind(indent, item).text == item[6..]
  {
  }

  lemma MarkerIsBreakFree(line: string)
    requires line == UNCHECKED
    ensures BreakFree(line)
  {
    assert forall i | 0 <= i < |line| :: !IsBreak(line[i]);
  }

  lemma BlankItem(line: string)
    requires line == UNCHECKED
    ensures KindOf(line).OpenItem? && KindOf(line).text == ""
  {
    assert line[0] == '-' && line[..6] == line && line[6..] == "";
    DashAtStart(line);
    OpenMarker("", line);
  }

  lemma ScansOfTwo(heading: Kind, item: Kind)
    requires heading == Heading(true) && item.OpenItem? && item.text == ""
    ensures HasItem([heading, item], false) && !HasText([heading, item], false)
  {
    var kinds := [heading, item];
    assert kinds[1..] == [item] && [item][1..] == [] && Blank("");
    assert HasItem([item], true) && !HasText([item], true);
  }

  lemma TwoLines(first: string, second: string)
    requires BreakFree(first) && BreakFree(second) && second != ""
    ensures SplitLines(first + "\n" + second) == [first, second]
  {
    SplitFirstLine(first, second);
    SplitLastLine(second);
  }

  lemma TwoKinds(kindOf: string -> Kind, first: string, second: string)
    ensures KindsUnder(kindOf, [first, second]) == [kindOf(first), kindOf(second)]
  {
  }

  lemma TwoLineBody(first: string, second: string)
    requires BreakFree(first) && BreakFree(second) && second != ""
    ensures BodyKinds(first + "\n" + second) == [KindOf(first), KindOf(second)]
  {
    TwoLines(first, second);
    BodyKindsAreOfLines(first + "\n" + second);
    TwoKinds(KindOf, first, second);
  }

  lemma TextlessIsNeverAccepted(body: string)
    ensures HasItem(BodyKinds(body), false) && !HasText(BodyKinds(body), false) ==>
      Complete(body).Success? && !Accepts(Complete(body).value)
  {
    if HasItem(BodyKinds(body), false) {
      CompletedIsAccepted(body);
    }
  }

  /** A section whose only item says nothing is completed by the writer and still refused by the release reader. */
  lemma BlankItemIsNeverAccepted(heading: string, item: string)
    requires heading == "## Acceptance Criteria" && item == UNCHECKED
    ensures var body := heading + "\n" + item; Complete(body).Success? && !Accepts(Complete(body).value)
  {
    SectionHeading(heading);
    MarkerIsBreakFree(item);
    BlankItem(item);
    TwoLineBody(heading, item);
    ScansOfTwo(KindOf(heading), KindOf(item));
    TextlessIsNeverAccepted(heading + "\n" + item);
  }

  /** Completing is idempotent. */
  lemma CompleteTwice(body: string)
    requires Complete(body).Success?
    ensures Complete(Complete(body).value) == Complete(body)
  {
    ScansOfCompleted(body);
  }

  /** Line i is in the section if the last heading up to it opens that section. */
  ghost predicate InAcceptance(kinds: seq<Kind>, i: nat)
    requires i < |kinds|
  {
    exists k | 0 <= k <= i :: kinds[k] == Heading(true) && forall j | k < j <= i :: !kinds[j].Heading?
  }

  function InsideAt(kinds: seq<Kind>, inside: bool, i: nat): bool
    requires i < |kinds|
  {
    Inside(if i == 0 then inside else InsideAt(kinds, inside, i - 1), kinds[i])
  }

  lemma {:induction false} InsideIsLastHeading(kinds: seq<Kind>, i: nat)
    requires i < |kinds|
    ensures InsideAt(kinds, false, i) <==> InAcceptance(kinds, i)
  {
    if kinds[i].Heading? {
      assert kinds[i] == Heading(true) ==> InAcceptance(kinds, i);
    } else if i > 0 {
      InsideIsLastHeading(kinds, i - 1);
      if InAcceptance(kinds, i - 1) {
        var k :| 0 <= k <= i - 1 && kinds[k] == Heading(true) && forall j | k < j <= i - 1 :: !kinds[j].Heading?;
        assert forall j | k < j <= i :: !kinds[j].Heading?;
      }
    }
  }

  lemma {:induction false} InsideShifts(kinds: seq<Kind>, inside: bool, i: nat)
    requires 0 < i < |kinds|
    ensures InsideAt(kinds, inside, i) == InsideAt(kinds[1..], Inside(inside, kinds[0]), i - 1)
  {
    if i > 1 {
      InsideShifts(kinds, inside, i - 1);
    }
  }

  lemma {:induction false} CompleteLineAt(lines: seq<Line>, inside: bool, i: nat)
    requires i < |lines|
    ensures CompleteLines(lines, inside)[i] == CompleteLine(InsideAt(Kinds(lines), inside, i), lines[i])
    decreases i
  {
    if i > 0 {
      assert Kinds(lines)[1..] == Kinds(lines[1..]);
      InsideShifts(Kinds(lines), inside, i);
      CompleteLineAt(lines[1..], Inside(inside, lines[0].kind), i - 1);
    }
  }

  /** The writer changes the open items of the acceptance section and no other line. */
  lemma OnlyOpenItemsChange(lines: seq<Line>, i: nat)
    requires i < |lines|
    ensures CompleteLines(lines, false)[i] ==
            if InAcceptance(Kinds(lines), i) && lines[i].kind.OpenItem? then lines[i].kind.checked else lines[i].content
  {
    CompleteLineAt(lines, false, i);
    InsideIsLastHeading(Kinds(lines), i);
  }

  lemma CheckedFormDiffers(line: string)
    requires KindOf(line).OpenItem?
    ensures KindOf(line).checked != line
  {
    CheckedItemIsDone(line);
  }

  /**
   Completing changes a line exactly if it is an open item of the acceptance section, and then into its checked
   form.
   */
  lemma LineChangesExactly(body: string, i: nat)
    requires i < |SplitLines(body)|
    ensures var line, completed := SplitLines(body)[i], CompleteLines(Classified(body), false)[i];
      && (completed != line <==> InAcceptance(BodyKinds(body), i) && KindOf(line).OpenItem?)
      && (completed != line ==> completed == KindOf(line).checked && KindOf(completed) == DoneItem(KindOf(line).text))
  {
    var line := SplitLines(body)[i];
    OnlyOpenItemsChange(Classified(body), i);
    if KindOf(line).OpenItem? {
      CheckedFormDiffers(line);
      CheckedItemIsDone(line);
    }
  }

  lemma {:induction false} RefreshLineAt(lines: seq<Line>, inside: bool, checked: set<string>, i: nat)
    requires i < |lines|
    ensures RefreshLines(lines, inside, checked)[i] ==
            RefreshLine(InsideAt(Kinds(lines), inside, i), lines[i], checked)
    decreases i
  {
    if i > 0 {
      assert Kinds(lines)[1..] == Kinds(lines[1..]);
      InsideShifts(Kinds(lines), inside, i);
      RefreshLineAt(lines[1..], Inside(inside, lines[0].kind), checked, i - 1);
    }
  }

  /**
   Refreshing changes a line of the new body exactly if it is an open item of the acceptance section whose text is
   checked in the existing body, and then into its checked form.
   */
  lemma RefreshChangesExactly(newBody: string, existing: string, i: nat)
    requires i < |SplitLines(newBody)|
    ensures var line, checked := SplitLines(newBody)[i], CheckedTexts(BodyKinds(existing), false);
      var refreshed := RefreshLines(Classified(newBody), false, checked)[i];
      && (refreshed != line <==>
            InAcceptance(BodyKinds(newBody), i) && KindOf(line).OpenItem? && KindOf(line).text in checked)
      && (refreshed != line ==> refreshed == KindOf(line).checked && KindOf(refreshed) == DoneItem(KindOf(line).text))
  {
    var line := SplitLines(newBody)[i];
    RefreshLineAt(Classified(newBody), false, CheckedTexts(BodyKinds(existing), false), i);
    InsideIsLastHeading(BodyKinds(newBody), i);
    if KindOf(line).OpenItem? {
      CheckedFormDiffers(line);
      CheckedItemIsDone(line);
    }
  }

  lemma LineFeedsOfParts(a: string, b: string)
    ensures OnlyLineFeeds(a + b) <==> OnlyLineFeeds(a) && OnlyLineFeeds(b)
  {
    assert forall c :: c in a + b <==> c in a || c in b;
  }

  lemma {:induction false} JoinHasOnlyLineFeeds(lines: seq<string>)
    requires AllBreakFree(lines)
    ensures OnlyLineFeeds(Join(lines, "\n"))
  {
    if |lines| > 1 {
      assert BreakFree(lines[0]) && AllBreakFree(lines[1..]);
      JoinHasOnlyLineFeeds(lines[1..]);
      LineFeedsOfParts(lines[0], "\n");
      LineFeedsOfParts(lines[0] + "\n", Join(lines[1..], "\n"));
    } else if |lines| == 1 {
      assert BreakFree(lines[0]);
    }
  }

  /** A body is its own rendering exactly when its only line breaks are line feeds. */
  lemma RenderedExactlyWithLineFeeds(body: string)
    ensures Render(SplitLines(body), body) == body <==> OnlyLineFeeds(body)
  {
    SplitLinesAreBreakFree(body);
    JoinHasOnlyLineFeeds(SplitLines(body));
    LineFeedsOfParts(Join(SplitLines(body), "\n"), if EndsWith(body, "\n") then "\n" else "");
    if OnlyLineFeeds(body) {
      LineFeedBodyIsRendered(body);
    }
  }

  /**
   Refreshing a body against its own completion gives that completion exactly when an item was open or the body
   has no line breaks but line feeds.
   */
  lemma RefreshAgainstCompletion(body: string)
    requires Complete(body).Success?
    ensures Refresh(body, Complete(body).value) == Complete(body).value <==>
            HasOpenItem(BodyKinds(body), false) || OnlyLineFeeds(body)
  {
    var all := ItemTexts(BodyKinds(body), false);
    CompletedBody(body);
    ScansOfCompleted(body);
    ItemNeedsLine(BodyKinds(body), false);
    RefreshChecksLines(Classified(body), false, all);
    assert Refresh(body, Complete(body).value) == CheckedBody(body, all);
    if !HasOpenItem(BodyKinds(body), false) {
      NothingToCheck(Classified(body), false, all);
      assert Contents(Classified(body)) == SplitLines(body);
      RenderedExactlyWithLineFeeds(body);
    }
  }

  lemma {:induction false} NothingToCheck(lines: seq<Line>, inside: bool, wanted: set<string>)
    requires !HasOpenItem(Kinds(lines), inside)
    ensures CheckedLines(lines, inside, wanted) == lines
    decreases |lines|
  {
    if lines != [] {
      assert Kinds(lines)[1..] == Kinds(lines[1..]);
      NothingToCheck(lines[1..], Inside(inside, lines[0].kind), wanted);
    }
  }

  /** A refresh keeps the items and checks exactly those checked in the new body or, by text, in the existing one. */
  lemma RefreshKeepsChecks(newBody: string, existing: string)
    ensures var before, after := BodyKinds(newBody), BodyKinds(Refresh(newBody, existing));
      && ItemTexts(after, false) == ItemTexts(before, false)
      && CheckedTexts(after, false) ==
         CheckedTexts(before, false) + (ItemTexts(before, false) * CheckedTexts(BodyKinds(existing), false))
  {
    var checked := CheckedTexts(BodyKinds(existing), false);
    if checked != {} && SplitLines(newBody) != [] {
      RefreshChecksLines(Classified(newBody), false, checked);
      assert Refresh(newBody, existing) == CheckedBody(newBody, checked);
      ScansOfCheckedBody(newBody, checked);
    } else if checked != {} {
      NoLinesNoBody(newBody, RefreshLines(Classified(newBody), false, checked));
    }
  }

  lemma NoLinesNoBody(body: string, lines: seq<string>)
    requires SplitLines(body) == [] && lines == []
    ensures body == "" && Render(lines, body) == ""
  {
  }
}
