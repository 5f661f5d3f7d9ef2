/** What the three scripts do to a body, said of its lines as written. */
module ChecklistLines {
  import opened Prelude
  import opened Text
  import opened Checklist
  import opened ChecklistProofs

  // ---------------------------------------------------------------- lines as written

  /** indent, marker and text make up the line. */
  predicate Written(line: string, indent: string, marker: string, text: string) {
    Blank(indent) && line == indent + (marker + text)
  }

  ghost predicate OpenAs(line: string, indent: string, text: string) {
    Written(line, indent, "- [ ] ", text)
  }

  ghost predicate Open(line: string, text: string) {
    exists indent :: OpenAs(line, indent, text)
  }

  ghost predicate Done(line: string, text: string) {
    exists indent :: Written(line, indent, "- [x] ", text) || Written(line, indent, "- [X] ", text)
  }

  predicate Title(line: string) {
    StartsWith(Strip(line), "## ")
  }

  /** The last title up to line i is that of the acceptance section. */
  predicate InSection(lines: seq<string>, i: nat)
    requires i < |lines|
  {
    exists k | 0 <= k <= i :: Strip(lines[k]) == "## Acceptance Criteria" && forall j | k < j <= i :: !Title(lines[j])
  }

  lemma KindOfItem(line: string, indent: string, marker: string, text: string)
    requires Written(line, indent, marker, text) && |marker| == 6 && marker[0] == '-'
    ensures KindOf(line) == ItemKind(indent, marker + text)
  {
    StripOfIndented(indent, marker + text);
    DashIsNoHeading(line);
    assert Indent(line) == indent;
  }

  lemma OpenHasKind(line: string, indent: string, text: string)
    requires OpenAs(line, indent, text)
    ensures KindOf(line) == OpenItem(text, indent + ("- [x] " + text))
  {
    var item := "- [ ] " + text;
    KindOfItem(line, indent, "- [ ] ", text);
    assert StartsWith(item, UNCHECKED) && item[6..] == text;
    assert indent + CHECKED + text == indent + ("- [x] " + text);
  }

  lemma CapitalIsDone(indent: string, text: string)
    ensures ItemKind(indent, "- [X] " + text) == DoneItem(text)
  {
    var item := "- [X] " + text;
    assert item[..6] == "- [X] " && item[6..] == text && item[3] == 'X';
  }

  lemma DoneHasKind(line: string, indent: string, marker: string, text: string)
    requires Written(line, indent, marker, text) && (marker == "- [x] " || marker == "- [X] ")
    ensures KindOf(line) == DoneItem(text)
  {
    KindOfItem(line, indent, marker, text);
    if marker == "- [x] " {
      DoneIsDone(indent, text);
    } else {
      CapitalIsDone(indent, text);
    }
  }

  lemma SplitsAt(line: string, marker: string)
    requires StartsWith(LStrip(line), marker) && |marker| == 6
    ensures Written(line, Indent(line), marker, LStrip(line)[6..])
  {
    IndentIsBlank(line);
    var item := LStrip(line);
    assert item == item[..6] + item[6..];
  }

  /** An open item is a line that consists of white space, the marker and its text. */
  lemma OpenExactly(line: string, text: string)
    ensures KindOf(line).OpenItem? && KindOf(line).text == text <==> Open(line, text)
  {
    if KindOf(line).OpenItem? && KindOf(line).text == text {
      OpenParts(Indent(line), LStrip(line));
      SplitsAt(line, "- [ ] ");
      assert OpenAs(line, Indent(line), text);
    }
    if indent :| OpenAs(line, indent, text) {
      OpenHasKind(line, indent, text);
    }
  }

  lemma DoneParts(indent: string, item: string, text: string)
    requires ItemKind(indent, item) == DoneItem(text)
    ensures item == "- [x] " + text || item == "- [X] " + text
  {
    assert item == item[..6] + item[6..];
  }

  lemma DoneIsWritten(line: string, text: string)
    requires KindOf(line) == DoneItem(text)
    ensures Done(line, text)
  {
    DoneParts(Indent(line), LStrip(line), text);
    IndentIsBlank(line);
    assert Written(line, Indent(line), "- [x] ", text) || Written(line, Indent(line), "- [X] ", text);
  }

  lemma DoneExactly(line: string, text: string)
    ensures KindOf(line) == DoneItem(text) <==> Done(line, text)
  {
    if KindOf(line) == DoneItem(text) {
      DoneIsWritten(line, text);
    }
    if indent :| Written(line, indent, "- [x] ", text) {
      DoneHasKind(line, indent, "- [x] ", text);
    }
    if indent :| Written(line, indent, "- [X] ", text) {
      DoneHasKind(line, indent, "- [X] ", text);
    }
  }

  lemma TitleExactly(line: string)
    ensures KindOf(line).Heading? <==> Title(line)
    ensures KindOf(line) == Heading(true) <==> Strip(line) == "## Acceptance Criteria"
  {
    if Strip(line) == "## Acceptance Criteria" {
      assert Strip(line)[..3] == "## ";
    }
  }

  lemma SectionExactly(body: string, i: nat)
    requires i < |SplitLines(body)|
    ensures InAcceptance(BodyKinds(body), i) <==> InSection(SplitLines(body), i)
  {
    var lines, kinds := SplitLines(body), BodyKinds(body);
    forall k | 0 <= k <= i
      ensures kinds[k].Heading? <==> Title(lines[k])
      ensures kinds[k] == Heading(true) <==> Strip(lines[k]) == "## Acceptance Criteria"
    {
      TitleExactly(lines[k]);
    }
  }

  // ---------------------------------------------------------------- lines

  /** The single characters that end a line. */
  predicate EndsLine(c: char) {
    c as int in {0x0A, 0x0B, 0x0C, 0x0D, 0x1C, 0x1D, 0x1E, 0x85, 0x2028, 0x2029}
  }

  /** One line end: a carriage return with a line feed, or one of the characters otherwise. */
  predicate LineEnd(end: string, rest: string) {
    end == "\r\n" || (|end| == 1 && EndsLine(end[0]) && (end == "\r" && rest != "" ==> rest[0] != '\n'))
  }

  /** A text is split at every line end, and a last line without one counts unless it is empty. */
  lemma LinesSplitExactly(line: string, end: string, rest: string)
    requires (forall c | c in line :: !EndsLine(c)) && LineEnd(end, rest)
    ensures SplitLines(line + end + rest) == [line] + SplitLines(rest)
    ensures SplitLines(line) == if line == "" then [] else [line]
  {
    var s := line + end + rest;
    assert forall i | 0 <= i < |line| :: s[i] == line[i] && line[i] in line;
    assert s[|line|] == end[0] && IsBreak(end[0]);
    assert LineLength(s) == |line| && s[..|line|] == line;
    assert |end| == 1 && rest != "" ==> s[|line| + 1] == rest[0];
    assert |end| == 2 ==> s[|line| + 1] == '\n';
    assert NextLine(s, |line|) == |line| + |end| && s[|line| + |end|..] == rest;
    if line != "" {
      SplitLastLine(line);
    }
  }

  // ---------------------------------------------------------------- the writer

  /** Completing checks each open item of the section, keeping its indentation and text, and touches no other line. */
  lemma WriterChangesExactly(body: string, i: nat)
    requires i < |SplitLines(body)|
    ensures var lines, completed := SplitLines(body), CompleteLines(Classified(body), false);
      && |completed| == |lines|
      && (!InSection(lines, i) || (forall text :: !Open(lines[i], text)) ==> completed[i] == lines[i])
      && forall indent, text | InSection(lines, i) && OpenAs(lines[i], indent, text) ::
           completed[i] == indent + ("- [x] " + text)
  {
    var lines, line := SplitLines(body), SplitLines(body)[i];
    SectionExactly(body, i);
    OnlyOpenItemsChange(Classified(body), i);
    if KindOf(line).OpenItem? {
      OpenExactly(line, KindOf(line).text);
    }
    forall indent, text | OpenAs(line, indent, text)
      ensures KindOf(line) == OpenItem(text, indent + ("- [x] " + text))
    {
      OpenHasKind(line, indent, text);
    }
  }

  ghost predicate IsOpen(line: string) {
    exists text :: Open(line, text)
  }

  ghost predicate IsDone(line: string) {
    exists text :: Done(line, text)
  }

  /** Some line of the section is an item, open or done. */
  ghost predicate SectionHasItem(lines: seq<string>) {
    exists i | 0 <= i < |lines| :: InSection(lines, i) && (IsOpen(lines[i]) || IsDone(lines[i]))
  }

  ghost predicate SectionHasOpenItem(lines: seq<string>) {
    exists i | 0 <= i < |lines| :: InSection(lines, i) && IsOpen(lines[i])
  }

  lemma {:induction false} ItemsExactly(kinds: seq<Kind>, inside: bool)
    ensures HasItem(kinds, inside) <==>
      exists i | 0 <= i < |kinds| :: InsideAt(kinds, inside, i) && (kinds[i].OpenItem? || kinds[i].DoneItem?)
    ensures HasOpenItem(kinds, inside) <==>
      exists i | 0 <= i < |kinds| :: InsideAt(kinds, inside, i) && kinds[i].OpenItem?
  {
    if kinds != [] {
      var now, rest := Inside(inside, kinds[0]), kinds[1..];
      ItemsExactly(rest, now);
      forall i | 0 < i < |kinds|
        ensures InsideAt(kinds, inside, i) == InsideAt(rest, now, i - 1) && kinds[i] == rest[i - 1]
      {
        InsideShifts(kinds, inside, i);
      }
      assert InsideAt(kinds, inside, 0) == now;
      if i :| 0 <= i < |rest| && InsideAt(rest, now, i) && (rest[i].OpenItem? || rest[i].DoneItem?) {
        assert InsideAt(kinds, inside, i + 1) && kinds[i + 1] == rest[i];
      }
      if i :| 0 <= i < |rest| && InsideAt(rest, now, i) && rest[i].OpenItem? {
        assert InsideAt(kinds, inside, i + 1) && kinds[i + 1] == rest[i];
      }
    }
  }

  lemma LineIsOpenOrDone(line: string)
    ensures KindOf(line).OpenItem? <==> IsOpen(line)
    ensures KindOf(line).DoneItem? <==> IsDone(line)
  {
    if KindOf(line).OpenItem? || KindOf(line).DoneItem? {
      OpenExactly(line, KindOf(line).text);
      DoneExactly(line, KindOf(line).text);
    }
    if text :| Open(line, text) {
      OpenExactly(line, text);
    }
    if text :| Done(line, text) {
      DoneExactly(line, text);
    }
  }

  lemma LineAgrees(body: string, i: nat)
    requires i < |SplitLines(body)|
    ensures InsideAt(BodyKinds(body), false, i) <==> InSection(SplitLines(body), i)
    ensures BodyKinds(body)[i] == KindOf(SplitLines(body)[i])
    ensures BodyKinds(body)[i].OpenItem? <==> IsOpen(SplitLines(body)[i])
    ensures BodyKinds(body)[i].DoneItem? <==> IsDone(SplitLines(body)[i])
  {
    InsideIsLastHeading(BodyKinds(body), i);
    SectionExactly(body, i);
    LineIsOpenOrDone(SplitLines(body)[i]);
  }

  lemma BodyHasItemExactly(body: string)
    ensures HasItem(BodyKinds(body), false) <==> SectionHasItem(SplitLines(body))
  {
    var lines, kinds := SplitLines(body), BodyKinds(body);
    ItemsExactly(kinds, false);
    if HasItem(kinds, false) {
      var i :| 0 <= i < |kinds| && InsideAt(kinds, false, i) && (kinds[i].OpenItem? || kinds[i].DoneItem?);
      LineAgrees(body, i);
    }
    if SectionHasItem(lines) {
      var i :| 0 <= i < |lines| && InSection(lines, i) && (IsOpen(lines[i]) || IsDone(lines[i]));
      LineAgrees(body, i);
    }
  }

  lemma BodyHasOpenExactly(body: string)
    ensures HasOpenItem(BodyKinds(body), false) <==> SectionHasOpenItem(SplitLines(body))
  {
    var lines, kinds := SplitLines(body), BodyKinds(body);
    ItemsExactly(kinds, false);
    if HasOpenItem(kinds, false) {
      var i :| 0 <= i < |kinds| && InsideAt(kinds, false, i) && kinds[i].OpenItem?;
      LineAgrees(body, i);
    }
    if SectionHasOpenItem(lines) {
      var i :| 0 <= i < |lines| && InSection(lines, i) && IsOpen(lines[i]);
      LineAgrees(body, i);
    }
  }

  /** A body is refused exactly when its section has no item, and rewritten exactly when one is open. */
  lemma CompletesExactly(body: string)
    ensures Complete(body).Success? <==> SectionHasItem(SplitLines(body))
    ensures Complete(body).Success? ==>
      Complete(body).value == if SectionHasOpenItem(SplitLines(body)) then
                                Render(CompleteLines(Classified(body), false), body)
                              else body
  {
    BodyHasItemExactly(body);
    BodyHasOpenExactly(body);
    assert Kinds(Classified(body)) == BodyKinds(body);
  }

  // ---------------------------------------------------------------- the reader

  predicate ReadsOpen(line: string) {
    StartsWith(Strip(line), "- [ ] ")
  }

  predicate ReadsDone(line: string) {
    StartsWith(Strip(line), "- [x] ") || StartsWith(Strip(line), "- [X] ")
  }

  lemma MarkersDiffer(s: string)
    ensures ItemKind("", s).OpenItem? <==> StartsWith(s, "- [ ] ")
    ensures ItemKind("", s).DoneItem? <==> StartsWith(s, "- [x] ") || StartsWith(s, "- [X] ")
    ensures StartsWith(s, "- [ ] ") || StartsWith(s, "- [x] ") || StartsWith(s, "- [X] ") ==> !StartsWith(s, "## ")
  {
    if StartsWith(s, "- [ ] ") || StartsWith(s, "- [x] ") || StartsWith(s, "- [X] ") {
      assert s[..6][0] == '-' && s[..6][3] == s[3];
      assert s[..3][0] == '-';
    }
  }

  lemma ReaderKindExactly(line: string)
    ensures ReaderKindOf(line).OpenItem? <==> ReadsOpen(line)
    ensures ReaderKindOf(line).DoneItem? <==> ReadsDone(line)
    ensures ReaderKindOf(line).Heading? <==> KindOf(line).Heading?
    ensures ReaderKindOf(line) == Heading(true) <==> KindOf(line) == Heading(true)
  {
    MarkersDiffer(Strip(line));
  }

  lemma {:induction false} AcceptedExactly(kinds: seq<Kind>, inside: bool, saw: bool)
    ensures Accepted(kinds, inside, saw) <==>
      && (forall i | 0 <= i < |kinds| && InsideAt(kinds, inside, i) :: !kinds[i].OpenItem?)
      && (saw || exists i | 0 <= i < |kinds| :: InsideAt(kinds, inside, i) && kinds[i].DoneItem?)
    decreases |kinds|
  {
    if kinds != [] {
      var now, rest := Inside(inside, kinds[0]), kinds[1..];
      AcceptedExactly(rest, now, saw || (now && kinds[0].DoneItem?));
      forall i | 0 < i < |kinds|
        ensures InsideAt(kinds, inside, i) == InsideAt(rest, now, i - 1) && kinds[i] == rest[i - 1]
      {
        InsideShifts(kinds, inside, i);
      }
      forall i | 0 <= i < |rest|
        ensures InsideAt(rest, now, i) == InsideAt(kinds, inside, i + 1) && rest[i] == kinds[i + 1]
      {
      }
      assert InsideAt(kinds, inside, 0) == now;
    }
  }

  lemma ReaderSectionExactly(body: string, i: nat)
    requires i < |SplitLines(body)|
    ensures InAcceptance(ReaderKinds(body), i) <==> InSection(SplitLines(body), i)
  {
    var lines, kinds := SplitLines(body), ReaderKinds(body);
    forall k | 0 <= k <= i
      ensures kinds[k].Heading? <==> Title(lines[k])
      ensures kinds[k] == Heading(true) <==> Strip(lines[k]) == "## Acceptance Criteria"
    {
      TitleExactly(lines[k]);
      ReaderKindExactly(lines[k]);
    }
  }

  lemma ReaderLineAgrees(body: string, i: nat)
    requires i < |SplitLines(body)|
    ensures InsideAt(ReaderKinds(body), false, i) <==> InSection(SplitLines(body), i)
    ensures ReaderKinds(body)[i].OpenItem? <==> ReadsOpen(SplitLines(body)[i])
    ensures ReaderKinds(body)[i].DoneItem? <==> ReadsDone(SplitLines(body)[i])
  {
    InsideIsLastHeading(ReaderKinds(body), i);
    ReaderSectionExactly(body, i);
    ReaderKindExactly(SplitLines(body)[i]);
  }

  ghost predicate SectionReadsOpen(lines: seq<string>) {
    exists i | 0 <= i < |lines| :: InSection(lines, i) && ReadsOpen(lines[i])
  }

  ghost predicate SectionReadsDone(lines: seq<string>) {
    exists i | 0 <= i < |lines| :: InSection(lines, i) && ReadsDone(lines[i])
  }

  lemma ReadsOpenExactly(body: string)
    ensures SectionReadsOpen(SplitLines(body)) <==>
      exists i | 0 <= i < |ReaderKinds(body)| :: InsideAt(ReaderKinds(body), false, i) && ReaderKinds(body)[i].OpenItem?
  {
    var lines, kinds := SplitLines(body), ReaderKinds(body);
    if i :| 0 <= i < |kinds| && InsideAt(kinds, false, i) && kinds[i].OpenItem? {
      ReaderLineAgrees(body, i);
    }
    if i :| 0 <= i < |lines| && InSection(lines, i) && ReadsOpen(lines[i]) {
      ReaderLineAgrees(body, i);
    }
  }

  lemma ReadsDoneExactly(body: string)
    ensures SectionReadsDone(SplitLines(body)) <==>
      exists i | 0 <= i < |ReaderKinds(body)| :: InsideAt(ReaderKinds(body), false, i) && ReaderKinds(body)[i].DoneItem?
  {
    var lines, kinds := SplitLines(body), ReaderKinds(body);
    if i :| 0 <= i < |kinds| && InsideAt(kinds, false, i) && kinds[i].DoneItem? {
      ReaderLineAgrees(body, i);
    }
    if i :| 0 <= i < |lines| && InSection(lines, i) && ReadsDone(lines[i]) {
      ReaderLineAgrees(body, i);
    }
  }

  /** The release reader accepts a body exactly when its section has a done item with text and no open one with text. */
  lemma AcceptsExactly(body: string)
    ensures Accepts(body) <==> SectionReadsDone(SplitLines(body)) && !SectionReadsOpen(SplitLines(body))
  {
    AcceptedExactly(ReaderKinds(body), false, false);
    ReadsOpenExactly(body);
    ReadsDoneExactly(body);
  }

  // ---------------------------------------------------------------- the refresh

  lemma {:induction false} CheckedExactly(kinds: seq<Kind>, inside: bool, text: string)
    ensures text in CheckedTexts(kinds, inside) <==>
      exists i | 0 <= i < |kinds| :: InsideAt(kinds, inside, i) && kinds[i] == DoneItem(text)
  {
    if kinds != [] {
      var now, rest := Inside(inside, kinds[0]), kinds[1..];
      CheckedExactly(rest, now, text);
      forall i | 0 < i < |kinds|
        ensures InsideAt(kinds, inside, i) == InsideAt(rest, now, i - 1) && kinds[i] == rest[i - 1]
      {
        InsideShifts(kinds, inside, i);
      }
      assert InsideAt(kinds, inside, 0) == now;
      if i :| 0 <= i < |rest| && InsideAt(rest, now, i) && rest[i] == DoneItem(text) {
        assert InsideAt(kinds, inside, i + 1) && kinds[i + 1] == rest[i];
      }
    }
  }

  /** Some line of the section is a done item with this text. */
  ghost predicate SectionHasDone(lines: seq<string>, text: string) {
    exists i | 0 <= i < |lines| :: InSection(lines, i) && Done(lines[i], text)
  }

  lemma BodyCheckedExactly(body: string, text: string)
    ensures text in CheckedTexts(BodyKinds(body), false) <==> SectionHasDone(SplitLines(body), text)
  {
    var lines, kinds := SplitLines(body), BodyKinds(body);
    CheckedExactly(kinds, false, text);
    forall i | 0 <= i < |lines|
      ensures InsideAt(kinds, false, i) <==> InSection(lines, i)
      ensures kinds[i] == DoneItem(text) <==> Done(lines[i], text)
    {
      InsideIsLastHeading(kinds, i);
      SectionExactly(body, i);
      DoneExactly(lines[i], text);
    }
  }

  /**
   A refresh checks each open item of the section whose text is that of a done item of the existing section, and
   touches no other line.
   */
  lemma RefreshWritesExactly(newBody: string, existing: string, i: nat)
    requires i < |SplitLines(newBody)|
    ensures var lines, checked := SplitLines(newBody), CheckedTexts(BodyKinds(existing), false);
      var refreshed := RefreshLines(Classified(newBody), false, checked);
      && |refreshed| == |lines|
      && (forall indent, text | InSection(lines, i) && OpenAs(lines[i], indent, text) ::
            refreshed[i] == if SectionHasDone(SplitLines(existing), text) then indent + ("- [x] " + text) else lines[i])
      && (!InSection(lines, i) || (forall text :: !Open(lines[i], text)) ==> refreshed[i] == lines[i])
      && Refresh(newBody, existing) ==
         if checked == {} then newBody else Render(RefreshLines(Classified(newBody), false, checked), newBody)
  {
    var line, checked := SplitLines(newBody)[i], CheckedTexts(BodyKinds(existing), false);
    RefreshLineAt(Classified(newBody), false, checked, i);
    InsideIsLastHeading(BodyKinds(newBody), i);
    SectionExactly(newBody, i);
    if KindOf(line).OpenItem? {
      OpenExactly(line, KindOf(line).text);
    }
    forall indent, text | OpenAs(line, indent, text)
      ensures KindOf(line) == OpenItem(text, indent + ("- [x] " + text))
      ensures text in checked <==> SectionHasDone(SplitLines(existing), text)
    {
      OpenHasKind(line, indent, text);
      BodyCheckedExactly(existing, text);
    }
  }
}
