/** Prometheus rendering of metric rows (src/nats_sinks/cli/metrics.py). */
module Prometheus {
  import opened Prelude

  /** str.replace for a one-character pattern. */
  function ReplaceAll(s: string, c: char, replacement: string): string {
    if s == "" then "" else (if s[0] == c then replacement else [s[0]]) + ReplaceAll(s[1..], c, replacement)
  }

  /** _escape_prometheus_label_value: backslashes first, then line feeds, then quotes. */
  function Escape(value: string): string {
    ReplaceAll(ReplaceAll(ReplaceAll(value, '\\', "\\\\"), '\n', "\\n"), '"', "\\\"")
  }

  datatype Label = Label(name: string, value: string)

  function RenderLabel(pair: Label): string {
    pair.name + "=\"" + Escape(pair.value) + "\""
  }

  function RenderLabels(labels: seq<Label>): string
    requires labels != []
  {
    if |labels| == 1 then RenderLabel(labels[0]) else RenderLabel(labels[0]) + "," + RenderLabels(labels[1..])
  }

  /** _prometheus_label_suffix, on the labels in their sorted order. */
  function LabelSuffix(labels: seq<Label>): string {
    if labels == [] then "" else "{" + RenderLabels(labels) + "}"
  }

  // ---------------------------------------------------------------- rows

  datatype Row = Row(observation: bool, kind: string, base: string, stat: string, labels: seq<Label>, value: string,
      description: string)

  datatype OutputLine =
    | Help(metric: string, text: string)
    | Type(metric: string, kind: string)
    | Sample(metric: string, series: string, suffix: string, value: string)

  /** Naming and the registry of metric descriptions, not modelled further. */
  datatype Catalogue = Catalogue(qualified: string -> string, described: string -> Option<string>)

  function Announcement(catalogue: Catalogue, row: Row): seq<OutputLine> {
    var metric := catalogue.qualified(row.base);
    if row.observation then [Help(metric, catalogue.described(row.base).GetOr(row.description)),
        Type(metric, "summary")]
    else [Help(metric, row.description), Type(metric, row.kind)]
  }

  function SampleOf(catalogue: Catalogue, row: Row): OutputLine {
    var metric := catalogue.qualified(row.base);
    Sample(metric, if row.observation then metric + "_" + row.stat else metric, LabelSuffix(row.labels), row.value)
  }

  /** The lines one row adds. */
  function RowLines(catalogue: Catalogue, row: Row, emitted: set<string>): seq<OutputLine> {
    (if catalogue.qualified(row.base) in emitted then [] else Announcement(catalogue, row)) + [SampleOf(catalogue, row)]
  }

  function RenderRows(catalogue: Catalogue, rows: seq<Row>, emitted: set<string>): seq<OutputLine> {
    if rows == [] then []
    else
      RowLines(catalogue, rows[0], emitted)
      + RenderRows(catalogue, rows[1..], emitted + {catalogue.qualified(rows[0].base)})
  }

  /** _render_prometheus, before the lines are printed and joined. */
  method RenderPrometheus(catalogue: Catalogue, rows: seq<Row>) returns (lines: seq<OutputLine>)
    ensures lines == RenderRows(catalogue, rows, {})
  {
    lines := [];
    var emitted: set<string> := {};
    assert rows[0..] == rows;
    for i := 0 to |rows|
      invariant lines + RenderRows(catalogue, rows[i..], emitted) == RenderRows(catalogue, rows, {})
    {
      var row := rows[i];
      var metric := catalogue.qualified(row.base);
      RenderNext(catalogue, rows, i, emitted, lines);
      if metric !in emitted {
        lines := lines + Announcement(catalogue, row);
        emitted := emitted + {metric};
      }
      lines := lines + [SampleOf(catalogue, row)];
    }
    assert rows[|rows|..] == [] && lines + [] == lines;
  }

  lemma RenderNext(catalogue: Catalogue, rows: seq<Row>, i: nat, emitted: set<string>, lines: seq<OutputLine>)
    requires i < |rows|
    ensures var metric := catalogue.qualified(rows[i].base);
      var announced := if metric in emitted then lines else lines + Announcement(catalogue, rows[i]);
      lines + RenderRows(catalogue, rows[i..], emitted) ==
      announced + [SampleOf(catalogue, rows[i])]
      + RenderRows(catalogue, rows[i + 1..], if metric in emitted then emitted else emitted + {metric})
  {
    var row, metric := rows[i], catalogue.qualified(rows[i].base);
    assert rows[i..][0] == row && rows[i..][1..] == rows[i + 1..];
    var emitted' := if metric in emitted then emitted else emitted + {metric};
    assert metric in emitted ==> emitted + {metric} == emitted;
    var rest := RenderRows(catalogue, rows[i + 1..], emitted');
    var own := if metric in emitted then [] else Announcement(catalogue, row);
    assert lines + (own + [SampleOf(catalogue, row)] + rest) == lines + own + [SampleOf(catalogue, row)] + rest;
    assert lines + [] == lines;
  }
}

/** Escaping loses nothing: the text exposition format reads back what was rendered. */
module PrometheusProofs {
  import opened Prelude
  import opened Prometheus

  // ---------------------------------------------------------------- escaping

  function EscapeChar(c: char): string {
    if c == '\\' then "\\\\" else if c == '\n' then "\\n" else if c == '"' then "\\\"" else [c]
  }

  /** The same escaping in one pass over the characters. */
  function EscapeOnce(value: string): string {
    if value == "" then "" else EscapeChar(value[0]) + EscapeOnce(value[1..])
  }

  lemma {:induction false} ReplaceOfConcat(a: string, b: string, c: char, replacement: string)
    ensures ReplaceAll(a + b, c, replacement) == ReplaceAll(a, c, replacement) + ReplaceAll(b, c, replacement)
  {
    if a == "" {
      assert a + b == b;
    } else {
      assert (a + b)[0] == a[0] && (a + b)[1..] == a[1..] + b;
      ReplaceOfConcat(a[1..], b, c, replacement);
    }
  }

  lemma ReplaceOne(c: char, d: char, replacement: string)
    ensures ReplaceAll([c], d, replacement) == if c == d then replacement else [c]
  {
    assert [c][1..] == "";
  }

  lemma ReplaceTwo(a: char, b: char, d: char, replacement: string)
    ensures ReplaceAll([a, b], d, replacement)
            == (if a == d then replacement else [a]) + (if b == d then replacement else [b])
  {
    assert [a, b] == [a] + [b];
    ReplaceOfConcat([a], [b], d, replacement);
    ReplaceOne(a, d, replacement);
    ReplaceOne(b, d, replacement);
  }

  lemma EscapeOneChar(c: char)
    ensures Escape([c]) == EscapeChar(c)
  {
    ReplaceOne(c, '\\', "\\\\");
    if c == '\\' {
      assert "\\\\" == ['\\', '\\'] && "\\\\" == "\\" + "\\";
      ReplaceTwo('\\', '\\', '\n', "\\n");
      ReplaceTwo('\\', '\\', '"', "\\\"");
    } else {
      ReplaceOne(c, '\n', "\\n");
      if c == '\n' {
        assert "\\n" == ['\\', 'n'] && "\\n" == "\\" + "n";
        ReplaceTwo('\\', 'n', '"', "\\\"");
      } else {
        ReplaceOne(c, '"', "\\\"");
      }
    }
  }

  /** The three replacements in sequence amount to a single character map. */
  lemma {:induction false} EscapeIsOnePass(value: string)
    ensures Escape(value) == EscapeOnce(value)
  {
    if value != "" {
      var c, rest := value[0], value[1..];
      assert value == [c] + rest;
      ReplaceOfConcat([c], rest, '\\', "\\\\");
      var a, b := ReplaceAll([c], '\\', "\\\\"), ReplaceAll(rest, '\\', "\\\\");
      ReplaceOfConcat(a, b, '\n', "\\n");
      ReplaceOfConcat(ReplaceAll(a, '\n', "\\n"), ReplaceAll(b, '\n', "\\n"), '"', "\\\"");
      EscapeOneChar(c);
      EscapeIsOnePass(rest);
    }
  }

  // ---------------------------------------------------------------- reading the exposition format

  /** Reads an escaped value up to its closing quote. */
  function ReadValue(s: string): Option<(string, string)> {
    if s == "" || s[0] == '\n' then None
    else if s[0] == '"' then Some(("", s[1..]))
    else if s[0] != '\\' then Prepend(s[0], ReadValue(s[1..]))
    else if |s| < 2 then None
    else if s[1] == '\\' || s[1] == '"' then Prepend(s[1], ReadValue(s[2..]))
    else if s[1] == 'n' then Prepend('\n', ReadValue(s[2..]))
    else None
  }

  function Prepend(c: char, read: Option<(string, string)>): Option<(string, string)> {
    if read.None? then None else Some(([c] + read.value.0, read.value.1))
  }

  /** Label names of the format, [a-zA-Z_][a-zA-Z0-9_]*. */
  predicate IsNameStart(c: char) {
    'a' <= c <= 'z' || 'A' <= c <= 'Z' || c == '_'
  }

  predicate IsNameChar(c: char) {
    IsNameStart(c) || '0' <= c <= '9'
  }

  predicate ValidName(name: string) {
    name != "" && IsNameStart(name[0]) && forall c | c in name :: IsNameChar(c)
  }

  function NameLength(s: string): (n: nat)
    ensures n <= |s|
  {
    if s == "" || !IsNameChar(s[0]) then 0 else 1 + NameLength(s[1..])
  }

  /** Reads one label and its quoted value. */
  function ReadLabel(s: string): Option<(Label, string)> {
    var n := NameLength(s);
    var rest := s[n..];
    if !ValidName(s[..n]) || |rest| < 2 || rest[..2] != "=\"" then None
    else
      var read := ReadValue(rest[2..]);
      if read.None? then None else Some((Label(s[..n], read.value.0), read.value.1))
  }

  /** Reads labels separated by commas, up to the closing brace. */
  function ReadLabels(s: string): Option<seq<Label>>
    decreases |s|
  {
    var first := ReadLabel(s);
    if first.None? then None
    else
      var (pair, after) := first.value;
      if after == "}" then Some([pair])
      else if after == "" || after[0] != ',' || |after| > |s| then None
      else
        var more := ReadLabels(after[1..]);
        if more.None? then None else Some([pair] + more.value)
  }

  function ReadSuffix(s: string): Option<seq<Label>> {
    if s == "" then Some([]) else if s[0] != '{' then None else ReadLabels(s[1..])
  }

  // ---------------------------------------------------------------- round trip

  /** An escaped value followed by its closing quote reads back, so it holds no bare quote and no raw line feed. */
  lemma {:induction false} ValueReadsBack(value: string, after: string)
    ensures ReadValue(EscapeOnce(value) + "\"" + after) == Some((value, after))
  {
    if value == "" {
      assert ("" + "\"" + after)[1..] == after;
    } else {
      var c, tail := value[0], EscapeOnce(value[1..]) + "\"" + after;
      ValueReadsBack(value[1..], after);
      var s := EscapeOnce(value) + "\"" + after;
      assert s == EscapeChar(c) + tail;
      if |EscapeChar(c)| == 1 {
        assert s[1..] == tail;
      } else {
        assert s[2..] == tail && s[0] == '\\' && s[1] == EscapeChar(c)[1];
      }
      assert [c] + value[1..] == value;
    }
  }

  lemma {:induction false} NameIsRead(name: string, rest: string)
    requires (forall c | c in name :: IsNameChar(c)) && rest != "" && !IsNameChar(rest[0])
    ensures NameLength(name + rest) == |name|
  {
    if name == "" {
      assert name + rest == rest;
    } else {
      assert (name + rest)[0] == name[0] && (name + rest)[1..] == name[1..] + rest;
      NameIsRead(name[1..], rest);
    }
  }

  lemma FirstLabelReads(pair: Label, after: string)
    requires ValidName(pair.name)
    ensures ReadLabel(RenderLabel(pair) + after) == Some((pair, after))
  {
    var tail := Escape(pair.value) + "\"" + after;
    var s := RenderLabel(pair) + after;
    assert s == pair.name + ("=\"" + tail);
    NameIsRead(pair.name, "=\"" + tail);
    EscapeIsOnePass(pair.value);
    ValueReadsBack(pair.value, after);
    assert s[..|pair.name|] == pair.name;
    assert s[|pair.name|..] == "=\"" + tail && ("=\"" + tail)[2..] == tail;
  }

  lemma LastLabelReads(s: string, pair: Label)
    requires ReadLabel(s) == Some((pair, "}"))
    ensures ReadLabels(s) == Some([pair])
  {
  }

  lemma OneMoreLabelReads(s: string, pair: Label, rest: string, more: seq<Label>)
    requires ReadLabel(s) == Some((pair, "," + rest)) && |rest| < |s| && ReadLabels(rest) == Some(more)
    ensures ReadLabels(s) == Some([pair] + more)
  {
    assert ("," + rest)[1..] == rest;
  }

  lemma LabelsAreRead(s: string, labels: seq<Label>, rest: string)
    requires |labels| > 1 && s == RenderLabel(labels[0]) + ("," + rest)
    requires ReadLabel(s) == Some((labels[0], "," + rest)) && ReadLabels(rest) == Some(labels[1..])
    ensures ReadLabels(s) == Some(labels)
  {
    OneMoreLabelReads(s, labels[0], rest, labels[1..]);
    assert labels == [labels[0]] + labels[1..];
  }

  lemma LabelsInTurn(labels: seq<Label>)
    requires |labels| > 1
    ensures RenderLabels(labels) + "}" == RenderLabel(labels[0]) + ("," + (RenderLabels(labels[1..]) + "}"))
  {
    Regroup(RenderLabel(labels[0]), ",", RenderLabels(labels[1..]), "}");
  }

  lemma Regroup(a: string, b: string, c: string, d: string)
    ensures a + b + c + d == a + (b + (c + d))
  {
  }

  lemma {:induction false} LabelsReadBack(labels: seq<Label>)
    requires labels != [] && forall l | l in labels :: ValidName(l.name)
    ensures ReadLabels(RenderLabels(labels) + "}") == Some(labels)
  {
    var s := RenderLabels(labels) + "}";
    if |labels| == 1 {
      FirstLabelReads(labels[0], "}");
      LastLabelReads(s, labels[0]);
      assert labels == [labels[0]];
    } else {
      var rest := RenderLabels(labels[1..]) + "}";
      LabelsInTurn(labels);
      assert s == RenderLabel(labels[0]) + ("," + rest);
      FirstLabelReads(labels[0], "," + rest);
      LabelsReadBack(labels[1..]);
      LabelsAreRead(s, labels, rest);
    }
  }

  lemma BraceIsSkipped(body: string)
    ensures ReadSuffix("{" + body) == ReadLabels(body)
  {
    var s := "{" + body;
    assert s[0] == '{' && s[1..] == body;
  }

  /** Main result: the rendered suffix parses back to the labels. */
  lemma SuffixReadsBack(labels: seq<Label>)
    requires forall l | l in labels :: ValidName(l.name)
    ensures ReadSuffix(LabelSuffix(labels)) == Some(labels)
  {
    if labels != [] {
      var body := RenderLabels(labels) + "}";
      LabelsReadBack(labels);
      BraceIsSkipped(body);
      assert LabelSuffix(labels) == "{" + body;
    }
  }

  // ---------------------------------------------------------------- announcements

  function SamplesOf(lines: seq<OutputLine>): seq<OutputLine> {
    if lines == [] then [] else (if lines[0].Sample? then [lines[0]] else []) + SamplesOf(lines[1..])
  }

  predicate AnnouncedOnce(lines: seq<OutputLine>, emitted: set<string>) {
    && (forall i | 0 <= i < |lines| && lines[i].Sample? ::
          lines[i].metric in emitted || exists j | 0 <= j < i :: lines[j].Help? && lines[j].metric == lines[i].metric)
    && (forall i | 0 <= i < |lines| && lines[i].Help? :: lines[i].metric !in emitted)
    && forall i, j | 0 <= i < j < |lines| && lines[i].Help? && lines[j].Help? :: lines[i].metric != lines[j].metric
  }

  lemma AnnounceMore(first: seq<OutputLine>, metric: string, rest: seq<OutputLine>, emitted: set<string>)
    requires first != [] && AnnouncedOnce(first, emitted) && AnnouncedOnce(rest, emitted + {metric})
    requires forall l | l in first :: l.metric == metric
    requires metric in emitted || exists j | 0 <= j < |first| :: first[j].Help?
    ensures AnnouncedOnce(first + rest, emitted)
  {
    var lines := first + rest;
    forall i | 0 <= i < |lines| && lines[i].Sample?
      ensures
        || lines[i].metric in emitted
        || exists j | 0 <= j < i :: lines[j].Help? && lines[j].metric == lines[i].metric
    {
      if i < |first| {
        assert lines[i] == first[i];
        if lines[i].metric !in emitted {
          var j :| 0 <= j < i && first[j].Help? && first[j].metric == first[i].metric;
          assert lines[j] == first[j];
        }
      } else {
        var k := i - |first|;
        assert lines[i] == rest[k];
        if rest[k].metric == metric && metric !in emitted {
          var j :| 0 <= j < |first| && first[j].Help?;
          assert lines[j] == first[j];
        } else if rest[k].metric !in emitted {
          var j :| 0 <= j < k && rest[j].Help? && rest[j].metric == rest[k].metric;
          assert lines[|first| + j] == rest[j];
        }
      }
    }
  }

  lemma AnnouncementShape(catalogue: Catalogue, row: Row)
    ensures var a, metric := Announcement(catalogue, row), catalogue.qualified(row.base);
      && |a| == 2 && a[0].Help? && a[1].Type? && a[0].metric == a[1].metric == metric && SamplesOf(a) == []
  {
    var a := Announcement(catalogue, row);
    var last := a[1..];
    assert last == [a[1]] && last[1..] == [];
    assert SamplesOf(last) == [] + SamplesOf(last[1..]);
  }

  lemma NewMetric(help: OutputLine, kind: OutputLine, sample: OutputLine, emitted: set<string>)
    requires help.Help? && kind.Type? && sample.Sample? && help.metric == kind.metric == sample.metric
    requires help.metric !in emitted
    ensures AnnouncedOnce([help, kind, sample], emitted)
  {
    var lines := [help, kind, sample];
    forall i | 0 <= i < |lines| && lines[i].Sample?
      ensures exists j | 0 <= j < i :: lines[j].Help? && lines[j].metric == lines[i].metric
    {
      assert i == 2 && lines[0] == help;
    }
  }

  lemma RowIsAnnounced(catalogue: Catalogue, row: Row, emitted: set<string>)
    ensures var first := RowLines(catalogue, row, emitted);
      && first != [] && AnnouncedOnce(first, emitted) && SamplesOf(first) == [SampleOf(catalogue, row)]
      && (forall l | l in first :: l.metric == catalogue.qualified(row.base))
      && (catalogue.qualified(row.base) in emitted || first[0].Help?)
  {
    var a, sample := Announcement(catalogue, row), SampleOf(catalogue, row);
    assert [sample][1..] == [] && SamplesOf([sample]) == [sample];
    if catalogue.qualified(row.base) !in emitted {
      AnnouncementShape(catalogue, row);
      SamplesOfConcat(a, [sample]);
      assert a + [sample] == [a[0], a[1], sample];
      NewMetric(a[0], a[1], sample, emitted);
    } else {
      assert RowLines(catalogue, row, emitted) == [sample];
    }
  }

  /** Every metric is announced once, before its first sample. */
  lemma {:induction false} MetricsAreAnnouncedOnce(catalogue: Catalogue, rows: seq<Row>, emitted: set<string>)
    ensures AnnouncedOnce(RenderRows(catalogue, rows, emitted), emitted)
  {
    if rows != [] {
      var metric := catalogue.qualified(rows[0].base);
      RowIsAnnounced(catalogue, rows[0], emitted);
      MetricsAreAnnouncedOnce(catalogue, rows[1..], emitted + {metric});
      AnnounceMore(RowLines(catalogue, rows[0], emitted), metric,
          RenderRows(catalogue, rows[1..], emitted + {metric}), emitted);
    }
  }

  /** Row k is the first of its metric among the rows, and none of that metric was announced before. */
  predicate FirstOfMetric(catalogue: Catalogue, rows: seq<Row>, emitted: set<string>, k: nat) {
    && k < |rows| && catalogue.qualified(rows[k].base) !in emitted
    && forall j | 0 <= j < k :: catalogue.qualified(rows[j].base) != catalogue.qualified(rows[k].base)
  }

  /** The two lines announce row k: a summary with its registered description, or a metric of the row's own kind. */
  predicate Announces(catalogue: Catalogue, row: Row, help: OutputLine, kind: OutputLine) {
    && help == Help(catalogue.qualified(row.base),
                    if row.observation && catalogue.described(row.base).Some? then catalogue.described(row.base).value
                    else row.description)
    && kind == Type(catalogue.qualified(row.base), if row.observation then "summary" else row.kind)
  }

  lemma FirstOfMetricNext(catalogue: Catalogue, rows: seq<Row>, emitted: set<string>, k: nat)
    requires rows != []
    ensures FirstOfMetric(catalogue, rows[1..], emitted + {catalogue.qualified(rows[0].base)}, k) <==>
            FirstOfMetric(catalogue, rows, emitted, k + 1)
  {
    assert forall j | 0 <= j < |rows| - 1 :: rows[1..][j] == rows[j + 1];
    if FirstOfMetric(catalogue, rows[1..], emitted + {catalogue.qualified(rows[0].base)}, k) {
      assert forall j | 0 < j < k + 1 :: rows[j] == rows[1..][j - 1];
    }
  }

  /** Each announcement is that of the first row of its metric, help and type together. */
  lemma {:induction false} AnnouncementsFitRows(catalogue: Catalogue, rows: seq<Row>, emitted: set<string>, i: nat)
    requires i < |RenderRows(catalogue, rows, emitted)| && RenderRows(catalogue, rows, emitted)[i].Help?
    ensures var lines := RenderRows(catalogue, rows, emitted);
      && i + 1 < |lines|
      && exists k: nat ::
           FirstOfMetric(catalogue, rows, emitted, k) && Announces(catalogue, rows[k], lines[i], lines[i + 1])
  {
    var first := RowLines(catalogue, rows[0], emitted);
    var emitted' := emitted + {catalogue.qualified(rows[0].base)};
    var rest := RenderRows(catalogue, rows[1..], emitted');
    assert RenderRows(catalogue, rows, emitted) == first + rest;
    if i < |first| {
      assert FirstOfMetric(catalogue, rows, emitted, 0) && Announces(catalogue, rows[0], first[0], first[1]);
    } else {
      AnnouncementsFitRows(catalogue, rows[1..], emitted', i - |first|);
      var k: nat :| FirstOfMetric(catalogue, rows[1..], emitted', k)
                    && Announces(catalogue, rows[1..][k], rest[i - |first|], rest[i - |first| + 1]);
      FirstOfMetricNext(catalogue, rows, emitted, k);
    }
  }

  function Samples(catalogue: Catalogue, rows: seq<Row>): seq<OutputLine> {
    seq(|rows|, i requires 0 <= i < |rows| => SampleOf(catalogue, rows[i]))
  }

  lemma SamplesInTurn(catalogue: Catalogue, rows: seq<Row>)
    requires rows != []
    ensures Samples(catalogue, rows) == [SampleOf(catalogue, rows[0])] + Samples(catalogue, rows[1..])
  {
  }

  lemma SamplesOfRow(catalogue: Catalogue, row: Row, rest: seq<OutputLine>, emitted: set<string>)
    ensures SamplesOf(RowLines(catalogue, row, emitted) + rest) == [SampleOf(catalogue, row)] + SamplesOf(rest)
  {
    RowIsAnnounced(catalogue, row, emitted);
    SamplesOfConcat(RowLines(catalogue, row, emitted), rest);
  }

  /** The line is the sample of the row: a statistic has a series of its own, and the labels read back. */
  predicate Shows(catalogue: Catalogue, row: Row, line: OutputLine) {
    && line.Sample? && line.metric == catalogue.qualified(row.base) && line.value == row.value
    && line.series == catalogue.qualified(row.base) + (if row.observation then "_" + row.stat else "")
    && ((forall l | l in row.labels :: ValidName(l.name)) ==> ReadSuffix(line.suffix) == Some(row.labels))
  }

  lemma SampleShows(catalogue: Catalogue, row: Row)
    ensures Shows(catalogue, row, SampleOf(catalogue, row))
  {
    var metric := catalogue.qualified(row.base);
    assert metric + "" == metric && metric + "_" + row.stat == metric + ("_" + row.stat);
    if forall l | l in row.labels :: ValidName(l.name) {
      SuffixReadsBack(row.labels);
    }
  }

  /** The samples are those of the rows, in order. */
  lemma {:induction false} SamplesAreTheRows(catalogue: Catalogue, rows: seq<Row>, emitted: set<string>)
    ensures SamplesOf(RenderRows(catalogue, rows, emitted)) == Samples(catalogue, rows)
    ensures |Samples(catalogue, rows)| == |rows|
    ensures forall i | 0 <= i < |rows| :: Shows(catalogue, rows[i], Samples(catalogue, rows)[i])
  {
    if rows != [] {
      var emitted' := emitted + {catalogue.qualified(rows[0].base)};
      SamplesInTurn(catalogue, rows);
      SamplesOfRow(catalogue, rows[0], RenderRows(catalogue, rows[1..], emitted'), emitted);
      SamplesAreTheRows(catalogue, rows[1..], emitted');
      SampleShows(catalogue, rows[0]);
      assert forall i | 0 < i < |rows| :: rows[i] == rows[1..][i - 1];
    }
  }

  lemma {:induction false} SamplesOfConcat(a: seq<OutputLine>, b: seq<OutputLine>)
    ensures SamplesOf(a + b) == SamplesOf(a) + SamplesOf(b)
  {
    if a == [] {
      assert a + b == b;
    } else {
      assert (a + b)[0] == a[0] && (a + b)[1..] == a[1..] + b;
      SamplesOfConcat(a[1..], b);
    }
  }
}
