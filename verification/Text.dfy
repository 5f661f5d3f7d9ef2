/** Python string operations used across the modelled code, and the facts about them that are needed. */
module Text {

  /** str.isspace for one character, which is also what strip removes. */
  predicate IsSpace(c: char) {
    var n := c as int;
    || 0x09 <= n <= 0x0D || 0x1C <= n <= 0x20 || n == 0x85 || n == 0xA0 || n == 0x1680
    || 0x2000 <= n <= 0x200A || n == 0x2028 || n == 0x2029 || n == 0x202F || n == 0x205F || n == 0x3000
  }

  function LStrip(s: string): (r: string)
    ensures |r| <= |s| && r == s[|s| - |r|..]
    ensures forall i | 0 <= i < |s| - |r| :: IsSpace(s[i])
    ensures r != "" ==> !IsSpace(r[0])
  {
    if s != "" && IsSpace(s[0]) then LStrip(s[1..]) else s
  }

  function RStrip(s: string): (r: string)
    ensures |r| <= |s| && r == s[..|r|]
    ensures forall i | |r| <= i < |s| :: IsSpace(s[i])
    ensures r != "" ==> !IsSpace(r[|r| - 1])
  {
    if s != "" && IsSpace(s[|s| - 1]) then RStrip(s[..|s| - 1]) else s
  }

  predicate Stripped(s: string) {
    s != "" ==> !IsSpace(s[0]) && !IsSpace(s[|s| - 1])
  }

  /** str.strip. */
  function Strip(s: string): (r: string)
    ensures Stripped(r)
  {
    RStrip(LStrip(s))
  }

  lemma StripFixes(s: string)
    requires Stripped(s)
    ensures Strip(s) == s
  {
  }

  /** The characters Python counts as white space. */
  predicate White(c: char) {
    c as int in {
      0x09, 0x0A, 0x0B, 0x0C, 0x0D, 0x1C, 0x1D, 0x1E, 0x1F, 0x20, 0x85, 0xA0, 0x1680, 0x2000, 0x2001, 0x2002, 0x2003,
      0x2004, 0x2005, 0x2006, 0x2007, 0x2008, 0x2009, 0x200A, 0x2028, 0x2029, 0x202F, 0x205F, 0x3000}
  }

  predicate AllWhite(s: string) {
    forall c | c in s :: White(c)
  }

  lemma WhiteIsSpace(c: char)
    ensures White(c) <==> IsSpace(c)
  {
  }

  predicate AllSpace(s: string) {
    forall c | c in s :: IsSpace(c)
  }

  lemma {:induction false} LStripsSpace(before: string, rest: string)
    requires AllSpace(before) && (rest != "" ==> !IsSpace(rest[0]))
    ensures LStrip(before + rest) == rest
  {
    if before == "" {
      assert before + rest == rest;
    } else {
      assert IsSpace(before[0]) && (before + rest)[1..] == before[1..] + rest;
      LStripsSpace(before[1..], rest);
    }
  }

  lemma {:induction false} RStripsSpace(text: string, after: string)
    requires AllSpace(after) && (text != "" ==> !IsSpace(text[|text| - 1]))
    ensures RStrip(text + after) == text
  {
    if after == "" {
      assert text + after == text;
    } else {
      var n := |after| - 1;
      assert IsSpace(after[n]) && (text + after)[..|text| + n] == text + after[..n];
      RStripsSpace(text, after[..n]);
    }
  }

  lemma StripsSpace(before: string, text: string, after: string)
    requires AllSpace(before) && AllSpace(after) && Stripped(text)
    ensures Strip(before + text + after) == text
  {
    if text == "" {
      var s := before + text + after;
      assert s == before + after && s + "" == s;
      LStripsSpace(s, "");
    } else {
      assert before + text + after == before + (text + after);
      LStripsSpace(before, text + after);
      RStripsSpace(text, after);
    }
  }

  /** Stripping takes away all white space on both sides, and nothing else. */
  lemma StripsExactly(before: string, text: string, after: string)
    requires AllWhite(before) && AllWhite(after)
    requires text != "" ==> !White(text[0]) && !White(text[|text| - 1])
    ensures Strip(before + text + after) == text
  {
    forall c
      ensures White(c) <==> IsSpace(c)
    {
      WhiteIsSpace(c);
    }
    StripsSpace(before, text, after);
  }

  predicate StartsWith(s: string, prefix: string) {
    |prefix| <= |s| && s[..|prefix|] == prefix
  }

  predicate EndsWith(s: string, suffix: string) {
    |suffix| <= |s| && s[|s| - |suffix|..] == suffix
  }

  predicate Contains(s: string, part: string) {
    StartsWith(s, part) || (s != "" && Contains(s[1..], part))
  }

  /** str.split with a one-character separator: never empty. */
  function Split(s: string, sep: char): (parts: seq<string>)
    ensures parts != []
    ensures forall p | p in parts :: sep !in p
  {
    if s == "" then [""]
    else if s[0] == sep then [""] + Split(s[1..], sep)
    else
      var rest := Split(s[1..], sep);
      [[s[0]] + rest[0]] + rest[1..]
  }

  function Join(parts: seq<string>, sep: string): string {
    if parts == [] then ""
    else if |parts| == 1 then parts[0]
    else parts[0] + sep + Join(parts[1..], sep)
  }

  lemma {:induction false} SplitAtFirst(head: string, tail: string, sep: char)
    requires sep !in head
    ensures Split(head + [sep] + tail, sep) == [head] + Split(tail, sep)
  {
    if head == "" {
      assert head + [sep] + tail == [sep] + tail;
      assert ([sep] + tail)[1..] == tail;
    } else {
      assert head + [sep] + tail == [head[0]] + (head[1..] + [sep] + tail);
      SplitAtFirst(head[1..], tail, sep);
      assert [head[0]] + head[1..] == head;
    }
  }

  lemma {:induction false} SplitWhole(s: string, sep: char)
    requires sep !in s
    ensures Split(s, sep) == [s]
  {
    if s != "" {
      SplitWhole(s[1..], sep);
      assert [s[0]] + s[1..] == s;
    }
  }

  lemma {:induction false} SplitOfJoin(parts: seq<string>, sep: char)
    requires parts != [] && forall p | p in parts :: sep !in p
    ensures Split(Join(parts, [sep]), sep) == parts
  {
    if |parts| == 1 {
      SplitWhole(parts[0], sep);
    } else {
      var rest := Join(parts[1..], [sep]);
      SplitOfJoin(parts[1..], sep);
      SplitAtFirst(parts[0], rest, sep);
      assert Join(parts, [sep]) == parts[0] + [sep] + rest && parts == [parts[0]] + parts[1..];
    }
  }
}
