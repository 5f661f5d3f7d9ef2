/** NATS subject patterns (src/nats_sinks/core/subjects.py). */
module Subjects {
  import opened Text

  /** Tokens a validated pattern may consist of. */
  predicate ValidToken(token: string) {
    && token != "" && '.' !in token
    && ('>' in token ==> token == ">") && ('*' in token ==> token == "*")
    && forall c | c in token :: !IsSpace(c)
  }

  predicate ValidTokens(tokens: seq<string>) {
    && tokens != []
    && (forall t | t in tokens :: ValidToken(t))
    && forall i | 0 <= i < |tokens| - 1 :: tokens[i] != ">"
  }

  /** validate_subject_pattern accepts the pattern. */
  predicate ValidPattern(pattern: string) {
    && pattern != "" && Strip(pattern) == pattern
    && ValidTokens(Split(pattern, '.'))
  }

  function MatchTokens(pattern: seq<string>, subject: seq<string>): bool {
    if pattern == [] then subject == []
    else if pattern[0] == ">" then |pattern| == 1 && subject != []
    else if subject == [] then false
    else (pattern[0] == "*" || pattern[0] == subject[0]) && MatchTokens(pattern[1..], subject[1..])
  }

  /** matches_subject. */
  predicate MatchesSubject(pattern: string, subject: string) {
    MatchTokens(Split(pattern, '.'), Split(subject, '.'))
  }

  predicate SubsetTokens(candidate: seq<string>, allowed: seq<string>) {
    if candidate == [] then allowed == []
    else if allowed == [] then false
    else if allowed[0] == ">" then true
    else if candidate[0] == ">" then false
    else if allowed[0] == "*" then SubsetTokens(candidate[1..], allowed[1..])
    else candidate[0] != "*" && candidate[0] == allowed[0] && SubsetTokens(candidate[1..], allowed[1..])
  }

  /** subject_pattern_is_subset. */
  predicate PatternIsSubset(candidate: string, allowed: string) {
    ValidPattern(candidate) && ValidPattern(allowed) && SubsetTokens(Split(candidate, '.'), Split(allowed, '.'))
  }

  // ---------------------------------------------------------------- exactness

  predicate TailOk(tokens: seq<string>) {
    && (forall t | t in tokens :: ValidToken(t))
    && forall i | 0 <= i < |tokens| - 1 :: tokens[i] != ">"
  }

  /** A wild card stands alone, and no token is empty or holds white space. */
  predicate WellFormedToken(t: string) {
    t != "" && (t == ">" || t == "*" || ('>' !in t && '*' !in t)) && forall c | c in t :: !White(c)
  }

  lemma TokenExactly(t: string)
    requires '.' !in t
    ensures ValidToken(t) <==> WellFormedToken(t)
  {
    forall c
      ensures White(c) <==> IsSpace(c)
    {
      WhiteIsSpace(c);
    }
    assert t == ">" ==> '*' !in t;
    assert t == "*" ==> '>' !in t;
  }

  /** Wild cards stand alone, the tail one only at the end, and no token is empty or holds white space. */
  lemma ValidExactly(tokens: seq<string>)
    requires tokens != [] && forall t | t in tokens :: '.' !in t
    ensures ValidPattern(Join(tokens, ".")) <==>
      && (forall t | t in tokens :: WellFormedToken(t))
      && (forall i | 0 <= i < |tokens| - 1 :: tokens[i] != ">")
  {
    TokensExactly(tokens);
    SplitOfJoin(tokens, '.');
    assert "." == ['.'];
    if ValidTokens(tokens) {
      JoinedIsStripped(tokens);
      StripFixes(Join(tokens, "."));
    }
  }

  lemma TokensExactly(tokens: seq<string>)
    requires tokens != [] && forall t | t in tokens :: '.' !in t
    ensures ValidTokens(tokens) <==>
      (forall t | t in tokens :: WellFormedToken(t)) && forall i | 0 <= i < |tokens| - 1 :: tokens[i] != ">"
  {
    forall t | t in tokens
      ensures ValidToken(t) <==> WellFormedToken(t)
    {
      TokenExactly(t);
    }
  }

  lemma {:induction false} JoinedIsStripped(tokens: seq<string>)
    requires tokens != [] && forall t | t in tokens :: ValidToken(t)
    ensures var pattern := Join(tokens, "."); pattern != "" && Stripped(pattern)
  {
    var first := tokens[0];
    assert ValidToken(first) && first[0] in first && first[|first| - 1] in first;
    if |tokens| > 1 {
      JoinedIsStripped(tokens[1..]);
      var rest := Join(tokens[1..], ".");
      assert Join(tokens, ".") == first + "." + rest;
    }
  }

  predicate Fits(token: string, word: string) {
    token != ">" && (token == "*" || token == word)
  }

  /** A pattern matches word by word, and a final ">" takes all words that are left, of which there must be one. */
  lemma {:induction false} MatchesExactly(pattern: seq<string>, subject: seq<string>)
    ensures MatchTokens(pattern, subject) <==>
      if pattern != [] && pattern[|pattern| - 1] == ">" then
        |pattern| <= |subject| && forall i | 0 <= i < |pattern| - 1 :: Fits(pattern[i], subject[i])
      else
        |pattern| == |subject| && forall i | 0 <= i < |pattern| :: Fits(pattern[i], subject[i])
  {
    if pattern != [] && subject != [] && Fits(pattern[0], subject[0]) {
      var rest, words := pattern[1..], subject[1..];
      MatchesExactly(rest, words);
      assert forall i | 0 < i < |pattern| :: pattern[i] == rest[i - 1];
      assert forall i | 0 < i < |subject| :: subject[i] == words[i - 1];
      assert forall i | 0 <= i < |rest| :: rest[i] == pattern[i + 1];
      assert forall i | 0 <= i < |words| :: words[i] == subject[i + 1];
    }
  }

  lemma {:induction false} SubsetTokensSound(candidate: seq<string>, allowed: seq<string>, subject: seq<string>)
    requires TailOk(candidate) && TailOk(allowed)
    requires SubsetTokens(candidate, allowed) && MatchTokens(candidate, subject)
    ensures MatchTokens(allowed, subject)
  {
    if candidate != [] && allowed[0] != ">" {
      SubsetTokensSound(candidate[1..], allowed[1..], subject[1..]);
    }
  }

  /** Some subject a pattern matches. */
  function Instance(pattern: seq<string>): (subject: seq<string>)
    requires TailOk(pattern)
    ensures MatchTokens(pattern, subject) && |subject| == |pattern|
    ensures forall t | t in subject :: '.' !in t
  {
    if pattern == [] then []
    else
      assert ValidToken(pattern[0]);
      [if pattern[0] == ">" || pattern[0] == "*" then "x" else pattern[0]] + Instance(pattern[1..])
  }

  /** A subject that shows a rejected candidate to be wider than what is allowed. */
  function Escapee(candidate: seq<string>, allowed: seq<string>): (subject: seq<string>)
    requires TailOk(candidate) && TailOk(allowed) && !SubsetTokens(candidate, allowed)
    ensures MatchTokens(candidate, subject) && !MatchTokens(allowed, subject)
    ensures forall t | t in subject :: '.' !in t
    ensures candidate != [] ==> subject != []
  {
    if candidate == [] then []
    else if allowed == [] then Instance(candidate)
    else
      assert ValidToken(candidate[0]) && ValidToken(allowed[0]);
      if candidate[0] == ">" then
        if allowed[0] != "*" then [allowed[0] + "x"] else if |allowed| > 1 then ["x"] else ["x", "x"]
      else if allowed[0] == "*" || (candidate[0] != "*" && candidate[0] == allowed[0]) then
        [if candidate[0] == "*" then "x" else candidate[0]] + Escapee(candidate[1..], allowed[1..])
      else
        [if candidate[0] == "*" then allowed[0] + "x" else candidate[0]] + Instance(candidate[1..])
  }

  /** The containment check is exact, not merely conservative. */
  lemma SubsetIsExact(candidate: string, allowed: string)
    requires ValidPattern(candidate) && ValidPattern(allowed)
    ensures PatternIsSubset(candidate, allowed) <==>
            forall subject: string :: MatchesSubject(candidate, subject) ==> MatchesSubject(allowed, subject)
  {
    var ct, at := Split(candidate, '.'), Split(allowed, '.');
    if PatternIsSubset(candidate, allowed) {
      forall subject: string | MatchesSubject(candidate, subject)
        ensures MatchesSubject(allowed, subject)
      {
        SubsetTokensSound(ct, at, Split(subject, '.'));
      }
    } else {
      var subject := Escapee(ct, at);
      SplitOfJoin(subject, '.');
      assert MatchesSubject(candidate, Join(subject, ['.'])) && !MatchesSubject(allowed, Join(subject, ['.']));
    }
  }
}
