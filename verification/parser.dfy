/** The metadata extractor (services/exerciseParser.ts).

    Two case-insensitive regular expressions are applied to the raw text of
    an exercise:

      answer:  (?:Respuesta|Clave|Soluci[óo]n)\s*:\s*([A-Z0-9\s,]+)(?:\n|$)
      skill:   (?:Habilidad|Destreza)\s*:\s*(.+)(?:\n|$)

    Both have the shape  LABEL \s* : \s* (VALUE+) (?:\n|$) , so one matcher
    serves both. `IsMatch` states which position tuples the pattern matches
    at all; `Find` is the backtracking search of a JavaScript regex engine
    (leftmost start, label alternatives in order, greedy quantifiers), and
    its contract pins its answer down as the first match in that priority
    order. */
module Parser {
  import opened Wrappers
  import opened Text
  import opened Types

  datatype Rule = AnswerRule | SkillRule

  /** Label alternatives, lower case. `Soluci[óo]n` is listed as its two
      spellings; both have the same length, so the order between them
      does not matter. */
  function Labels(rule: Rule): seq<string> {
    match rule
    case AnswerRule => ["respuesta", "clave", "soluci\U{F3}n", "solucion"]
    case SkillRule => ["habilidad", "destreza"]
  }

  /** The value character class: `[A-Z0-9\s,]` under the `i` flag, which
      admits ASCII letters of either case; `.` admits every character
      except a line terminator. */
  predicate InValue(rule: Rule, c: char) {
    match rule
    case AnswerRule => IsAsciiAlnum(c) || IsWhitespace(c) || c == ','
    case SkillRule => !IsLineTerminator(c)
  }

  /** `lab` occurs at `i` up to case. Under the `i` flag without `u`,
      JavaScript folds case only between ASCII letters and between
      characters outside ASCII, so for these labels folding ASCII and
      `Ó` is exact. */
  predicate LabelAt(s: string, i: nat, lab: string) {
    i + |lab| <= |s| && forall k :: 0 <= k < |lab| ==> LowerChar(s[i + k]) == lab[k]
  }

  predicate AllWs(s: string, i: nat, j: nat) {
    i <= j <= |s| && forall k :: i <= k < j ==> IsWhitespace(s[k])
  }

  predicate AllIn(s: string, rule: Rule, i: nat, j: nat) {
    i <= j <= |s| && forall k :: i <= k < j ==> InValue(rule, s[k])
  }

  /** `(?:\n|$)` can follow the value at `q` (no multiline flag, so `$` is
      the end of the input). */
  predicate EndOk(s: string, q: nat) {
    q == |s| || (q < |s| && s[q] == '\n')
  }

  function EndOf(s: string, q: nat): nat
    requires EndOk(s, q)
  {
    if q < |s| then q + 1 else q
  }

  /** A match, by positions: the label alternative `alt` spans
      `[start, labelEnd)`, the colon is at `colon`, the captured group is
      `[capStart, capEnd)`, and the whole match is `[start, end)`. */
  datatype Match = Match(start: nat, alt: nat, labelEnd: nat, colon: nat,
                         capStart: nat, capEnd: nat, end: nat)

  /** Everything after the label. */
  predicate TailMatches(s: string, rule: Rule, m: Match) {
    && m.colon < |s| && AllWs(s, m.labelEnd, m.colon) && s[m.colon] == ':'
    && AllWs(s, m.colon + 1, m.capStart)
    && m.capStart < m.capEnd && AllIn(s, rule, m.capStart, m.capEnd)
    && EndOk(s, m.capEnd) && m.end == EndOf(s, m.capEnd)
  }

  /** `m` is a way the pattern of `rule` matches `s`. */
  predicate IsMatch(s: string, rule: Rule, m: Match) {
    && m.alt < |Labels(rule)|
    && LabelAt(s, m.start, Labels(rule)[m.alt])
    && m.labelEnd == m.start + |Labels(rule)[m.alt]|
    && TailMatches(s, rule, m)
  }

  /** The engine prefers `m` to `m2`: an earlier start, or at the same
      start a longer `\s*` before the value and then a longer value. */
  predicate Preferred(m: Match, m2: Match) {
    || m.start < m2.start
    || (m.start == m2.start
        && (m2.capStart < m.capStart || (m2.capStart == m.capStart && m2.capEnd <= m.capEnd)))
  }

  /** The match `String.prototype.match` reports. */
  ghost predicate IsFirstMatch(s: string, rule: Rule, m: Match) {
    IsMatch(s, rule, m) && forall m2 :: IsMatch(s, rule, m2) ==> Preferred(m, m2)
  }

  /** The matched text; only ever taken of a match, which lies inside
      the input (`MatchBounds`). */
  function MatchText(s: string, m: Match): string {
    if m.start <= m.end <= |s| then s[m.start..m.end] else ""
  }

  /** The captured value, likewise. */
  function Capture(s: string, m: Match): string {
    if m.capStart <= m.capEnd <= |s| then s[m.capStart..m.capEnd] else ""
  }

  // ---------------------------------------------------------------------
  // the backtracking search

  /** Greedy `\s*` from `i`. Giving characters back never helps the `:`
      that follows, because `:` is not whitespace. */
  function SkipWs(s: string, i: nat): (j: nat)
    requires i <= |s|
    ensures i <= j <= |s| && AllWs(s, i, j)
    ensures j == |s| || !IsWhitespace(s[j])
    decreases |s| - i
  {
    if i < |s| && IsWhitespace(s[i]) then SkipWs(s, i + 1) else i
  }

  /** The greedy `\s*` stops exactly at the first non-whitespace
      character. */
  lemma SkipWsExact(s: string, i: nat, x: nat)
    requires AllWs(s, i, x) && x < |s| && !IsWhitespace(s[x])
    ensures SkipWs(s, i) == x
  {
  }

  /** End of the longest run of value characters from `i`. */
  function ValueRunEnd(s: string, rule: Rule, i: nat): (j: nat)
    requires i <= |s|
    ensures i <= j <= |s| && AllIn(s, rule, i, j)
    ensures j == |s| || !InValue(rule, s[j])
    decreases |s| - i
  {
    if i < |s| && InValue(rule, s[i]) then ValueRunEnd(s, rule, i + 1) else i
  }

  /** Greedy `VALUE+` from `b` followed by `(?:\n|$)`: the largest end in
      `(b, hi]` after which the terminator matches. */
  function LastEnd(s: string, b: nat, hi: nat): (r: Option<nat>)
    requires b < hi <= |s|
    ensures r.Some? ==> b < r.value <= hi && EndOk(s, r.value)
    ensures r.Some? ==> forall q :: r.value < q <= hi ==> !EndOk(s, q)
    ensures r.None? ==> forall q :: b < q <= hi ==> !EndOk(s, q)
    decreases hi
  {
    if EndOk(s, hi) then Some(hi)
    else if hi - 1 > b then LastEnd(s, b, hi - 1)
    else None
  }

  /** The second `\s*` has consumed `[a, b)`; try the value from `b`, and on
      failure give back one whitespace character at a time. Returns the
      captured span. */
  function ValueFrom(s: string, rule: Rule, a: nat, b: nat): (r: Option<(nat, nat)>)
    requires a <= b <= |s|
    ensures r.Some? ==> a <= r.value.0 <= b && r.value.0 < r.value.1
                        && AllIn(s, rule, r.value.0, r.value.1) && EndOk(s, r.value.1)
    ensures r.Some? ==> forall cb: nat, q: nat :: r.value.0 <= cb <= b && AllIn(s, rule, cb, q) && cb < q && EndOk(s, q)
                          ==> cb == r.value.0 && q <= r.value.1
    ensures r.None? ==> forall cb: nat, q: nat :: a <= cb <= b && AllIn(s, rule, cb, q) && cb < q ==> !EndOk(s, q)
    decreases b
  {
    var e := ValueRunEnd(s, rule, b);
    var last := if b < e then LastEnd(s, b, e) else None;
    if last.Some? then Some((b, last.value))
    else if b > a then ValueFrom(s, rule, a, b - 1)
    else None
  }

  /** The rest of the pattern once a label has matched `[p, l)`. */
  function AfterLabel(s: string, rule: Rule, p: nat, alt: nat, l: nat): (r: Option<Match>)
    requires p <= l <= |s|
    ensures r.Some? ==> TailMatches(s, rule, r.value) && r.value.start == p
                        && r.value.alt == alt && r.value.labelEnd == l
    ensures r.Some? ==> forall m2 :: TailMatches(s, rule, m2) && m2.labelEnd == l ==>
                          (m2.capStart < r.value.capStart
                           || (m2.capStart == r.value.capStart && m2.capEnd <= r.value.capEnd))
    ensures r.None? ==> forall m2 :: TailMatches(s, rule, m2) ==> m2.labelEnd != l
  {
    var colon := SkipWs(s, l);
    if colon < |s| && s[colon] == ':' then
      var a := colon + 1;
      var c := SkipWs(s, a);
      match ValueFrom(s, rule, a, c)
      case Some((cb, q)) => Some(Match(p, alt, l, colon, cb, q, EndOf(s, q)))
      case None => None
    else None
  }

  /** Try the label alternatives `alt`, `alt + 1`, ... at `p`. */
  function MatchFromAlt(s: string, rule: Rule, p: nat, alt: nat): (r: Option<Match>)
    requires p <= |s| && alt <= |Labels(rule)|
    ensures r.Some? ==> IsMatch(s, rule, r.value) && r.value.start == p && alt <= r.value.alt
    ensures r.Some? ==> forall m2 :: IsMatch(s, rule, m2) && m2.start == p && m2.alt == r.value.alt
                          ==> Preferred(r.value, m2)
    ensures r.None? ==> forall m2 :: IsMatch(s, rule, m2) && m2.start == p ==> m2.alt < alt
    decreases |Labels(rule)| - alt
  {
    if alt == |Labels(rule)| then None
    else
      var lab := Labels(rule)[alt];
      var attempt := if LabelAt(s, p, lab) then AfterLabel(s, rule, p, alt, p + |lab|) else None;
      if attempt.Some? then attempt else MatchFromAlt(s, rule, p, alt + 1)
  }

  /** At most one label alternative matches at a position. */
  lemma LabelsExclusive(s: string, rule: Rule, p: nat, i: nat, j: nat)
    requires i < |Labels(rule)| && j < |Labels(rule)|
    requires LabelAt(s, p, Labels(rule)[i]) && LabelAt(s, p, Labels(rule)[j])
    ensures i == j
  {
    var L := Labels(rule);
    assert L[i][0] == LowerChar(s[p]) == L[j][0];
    if rule == AnswerRule && i >= 2 && j >= 2 {
      assert L[i][6] == LowerChar(s[p + 6]) == L[j][6];
    }
  }

  /** Every match of the pattern at `p`, if any, in engine priority. */
  function MatchAt(s: string, rule: Rule, p: nat): (r: Option<Match>)
    requires p <= |s|
    ensures r.Some? ==> IsMatch(s, rule, r.value) && r.value.start == p
    ensures r.Some? ==> forall m2 :: IsMatch(s, rule, m2) && m2.start == p ==> Preferred(r.value, m2)
    ensures r.None? ==> forall m2 :: IsMatch(s, rule, m2) ==> m2.start != p
  {
    var r := MatchFromAlt(s, rule, p, 0);
    if r.Some? then
      assert forall m2 :: IsMatch(s, rule, m2) && m2.start == p ==> m2.alt == r.value.alt by {
        forall m2 | IsMatch(s, rule, m2) && m2.start == p ensures m2.alt == r.value.alt {
          LabelsExclusive(s, rule, p, m2.alt, r.value.alt);
        }
      }
      r
    else r
  }

  /** Leftmost search from position `p`. */
  function FindFrom(s: string, rule: Rule, p: nat): (r: Option<Match>)
    requires p <= |s|
    ensures r.Some? ==> IsMatch(s, rule, r.value) && p <= r.value.start
    ensures r.Some? ==> forall m2 :: IsMatch(s, rule, m2) && p <= m2.start ==> Preferred(r.value, m2)
    ensures r.None? ==> forall m2 :: IsMatch(s, rule, m2) ==> m2.start < p
    decreases |s| - p
  {
    var here := MatchAt(s, rule, p);
    if here.Some? then here
    else if p == |s| then None
    else FindFrom(s, rule, p + 1)
  }

  /** `s.match(regex)` for the pattern of `rule`: the first match in engine
      priority, or `None` exactly when the pattern matches nowhere. */
  function Find(s: string, rule: Rule): (r: Option<Match>)
    ensures r.Some? ==> IsFirstMatch(s, rule, r.value)
    ensures r.None? <==> forall m :: !IsMatch(s, rule, m)
  {
    FindFrom(s, rule, 0)
  }

  /** There is only one first match: `Preferred` together with the pattern
      fixes every position of it. */
  lemma FirstMatchUnique(s: string, rule: Rule, m1: Match, m2: Match)
    requires IsFirstMatch(s, rule, m1) && IsFirstMatch(s, rule, m2)
    ensures m1 == m2
  {
    assert Preferred(m1, m2) && Preferred(m2, m1);
    LabelsExclusive(s, rule, m1.start, m1.alt, m2.alt);
    SkipWsExact(s, m1.labelEnd, m1.colon);
    SkipWsExact(s, m2.labelEnd, m2.colon);
  }

  /** A match never leaves the input, and its captured value lies inside
      the matched text. */
  lemma MatchBounds(s: string, rule: Rule, m: Match)
    requires IsMatch(s, rule, m)
    ensures m.start < m.capStart < m.capEnd <= m.end <= |s|
    ensures Capture(s, m) == MatchText(s, m)[m.capStart - m.start..m.capEnd - m.start]
    ensures |MatchText(s, m)| > 0
  {
  }

  // ---------------------------------------------------------------------
  // parseExerciseContent

  const NoDefinida: string := "No definida"

  /** `parseExerciseContent`. Both expressions run on the raw text; the
      answer text is removed first and the skill text second, each by its
      first occurrence, and the result is trimmed. */
  function Parse(raw: string): (r: ParsedExercise)
    ensures r.hasMetadata <==> (exists m :: IsMatch(raw, AnswerRule, m)) || (exists m :: IsMatch(raw, SkillRule, m))
    ensures !r.hasMetadata ==>
      r.answerKey == NoDefinida && r.skill == NoDefinida && r.studentContent == Trim(raw)
    ensures IsTrimmed(r.studentContent) && |r.studentContent| <= |raw|
  {
    var answer := Find(raw, AnswerRule);
    var skill := Find(raw, SkillRule);
    var afterAnswer := if answer.Some? then RemoveFirst(raw, MatchText(raw, answer.value)) else raw;
    var afterSkill := if skill.Some? then RemoveFirst(afterAnswer, MatchText(raw, skill.value)) else afterAnswer;
    ParsedExercise(
      Trim(afterSkill),
      if answer.Some? then Trim(Capture(raw, answer.value)) else NoDefinida,
      if skill.Some? then Trim(Capture(raw, skill.value)) else NoDefinida,
      answer.Some? || skill.Some?)
  }

  /** The answer key is the trimmed captured value of the first answer
      match, both expressions look at the raw text, and the student text is
      the raw text with the first occurrence of each matched text removed,
      answer first, then trimmed. */
  lemma ParseFields(raw: string, am: Option<Match>, sm: Option<Match>)
    requires am.Some? <==> exists m :: IsMatch(raw, AnswerRule, m)
    requires am.Some? ==> IsFirstMatch(raw, AnswerRule, am.value)
    requires sm.Some? <==> exists m :: IsMatch(raw, SkillRule, m)
    requires sm.Some? ==> IsFirstMatch(raw, SkillRule, sm.value)
    ensures am.Some? ==> am.value.end <= |raw| && Parse(raw).answerKey == Trim(Capture(raw, am.value))
    ensures am.None? ==> Parse(raw).answerKey == NoDefinida
    ensures sm.Some? ==> sm.value.end <= |raw| && Parse(raw).skill == Trim(Capture(raw, sm.value))
    ensures sm.None? ==> Parse(raw).skill == NoDefinida
    ensures var afterAnswer := if am.Some? then RemoveFirst(raw, MatchText(raw, am.value)) else raw;
            var afterSkill := if sm.Some? then RemoveFirst(afterAnswer, MatchText(raw, sm.value)) else afterAnswer;
            Parse(raw).studentContent == Trim(afterSkill)
  {
    var a := Find(raw, AnswerRule);
    var k := Find(raw, SkillRule);
    if am.Some? {
      FirstMatchUnique(raw, AnswerRule, a.value, am.value);
    }
    if sm.Some? {
      FirstMatchUnique(raw, SkillRule, k.value, sm.value);
    }
  }

  /** The answer key holds only letters, digits, commas and whitespace (it
      may be empty after trimming); the skill never holds a line break. */
  lemma ParseValueCharacters(raw: string)
    ensures forall c :: c in Parse(raw).answerKey ==> IsAsciiAlnum(c) || IsWhitespace(c) || c == ','
    ensures forall c :: c in Parse(raw).skill ==> !IsLineTerminator(c)
  {
    var r := Parse(raw);
    TrimmedValueIn(raw, AnswerRule);
    assert forall c :: c in r.answerKey ==> InValue(AnswerRule, c);
    TrimmedValueIn(raw, SkillRule);
    assert forall c :: c in r.skill ==> InValue(SkillRule, c);
  }

  /** The trimmed value `Parse` reports for `rule` consists of value
      characters only ("No definida" does too). */
  lemma TrimmedValueIn(raw: string, rule: Rule)
    ensures var r := Parse(raw);
            var v := if rule == AnswerRule then r.answerKey else r.skill;
            forall c :: c in v ==> InValue(rule, c)
  {
    var f := Find(raw, rule);
    if f.Some? {
      var cap := Capture(raw, f.value);
      assert forall c :: c in cap ==> InValue(rule, c);
      assert forall c :: c in Trim(cap) ==> c in cap;
    } else {
      assert forall c :: c in NoDefinida ==> InValue(rule, c);
    }
  }
}

/** A worked example of the extractor: only the first "Clave:" line is
    removed, so the student text of "Clave: A\nClave: B" still carries an
    answer line and parsing it again finds metadata. */
module ParserExample {
  import opened Wrappers
  import opened Text
  import opened Types
  import opened Parser

  /** No character of the text folds to 'h' or 'd', the initials of the
      skill labels. */
  lemma NoSkillInitials(s: string)
    requires s == "Clave: A\nClave: B"
    ensures forall i :: 0 <= i < |s| ==> LowerChar(s[i]) != 'h' && LowerChar(s[i]) != 'd'
  {
  }

  /** The skill pattern matches nowhere in the text. */
  lemma TwoKeysNoSkill(s: string)
    requires s == "Clave: A\nClave: B"
    ensures Find(s, SkillRule).None?
  {
    NoSkillInitials(s);
    forall m ensures !IsMatch(s, SkillRule, m) {
      assert m.alt < 2 && LabelAt(s, m.start, Labels(SkillRule)[m.alt]) ==>
        LowerChar(s[m.start]) == Labels(SkillRule)[m.alt][0];
    }
  }

  /** "Clave: A" followed by its line break is a match of the answer
      pattern. */
  lemma TwoKeysFirstLine(s: string)
    requires s == "Clave: A\nClave: B"
    ensures IsMatch(s, AnswerRule, Match(0, 1, 5, 5, 7, 8, 9))
  {
  }

  /** ... and it is the one the engine reports: nothing starts earlier, no
      other label fits, the colon and the value cannot move, and the value
      cannot run on, since the next line break comes after a ':'. */
  lemma TwoKeysFirstMatch(s: string, m: Match)
    requires s == "Clave: A\nClave: B"
    requires IsFirstMatch(s, AnswerRule, m)
    ensures m == Match(0, 1, 5, 5, 7, 8, 9)
  {
    var w := Match(0, 1, 5, 5, 7, 8, 9);
    TwoKeysFirstLine(s);
    assert Preferred(m, w);
    assert m.start == 0;
    LabelsExclusive(s, AnswerRule, 0, m.alt, 1);
    assert m.labelEnd == 5;
    assert m.colon == 5 by {
      assert AllWs(s, 5, m.colon) && s[m.colon] == ':';
    }
    assert m.capStart == 7 by {
      assert AllWs(s, 6, m.capStart) && m.capStart >= 7;
      assert m.capStart > 7 ==> IsWhitespace(s[7]);
    }
    assert m.capEnd == 8 by {
      assert AllIn(s, AnswerRule, 7, m.capEnd) && EndOk(s, m.capEnd);
      assert m.capEnd > 14 ==> InValue(AnswerRule, s[14]);
      assert forall q :: 8 < q <= 14 ==> s[q] != '\n';
    }
  }

  lemma TwoKeysAnswer(s: string)
    requires s == "Clave: A\nClave: B"
    ensures Find(s, AnswerRule) == Some(Match(0, 1, 5, 5, 7, 8, 9))
  {
    TwoKeysFirstLine(s);
    TwoKeysFirstMatch(s, Find(s, AnswerRule).value);
  }

  /** The student text is the input without its first nine characters,
      trimmed. */
  lemma TwoKeysStudentText(s: string)
    requires s == "Clave: A\nClave: B"
    ensures Parse(s).studentContent == Trim(RemoveFirst(s, s[..9]))
  {
    TwoKeysAnswer(s);
    TwoKeysNoSkill(s);
    assert MatchText(s, Match(0, 1, 5, 5, 7, 8, 9)) == s[..9];
  }

  lemma TwoKeysRemoval(s: string)
    requires s == "Clave: A\nClave: B"
    ensures RemoveFirst(s, s[..9]) == "Clave: B"
  {
    assert OccursAt(s, s[..9], 0);
    assert s[9..] == "Clave: B";
  }

  lemma SecondKeyHasMetadata(t: string)
    requires t == "Clave: B"
    ensures Trim(t) == t && Parse(t).hasMetadata
  {
    assert IsTrimmed(t);
    assert LabelAt(t, 0, "clave");
    assert IsMatch(t, AnswerRule, Match(0, 1, 5, 5, 7, 8, 8));
  }

  /** Parsing the student text again finds metadata: the extractor is not
      idempotent. */
  lemma ParseNotIdempotent(s: string)
    requires s == "Clave: A\nClave: B"
    ensures Parse(s).studentContent == "Clave: B"
    ensures Parse(Parse(s).studentContent).hasMetadata
  {
    TwoKeysStudentText(s);
    TwoKeysRemoval(s);
    SecondKeyHasMetadata("Clave: B");
  }
}
