/** `extractIssuesFromMarkdown`: the global, case-insensitive, dot-all regular expression

      \*\*Line[s]?:?\s*(\d+-?\d*)\*\*\s*[:-]?\s*(.*?)\n+Suggestion:?\s*(.*?)\n+

    run repeatedly over a text, each match becoming one issue. The matcher below has one
    function per element of the pattern, in the order the pattern lists them, and tries
    the alternatives in the order a backtracking JavaScript engine does: a greedy `X*` or
    `X?` first takes one more character and falls back to the continuation, a lazy `.*?`
    first tries the continuation and then takes one more character. Every element matches
    single characters, so no element can match the empty string in a loop. */
module Markdown {
  import opened JsRuntime
  import opened JsStrings

  /** One match of the pattern: where it starts and ends, and its three capture groups. */
  datatype RegexMatch = RegexMatch(start: nat, end: nat, lines: string, issue: string, suggestion: string)

  /** One issue as `extractIssuesFromMarkdown` builds it. */
  datatype Issue = Issue(lines: string, currentIssue: string, suggestion: string)

  predicate IsDigit(c: char)
  {
    '0' <= c <= '9'
  }

  /** The case folding of an `i`-flagged pattern without the `u` flag, which can only
      equate ASCII letters with ASCII letters. */
  function Upper(c: char): char
  {
    if 'a' <= c <= 'z' then (c as int - 32) as char else c
  }

  /** `word` occurs at `pos` in `t`, compared case-insensitively. */
  predicate WordAt(t: string, pos: nat, word: string)
  {
    pos + |word| <= |t| && forall k :: 0 <= k < |word| ==> Upper(t[pos + k]) == Upper(word[k])
  }

  predicate AllDigits(s: string)
  {
    forall k :: 0 <= k < |s| ==> IsDigit(s[k])
  }

  /** The strings `\d+-?\d*` matches: a digit first, then digits and at most one `-`. */
  predicate IsLineRef(s: string)
  {
    && |s| >= 1 && IsDigit(s[0])
    && (forall k :: 0 <= k < |s| ==> IsDigit(s[k]) || s[k] == '-')
    && (forall j, k :: 0 <= j < k < |s| && s[j] == '-' ==> s[k] != '-')
  }

  /** What every partial match promises: it is the match that began at `i`, and it ends
      inside the text, no earlier than `pos`, right after a newline. */
  predicate EndsAfter(t: string, i: nat, pos: nat, m: RegexMatch)
  {
    m.start == i && pos <= m.end <= |t| && 0 < m.end && t[m.end - 1] == '\n'
  }

  /** The pattern anchored at `i`; it starts with `\*\*Line`. */
  function MatchAt(t: string, i: nat): (r: Option<RegexMatch>)
    requires i <= |t|
    ensures r.Some? ==> EndsAfter(t, i, i + 6, r.value)
    ensures r.Some? ==> IsLineRef(r.value.lines) && '\n' !in r.value.suggestion
  {
    if WordAt(t, i, "**Line") then LineS(t, i, i + 6) else None
  }

  /** `[s]?` */
  function LineS(t: string, i: nat, pos: nat): (r: Option<RegexMatch>)
    requires pos <= |t|
    ensures r.Some? ==> EndsAfter(t, i, pos, r.value)
    ensures r.Some? ==> IsLineRef(r.value.lines) && '\n' !in r.value.suggestion
  {
    if WordAt(t, pos, "s") then
      var r := LineColon(t, i, pos + 1);
      if r.Some? then r else LineColon(t, i, pos)
    else LineColon(t, i, pos)
  }

  /** `:?` after `Line[s]?` */
  function LineColon(t: string, i: nat, pos: nat): (r: Option<RegexMatch>)
    requires pos <= |t|
    ensures r.Some? ==> EndsAfter(t, i, pos, r.value)
    ensures r.Some? ==> IsLineRef(r.value.lines) && '\n' !in r.value.suggestion
  {
    if pos < |t| && t[pos] == ':' then
      var r := SpaceBeforeNumber(t, i, pos + 1);
      if r.Some? then r else SpaceBeforeNumber(t, i, pos)
    else SpaceBeforeNumber(t, i, pos)
  }

  /** `\s*` before the line numbers */
  function SpaceBeforeNumber(t: string, i: nat, pos: nat): (r: Option<RegexMatch>)
    requires pos <= |t|
    ensures r.Some? ==> EndsAfter(t, i, pos, r.value)
    ensures r.Some? ==> IsLineRef(r.value.lines) && '\n' !in r.value.suggestion
    decreases |t| - pos
  {
    if pos < |t| && IsWhitespace(t[pos]) then
      var r := SpaceBeforeNumber(t, i, pos + 1);
      if r.Some? then r else Number(t, i, pos)
    else Number(t, i, pos)
  }

  /** Group 1 opens at `pos`: the first `\d` of `\d+` */
  function Number(t: string, i: nat, pos: nat): (r: Option<RegexMatch>)
    requires pos <= |t|
    ensures r.Some? ==> EndsAfter(t, i, pos, r.value)
    ensures r.Some? ==> IsLineRef(r.value.lines) && '\n' !in r.value.suggestion
  {
    if pos < |t| && IsDigit(t[pos]) then NumberDigits(t, i, pos, pos + 1) else None
  }

  /** The rest of `\d+`, greedy; group 1 opened at `g` */
  function NumberDigits(t: string, i: nat, g: nat, pos: nat): (r: Option<RegexMatch>)
    requires g < pos <= |t| && AllDigits(t[g..pos])
    ensures r.Some? ==> EndsAfter(t, i, pos, r.value)
    ensures r.Some? ==> IsLineRef(r.value.lines) && '\n' !in r.value.suggestion
    decreases |t| - pos
  {
    if pos < |t| && IsDigit(t[pos]) then
      assert t[g..pos + 1] == t[g..pos] + [t[pos]];
      var r := NumberDigits(t, i, g, pos + 1);
      if r.Some? then r else NumberDash(t, i, g, pos)
    else NumberDash(t, i, g, pos)
  }

  /** `-?` inside group 1 */
  function NumberDash(t: string, i: nat, g: nat, pos: nat): (r: Option<RegexMatch>)
    requires g < pos <= |t| && AllDigits(t[g..pos])
    ensures r.Some? ==> EndsAfter(t, i, pos, r.value)
    ensures r.Some? ==> IsLineRef(r.value.lines) && '\n' !in r.value.suggestion
  {
    if pos < |t| && t[pos] == '-' then
      assert t[g..pos + 1] == t[g..pos] + ['-'];
      var r := NumberTail(t, i, g, pos + 1);
      if r.Some? then r else NumberTail(t, i, g, pos)
    else NumberTail(t, i, g, pos)
  }

  /** The trailing `\d*` of group 1, greedy */
  function NumberTail(t: string, i: nat, g: nat, pos: nat): (r: Option<RegexMatch>)
    requires g < pos <= |t| && IsLineRef(t[g..pos])
    ensures r.Some? ==> EndsAfter(t, i, pos, r.value)
    ensures r.Some? ==> IsLineRef(r.value.lines) && '\n' !in r.value.suggestion
    decreases |t| - pos
  {
    if pos < |t| && IsDigit(t[pos]) then
      assert t[g..pos + 1] == t[g..pos] + [t[pos]];
      var r := NumberTail(t, i, g, pos + 1);
      if r.Some? then r else CloseBold(t, i, t[g..pos], pos)
    else CloseBold(t, i, t[g..pos], pos)
  }

  /** Group 1 is closed as `lines`; `\*\*` */
  function CloseBold(t: string, i: nat, lines: string, pos: nat): (r: Option<RegexMatch>)
    requires pos <= |t|
    ensures r.Some? ==> EndsAfter(t, i, pos, r.value)
    ensures r.Some? ==> r.value.lines == lines && '\n' !in r.value.suggestion
  {
    if WordAt(t, pos, "**") then SpaceAfterBold(t, i, lines, pos + 2) else None
  }

  /** `\s*` after the bold label */
  function SpaceAfterBold(t: string, i: nat, lines: string, pos: nat): (r: Option<RegexMatch>)
    requires pos <= |t|
    ensures r.Some? ==> EndsAfter(t, i, pos, r.value)
    ensures r.Some? ==> r.value.lines == lines && '\n' !in r.value.suggestion
    decreases |t| - pos
  {
    if pos < |t| && IsWhitespace(t[pos]) then
      var r := SpaceAfterBold(t, i, lines, pos + 1);
      if r.Some? then r else Separator(t, i, lines, pos)
    else Separator(t, i, lines, pos)
  }

  /** `[:-]?` */
  function Separator(t: string, i: nat, lines: string, pos: nat): (r: Option<RegexMatch>)
    requires pos <= |t|
    ensures r.Some? ==> EndsAfter(t, i, pos, r.value)
    ensures r.Some? ==> r.value.lines == lines && '\n' !in r.value.suggestion
  {
    if pos < |t| && (t[pos] == ':' || t[pos] == '-') then
      var r := SpaceBeforeIssue(t, i, lines, pos + 1);
      if r.Some? then r else SpaceBeforeIssue(t, i, lines, pos)
    else SpaceBeforeIssue(t, i, lines, pos)
  }

  /** `\s*` before the issue text */
  function SpaceBeforeIssue(t: string, i: nat, lines: string, pos: nat): (r: Option<RegexMatch>)
    requires pos <= |t|
    ensures r.Some? ==> EndsAfter(t, i, pos, r.value)
    ensures r.Some? ==> r.value.lines == lines && '\n' !in r.value.suggestion
    decreases |t| - pos
  {
    if pos < |t| && IsWhitespace(t[pos]) then
      var r := SpaceBeforeIssue(t, i, lines, pos + 1);
      if r.Some? then r else IssueText(t, i, lines, pos, pos)
    else IssueText(t, i, lines, pos, pos)
  }

  /** Group 2, `(.*?)`, lazy; opened at `g` */
  function IssueText(t: string, i: nat, lines: string, g: nat, pos: nat): (r: Option<RegexMatch>)
    requires g <= pos <= |t|
    ensures r.Some? ==> EndsAfter(t, i, pos, r.value)
    ensures r.Some? ==> r.value.lines == lines && '\n' !in r.value.suggestion
    decreases |t| - pos
  {
    var r := IssueEnd(t, i, lines, t[g..pos], pos);
    if r.Some? then r
    else if pos < |t| then IssueText(t, i, lines, g, pos + 1)
    else None
  }

  /** Group 2 is closed as `issue`; the first `\n` of `\n+` */
  function IssueEnd(t: string, i: nat, lines: string, issue: string, pos: nat): (r: Option<RegexMatch>)
    requires pos <= |t|
    ensures r.Some? ==> EndsAfter(t, i, pos, r.value)
    ensures r.Some? ==> r.value.lines == lines && r.value.issue == issue && '\n' !in r.value.suggestion
  {
    if pos < |t| && t[pos] == '\n' then IssueNewlines(t, i, lines, issue, pos + 1) else None
  }

  /** The rest of `\n+`, greedy */
  function IssueNewlines(t: string, i: nat, lines: string, issue: string, pos: nat): (r: Option<RegexMatch>)
    requires pos <= |t|
    ensures r.Some? ==> EndsAfter(t, i, pos, r.value)
    ensures r.Some? ==> r.value.lines == lines && r.value.issue == issue && '\n' !in r.value.suggestion
    decreases |t| - pos
  {
    if pos < |t| && t[pos] == '\n' then
      var r := IssueNewlines(t, i, lines, issue, pos + 1);
      if r.Some? then r else SuggestionLabel(t, i, lines, issue, pos)
    else SuggestionLabel(t, i, lines, issue, pos)
  }

  /** `Suggestion` */
  function SuggestionLabel(t: string, i: nat, lines: string, issue: string, pos: nat): (r: Option<RegexMatch>)
    requires pos <= |t|
    ensures r.Some? ==> EndsAfter(t, i, pos, r.value)
    ensures r.Some? ==> r.value.lines == lines && r.value.issue == issue && '\n' !in r.value.suggestion
  {
    if WordAt(t, pos, "Suggestion") then SuggestionColon(t, i, lines, issue, pos + 10) else None
  }

  /** `:?` after `Suggestion` */
  function SuggestionColon(t: string, i: nat, lines: string, issue: string, pos: nat): (r: Option<RegexMatch>)
    requires pos <= |t|
    ensures r.Some? ==> EndsAfter(t, i, pos, r.value)
    ensures r.Some? ==> r.value.lines == lines && r.value.issue == issue && '\n' !in r.value.suggestion
  {
    if pos < |t| && t[pos] == ':' then
      var r := SpaceBeforeSuggestion(t, i, lines, issue, pos + 1);
      if r.Some? then r else SpaceBeforeSuggestion(t, i, lines, issue, pos)
    else SpaceBeforeSuggestion(t, i, lines, issue, pos)
  }

  /** `\s*` before the suggestion text */
  function SpaceBeforeSuggestion(t: string, i: nat, lines: string, issue: string, pos: nat): (r: Option<RegexMatch>)
    requires pos <= |t|
    ensures r.Some? ==> EndsAfter(t, i, pos, r.value)
    ensures r.Some? ==> r.value.lines == lines && r.value.issue == issue && '\n' !in r.value.suggestion
    decreases |t| - pos
  {
    if pos < |t| && IsWhitespace(t[pos]) then
      var r := SpaceBeforeSuggestion(t, i, lines, issue, pos + 1);
      if r.Some? then r else SuggestionText(t, i, lines, issue, pos, pos)
    else SuggestionText(t, i, lines, issue, pos, pos)
  }

  /** Group 3, `(.*?)`, lazy; opened at `g` */
  function SuggestionText(t: string, i: nat, lines: string, issue: string, g: nat, pos: nat): (r: Option<RegexMatch>)
    requires g <= pos <= |t| && '\n' !in t[g..pos]
    ensures r.Some? ==> EndsAfter(t, i, pos, r.value)
    ensures r.Some? ==> r.value.lines == lines && r.value.issue == issue && '\n' !in r.value.suggestion
    decreases |t| - pos
  {
    var r := SuggestionEnd(t, i, lines, issue, t[g..pos], pos);
    if r.Some? then r
    else if pos < |t| then
      assert t[pos] != '\n';
      assert t[g..pos + 1] == t[g..pos] + [t[pos]];
      SuggestionText(t, i, lines, issue, g, pos + 1)
    else None
  }

  /** Group 3 is closed as `suggestion`; the first `\n` of the final `\n+` */
  function SuggestionEnd(t: string, i: nat, lines: string, issue: string, suggestion: string, pos: nat): (r: Option<RegexMatch>)
    requires pos <= |t|
    ensures r.Some? <==> pos < |t| && t[pos] == '\n'
    ensures r.Some? ==> EndsAfter(t, i, pos + 1, r.value)
    ensures r.Some? ==> r.value.lines == lines && r.value.issue == issue && r.value.suggestion == suggestion
  {
    if pos < |t| && t[pos] == '\n' then TrailingNewlines(t, i, lines, issue, suggestion, pos + 1) else None
  }

  /** The rest of the final `\n+`, greedy; the match ends where it stops */
  function TrailingNewlines(t: string, i: nat, lines: string, issue: string, suggestion: string, pos: nat): (r: Option<RegexMatch>)
    requires 0 < pos <= |t| && t[pos - 1] == '\n'
    ensures r.Some? && EndsAfter(t, i, pos, r.value)
    ensures r.value.lines == lines && r.value.issue == issue && r.value.suggestion == suggestion
    ensures r.value.end == |t| || t[r.value.end] != '\n'
    decreases |t| - pos
  {
    if pos < |t| && t[pos] == '\n' then
      var r := TrailingNewlines(t, i, lines, issue, suggestion, pos + 1);
      if r.Some? then r else Some(RegexMatch(i, pos, lines, issue, suggestion))
    else Some(RegexMatch(i, pos, lines, issue, suggestion))
  }

  /** The search one `exec` makes from `lastIndex = from`: the leftmost position at or
      after `from` where the pattern matches, or no match when there is none. */
  function FirstMatchFrom(t: string, from: nat): (r: Option<RegexMatch>)
    ensures r.Some? ==> from <= r.value.start <= |t| && MatchAt(t, r.value.start) == r
    ensures r.Some? ==> forall k :: from <= k < r.value.start ==> MatchAt(t, k).None?
    ensures r.None? ==> forall k :: from <= k <= |t| ==> MatchAt(t, k).None?
    decreases |t| + 1 - from
  {
    if from > |t| then None
    else
      match MatchAt(t, from)
      case Some(m) => Some(m)
      case None => FirstMatchFrom(t, from + 1)
  }

  /** The matches successive `exec` calls return from `lastIndex = from` until one fails:
      each is a match of the pattern, they are in order and do not overlap, and there are
      none exactly when the pattern matches nowhere at or after `from`. */
  function AllMatches(t: string, from: nat): (r: seq<RegexMatch>)
    requires from <= |t|
    ensures forall k :: 0 <= k < |r| ==> from <= r[k].start && r[k].start < r[k].end <= |t|
    ensures forall k :: 0 <= k < |r| ==> MatchAt(t, r[k].start) == Some(r[k])
    ensures forall k :: 0 < k < |r| ==> r[k - 1].end <= r[k].start
    ensures r == [] <==> forall p :: from <= p <= |t| ==> MatchAt(t, p).None?
    decreases |t| - from
  {
    match FirstMatchFrom(t, from)
    case None => []
    case Some(m) =>
      var rest := AllMatches(t, m.end);
      assert forall k :: 0 < k < |rest| + 1 ==> ([m] + rest)[k] == rest[k - 1];
      [m] + rest
  }

  /** The matches are all of them: no match of the pattern starts before the first,
      between two consecutive ones, or after the last. */
  lemma AllMatchesGaps(t: string, from: nat)
    requires from <= |t|
    ensures var r := AllMatches(t, from);
      && (r != [] ==> forall p :: from <= p < r[0].start ==> MatchAt(t, p).None?)
      && (forall k, p :: 0 < k < |r| && r[k - 1].end <= p < r[k].start ==> MatchAt(t, p).None?)
      && (r != [] ==> forall p :: r[|r| - 1].end <= p <= |t| ==> MatchAt(t, p).None?)
  {
    FirstGap(t, from);
    InnerGaps(t, from);
    LastGap(t, from);
  }

  lemma FirstGap(t: string, from: nat)
    requires from <= |t|
    ensures var r := AllMatches(t, from);
      r != [] ==> forall p :: from <= p < r[0].start ==> MatchAt(t, p).None?
  {
    match FirstMatchFrom(t, from)
    case None =>
    case Some(m) =>
      assert AllMatches(t, from)[0] == m;
  }

  lemma {:induction false} InnerGaps(t: string, from: nat)
    requires from <= |t|
    ensures var r := AllMatches(t, from);
      forall k, p :: 0 < k < |r| && r[k - 1].end <= p < r[k].start ==> MatchAt(t, p).None?
    decreases |t| - from
  {
    match FirstMatchFrom(t, from)
    case None =>
    case Some(m) =>
      var rest := AllMatches(t, m.end);
      InnerGaps(t, m.end);
      FirstGap(t, m.end);
      var r := AllMatches(t, from);
      assert r == [m] + rest;
      forall k, p | 0 < k < |r| && r[k - 1].end <= p < r[k].start
        ensures MatchAt(t, p).None?
      {
        if k == 1 {
          assert r[0] == m && r[1] == rest[0];
        } else {
          assert r[k - 1] == rest[k - 2] && r[k] == rest[k - 1];
        }
      }
  }

  lemma {:induction false} LastGap(t: string, from: nat)
    requires from <= |t|
    ensures var r := AllMatches(t, from);
      r != [] ==> forall p :: r[|r| - 1].end <= p <= |t| ==> MatchAt(t, p).None?
    decreases |t| - from
  {
    match FirstMatchFrom(t, from)
    case None =>
    case Some(m) =>
      var rest := AllMatches(t, m.end);
      LastGap(t, m.end);
      var r := AllMatches(t, from);
      assert r == [m] + rest;
      assert r[|r| - 1] == if rest == [] then m else rest[|rest| - 1];
  }

  /** The regular-expression object `issuePattern`, whose `exec` moves `lastIndex`:
      to the end of a match, or back to 0 when the search fails. */
  class IssuePattern {
    var lastIndex: nat

    constructor ()
      ensures lastIndex == 0
    {
      lastIndex := 0;
    }

    method Exec(input: string) returns (m: Option<RegexMatch>)
      modifies this
      ensures m == FirstMatchFrom(input, old(lastIndex))
      ensures lastIndex == if m.Some? then m.value.end else 0
    {
      m := FirstMatchFrom(input, lastIndex);
      lastIndex := if m.Some? then m.value.end else 0;
    }
  }

  /** A match becomes an issue with its three captures trimmed. */
  function ToIssue(m: RegexMatch): (r: Issue)
    ensures IsTrimmed(r.lines) && IsTrimmed(r.currentIssue) && IsTrimmed(r.suggestion)
  {
    Issue(Trim(m.lines), Trim(m.issue), Trim(m.suggestion))
  }

  /** The single issue returned when nothing matched. */
  function RawResponseIssue(markdown: string): Issue
  {
    Issue("N/A", "Raw response", markdown)
  }

  function IssuesOf(ms: seq<RegexMatch>): (r: seq<Issue>)
    ensures |r| == |ms|
    ensures forall k :: 0 <= k < |ms| ==> r[k] == ToIssue(ms[k])
  {
    if ms == [] then [] else [ToIssue(ms[0])] + IssuesOf(ms[1..])
  }

  /** The value `extractIssuesFromMarkdown(markdown)` returns. */
  function MarkdownIssues(markdown: string): seq<Issue>
  {
    var found := IssuesOf(AllMatches(markdown, 0));
    if |found| > 0 then found else [RawResponseIssue(markdown)]
  }

  /** One `exec` step of the iteration AllMatches describes. */
  lemma IssuesOfNextMatch(t: string, from: nat)
    requires from <= |t|
    ensures FirstMatchFrom(t, from).None? ==> IssuesOf(AllMatches(t, from)) == []
    ensures FirstMatchFrom(t, from).Some? ==>
      var m := FirstMatchFrom(t, from).value;
      from < m.end <= |t| && IssuesOf(AllMatches(t, from)) == [ToIssue(m)] + IssuesOf(AllMatches(t, m.end))
  {
    match FirstMatchFrom(t, from)
    case None =>
    case Some(m) =>
      var rest := AllMatches(t, m.end);
      assert AllMatches(t, from) == [m] + rest;
      assert ([m] + rest)[1..] == rest;
  }

  lemma ConcatAssociative<T>(a: seq<T>, b: seq<T>, c: seq<T>)
    ensures a + (b + c) == (a + b) + c
  {
  }

  /** `extractIssuesFromMarkdown`: loops `exec` over the text, pushing one issue per
      match, and falls back to the raw-response issue. */
  method ExtractIssuesFromMarkdown(markdown: string) returns (issues: seq<Issue>)
    ensures issues == MarkdownIssues(markdown)
  {
    var found: seq<Issue> := [];
    var pattern := new IssuePattern();
    while true
      invariant pattern.lastIndex <= |markdown|
      invariant found + IssuesOf(AllMatches(markdown, pattern.lastIndex)) == IssuesOf(AllMatches(markdown, 0))
      decreases |markdown| - pattern.lastIndex
    {
      ghost var from := pattern.lastIndex;
      IssuesOfNextMatch(markdown, from);
      var m := pattern.Exec(markdown);
      if m.None? {
        assert found + [] == found;
        break;
      }
      ConcatAssociative(found, [ToIssue(m.value)], IssuesOf(AllMatches(markdown, m.value.end)));
      found := found + [ToIssue(m.value)];
    }
    issues := if |found| > 0 then found else [RawResponseIssue(markdown)];
  }

  lemma LineRefIsTrimmed(s: string)
    requires IsLineRef(s)
    ensures Trim(s) == s
  {
    assert IsDigit(s[|s| - 1]) || s[|s| - 1] == '-';
    assert !IsWhitespace(s[0]) && !IsWhitespace(s[|s| - 1]);
    TrimmedIsFixed(s);
  }

  lemma TrimKeepsOut(s: string, c: char)
    requires c !in s
    ensures c !in Trim(s)
  {
    var lead, trail := TrimParts(s);
    var r := Trim(s);
    forall j | 0 <= j < |r| ensures r[j] != c {
      assert r[j] == (lead + r + trail)[|lead| + j];
    }
  }

  /** `extractIssuesFromMarkdown` returns the single raw-response issue exactly when the
      pattern matches nowhere in the text; it never returns an empty list. */
  lemma FallbackExactlyWhenNoMatch(t: string)
    ensures |MarkdownIssues(t)| >= 1
    ensures MarkdownIssues(t) == [RawResponseIssue(t)] <==> forall p :: 0 <= p <= |t| ==> MatchAt(t, p).None?
  {
    var ms := AllMatches(t, 0);
    if ms != [] {
      var m := ms[0];
      LineRefIsTrimmed(m.lines);
      assert MarkdownIssues(t)[0].lines == m.lines;
      assert m.lines[0] != "N/A"[0];
    }
  }

  /** When the pattern matches, the issues are the matches in order of appearance, one
      each, with trimmed fields: `lines` is digits with at most one `-`, and the
      suggestion is a single line. */
  lemma MatchedIssues(t: string)
    requires AllMatches(t, 0) != []
    ensures var ms, issues := AllMatches(t, 0), MarkdownIssues(t);
      && |issues| == |ms|
      && (forall k :: 0 <= k < |ms| ==>
            && issues[k] == Issue(ms[k].lines, Trim(ms[k].issue), Trim(ms[k].suggestion))
            && IsLineRef(issues[k].lines)
            && IsTrimmed(issues[k].currentIssue) && IsTrimmed(issues[k].suggestion)
            && '\n' !in issues[k].suggestion)
      && (forall k :: 0 < k < |ms| ==> ms[k - 1].end <= ms[k].start)
  {
    var ms := AllMatches(t, 0);
    var issues := IssuesOf(ms);
    assert MarkdownIssues(t) == issues;
    forall k | 0 <= k < |ms|
      ensures && issues[k] == Issue(ms[k].lines, Trim(ms[k].issue), Trim(ms[k].suggestion))
              && IsLineRef(issues[k].lines)
              && IsTrimmed(issues[k].currentIssue) && IsTrimmed(issues[k].suggestion)
              && '\n' !in issues[k].suggestion
    {
      assert MatchAt(t, ms[k].start) == Some(ms[k]);
      LineRefIsTrimmed(ms[k].lines);
      TrimKeepsOut(ms[k].suggestion, '\n');
      assert issues[k] == ToIssue(ms[k]);
    }
  }

  /** A block is only recognised when a newline follows its suggestion: text without
      any newline always falls back to the raw-response issue. */
  lemma NoNewlineMeansRawResponse(t: string)
    requires '\n' !in t
    ensures MarkdownIssues(t) == [RawResponseIssue(t)]
  {
  }

  lemma SingleLetterIsTrimmed(c: char)
    requires '0' <= c <= 'z'
    ensures Trim([c]) == [c]
  {
    assert !IsWhitespace(c);
    TrimmedIsFixed([c]);
  }

  /** A worked example: one block, "**Line 7** a", newline, "Suggestion: b", newline. */
  const ExampleBlock: string := "**Line 7** a\nSuggestion: b\n"
  const ExampleMatch: RegexMatch := RegexMatch(0, 27, "7", "a", "b")

  /** The layout of the worked example, character by character. */
  predicate ExampleShape(t: string)
  {
    && |t| == 27
    && t[0] == '*' && t[1] == '*' && t[2] == 'L' && t[3] == 'i' && t[4] == 'n' && t[5] == 'e' && t[6] == ' '
    && t[7] == '7' && t[8] == '*' && t[9] == '*' && t[10] == ' ' && t[11] == 'a' && t[12] == '\n' && t[13] == 'S'
    && t[14] == 'u' && t[15] == 'g' && t[16] == 'g' && t[17] == 'e' && t[18] == 's' && t[19] == 't' && t[20] == 'i'
    && t[21] == 'o' && t[22] == 'n' && t[23] == ':' && t[24] == ' ' && t[25] == 'b' && t[26] == '\n'
  }

  lemma ExampleBlockShape()
    ensures ExampleShape(ExampleBlock)
  {
    ExampleBlockChars0();
    ExampleBlockChars1();
    ExampleBlockChars2();
    ExampleBlockChars3();
  }

  lemma ExampleBlockChars0()
    ensures var t := ExampleBlock; |t| == 27 && t[0] == '*' && t[1] == '*' && t[2] == 'L' && t[3] == 'i' && t[4] == 'n' && t[5] == 'e' && t[6] == ' '
  {
  }

  lemma ExampleBlockChars1()
    ensures var t := ExampleBlock; |t| == 27 && t[7] == '7' && t[8] == '*' && t[9] == '*' && t[10] == ' ' && t[11] == 'a' && t[12] == '\n' && t[13] == 'S'
  {
  }

  lemma ExampleBlockChars2()
    ensures var t := ExampleBlock; |t| == 27 && t[14] == 'u' && t[15] == 'g' && t[16] == 'g' && t[17] == 'e' && t[18] == 's' && t[19] == 't' && t[20] == 'i'
  {
  }

  lemma ExampleBlockChars3()
    ensures var t := ExampleBlock; |t| == 27 && t[21] == 'o' && t[22] == 'n' && t[23] == ':' && t[24] == ' ' && t[25] == 'b' && t[26] == '\n'
  {
  }

  lemma ExampleSuggestionText(t: string)
    requires ExampleShape(t)
    ensures SuggestionText(t, 0, "7", "a", 25, 25) == Some(ExampleMatch)
  {
    var m := ExampleMatch;
    assert TrailingNewlines(t, 0, "7", "a", "b", 27) == Some(m);
    assert SuggestionEnd(t, 0, "7", "a", "b", 26) == Some(m);
    assert t[25..26] == "b";
    assert SuggestionText(t, 0, "7", "a", 25, 26) == Some(m);
    assert t[25..25] == "";
    assert SuggestionEnd(t, 0, "7", "a", "", 25) == None;
  }

  lemma ExampleSuggestionPart(t: string)
    requires ExampleShape(t)
    ensures SuggestionLabel(t, 0, "7", "a", 13) == Some(ExampleMatch)
  {
    var m := ExampleMatch;
    ExampleSuggestionText(t);
    assert SpaceBeforeSuggestion(t, 0, "7", "a", 25) == Some(m);
    assert SpaceBeforeSuggestion(t, 0, "7", "a", 24) == Some(m);
    assert SuggestionColon(t, 0, "7", "a", 23) == Some(m);
    assert WordAt(t, 13, "Suggestion");
  }

  lemma ExampleIssueTextPart(t: string)
    requires ExampleShape(t)
    ensures IssueText(t, 0, "7", 11, 11) == Some(ExampleMatch)
  {
    var m := ExampleMatch;
    ExampleSuggestionPart(t);
    assert IssueNewlines(t, 0, "7", "a", 13) == Some(m);
    assert IssueEnd(t, 0, "7", "a", 12) == Some(m);
    assert t[11..12] == "a";
    assert IssueText(t, 0, "7", 11, 12) == Some(m);
    assert IssueEnd(t, 0, "7", t[11..11], 11) == None;
  }

  lemma ExampleIssuePart(t: string)
    requires ExampleShape(t)
    ensures SpaceAfterBold(t, 0, "7", 10) == Some(ExampleMatch)
  {
    var m := ExampleMatch;
    ExampleIssueTextPart(t);
    assert SpaceBeforeIssue(t, 0, "7", 11) == Some(m);
    assert Separator(t, 0, "7", 11) == Some(m);
    assert SpaceAfterBold(t, 0, "7", 11) == Some(m);
  }

  lemma ExampleNumberPart(t: string)
    requires ExampleShape(t)
    ensures Number(t, 0, 7) == Some(ExampleMatch)
  {
    var m := ExampleMatch;
    ExampleIssuePart(t);
    assert WordAt(t, 8, "**");
    assert CloseBold(t, 0, "7", 8) == Some(m);
    assert t[7..8] == "7";
    assert IsLineRef(t[7..8]) && AllDigits(t[7..8]);
    assert NumberTail(t, 0, 7, 8) == Some(m);
    assert NumberDash(t, 0, 7, 8) == Some(m);
    assert NumberDigits(t, 0, 7, 8) == Some(m);
  }

  lemma ExampleHeaderPart(t: string)
    requires ExampleShape(t)
    ensures MatchAt(t, 0) == Some(ExampleMatch)
  {
    var m := ExampleMatch;
    ExampleNumberPart(t);
    assert SpaceBeforeNumber(t, 0, 7) == Some(m);
    assert SpaceBeforeNumber(t, 0, 6) == Some(m);
    assert LineColon(t, 0, 6) == Some(m);
    assert !WordAt(t, 6, "s") by {
      assert Upper(t[6 + 0]) == ' ' && Upper("s"[0]) == 'S';
    }
    assert LineS(t, 0, 6) == Some(m);
    assert WordAt(t, 0, "**Line");
  }

  /** The worked example becomes exactly one issue, with the fields the block names. */
  lemma OneBlockExample()
    ensures MarkdownIssues(ExampleBlock) == [Issue("7", "a", "b")]
  {
    var t, m := ExampleBlock, ExampleMatch;
    ExampleBlockShape();
    ExampleHeaderPart(t);
    assert FirstMatchFrom(t, 0) == Some(m);
    assert FirstMatchFrom(t, 27) == None;
    assert AllMatches(t, 27) == [];
    assert AllMatches(t, 0) == [m];
    SingleLetterIsTrimmed('7');
    SingleLetterIsTrimmed('a');
    SingleLetterIsTrimmed('b');
  }
}
