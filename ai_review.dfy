/** The response handling of `reviewWithCody` (aiReview.js): the HTTP status check, the
    'data' handler that folds streamed server-sent-event chunks into `fullResponse`, and
    the 'end' handler that turns the accumulated text into the `issues` value through
    `tryParseJson`, the embedded-array extraction and the markdown fallback. */
module AiReview {
  import opened JsRuntime
  import opened JsStrings
  import opened Markdown

  /** The `issues` value the review resolves with: a parsed JSON value, or the list that
      `extractIssuesFromMarkdown` built. */
  datatype IssueList = JsonIssues(value: Json) | TextIssues(items: seq<Issue>)

  /** JavaScript truthiness of an `issues` value; a markdown list is an array, so truthy. */
  predicate IssuesTruthy(l: IssueList)
  {
    match l
    case JsonIssues(v) => Truthy(v)
    case TextIssues(_) => true
  }

  /** Why the review promise rejects. */
  datatype ReviewError =
    | RateLimited                       // status 429
    | UnexpectedStatus(code: int)       // any other status outside 200..299
    | RequestFailed(message: string)    // the request's 'error' event

  /** What the promise settles to. */
  datatype ReviewOutcome = Rejected(error: ReviewError) | Resolved(issues: IssueList)

  /** What the HTTP layer delivers: a status with the body's chunks, or a request error. */
  datatype HttpResponse = Response(status: int, chunks: seq<string>) | RequestError(message: string)

  // ---------------------------------------------------------------- status

  /** The response callback's status check: 429 first, then anything outside 200..299. */
  function ClassifyStatus(status: int): (r: Option<ReviewError>)
    ensures r.None? <==> 200 <= status < 300
    ensures r == Some(RateLimited) <==> status == 429
    ensures r.Some? && status != 429 ==> r.value == UnexpectedStatus(status)
  {
    if status == 429 then Some(RateLimited)
    else if status < 200 || status >= 300 then Some(UnexpectedStatus(status))
    else None
  }

  // ---------------------------------------------------------------- tryParseJson

  /** `tryParseJson(text)`: the parsed value when it is an array, otherwise nothing
      (`null`), whether the text did not parse or parsed to something else. */
  function TryParseJson(rt: Runtime, text: string): (r: Option<Json>)
    ensures r.Some? <==> rt.parse(text).Some? && rt.parse(text).value.JArray?
    ensures r.Some? ==> r == rt.parse(text)
  {
    match rt.parse(text)
    case None => None
    case Some(v) => if v.JArray? then Some(v) else None
  }

  // ---------------------------------------------------------------- embedded array

  /** Some `[` occurs before some `]`. */
  ghost predicate HasBracketPair(text: string)
  {
    exists i, j :: 0 <= i < j < |text| && text[i] == '[' && text[j] == ']'
  }

  /** `a` is the first `[` of `text`, `b` its last `]`, and `b` comes after `a`. */
  ghost predicate OutermostBrackets(text: string, a: int, b: int)
  {
    0 <= a < b < |text| && text[a] == '[' && text[b] == ']'
    && '[' !in text[..a] && ']' !in text[b + 1..]
  }

  lemma NoBracketPair(text: string, a: int, b: int)
    requires a >= -1 && b >= -1
    requires a == -1 || b == -1 || b <= a
    requires a == -1 <==> '[' !in text
    requires a >= 0 ==> a < |text| && '[' !in text[..a]
    requires b == -1 <==> ']' !in text
    requires b >= 0 ==> b < |text| && ']' !in text[b + 1..]
    ensures !HasBracketPair(text)
  {
  }

  lemma BracketPairFound(text: string, a: int, b: int)
    requires 0 <= a < b < |text| && text[a] == '[' && text[b] == ']'
    requires '[' !in text[..a] && ']' !in text[b + 1..]
    ensures OutermostBrackets(text, a, b) && HasBracketPair(text)
    ensures |text[a..b + 1]| >= 2 && text[a..b + 1][0] == '[' && text[a..b + 1][b - a] == ']'
  {
  }

  /** The text the 'end' handler hands to `JSON.parse` on its second attempt: from the
      first `[` through the last `]`, present only when that `]` follows that `[`. */
  function EmbeddedArrayText(text: string): (r: Option<string>)
    ensures r.Some? <==> HasBracketPair(text)
    ensures r.Some? ==> exists a, b :: OutermostBrackets(text, a, b) && r.value == text[a..b + 1]
    ensures r.Some? ==> |r.value| >= 2 && r.value[0] == '[' && r.value[|r.value| - 1] == ']'
  {
    var a := IndexOf(text, '[');
    var b := LastIndexOf(text, ']');
    if a != -1 && b != -1 && b > a then
      BracketPairFound(text, a, b);
      Some(text[a..b + 1])
    else
      NoBracketPair(text, a, b);
      None
  }

  /** The result of the second `JSON.parse` attempt, `None` when it was not made or threw. */
  function EmbeddedParse(rt: Runtime, text: string): (r: Option<Json>)
    ensures r.Some? ==> HasBracketPair(text)
  {
    match EmbeddedArrayText(text)
    case None => None
    case Some(s) => rt.parse(s)
  }

  // ---------------------------------------------------------------- 'end' handler

  /** The `issues` value the 'end' handler resolves with for the accumulated text: the
      whole text if it parses as an array; otherwise the embedded array text if it
      parses to something truthy; otherwise the markdown issues. */
  function ExtractIssues(rt: Runtime, text: string): (r: IssueList)
    ensures IssuesTruthy(r)
    ensures r.TextIssues? ==> |r.items| >= 1
  {
    var direct := TryParseJson(rt, text);
    if direct.Some? then JsonIssues(direct.value)
    else
      var embedded := EmbeddedParse(rt, text);
      if embedded.Some? && Truthy(embedded.value) then JsonIssues(embedded.value)
      else TextIssues(MarkdownIssues(text))
  }

  /** A response that is itself a JSON array, even the empty one, comes back unchanged. */
  lemma WholeArrayKept(rt: Runtime, text: string, xs: seq<Json>)
    requires rt.parse(text) == Some(JArray(xs))
    ensures ExtractIssues(rt, text) == JsonIssues(JArray(xs))
  {
  }

  /** Without an array parse of the whole text, the embedded text is tried, and its parse
      is used exactly when it is truthy; otherwise the markdown list is returned. */
  lemma EmbeddedOrMarkdown(rt: Runtime, text: string)
    requires TryParseJson(rt, text).None?
    ensures EmbeddedParse(rt, text).Some? && Truthy(EmbeddedParse(rt, text).value) ==>
              ExtractIssues(rt, text) == JsonIssues(EmbeddedParse(rt, text).value)
    ensures !(EmbeddedParse(rt, text).Some? && Truthy(EmbeddedParse(rt, text).value)) ==>
              ExtractIssues(rt, text) == TextIssues(MarkdownIssues(text))
  {
  }

  /** Text with no `[` before a `]` that is not itself an array goes straight to the
      markdown step. */
  lemma NoBracketsMeansMarkdown(rt: Runtime, text: string)
    requires !(rt.parse(text).Some? && rt.parse(text).value.JArray?)
    requires !HasBracketPair(text)
    ensures ExtractIssues(rt, text) == TextIssues(MarkdownIssues(text))
  {
  }

  /** When `JSON.parse` turns every text that starts with `[` into an array (as the JSON
      grammar does), a JSON result is always an array. */
  lemma JsonIssuesAreArrays(rt: Runtime, text: string)
    requires ParsesBracketAsArray(rt)
    ensures ExtractIssues(rt, text).JsonIssues? ==> ExtractIssues(rt, text).value.JArray?
  {
    if TryParseJson(rt, text).None? {
      var s := EmbeddedArrayText(text);
      if s.Some? {
        assert |s.value| > 0 && s.value[0] == '[';
      }
    }
  }

  // ---------------------------------------------------------------- 'data' handler

  /** The text one `forEach` callback appends, `None` when it throws: reading `.message`
      of a `null` choice throws, and so does converting a truthy `message?.content` whose
      conversion throws. A choice that is not an object, or has no object `message`, has
      no such property and appends nothing. */
  function ChoiceText(rt: Runtime, choice: Json): (r: Option<string>)
    ensures r.None? <==>
      || choice.JNull?
      || (&& Property(choice, "message").Some?
          && Property(Property(choice, "message").value, "content").Some?
          && Truthy(Property(Property(choice, "message").value, "content").value)
          && ConversionThrows(Property(Property(choice, "message").value, "content").value))
  {
    if choice.JNull? then None
    else
      match Property(choice, "message")
      case None => Some("")
      case Some(message) =>
        match Property(message, "content")
        case Some(content) => if Truthy(content) then ToText(rt, content) else Some("")
        case None => Some("")
  }

  /** What `choices.forEach` appends: each choice's text in order, until a callback
      throws, which ends the loop (earlier appends stay). */
  function ChoicesText(rt: Runtime, choices: seq<Json>): string
  {
    if choices == [] then ""
    else
      match ChoiceText(rt, choices[0])
      case None => ""
      case Some(text) => text + ChoicesText(rt, choices[1..])
  }

  /** What one parsed frame appends. Reading a property of `null` throws, so a `null`
      frame adds nothing. A truthy `deltaText` wins, and adds nothing when its conversion
      throws. Otherwise `choices` counts only as a non-empty array: a falsy `length` skips
      it, and a string or object with a truthy `length` has no `forEach`, so the call
      throws before appending. */
  function FrameText(rt: Runtime, parsed: Json): string
  {
    if parsed.JNull? then ""
    else
      var delta := Property(parsed, "deltaText");
      if delta.Some? && Truthy(delta.value) then
        match ToText(rt, delta.value)
        case None => ""
        case Some(text) => text
      else
        match Property(parsed, "choices")
        case Some(JArray(cs)) => if |cs| > 0 then ChoicesText(rt, cs) else ""
        case _ => ""
  }

  /** A truthy `deltaText` whose conversion throws is caught with nothing appended,
      and the frame's `choices` are not looked at. */
  lemma ThrowingDeltaAppendsNothing(rt: Runtime, parsed: Json)
    requires Property(parsed, "deltaText").Some?
    requires Truthy(Property(parsed, "deltaText").value)
    requires ConversionThrows(Property(parsed, "deltaText").value)
    ensures FrameText(rt, parsed) == ""
  {
  }

  /** The `data: ` prefix the handler looks for. */
  const DataPrefix: string := "data: "

  /** What one line of a chunk appends: only `data: ` lines whose trimmed payload is
      neither empty nor `[DONE]` and parses as JSON contribute. */
  function LineText(rt: Runtime, line: string): string
  {
    if !StartsWith(line, DataPrefix) then ""
    else
      var dataStr := Trim(line[|DataPrefix|..]);
      if dataStr == "" || dataStr == "[DONE]" then ""
      else
        match rt.parse(dataStr)
        case None => ""
        case Some(parsed) => FrameText(rt, parsed)
  }

  function LinesText(rt: Runtime, lines: seq<string>): string
  {
    if lines == [] then "" else LineText(rt, lines[0]) + LinesText(rt, lines[1..])
  }

  /** What one 'data' event appends: the chunk is split on newlines by itself, with no
      carry-over of a partial line from the previous chunk. */
  function ChunkText(rt: Runtime, chunk: string): string
  {
    LinesText(rt, Split(chunk, '\n'))
  }

  /** The whole accumulated `fullResponse` after the given chunks, starting from "". */
  function StreamText(rt: Runtime, chunks: seq<string>): string
  {
    if chunks == [] then ""
    else StreamText(rt, chunks[..|chunks| - 1]) + ChunkText(rt, chunks[|chunks| - 1])
  }

  lemma {:induction false} LinesTextConcat(rt: Runtime, a: seq<string>, b: seq<string>)
    ensures LinesText(rt, a + b) == LinesText(rt, a) + LinesText(rt, b)
  {
    if a == [] {
      assert a + b == b;
    } else {
      assert (a + b)[1..] == a[1..] + b;
      LinesTextConcat(rt, a[1..], b);
    }
  }

  lemma {:induction false} LinesTextSnoc(rt: Runtime, lines: seq<string>, i: nat)
    requires i < |lines|
    ensures LinesText(rt, lines[..i + 1]) == LinesText(rt, lines[..i]) + LineText(rt, lines[i])
  {
    var line := lines[i];
    assert lines[..i + 1] == lines[..i] + [line];
    LinesTextConcat(rt, lines[..i], [line]);
    assert LinesText(rt, [line]) == LineText(rt, line) + LinesText(rt, []);
  }

  lemma {:induction false} ChoicesTextConcat(rt: Runtime, a: seq<Json>, b: seq<Json>)
    requires forall k :: 0 <= k < |a| ==> ChoiceText(rt, a[k]).Some?
    ensures ChoicesText(rt, a + b) == ChoicesText(rt, a) + ChoicesText(rt, b)
  {
    if a == [] {
      assert a + b == b;
    } else {
      assert (a + b)[0] == a[0];
      assert (a + b)[1..] == a[1..] + b;
      ChoicesTextConcat(rt, a[1..], b);
    }
  }

  /** Choices are appended in array order, and a callback that throws (a `null` choice,
      or content whose conversion throws) cuts off every later choice. */
  lemma ChoicesStopAtThrow(rt: Runtime, a: seq<Json>, choice: Json, b: seq<Json>)
    requires forall k :: 0 <= k < |a| ==> ChoiceText(rt, a[k]).Some?
    requires ChoiceText(rt, choice).None?
    ensures ChoicesText(rt, a + [choice] + b) == ChoicesText(rt, a)
  {
    assert a + [choice] + b == a + ([choice] + b);
    ChoicesTextConcat(rt, a, [choice] + b);
  }

  /** A chunk in which no line starts with `data: ` appends nothing. */
  lemma {:induction false} NoDataLinesNoText(rt: Runtime, lines: seq<string>)
    requires forall k :: 0 <= k < |lines| ==> !StartsWith(lines[k], DataPrefix)
    ensures LinesText(rt, lines) == ""
  {
    if lines != [] {
      NoDataLinesNoText(rt, lines[1..]);
    }
  }

  /** Chunks that end on a line boundary compose: handling them one after the other
      appends what handling their concatenation would. */
  lemma AlignedChunksCompose(rt: Runtime, a: string, b: string)
    requires |a| > 0 && a[|a| - 1] == '\n'
    ensures ChunkText(rt, a + b) == ChunkText(rt, a) + ChunkText(rt, b)
  {
    var A := Split(a, '\n');
    var B := Split(b, '\n');
    var init := A[..|A| - 1];
    assert A[|A| - 1] == "" && Split(a + b, '\n') == init + B by {
      SplitAfterSeparator(a, b, '\n');
    }
    assert LinesText(rt, A) == LinesText(rt, init) by {
      assert A == init + [""];
      EmptyLastLine(rt, init);
    }
    LinesTextConcat(rt, init, B);
  }

  /** The empty piece after a final newline appends nothing. */
  lemma EmptyLastLine(rt: Runtime, lines: seq<string>)
    ensures LinesText(rt, lines + [""]) == LinesText(rt, lines)
  {
    LinesTextConcat(rt, lines, [""]);
    assert LinesText(rt, [""]) == LineText(rt, "") + LinesText(rt, []);
  }

  function Concat(chunks: seq<string>): string
  {
    if chunks == [] then "" else Concat(chunks[..|chunks| - 1]) + chunks[|chunks| - 1]
  }

  /** When every chunk ends with a newline, the stream appends exactly what one chunk
      holding the whole body would. */
  lemma {:induction false} AlignedStream(rt: Runtime, chunks: seq<string>)
    requires forall k :: 0 <= k < |chunks| ==> |chunks[k]| > 0 && chunks[k][|chunks[k]| - 1] == '\n'
    ensures StreamText(rt, chunks) == ChunkText(rt, Concat(chunks))
  {
    if chunks == [] {
      assert Split("", '\n') == [""];
      assert LinesText(rt, [""]) == "";
    } else {
      var init := chunks[..|chunks| - 1];
      var last := chunks[|chunks| - 1];
      AlignedStream(rt, init);
      if init == [] {
        assert Concat(chunks) == last;
        assert StreamText(rt, init) == "";
      } else {
        var prev := Concat(init);
        var ilast := init[|init| - 1];
        assert prev == Concat(init[..|init| - 1]) + ilast;
        assert |prev| > 0 && prev[|prev| - 1] == '\n';
        AlignedChunksCompose(rt, prev, last);
      }
    }
  }

  /** The two halves of the frame `{"deltaText":"hi"}` used by SplitFrameLost. */
  const FrameHead: string := "{\"delta"
  const FrameTail: string := "Text\":\"hi\"}"

  /** A frame split across two chunks is lost: each chunk is split on its own, so neither
      half is a complete `data: ` payload. The requirements on `parse` say only that the
      first half is not JSON and the whole payload is the object it reads as. */
  lemma SplitFrameLost(rt: Runtime)
    requires rt.parse(FrameHead + FrameTail) == Some(JObject(map["deltaText" := JString("hi")]))
    requires rt.parse(FrameHead) == None
    ensures StreamText(rt, [DataPrefix + FrameHead + FrameTail + "\n"]) == "hi"
    ensures StreamText(rt, [DataPrefix + FrameHead, FrameTail + "\n"]) == ""
  {
    var whole := DataPrefix + FrameHead + FrameTail + "\n";
    var first := DataPrefix + FrameHead;
    var second := FrameTail + "\n";
    WholeFrameChunk(rt);
    HeadChunk(rt);
    TailChunk(rt);
    assert [whole][..0] == [];
    assert [first, second][..1] == [first];
    assert [first][..0] == [];
  }

  /** The frame in one chunk appends its text. */
  lemma WholeFrameChunk(rt: Runtime)
    requires rt.parse(FrameHead + FrameTail) == Some(JObject(map["deltaText" := JString("hi")]))
    ensures ChunkText(rt, DataPrefix + FrameHead + FrameTail + "\n") == "hi"
  {
    var frame := JObject(map["deltaText" := JString("hi")]);
    assert FrameText(rt, frame) == "hi" by {
      assert Property(frame, "deltaText") == Some(JString("hi"));
    }
    assert '\n' !in DataPrefix && '\n' !in FrameHead && '\n' !in FrameTail;
    assert FrameHead[0] == '{' && FrameTail[|FrameTail| - 1] == '}';
    FrameChunk(rt, FrameHead, FrameTail, frame);
  }

  /** A chunk holding one `data: ` line whose payload is a JSON object, split in two
      parts here, appends the text of the frame it parses as. */
  lemma FrameChunk(rt: Runtime, head: string, tail: string, frame: Json)
    requires |head| > 0 && head[0] == '{' && |tail| > 0 && tail[|tail| - 1] == '}'
    requires '\n' !in DataPrefix && '\n' !in head && '\n' !in tail
    requires rt.parse(head + tail) == Some(frame)
    ensures ChunkText(rt, DataPrefix + head + tail + "\n") == FrameText(rt, frame)
  {
    var payload := head + tail;
    assert payload[0] == '{' && payload[|payload| - 1] == '}';
    TrimmedJson(payload);
    assert payload != "[DONE]" by {
      assert "[DONE]"[0] == '[';
    }
    DataLine(rt, payload, frame);
    ConcatAssociative(DataPrefix, head, tail);
    assert '\n' !in DataPrefix + payload;
    OneLineChunk(rt, DataPrefix + payload, true);
  }

  /** The chunk holding the first half of the frame appends nothing. */
  lemma HeadChunk(rt: Runtime)
    requires rt.parse(FrameHead) == None
    ensures ChunkText(rt, DataPrefix + FrameHead) == ""
  {
    assert '\n' !in DataPrefix + FrameHead;
    TrimmedJson(FrameHead);
    DataLineUnparsable(rt, FrameHead);
    OneLineChunk(rt, DataPrefix + FrameHead, false);
  }

  /** The chunk holding the second half of the frame is no `data: ` line. */
  lemma TailChunk(rt: Runtime)
    ensures ChunkText(rt, FrameTail + "\n") == ""
  {
    assert '\n' !in FrameTail;
    assert !StartsWith(FrameTail, DataPrefix) by {
      assert FrameTail[0] != DataPrefix[0];
    }
    OneLineChunk(rt, FrameTail, true);
  }

  /** A `data: ` line whose trimmed payload is neither empty nor `[DONE]` and parses
      appends the text of the frame it parses as. */
  lemma DataLine(rt: Runtime, payload: string, frame: Json)
    requires Trim(payload) != "" && Trim(payload) != "[DONE]"
    requires rt.parse(Trim(payload)) == Some(frame)
    ensures LineText(rt, DataPrefix + payload) == FrameText(rt, frame)
  {
    var line := DataPrefix + payload;
    assert line[..|DataPrefix|] == DataPrefix;
    assert line[|DataPrefix|..] == payload;
  }

  /** A `data: ` line whose trimmed payload does not parse appends nothing. */
  lemma DataLineUnparsable(rt: Runtime, payload: string)
    requires rt.parse(Trim(payload)) == None
    ensures LineText(rt, DataPrefix + payload) == ""
  {
    var line := DataPrefix + payload;
    assert line[..|DataPrefix|] == DataPrefix;
    assert line[|DataPrefix|..] == payload;
  }

  /** A `data: ` line whose trimmed payload is empty or `[DONE]` appends nothing. */
  lemma DataLineSkipped(rt: Runtime, payload: string)
    requires Trim(payload) == "" || Trim(payload) == "[DONE]"
    ensures LineText(rt, DataPrefix + payload) == ""
  {
    var line := DataPrefix + payload;
    assert line[..|DataPrefix|] == DataPrefix;
    assert line[|DataPrefix|..] == payload;
  }

  /** A chunk holding one line, with or without its newline, appends that line's text. */
  lemma OneLineChunk(rt: Runtime, line: string, newline: bool)
    requires '\n' !in line
    ensures ChunkText(rt, if newline then line + "\n" else line) == LineText(rt, line)
  {
    SplitLine(line);
    if newline {
      assert LinesText(rt, [line, ""]) == LineText(rt, line) + LinesText(rt, [""]);
      assert LinesText(rt, [""]) == LineText(rt, "") + LinesText(rt, []);
    } else {
      assert LinesText(rt, [line]) == LineText(rt, line) + LinesText(rt, []);
    }
  }

  /** Splitting a line without newlines, with or without a final newline. */
  lemma SplitLine(s: string)
    requires '\n' !in s
    ensures Split(s, '\n') == [s]
    ensures Split(s + "\n", '\n') == [s, ""]
  {
    SplitWithoutSeparator(s, '\n');
    SplitEndingInSeparator(s, '\n');
  }

  /** A payload starting with `{` and ending with a non-blank character is its own trim. */
  lemma TrimmedJson(s: string)
    requires |s| > 0 && s[0] == '{' && !IsWhitespace(s[|s| - 1])
    ensures Trim(s) == s
  {
    assert !IsWhitespace(s[0]);
    TrimmedIsFixed(s);
  }

  // ---------------------------------------------------------------- the response object

  /** The state the response callback keeps while the body streams in. */
  class ResponseBody {
    const rt: Runtime
    var fullResponse: string

    constructor (rt: Runtime)
      ensures this.rt == rt && fullResponse == ""
    {
      this.rt := rt;
      fullResponse := "";
    }

    /** The 'data' handler: only appends, and appends exactly `ChunkText` of the chunk. */
    method OnData(chunk: string)
      modifies this
      ensures fullResponse == old(fullResponse) + ChunkText(rt, chunk)
    {
      var lines := Split(chunk, '\n');
      for i := 0 to |lines|
        invariant fullResponse == old(fullResponse) + LinesText(rt, lines[..i])
      {
        LinesTextSnoc(rt, lines, i);
        ConcatAssociative(old(fullResponse), LinesText(rt, lines[..i]), LineText(rt, lines[i]));
        AppendLine(lines[i]);
      }
      assert lines[..|lines|] == lines;
      assert ChunkText(rt, chunk) == LinesText(rt, lines);
    }

    /** The body of the loop over a chunk's lines. */
    method AppendLine(line: string)
      modifies this
      ensures fullResponse == old(fullResponse) + LineText(rt, line)
    {
      if StartsWith(line, DataPrefix) {
        var dataStr := Trim(line[|DataPrefix|..]);
        if dataStr != "" && dataStr != "[DONE]" {
          var parsed := rt.parse(dataStr);
          if parsed.Some? {
            AppendFrame(parsed.value);
          }
        }
      }
    }

    /** The `try` block for one parsed frame. */
    method AppendFrame(parsed: Json)
      modifies this
      ensures fullResponse == old(fullResponse) + FrameText(rt, parsed)
    {
      if !parsed.JNull? {
        var delta := Property(parsed, "deltaText");
        if delta.Some? && Truthy(delta.value) {
          var text := ToText(rt, delta.value);
          if text.Some? {
            fullResponse := fullResponse + text.value;
          }
        } else {
          var choices := Property(parsed, "choices");
          if choices.Some? && choices.value.JArray? && |choices.value.elems| > 0 {
            AppendChoices(choices.value.elems);
          }
        }
      }
    }

    /** `choices.forEach(...)`, left early by the exception a `null` choice or a failed
        conversion raises. */
    method AppendChoices(cs: seq<Json>)
      modifies this
      ensures fullResponse == old(fullResponse) + ChoicesText(rt, cs)
    {
      var k := 0;
      while k < |cs|
        invariant 0 <= k <= |cs|
        invariant fullResponse + ChoicesText(rt, cs[k..]) == old(fullResponse) + ChoicesText(rt, cs)
        decreases |cs| - k
      {
        var choice := cs[k];
        assert cs[k..][1..] == cs[k + 1..];
        if choice.JNull? {
          break;
        }
        var message := Property(choice, "message");
        if message.Some? {
          var content := Property(message.value, "content");
          if content.Some? && Truthy(content.value) {
            var text := ToText(rt, content.value);
            if text.None? {
              break;
            }
            ConcatAssociative(fullResponse, text.value, ChoicesText(rt, cs[k + 1..]));
            fullResponse := fullResponse + text.value;
          }
        }
        k := k + 1;
      }
    }

    /** The 'end' handler: the `issues` value the promise resolves with. */
    method OnEnd() returns (issues: IssueList)
      ensures issues == ExtractIssues(rt, fullResponse)
    {
      var parsedJson := TryParseJson(rt, fullResponse);
      if parsedJson.None? {
        var jsonString := EmbeddedArrayText(fullResponse);
        if jsonString.Some? {
          parsedJson := rt.parse(jsonString.value);
        }
      }
      if parsedJson.Some? && Truthy(parsedJson.value) {
        issues := JsonIssues(parsedJson.value);
      } else {
        var items := ExtractIssuesFromMarkdown(fullResponse);
        issues := TextIssues(items);
      }
    }
  }

  /** How the review promise settles for a given HTTP response. */
  function ReviewResponse(rt: Runtime, response: HttpResponse): (r: ReviewOutcome)
    ensures r.Resolved? <==> response.Response? && 200 <= response.status < 300
    ensures r.Resolved? ==> IssuesTruthy(r.issues)
    ensures response.Response? && response.status == 429 ==> r == Rejected(RateLimited)
  {
    match response
    case RequestError(message) => Rejected(RequestFailed(message))
    case Response(status, chunks) =>
      match ClassifyStatus(status)
      case Some(e) => Rejected(e)
      case None => Resolved(ExtractIssues(rt, StreamText(rt, chunks)))
  }

  /** The response callback: check the status, feed every chunk to the 'data' handler,
      then run the 'end' handler. */
  method ReceiveResponse(rt: Runtime, response: HttpResponse) returns (outcome: ReviewOutcome)
    ensures outcome == ReviewResponse(rt, response)
  {
    if response.RequestError? {
      return Rejected(RequestFailed(response.message));
    }
    var rejection := ClassifyStatus(response.status);
    if rejection.Some? {
      return Rejected(rejection.value);
    }
    var chunks := response.chunks;
    var body := new ResponseBody(rt);
    for i := 0 to |chunks|
      invariant body.rt == rt
      invariant body.fullResponse == StreamText(rt, chunks[..i])
    {
      assert StreamText(rt, chunks[..i + 1]) == StreamText(rt, chunks[..i]) + ChunkText(rt, chunks[i]) by {
        assert chunks[..i + 1][..i] == chunks[..i];
      }
      body.OnData(chunks[i]);
    }
    assert body.fullResponse == StreamText(rt, chunks) by {
      assert chunks[..|chunks|] == chunks;
    }
    var issues := body.OnEnd();
    outcome := Resolved(issues);
    assert ReviewResponse(rt, response) == Resolved(ExtractIssues(rt, StreamText(rt, chunks)));
  }
}
