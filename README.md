# ai-code-review-bot: a verified model of the review pipeline

The bot reviews a feature branch one changed file at a time. For each file, `runReview` in
review.js gets the diff from git and writes it to `output/diffs/<name>.diff`. It then
builds a two-message chat prompt (promptBuilder.js) and sends it to the Cody completions
API (`reviewWithCody` in aiReview.js). The answer arrives as a stream of server-sent
events. The bot folds that stream into one text and turns the text into a list of
issues, trying three sources in order:

1. the whole text as a JSON array;
2. the JSON between the first `[` and the last `]`;
3. `**Line N** … Suggestion: …` blocks found in markdown, or, when there are none, one
   placeholder issue holding the raw text.

The collected `{ fileName, issues }` entries are saved once, and only when at least one
file produced an entry.

This project models that pipeline in Dafny:

- `js_runtime.dfy` (`JsRuntime`): JSON values, JavaScript truthiness, string coercion,
  and `JSON.parse`. `JSON.parse` is a function passed in as a parameter.
- `js_strings.dfy` (`JsStrings`): the string built-ins the code calls (`trim`, `split`,
  `startsWith`, `indexOf`, `lastIndexOf`), with their round-trip laws.
- `markdown.dfy` (`Markdown`): `extractIssuesFromMarkdown`.
  - The global regular expression is a hand-written backtracking matcher, one function
    per element of the pattern.
  - The regex object is a class whose `Exec` moves `lastIndex`.
  - The extraction loop is a method proved equal to a declarative list of matches.
- `ai_review.dfy` (`AiReview`): the rest of `reviewWithCody`:
  - the status check;
  - the `'data'` handler, as a class `ResponseBody` whose methods append to
    `fullResponse`;
  - the `'end'` handler's fallback chain;
  - the whole response callback.
- `prompt_builder.dfy` (`PromptBuilder`): `buildReviewMessages`, with the rules text as a
  parameter.
- `review.dfy` (`Review`): the diff file name and the `runReview` loop.
  - The git, prompt and review calls are collaborators passed in.
  - The loop is proved against a declarative definition of its outcome.
  - At the end, the loop is wired to the modelled prompt builder and review.

Two facts about the code shape the model:

- `runReview` is a plain sequential loop with no retry, back-off or concurrency limit. A
  rejected review is not caught and ends the run.
- A response that is exactly `[]` resolves with `issues: []`. An empty array is truthy
  in JavaScript, so no fallback runs. What does always hold is that the `issues` value
  is truthy (`AiReview.ExtractIssues`). A list built from markdown is never empty.

Behaviour the code has and the model reproduces:

- Each stream chunk is split into lines on its own. A `data:` frame cut across two chunks
  is therefore lost (`AiReview.SplitFrameLost`).
- Two paths that differ only in `/` against `_` write the same diff file
  (`Review.DiffNamesCanCollide`).
- Appending a parsed value converts it to a string, and that conversion throws for an
  object with its own `toString` key, or an array holding one. The `catch` around the
  frame swallows it. A throwing `deltaText` appends nothing
  (`AiReview.ThrowingDeltaAppendsNothing`). A throwing choice ends the `forEach` and keeps
  what earlier choices appended (`AiReview.ChoicesStopAtThrow`).

## Model

| member | source | states |
|---|---|---|
| `JsRuntime.Property` | aiReview.js:105-109 | a property read `v.key` finds a value exactly when `v` is an object holding `key`, and then gives that field |
| `JsRuntime.Truthy` | aiReview.js:105-109 | definition, no contract: JavaScript truthiness of a parsed value; `null`, `false`, `0` and `""` are falsy, every array and object is truthy |
| `JsRuntime.ConversionThrows` | aiReview.js:106 | definition, no contract: `+=` of a parsed value throws for an object with its own `toString` key and for an array holding such a value at any depth |
| `JsRuntime.ToText` | aiReview.js:106 | `"" + v` fails exactly when `ConversionThrows(v)`; a string converts to itself, and an object that converts gives `[object Object]` |
| `JsStrings.TrimStart` | aiReview.js:101 | dropping leading whitespace leaves a string that is empty or starts with a non-whitespace character, and keeps the last character |
| `JsStrings.TrimEnd` | aiReview.js:101 | dropping trailing whitespace leaves a string that is empty or ends with a non-whitespace character, and keeps the first character |
| `JsStrings.TrimStartCuts` | aiReview.js:101 | what `trimStart` drops is a whitespace prefix, and what it keeps is the rest of the string |
| `JsStrings.TrimEndCuts` | aiReview.js:101 | what `trimEnd` drops is a whitespace suffix, and what it keeps is the rest of the string |
| `JsStrings.Trim` | aiReview.js:101 | `trim` leaves a string no longer than the input, neither of whose ends is whitespace |
| `JsStrings.TrimStartOfPadded` | aiReview.js:101 | `trimStart` of whitespace followed by text that does not start with whitespace is exactly that text |
| `JsStrings.TrimEndOfPadded` | aiReview.js:101 | `trimEnd` of text that does not end with whitespace, followed by whitespace, is exactly that text |
| `JsStrings.TrimOfPadded` | aiReview.js:27-29 | trimming a trimmed string padded with whitespace on both sides gives it back exactly |
| `JsStrings.TrimmedIsFixed` | aiReview.js:27-29 | a string neither of whose ends is whitespace is its own trim |
| `JsStrings.TrimIdempotent` | aiReview.js:27-29 | trimming twice is trimming once, and an already trimmed string is unchanged |
| `JsStrings.TrimParts` | aiReview.js:101 | every string is its trim with a whitespace prefix and a whitespace suffix |
| `JsStrings.TrimIgnoresPadding` | promptBuilder.js:32 | whitespace added around a string does not change its trim |
| `JsStrings.Split` | aiReview.js:98 | `split` on one character always yields at least one piece |
| `JsStrings.SplitPiecesFree` | aiReview.js:98 | no piece of a split holds the separator |
| `JsStrings.JoinSplit` | aiReview.js:98 | joining the pieces of a split with the separator restores the string |
| `JsStrings.SplitJoin` | aiReview.js:98 | splitting pieces that were joined with a separator they do not contain gives the pieces back |
| `JsStrings.SplitAfterPiece` | aiReview.js:98 | a piece free of the separator, the separator, then more text: the piece comes first and the text's pieces follow |
| `JsStrings.SplitConcat` | aiReview.js:98 | splitting `a + b` fuses the last piece of `a` with the first piece of `b` and keeps the other pieces |
| `JsStrings.SplitEndingInSeparator` | aiReview.js:98 | a string that ends with the separator splits into its pieces plus one final empty piece |
| `JsStrings.SplitWithoutSeparator` | aiReview.js:98 | a string without the separator splits into itself alone |
| `JsStrings.IndexOf` | aiReview.js:127 | `indexOf` is -1 exactly when the character is absent, and otherwise is a position of it with none before |
| `JsStrings.LastIndexOf` | aiReview.js:128 | `lastIndexOf` is -1 exactly when the character is absent, and otherwise is a position of it with none after |
| `Markdown.MatchAt` | aiReview.js:23 | a match of the pattern anchored at `i` starts at `i`, ends inside the text right after a newline, has a line reference `\d+-?\d*` as group 1, and has a one-line suggestion |
| `Markdown.LineS` | aiReview.js:23 | `[s]?`: a match found from here ends after a newline at or beyond this point, with a line-reference group 1 |
| `Markdown.LineColon` | aiReview.js:23 | `:?` after `Line[s]?`: same guarantee as the element before |
| `Markdown.SpaceBeforeNumber` | aiReview.js:23 | greedy `\s*` before the line numbers: same guarantee |
| `Markdown.Number` | aiReview.js:23 | group 1 opens on a digit: same guarantee |
| `Markdown.NumberDigits` | aiReview.js:23 | greedy `\d+`, given digits so far: group 1 ends up a line reference |
| `Markdown.NumberDash` | aiReview.js:23 | optional `-` inside group 1: group 1 ends up a line reference |
| `Markdown.NumberTail` | aiReview.js:23 | greedy trailing `\d*` of group 1: group 1 ends up a line reference |
| `Markdown.CloseBold` | aiReview.js:23 | closing `**`: the match keeps the captured `lines` and ends after a newline |
| `Markdown.SpaceAfterBold` | aiReview.js:23 | greedy `\s*` after the label: keeps `lines`, ends after a newline |
| `Markdown.Separator` | aiReview.js:23 | optional `:` or `-`: keeps `lines`, ends after a newline |
| `Markdown.SpaceBeforeIssue` | aiReview.js:23 | greedy `\s*` before the issue: keeps `lines`, ends after a newline |
| `Markdown.IssueText` | aiReview.js:23 | lazy dot-all group 2: keeps `lines`, ends after a newline, suggestion on one line |
| `Markdown.IssueEnd` | aiReview.js:23 | the newline closing group 2: the match carries exactly this issue text |
| `Markdown.IssueNewlines` | aiReview.js:23 | greedy rest of `\n+`: keeps `lines` and the issue text |
| `Markdown.SuggestionLabel` | aiReview.js:23 | `Suggestion` matched case-insensitively: keeps `lines` and the issue text |
| `Markdown.SuggestionColon` | aiReview.js:23 | optional `:` after `Suggestion`: keeps `lines` and the issue text |
| `Markdown.SpaceBeforeSuggestion` | aiReview.js:23 | greedy `\s*` before the suggestion: keeps `lines` and the issue text |
| `Markdown.SuggestionText` | aiReview.js:23 | lazy group 3 grows only over non-newlines, so the captured suggestion never holds a newline |
| `Markdown.SuggestionEnd` | aiReview.js:23 | group 3 closes exactly at a newline, and the match carries exactly this suggestion |
| `Markdown.TrailingNewlines` | aiReview.js:23 | the final greedy `\n+` always succeeds and ends the match at the end of the text or before a non-newline |
| `Markdown.FirstMatchFrom` | aiReview.js:25 | one `exec` search from `lastIndex` finds the leftmost matching position at or after it, or reports that none exists |
| `Markdown.AllMatches` | aiReview.js:25-31 | successive `exec` results are matches in order that do not overlap, and the list is empty exactly when the pattern matches nowhere |
| `Markdown.AllMatchesGaps` | aiReview.js:25-31 | the loop misses no match: none starts before the first match found, between the end of one and the start of the next, or after the last |
| `Markdown.IssuePattern.constructor` | aiReview.js:23 | a fresh regex object starts with `lastIndex` 0 |
| `Markdown.IssuePattern.Exec` | aiReview.js:25 | `exec` returns the first match from the old `lastIndex` and moves `lastIndex` to its end, or back to 0 on failure |
| `Markdown.ToIssue` | aiReview.js:26-30 | each of the three fields of an issue built from a match is trimmed: neither end is whitespace |
| `Markdown.RawResponseIssue` | aiReview.js:32 | definition, no contract: the fallback issue `N/A` / `Raw response` carrying the whole text |
| `Markdown.IssuesOf` | aiReview.js:26-30 | one issue per match, in the same order, each with the three captures trimmed |
| `Markdown.MarkdownIssues` | aiReview.js:21-32 | definition, no contract: the value `extractIssuesFromMarkdown` returns; `FallbackExactlyWhenNoMatch` and `MatchedIssues` state its properties |
| `Markdown.IssuesOfNextMatch` | aiReview.js:25-31 | one loop step: a successful `exec` moves strictly forward and contributes exactly its issue before the rest |
| `Markdown.ExtractIssuesFromMarkdown` | aiReview.js:21-33 | the `exec` loop returns exactly the issues of all matches, or the single raw-response issue when there are none |
| `Markdown.LineRefIsTrimmed` | aiReview.js:27 | a captured line reference has nothing for `trim` to remove |
| `Markdown.TrimKeepsOut` | aiReview.js:29 | trimming never introduces a character that was absent |
| `Markdown.FallbackExactlyWhenNoMatch` | aiReview.js:32 | the result is never empty, and is the `N/A` / `Raw response` issue carrying the whole input exactly when nothing matched |
| `Markdown.MatchedIssues` | aiReview.js:23-31 | with matches, the issues are the matches in order of appearance, trimmed, with `lines` of the form digits, optional `-`, digits and a one-line suggestion |
| `Markdown.NoNewlineMeansRawResponse` | aiReview.js:23 | a block needs a newline after its suggestion, so text without newlines always falls back |
| `Markdown.OneBlockExample` | aiReview.js:21-33 | worked example: the text `**Line 7** a`, newline, `Suggestion: b`, newline becomes exactly one issue: lines `7`, issue `a`, suggestion `b` |
| `AiReview.ClassifyStatus` | aiReview.js:88-92 | only 200..299 passes; 429 and only 429 is the rate-limit rejection; every other status rejects as unexpected with its code |
| `AiReview.TryParseJson` | aiReview.js:13-19 | a value comes back exactly when the text parses and the result is an array, and it is the parsed value |
| `AiReview.EmbeddedArrayText` | aiReview.js:127-130 | the second attempt exists exactly when some `[` comes before some `]`, and is the text from the first `[` through the last `]` |
| `AiReview.EmbeddedParse` | aiReview.js:125-136 | the second parse yields a value only when the text holds a `[` before a `]` |
| `AiReview.ExtractIssues` | aiReview.js:121-143 | the resolved `issues` value is always truthy, and a markdown list is never empty |
| `AiReview.WholeArrayKept` | aiReview.js:124-139 | a response that parses as a JSON array, `[]` included, is returned unchanged |
| `AiReview.EmbeddedOrMarkdown` | aiReview.js:125-142 | after a failed first attempt, the embedded parse is used exactly when it is truthy; otherwise the markdown list is |
| `AiReview.NoBracketsMeansMarkdown` | aiReview.js:127-142 | non-array text without a `[` before a `]` goes straight to the markdown step |
| `AiReview.JsonIssuesAreArrays` | aiReview.js:124-139 | when `JSON.parse` turns text starting with `[` into arrays, any JSON `issues` value is an array |
| `AiReview.ChoiceText` | aiReview.js:108-111 | one `forEach` callback throws exactly for a `null` choice or for a truthy `message.content` whose conversion throws |
| `AiReview.ChoicesText` | aiReview.js:108-112 | definition, no contract: the callbacks' texts in array order, up to the first callback that throws |
| `AiReview.FrameText` | aiReview.js:103-116 | definition, no contract: a truthy `deltaText`, else the texts of a non-empty `choices` array, and nothing when the handler throws |
| `AiReview.ThrowingDeltaAppendsNothing` | aiReview.js:105-116 | a truthy `deltaText` whose conversion throws is caught and appends nothing, and `choices` is not consulted |
| `AiReview.LineText` | aiReview.js:99-117 | definition, no contract: what one line of a chunk appends |
| `AiReview.LinesText` | aiReview.js:98-118 | definition, no contract: the lines' texts, in order |
| `AiReview.ChunkText` | aiReview.js:97-119 | definition, no contract: what one `'data'` event appends, the chunk split on newlines by itself |
| `AiReview.StreamText` | aiReview.js:97-119 | definition, no contract: `fullResponse` after a sequence of chunks |
| `AiReview.LinesTextConcat` | aiReview.js:99-118 | the text appended for a list of lines is the concatenation of the texts of its parts |
| `AiReview.ChoicesTextConcat` | aiReview.js:108-112 | choices none of whose callbacks throw append their contents in array order, before whatever follows |
| `AiReview.ChoicesStopAtThrow` | aiReview.js:108-114 | a callback that throws, on a `null` choice or on content whose conversion throws, cuts off every later choice and keeps the earlier ones |
| `AiReview.NoDataLinesNoText` | aiReview.js:100 | lines that do not start with `data: ` append nothing |
| `JsStrings.SplitAfterSeparator` | aiReview.js:98 | after text that ends with the separator, the pieces of what follows come after the earlier pieces unchanged |
| `AiReview.EmptyLastLine` | aiReview.js:98-100 | the empty piece after a chunk's final newline appends nothing |
| `AiReview.AlignedChunksCompose` | aiReview.js:97-119 | two chunks split at a line end append what their concatenation would |
| `AiReview.AlignedStream` | aiReview.js:97-119 | when every chunk ends with a newline, the whole stream appends what one chunk holding the whole body would |
| `AiReview.SplitFrameLost` | aiReview.js:97-119 | a frame that yields `hi` in one chunk yields nothing when cut across two chunks |
| `AiReview.FrameChunk` | aiReview.js:97-119 | a chunk holding one `data: ` line with a JSON object payload, then a newline, appends that frame's text |
| `AiReview.WholeFrameChunk` | aiReview.js:97-119 | the frame `{"deltaText":"hi"}` in one chunk appends `hi` |
| `AiReview.HeadChunk` | aiReview.js:97-119 | a chunk holding only the first half of that frame appends nothing |
| `AiReview.TailChunk` | aiReview.js:97-119 | a chunk holding only the second half of that frame appends nothing |
| `AiReview.DataLine` | aiReview.js:100-106 | a `data: ` line whose trimmed payload is neither empty nor `[DONE]` and parses appends that frame's text |
| `AiReview.DataLineUnparsable` | aiReview.js:101-116 | a `data: ` line whose trimmed payload does not parse appends nothing |
| `AiReview.DataLineSkipped` | aiReview.js:100-102 | a `data: ` line whose trimmed payload is empty or `[DONE]` appends nothing |
| `AiReview.OneLineChunk` | aiReview.js:98-99 | a chunk holding one line, with or without its newline, appends that line's text |
| `AiReview.ResponseBody.constructor` | aiReview.js:94 | `fullResponse` starts empty |
| `AiReview.ResponseBody.OnData` | aiReview.js:97-119 | a `'data'` event only appends to `fullResponse`, and appends exactly the text of the chunk's lines |
| `AiReview.ResponseBody.AppendLine` | aiReview.js:99-117 | one line appends nothing unless it is a `data: ` line whose trimmed payload is not empty or `[DONE]` and parses |
| `AiReview.ResponseBody.AppendFrame` | aiReview.js:103-116 | a parsed frame appends its truthy `deltaText` unless converting it throws, or else the contents of a non-empty `choices` array, and nothing for `null` |
| `AiReview.ResponseBody.AppendChoices` | aiReview.js:108-112 | the `forEach` appends each choice's truthy `message.content` in order until a callback throws, on a `null` choice or on content whose conversion throws |
| `AiReview.ResponseBody.OnEnd` | aiReview.js:121-143 | the `'end'` handler resolves with exactly the fallback chain's value for the accumulated text |
| `AiReview.ReviewResponse` | aiReview.js:88-147 | the promise resolves exactly for 2xx responses and then with truthy issues; status 429 rejects as rate-limited |
| `AiReview.ReceiveResponse` | aiReview.js:87-147 | checking the status, feeding every chunk to `'data'` and running `'end'` settles the promise as `ReviewResponse` says |
| `PromptBuilder.LoadRules` | promptBuilder.js:4-10 | the rules text is the file's contents, or empty when the read fails |
| `PromptBuilder.PromptBeforeDiff` | promptBuilder.js:15-31 | definition, no contract: the fixed instructions, the rules text and the diff header naming the file |
| `PromptBuilder.ReviewPrompt` | promptBuilder.js:15-40 | definition, no contract: the prompt with the trimmed diff between its header and the fixed closing instructions |
| `PromptBuilder.BuildReviewMessages` | promptBuilder.js:12-48 | always two messages: `human` with the review prompt, then `assistant` with the fixed Cody greeting |
| `PromptBuilder.MessagesDependOnTrimmedDiff` | promptBuilder.js:32 | two diffs give the same messages exactly when they trim to the same text |
| `PromptBuilder.PaddedDiffSameMessages` | promptBuilder.js:32 | whitespace around a diff changes nothing in the messages |
| `Review.ReplaceSeparators` | review.js:42 | same length; every `/` and `\` becomes `_`; every other character is kept; no separator remains |
| `Review.DiffFileName` | review.js:42 | five characters longer than the path, ends in `.diff`, holds no separator |
| `Review.DiffPath` | review.js:42 | definition, no contract: the name joined under `output/diffs`; `DiffPathStaysInDirectory` states its property |
| `Review.DiffPathStaysInDirectory` | review.js:42 | every diff file lands directly in `output/diffs/`, whatever the changed file's path |
| `Review.DiffNamesCanCollide` | review.js:42 | `a/b` and `a_b` share the diff file `a_b.diff` |
| `Review.Step` | review.js:38-62 | with an empty diff or missing or empty messages the file is skipped; otherwise a rejection aborts with its error, a truthy review with truthy issues pushes an entry named after the file, and anything else skips; abort and push happen only in those cases |
| `Review.Collected` | review.js:38-63 | definition, no contract: the entries pushed for the files, in order |
| `Review.FirstRejection` | review.js:53 | definition, no contract: the error of the first file whose review rejects |
| `Review.RunOutcome` | review.js:36-69 | `saveResults` is only ever called with a non-empty list |
| `Review.FirstRejectionSticks` | review.js:53 | once a review has rejected, later files cannot change the run's error |
| `Review.RunReview` | review.js:36-69 | the loop aborts with the first rejection, saves nothing when no entry was pushed, and otherwise saves all entries once |
| `Review.SubsequenceIsShorter` | review.js:36-62 | an ordered selection from a list is no longer than the list |
| `Review.CollectedFollowsFiles` | review.js:36-62 | the entries name changed files in their order, so there are never more entries than changed files |
| `Review.CollectedConcat` | review.js:38-63 | the entries for two runs of files are the entries of each, one after the other |
| `Review.FirstRejectionConcat` | review.js:53 | the first rejection over two runs of files is the first run's, else the second's |
| `Review.SkippedFileInvisible` | review.js:39-57 | a skipped file leaves no trace: the run ends as if it were not listed |
| `Review.RejectionAborts` | review.js:53 | the first rejecting review ends the run with its error, whatever follows |
| `Review.EmptyIssuesRecorded` | review.js:60-61 | a review resolving with `issues: []` still produces an entry |
| `Review.CodyCollaborators` | review.js:46-53 | definition, no contract: the loop wired to the modelled `buildReviewMessages` and `reviewWithCody` |
| `Review.CodyStep` | review.js:46-61 | with the real builder and review, the only skip left is an empty diff; otherwise the file aborts on a rejection or is recorded with the resolved issues |
| `Review.CodyRecordsEveryDiffedFile` | review.js:38-62 | with the real builder and review and no rejection, the entries are exactly the files with a non-empty diff, in order |

## Left out

- Network and process I/O are parameters or are not modelled:
  - the HTTPS request, its headers and the request payload (aiReview.js:5-11, 67-87,
    148-149);
  - `writePayloadByFilePath` (aiReview.js:35-65);
  - the clone, fetch, checkout and mkdir steps and the argument handling
    (review.js:19-34, 73-79);
  - a failing diff file write (review.js:43). It throws out of `runReview` and ends the
    run; the model treats the write as always succeeding;
  - a failing `mkdir` in `writePayloadByFilePath` (aiReview.js:40, awaited at 77). It
    rejects `reviewWithCody` before any request and ends the run like a rejected review;
    the model treats it as always succeeding;
  - reading the rules file (promptBuilder.js:4-10). Its outcome is the `LoadRules`
    argument.
- gitUtils.js is not part of this model. `getChangedFiles` and `getFileDiff` appear only as
  the list of files and the `diffOf` collaborator. A failing git command, which throws
  out of `runReview`, is not modelled.
- aggregator.js is not part of this model. `saveResults` is the `Saved` outcome of a
  run.
- Logging (`console.*`) is left out.
- The rejection errors are modelled by kind and status code, not by their message text.
- `JSON.parse` and the engine's Number-to-String conversion are abstract functions of
  the `Runtime` parameter.
  - The only fact assumed about `JSON.parse` is that text starting with `[` parses to an
    array, if it parses at all. It is stated as a precondition (`ParsesBracketAsArray`),
    never as an axiom.
  - JSON numbers are real numbers.
- Strings are sequences of characters. JavaScript strings are UTF-16 code units, so
  characters outside the Basic Multilingual Plane count as two in JavaScript and as one
  here.
- A request `'error'` event is modelled as arriving before any response. An error in the
  middle of a body that has already started streaming is not modelled.
- `path.join` is modelled with POSIX separators. On Windows it would join with `\`.
- Retries, back-off, cooldowns and a concurrency limit do not exist in the code and are
  not modelled.
