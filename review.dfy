/** The per-file review loop of `runReview` (review.js) and the name under which each
    file's diff is written. Git, the prompt builder and the review call are parameters
    of the loop; the end of the file plugs in the modelled prompt builder and review. */
module Review {
  import opened JsRuntime
  import opened AiReview
  import opened PromptBuilder

  // ---------------------------------------------------------------- diff file names

  predicate IsSeparator(c: char)
  {
    c == '/' || c == '\\'
  }

  /** `file.replace(/[\\/]/g, '_')`. */
  function ReplaceSeparators(file: string): (r: string)
    ensures |r| == |file|
    ensures forall k :: 0 <= k < |r| ==> !IsSeparator(r[k])
    ensures forall k :: 0 <= k < |r| ==> !IsSeparator(file[k]) ==> r[k] == file[k]
    ensures forall k :: 0 <= k < |r| ==> IsSeparator(file[k]) ==> r[k] == '_'
  {
    seq(|file|, k requires 0 <= k < |file| => if IsSeparator(file[k]) then '_' else file[k])
  }

  /** The name of the file a diff is written to. */
  function DiffFileName(file: string): (r: string)
    ensures |r| == |file| + 5
    ensures r[|file|..] == ".diff"
    ensures forall k :: 0 <= k < |r| ==> !IsSeparator(r[k])
  {
    ReplaceSeparators(file) + ".diff"
  }

  /** `path.join(DIFF_DIR, name)` with POSIX separators. The name holds no separator and
      is neither `.` nor `..`, so joining adds one `/` and normalises nothing. */
  function DiffPath(file: string): string
  {
    "output/diffs/" + DiffFileName(file)
  }

  /** Every diff file lands directly inside `output/diffs`, whatever the file path. */
  lemma DiffPathStaysInDirectory(file: string)
    ensures |DiffPath(file)| > 13 && DiffPath(file)[..13] == "output/diffs/"
    ensures forall k :: 13 <= k < |DiffPath(file)| ==> !IsSeparator(DiffPath(file)[k])
  {
    var name := DiffFileName(file);
    assert DiffPath(file)[..13] == "output/diffs/";
    forall k | 13 <= k < |DiffPath(file)|
      ensures !IsSeparator(DiffPath(file)[k])
    {
      assert DiffPath(file)[k] == name[k - 13];
    }
  }

  /** Different paths can share a diff file: `a/b` and `a_b` both write `a_b.diff`. */
  lemma DiffNamesCanCollide()
    ensures "a/b" != "a_b" && DiffFileName("a/b") == DiffFileName("a_b")
  {
    assert ReplaceSeparators("a/b") == "a_b";
    assert ReplaceSeparators("a_b") == "a_b";
  }

  // ---------------------------------------------------------------- the loop

  /** What `await reviewWithCody(...)` gives the loop: a rejection, which propagates out
      of `runReview`, or the resolved value, `None` when that value is falsy. */
  datatype Reply = Failed(error: ReviewError) | Replied(review: Option<IssueList>)

  /** The loop's collaborators: `getFileDiff` for the two branches, `buildReviewMessages`
      (`None` for a falsy result) and `reviewWithCody`. */
  datatype Collaborators = Collaborators(
    diffOf: string -> string,
    buildMessages: (string, string) -> Option<seq<ChatMessage>>,
    review: (string, string, seq<ChatMessage>) -> Reply)

  /** One entry of `results`: `{ fileName, issues }`. */
  datatype FileResult = FileResult(fileName: string, issues: IssueList)

  /** What one iteration does with its file. */
  datatype FileStep = Skip | Push(result: FileResult) | Abort(error: ReviewError)

  /** One iteration: skip on an empty diff, on missing or empty messages, on a falsy
      review or falsy issues; abort on a rejected review; otherwise record the issues. */
  function Step(c: Collaborators, file: string): (r: FileStep)
    ensures c.diffOf(file) == "" ==> r == Skip
    ensures var messages := c.buildMessages(file, c.diffOf(file));
      (messages.None? || messages.value == []) ==> r == Skip
    ensures !r.Skip? ==> var messages := c.buildMessages(file, c.diffOf(file));
      c.diffOf(file) != "" && messages.Some? && messages.value != []
    ensures r.Abort? ==> var diff := c.diffOf(file);
      c.review(file, diff, c.buildMessages(file, diff).value) == Failed(r.error)
    ensures r.Push? ==> var diff := c.diffOf(file);
      r.result.fileName == file && IssuesTruthy(r.result.issues)
      && c.review(file, diff, c.buildMessages(file, diff).value) == Replied(Some(r.result.issues))
    ensures var diff := c.diffOf(file); var messages := c.buildMessages(file, diff);
      diff != "" && messages.Some? && messages.value != [] ==>
        var reply := c.review(file, diff, messages.value);
        && (reply.Failed? ==> r == Abort(reply.error))
        && (reply.Replied? && reply.review.Some? && IssuesTruthy(reply.review.value) ==>
              r == Push(FileResult(file, reply.review.value)))
        && (reply.Replied? && (reply.review.None? || !IssuesTruthy(reply.review.value)) ==> r == Skip)
  {
    var diff := c.diffOf(file);
    if diff == "" then Skip
    else
      var messages := c.buildMessages(file, diff);
      if messages.None? || |messages.value| == 0 then Skip
      else
        match c.review(file, diff, messages.value)
        case Failed(e) => Abort(e)
        case Replied(None) => Skip
        case Replied(Some(issues)) => if IssuesTruthy(issues) then Push(FileResult(file, issues)) else Skip
  }

  /** The entries pushed for `files`, in order. */
  function Collected(c: Collaborators, files: seq<string>): seq<FileResult>
  {
    if files == [] then []
    else
      var last := Step(c, files[|files| - 1]);
      Collected(c, files[..|files| - 1]) + (if last.Push? then [last.result] else [])
  }

  /** The error of the first file whose review rejects, if any. */
  function FirstRejection(c: Collaborators, files: seq<string>): Option<ReviewError>
  {
    if files == [] then None
    else
      var earlier := FirstRejection(c, files[..|files| - 1]);
      if earlier.Some? then earlier
      else
        var last := Step(c, files[|files| - 1]);
        if last.Abort? then Some(last.error) else None
  }

  /** How `runReview` ends: the rejection propagates, or nothing is saved because
      `results` is empty, or `saveResults` is called once with the whole list. */
  datatype RunEnd = Aborted(error: ReviewError) | NothingToSave | Saved(results: seq<FileResult>)

  function RunOutcome(c: Collaborators, files: seq<string>): (r: RunEnd)
    ensures r.Saved? ==> |r.results| > 0
  {
    if FirstRejection(c, files).Some? then Aborted(FirstRejection(c, files).value)
    else if Collected(c, files) == [] then NothingToSave
    else Saved(Collected(c, files))
  }

  lemma FirstRejectionSticks(c: Collaborators, files: seq<string>, i: nat)
    requires i <= |files|
    requires FirstRejection(c, files[..i]).Some?
    ensures FirstRejection(c, files) == FirstRejection(c, files[..i])
    decreases |files| - i
  {
    if i < |files| {
      assert files[..i + 1][..i] == files[..i];
      FirstRejectionSticks(c, files, i + 1);
    } else {
      assert files[..i] == files;
    }
  }

  /** Lines 36-69: the loop over the changed files followed by the conditional save. */
  method RunReview(c: Collaborators, changedFiles: seq<string>) returns (run: RunEnd)
    ensures run == RunOutcome(c, changedFiles)
  {
    var results: seq<FileResult> := [];
    for i := 0 to |changedFiles|
      invariant results == Collected(c, changedFiles[..i])
      invariant FirstRejection(c, changedFiles[..i]).None?
    {
      var file := changedFiles[i];
      assert changedFiles[..i + 1][..i] == changedFiles[..i];
      assert changedFiles[..i + 1][i] == file;
      var diff := c.diffOf(file);
      if diff == "" {
        continue;
      }
      var messages := c.buildMessages(file, diff);
      if messages.None? || |messages.value| == 0 {
        continue;
      }
      var review := c.review(file, diff, messages.value);
      if review.Failed? {
        FirstRejectionSticks(c, changedFiles, i + 1);
        return Aborted(review.error);
      }
      if review.review.None? {
        continue;
      }
      if IssuesTruthy(review.review.value) {
        results := results + [FileResult(file, review.review.value)];
      }
    }
    assert changedFiles[..|changedFiles|] == changedFiles;
    if |results| == 0 {
      return NothingToSave;
    }
    return Saved(results);
  }

  // ---------------------------------------------------------------- properties of the loop

  function Names(results: seq<FileResult>): seq<string>
  {
    seq(|results|, k requires 0 <= k < |results| => results[k].fileName)
  }

  /** `xs` is `ys` with some elements left out, the rest kept in order. */
  predicate IsSubsequence(xs: seq<string>, ys: seq<string>)
    decreases |ys|
  {
    if xs == [] then true
    else if ys == [] then false
    else
      (xs[|xs| - 1] == ys[|ys| - 1] && IsSubsequence(xs[..|xs| - 1], ys[..|ys| - 1]))
      || IsSubsequence(xs, ys[..|ys| - 1])
  }

  lemma {:induction false} SubsequenceIsShorter(xs: seq<string>, ys: seq<string>)
    requires IsSubsequence(xs, ys)
    ensures |xs| <= |ys|
    decreases |ys|
  {
    if xs != [] {
      if xs[|xs| - 1] == ys[|ys| - 1] && IsSubsequence(xs[..|xs| - 1], ys[..|ys| - 1]) {
        SubsequenceIsShorter(xs[..|xs| - 1], ys[..|ys| - 1]);
      } else {
        SubsequenceIsShorter(xs, ys[..|ys| - 1]);
      }
    }
  }

  /** `results` lists a subset of the changed files, in their order, each at most once
      per occurrence; so it is never longer than the list of changed files. */
  lemma {:induction false} CollectedFollowsFiles(c: Collaborators, files: seq<string>)
    ensures IsSubsequence(Names(Collected(c, files)), files)
    ensures |Collected(c, files)| <= |files|
  {
    if files != [] {
      var init := files[..|files| - 1];
      var last := files[|files| - 1];
      CollectedFollowsFiles(c, init);
      var before := Collected(c, init);
      var step := Step(c, last);
      if step.Push? {
        var after := before + [step.result];
        assert Names(after)[..|before|] == Names(before);
        assert Names(after)[|before|] == last;
      } else {
        assert Collected(c, files) == before;
      }
    }
    SubsequenceIsShorter(Names(Collected(c, files)), files);
  }

  lemma {:induction false} CollectedConcat(c: Collaborators, a: seq<string>, b: seq<string>)
    ensures Collected(c, a + b) == Collected(c, a) + Collected(c, b)
    decreases |b|
  {
    if b == [] {
      assert a + b == a;
    } else {
      var b' := b[..|b| - 1];
      assert (a + b)[..|a + b| - 1] == a + b';
      assert (a + b)[|a + b| - 1] == b[|b| - 1];
      CollectedConcat(c, a, b');
    }
  }

  lemma {:induction false} FirstRejectionConcat(c: Collaborators, a: seq<string>, b: seq<string>)
    ensures FirstRejection(c, a + b)
            == if FirstRejection(c, a).Some? then FirstRejection(c, a) else FirstRejection(c, b)
    decreases |b|
  {
    if b == [] {
      assert a + b == a;
    } else {
      var b' := b[..|b| - 1];
      assert (a + b)[..|a + b| - 1] == a + b';
      assert (a + b)[|a + b| - 1] == b[|b| - 1];
      FirstRejectionConcat(c, a, b');
    }
  }

  /** A skipped file leaves no trace: the run ends exactly as if it were not in the list. */
  lemma SkippedFileInvisible(c: Collaborators, a: seq<string>, file: string, b: seq<string>)
    requires Step(c, file) == Skip
    ensures RunOutcome(c, a + [file] + b) == RunOutcome(c, a + b)
  {
    CollectedConcat(c, a + [file], b);
    CollectedConcat(c, a, [file]);
    CollectedConcat(c, a, b);
    FirstRejectionConcat(c, a + [file], b);
    FirstRejectionConcat(c, a, [file]);
    FirstRejectionConcat(c, a, b);
    assert [file][..0] == [];
  }

  /** A rejected review ends the run with its error, whatever files come after it, and
      nothing is saved. */
  lemma RejectionAborts(c: Collaborators, a: seq<string>, file: string, b: seq<string>)
    requires FirstRejection(c, a).None?
    requires Step(c, file).Abort?
    ensures RunOutcome(c, a + [file] + b) == Aborted(Step(c, file).error)
  {
    FirstRejectionConcat(c, a + [file], b);
    FirstRejectionConcat(c, a, [file]);
    assert [file][..0] == [];
  }

  /** A review that resolves with an empty JSON array is still recorded: `[]` is truthy. */
  lemma EmptyIssuesRecorded(c: Collaborators, file: string)
    requires c.diffOf(file) != ""
    requires c.buildMessages(file, c.diffOf(file)).Some?
    requires |c.buildMessages(file, c.diffOf(file)).value| > 0
    requires c.review(file, c.diffOf(file), c.buildMessages(file, c.diffOf(file)).value)
             == Replied(Some(JsonIssues(JArray([]))))
    ensures Step(c, file) == Push(FileResult(file, JsonIssues(JArray([]))))
  {
  }

  // ---------------------------------------------------------------- wired to the model

  /** How `reviewWithCody` settles, seen from the loop: a resolution is the object
      `{ issues }`, which is always truthy. */
  function CodyReply(outcome: ReviewOutcome): Reply
  {
    match outcome
    case Rejected(e) => Failed(e)
    case Resolved(issues) => Replied(Some(issues))
  }

  /** The loop's collaborators as review.js wires them: the modelled prompt builder with
      the loaded rules, and the modelled review over the server's answer to each request. */
  function CodyCollaborators(rt: Runtime, rulesText: string, diffOf: string -> string,
                             respond: (string, string, seq<ChatMessage>) -> HttpResponse): Collaborators
  {
    Collaborators(
      diffOf,
      (file, diff) => Some(BuildReviewMessages(rulesText, file, diff)),
      (file, diff, messages) => CodyReply(ReviewResponse(rt, respond(file, diff, messages))))
  }

  /** With the real builder and review, the only skip left is an empty diff: the message
      list is never empty and a resolved review always has truthy issues. */
  lemma CodyStep(rt: Runtime, rulesText: string, diffOf: string -> string,
                 respond: (string, string, seq<ChatMessage>) -> HttpResponse, file: string)
    ensures var c := CodyCollaborators(rt, rulesText, diffOf, respond);
      var diff := diffOf(file);
      var outcome := ReviewResponse(rt, respond(file, diff, BuildReviewMessages(rulesText, file, diff)));
      Step(c, file) == (if diff == "" then Skip
                        else if outcome.Rejected? then Abort(outcome.error)
                        else Push(FileResult(file, outcome.issues)))
  {
  }

  /** The files whose diff is not empty, in order. */
  function FilesWithDiff(diffOf: string -> string, files: seq<string>): seq<string>
  {
    if files == [] then []
    else
      FilesWithDiff(diffOf, files[..|files| - 1])
      + (if diffOf(files[|files| - 1]) == "" then [] else [files[|files| - 1]])
  }

  /** When no review rejects, every file with a non-empty diff gets exactly one entry,
      in order. */
  lemma {:induction false} CodyRecordsEveryDiffedFile(rt: Runtime, rulesText: string, diffOf: string -> string,
                                   respond: (string, string, seq<ChatMessage>) -> HttpResponse,
                                   files: seq<string>)
    requires FirstRejection(CodyCollaborators(rt, rulesText, diffOf, respond), files).None?
    ensures Names(Collected(CodyCollaborators(rt, rulesText, diffOf, respond), files))
            == FilesWithDiff(diffOf, files)
  {
    var c := CodyCollaborators(rt, rulesText, diffOf, respond);
    if files != [] {
      var init := files[..|files| - 1];
      var last := files[|files| - 1];
      assert FirstRejection(c, init).None? && !Step(c, last).Abort?;
      CodyRecordsEveryDiffedFile(rt, rulesText, diffOf, respond, init);
      assert Step(c, last).Push? <==> diffOf(last) != "" by {
        CodyStep(rt, rulesText, diffOf, respond, last);
      }
      CollectedNamesSnoc(c, files);
    }
  }

  /** The names collected for `files`: those of all but the last file, then the last
      file's if it was recorded. */
  lemma CollectedNamesSnoc(c: Collaborators, files: seq<string>)
    requires files != []
    ensures var last := files[|files| - 1];
      Names(Collected(c, files))
      == Names(Collected(c, files[..|files| - 1])) + (if Step(c, last).Push? then [last] else [])
  {
    var before := Collected(c, files[..|files| - 1]);
    var step := Step(c, files[|files| - 1]);
    if step.Push? {
      assert Names(before + [step.result]) == Names(before) + [step.result.fileName];
    } else {
      assert Collected(c, files) == before;
    }
  }
}
