/** `buildReviewMessages` (promptBuilder.js): the fixed two-message conversation sent for
    one file. The rules text the module reads at load time is a parameter here. */
module PromptBuilder {
  import opened JsRuntime
  import opened JsStrings

  /** One chat message: `{ text, speaker }`. */
  datatype ChatMessage = ChatMessage(text: string, speaker: string)

  /** `rulesText` after module load: the rules file's contents, or "" when reading it
      failed (`None`). */
  function LoadRules(fileContents: Option<string>): (r: string)
    ensures fileContents.None? ==> r == ""
    ensures fileContents.Some? ==> r == fileContents.value
  {
    match fileContents
    case None => ""
    case Some(text) => text
  }

  /** The template text before the rules. */
  const PromptIntro: string :=
    "You are Cody, an AI coding assistant from Sourcegraph.\n\n"
    + "Review the following Java code diff and identify issues based on best practices from the book *Clean Code* by Robert C. Martin.\n\n"
    + "### Output format (strict JSON array):\n"
    + "[\n"
    + "  {\n"
    + "    \"lines\": \"line numbers\",\n"
    + "    \"currentIssue\": \"description of the issue\",\n"
    + "    \"suggestion\": \"clear and practical fix\"\n"
    + "  }\n"
    + "]\n\n"

  /** The template text after the trimmed diff. */
  const PromptOutro: string :=
    "\n```\n\n"
    + "Respond ONLY with a JSON array of issues in the following format:\n"
    + "[{ \"lines\": \"line numbers\", \"currentIssue\": \"description of the issue\", \"suggestion\": \"clear and practical fix\" }].\n\n"
    + "If there are no issues, return: `[]`.\n\n"
    + "Do NOT include any markdown or other text."

  /** The second message, the same for every file. */
  const AssistantText: string := "I am Cody, an AI coding assistant from Sourcegraph."

  /** Everything in the first message before the diff: the introduction, the rules, and
      the heading and fence that both name the file. */
  function PromptBeforeDiff(rulesText: string, filePath: string): string
  {
    PromptIntro + rulesText + "\n\n### Diff (`" + filePath + "`):\n```diff:" + filePath + "\n"
  }

  /** The first message's text: the diff enters only with its surrounding whitespace
      trimmed. */
  function ReviewPrompt(rulesText: string, filePath: string, diffContent: string): string
  {
    PromptBeforeDiff(rulesText, filePath) + Trim(diffContent) + PromptOutro
  }

  /** `buildReviewMessages(filePath, diffContent)` with the loaded rules text. */
  function BuildReviewMessages(rulesText: string, filePath: string, diffContent: string): (r: seq<ChatMessage>)
    ensures |r| == 2
    ensures r[0].speaker == "human" && r[1].speaker == "assistant"
    ensures r[0].text == ReviewPrompt(rulesText, filePath, diffContent)
    ensures r[1].text == AssistantText
  {
    [ChatMessage(ReviewPrompt(rulesText, filePath, diffContent), "human"),
     ChatMessage(AssistantText, "assistant")]
  }

  /** Removing the same prefix and suffix from two equal strings leaves equal middles. */
  lemma CancelAround(p: string, x: string, y: string, s: string)
    requires p + x + s == p + y + s
    ensures x == y
  {
    var t := p + x + s;
    assert |x| == |y|;
    assert x == t[|p|..|p| + |x|];
    assert y == (p + y + s)[|p|..|p| + |y|];
  }

  /** Two diffs give the same messages exactly when they trim to the same text: the
      prompt keeps the whole trimmed diff and nothing of the whitespace around it. */
  lemma MessagesDependOnTrimmedDiff(rulesText: string, filePath: string, d1: string, d2: string)
    ensures BuildReviewMessages(rulesText, filePath, d1) == BuildReviewMessages(rulesText, filePath, d2)
            <==> Trim(d1) == Trim(d2)
  {
    var m1 := BuildReviewMessages(rulesText, filePath, d1);
    var m2 := BuildReviewMessages(rulesText, filePath, d2);
    if m1 == m2 {
      assert m1[0].text == m2[0].text;
      CancelAround(PromptBeforeDiff(rulesText, filePath), Trim(d1), Trim(d2), PromptOutro);
    }
  }

  /** Blank lines and spaces around a diff change nothing in the messages. */
  lemma PaddedDiffSameMessages(rulesText: string, filePath: string, w1: string, diff: string, w2: string)
    requires AllWhitespace(w1) && AllWhitespace(w2)
    ensures BuildReviewMessages(rulesText, filePath, w1 + diff + w2)
            == BuildReviewMessages(rulesText, filePath, diff)
  {
    TrimIgnoresPadding(w1, diff, w2);
  }
}
