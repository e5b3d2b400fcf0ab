/**
 * `summarize_text_with_ai` (app.py): without an OpenAI key it returns a fixed
 * mock summary in the labelled format; otherwise it returns the service's
 * stripped answer or an error text. The call itself is the `ChatReply`
 * parameter.
 */
module Summarizer {
  import opened Wrappers
  import opened PyStr
  import opened OrderedDicts
  import opened Config
  import opened SummaryParser
  import opened SummaryFacts
  import PromptGen
  import RoundTrip

  /*
   * The fixed texts below are written as concatenations of short literals:
   * they are the same strings, and the verifier reasons about short
   * literals character by character far more cheaply than about long ones.
   */

  /** The values of the four sections of the mock summary. */
  const MockAbstract: string := "OpenAI API key not " + "found. This is a " + "mock abstract."
  const MockIntroduction: string := "The system requires " + "an OpenAI API key " + "for real " + "summarization with " + "GPT."
  const MockResults: string := "Mock results are " + "shown."
  const MockDiscussion: string := "Please set the " + "OPENAI_API_KEY " + "environment variable " + "for actual AI " + "processing."

  /** The mock summary returned when no OpenAI key is set (a triple-quoted literal ending in a newline). */
  const MockSummary: string :=
    "Abstract: " + MockAbstract + "\n"
    + "Introduction: " + MockIntroduction + "\n"
    + "Results: " + MockResults + "\n"
    + "Discussion: " + MockDiscussion + "\n"

  /** The sections the mock summary is made of. */
  const MockSections: Dict := [
    Entry("Abstract", MockAbstract),
    Entry("Introduction", MockIntroduction),
    Entry("Results", MockResults),
    Entry("Discussion", MockDiscussion)
  ]

  /** The texts the summariser returns, each prefixed to the exception's message where there is one. */
  const EmptyResponseMessage: string :=
    "Error: OpenAI API " + "returned an empty " + "response. Please " + "check the API status " + "or try again."
  const ErrorPrefix: string := "Error: "
  const ConnectionErrorText: string := ErrorPrefix + ("OpenAI API " + "Connection Error - ")
  const RateLimitText: string := ErrorPrefix + ("OpenAI API " + "Rate Limit " + "Exceeded - ")
  const StatusErrorText: string := ErrorPrefix + ("OpenAI API " + "Status Error - ")
  const UnexpectedErrorText: string := ErrorPrefix + ("An unexpected " + "error occurred with " + "the OpenAI API - ")

  const SummaryIntro: string := "\nPlease summarize the following research paper text.\nStructure the summary into these distinct sections: Abstract, Introduction, Results, and Discussion.\nEnsure each section is clearly labeled (e.g., \"Abstract: ...\", \"Introduction: ...\").\n\nResearch Paper Text:\n"

  /**
   * What the chat call produced: the message content of each choice (`None`
   * when the choice has no message or no content), or an exception and its message.
   */
  datatype ChatReply = Completed(contents: seq<Option<string>>) | Failed(failure: ApiFailure, detail: string)

  /** The request sent to the service (`None` when no call is made) and the summary returned. */
  datatype SummaryResult = SummaryResult(request: Option<string>, summary: string)

  /** The user message of the request: fixed instructions followed by the paper's text. */
  function SummaryRequest(text: string): (r: string)
    ensures OccursAt(r, text, |SummaryIntro|) && |r| == |SummaryIntro| + |text| + 1 && r[|r| - 1] == '\n'
  {
    var r := SummaryIntro + text + "\n";
    assert r[|SummaryIntro|..|SummaryIntro| + |text|] == text;
    r
  }

  /** The summary made of the service's answer, or the error text the source returns. */
  function ChatSummary(reply: ChatReply): string {
    match reply
    case Completed(contents) =>
      if |contents| > 0 && contents[0].Some? && contents[0].value != "" then Strip(contents[0].value)
      else EmptyResponseMessage
    case Failed(f, e) => FailureText(f) + e
  }

  /** The text put before the exception's message, by kind of failure. */
  function FailureText(f: ApiFailure): string {
    match f
    case ConnectionFailure => ConnectionErrorText
    case RateLimited => RateLimitText
    case StatusFailure => StatusErrorText
    case OtherFailure => UnexpectedErrorText
  }

  /** What `summarize_text_with_ai` returns for a key setting, a text and what the call would give. */
  function Summarize(key: Option<string>, text: string, reply: ChatReply): SummaryResult {
    if !KeySet(key) then SummaryResult(None, MockSummary)
    else SummaryResult(Some(SummaryRequest(text)), ChatSummary(reply))
  }

  /** Four entries are written as their four lines in order. */
  lemma {:induction false} RenderFour(k0: string, v0: string, k1: string, v1: string,
                                      k2: string, v2: string, k3: string, v3: string)
    ensures PromptGen.Render([Entry(k0, v0), Entry(k1, v1), Entry(k2, v2), Entry(k3, v3)])
      == k0 + ": " + v0 + "\n" + k1 + ": " + v1 + "\n" + k2 + ": " + v2 + "\n" + k3 + ": " + v3 + "\n"
  {
    var d := [Entry(k0, v0), Entry(k1, v1), Entry(k2, v2), Entry(k3, v3)];
    assert d[..1][..0] == [];
    assert d[..2][..1] == d[..1];
    assert d[..3][..2] == d[..2];
    assert d[..4][..3] == d[..3];
    assert d[..4] == d;
    var r1 := PromptGen.Render(d[..1]);
    assert r1 == PromptGen.Render(d[..1][..0]) + PromptGen.SectionLine(d[0]);
    assert r1 == PromptGen.SectionLine(d[0]);
    assert r1 == k0 + ": " + v0 + "\n";
    var r2 := PromptGen.Render(d[..2]);
    assert r2 == r1 + PromptGen.SectionLine(d[1]);
    AppendLine(r1, k1, v1);
    assert r2 == r1 + k1 + ": " + v1 + "\n";
    var r3 := PromptGen.Render(d[..3]);
    assert r3 == r2 + PromptGen.SectionLine(d[2]);
    AppendLine(r2, k2, v2);
    assert r3 == r2 + k2 + ": " + v2 + "\n";
    assert PromptGen.Render(d) == r3 + PromptGen.SectionLine(d[3]);
    AppendLine(r3, k3, v3);
  }

  /** Writing one more entry appends its key, the separator, its value and a newline. */
  lemma AppendLine(acc: string, k: string, v: string)
    ensures acc + PromptGen.SectionLine(Entry(k, v)) == acc + k + ": " + v + "\n"
  {
    assert PromptGen.SectionLine(Entry(k, v)) == k + ": " + v + "\n";
  }

  /** Each label followed by ": " starts its line of the mock summary. */
  lemma LabelColons()
    ensures "Abstract" + ": " == "Abstract: " && "Introduction" + ": " == "Introduction: "
    ensures "Results" + ": " == "Results: " && "Discussion" + ": " == "Discussion: "
  {
  }

  /** The mock summary is its four sections written one per line, as the prompt generator writes a dict. */
  lemma MockIsRendered()
    ensures MockSummary == PromptGen.Render(MockSections)
  {
    RenderFour("Abstract", MockAbstract, "Introduction", MockIntroduction,
               "Results", MockResults, "Discussion", MockDiscussion);
    LabelColons();
  }

  /** The mock sections carry the four labels, in order. */
  lemma MockKeys()
    ensures Keys(MockSections) == SectionLabels
  {
  }

  lemma MockAbstractTrimmed()
    ensures Strip(MockAbstract) == MockAbstract && '\n' !in MockAbstract
  {
    StripTrimmed(MockAbstract);
  }

  lemma MockIntroductionTrimmed()
    ensures Strip(MockIntroduction) == MockIntroduction && '\n' !in MockIntroduction
  {
    StripTrimmed(MockIntroduction);
  }

  lemma MockResultsTrimmed()
    ensures Strip(MockResults) == MockResults && '\n' !in MockResults
  {
    StripTrimmed(MockResults);
  }

  lemma MockDiscussionTrimmed()
    ensures Strip(MockDiscussion) == MockDiscussion && '\n' !in MockDiscussion
  {
    StripTrimmed(MockDiscussion);
  }

  /** The mock sections have the shape of a parsed summary. */
  lemma MockSectionsShape()
    ensures RoundTrip.SectionsDict(MockSections)
  {
    var d := MockSections;
    MockAbstractTrimmed();
    MockIntroductionTrimmed();
    MockResultsTrimmed();
    MockDiscussionTrimmed();
    assert forall i :: 0 <= i < |d| ==> d[i].key == SectionLabels[i];
  }

  /** The mock summary parses to exactly its four sections, in label order. */
  lemma MockParses()
    ensures Parse(Text(MockSummary)) == MockSections
    ensures Keys(Parse(Text(MockSummary))) == SectionLabels
  {
    MockIsRendered();
    MockSectionsShape();
    RoundTrip.RenderParse(MockSections);
    MockKeys();
  }

  /** Without a key, whatever the text and the service, the summary parses to the four mock sections. */
  lemma NoKeyGivesFourSections(key: Option<string>, text: string, reply: ChatReply)
    requires !KeySet(key)
    ensures Summarize(key, text, reply).request.None?
    ensures Parse(Text(Summarize(key, text, reply).summary)) == MockSections
  {
    MockParses();
  }

  /** A one-line text starting with a capital `E` is one stripped line starting with `E`. */
  lemma ErrorTextLines(msg: string)
    requires |msg| > 0 && msg[0] == 'E' && '\n' !in msg
    ensures var s := Strip(msg);
      Lines(msg) == [s] && |s| > 0 && s[0] == 'E' && Strip(s) == s
  {
    var s := Strip(msg);
    assert LStrip(msg) == msg;
    StripSpec(msg);
    assert StripStart(msg) == 0;
    assert !AllSpace(msg);
    assert s[0] == msg[0];
    StripNoChar(msg, '\n');
    SplitNoSep(s, '\n');
    StripIdempotent(msg);
  }

  /** A one-line text starting with a capital `E` parses to itself under "Full Summary". */
  lemma ErrorTextIsFullSummary(msg: string)
    requires |msg| > 0 && msg[0] == 'E' && '\n' !in msg
    ensures Parse(Text(msg)) == [Entry(FullSummaryKey, msg)]
  {
    ErrorTextLines(msg);
    var s := Strip(msg);
    assert !IsLabelLine(s) by {
      assert !StartsWith(s, "Abstract:") by { assert "Abstract:"[0] != s[0]; }
      assert !StartsWith(s, "Introduction:") by { assert "Introduction:"[0] != s[0]; }
      assert !StartsWith(s, "Results:") by { assert "Results:"[0] != s[0]; }
      assert !StartsWith(s, "Discussion:") by { assert "Discussion:"[0] != s[0]; }
    }
    ParseFallback(msg);
  }

  /** Every error text of the summariser starts with `E` and is on one line when the exception's message is. */
  lemma FailureTextShape(f: ApiFailure)
    ensures var t := FailureText(f);
      StartsWith(t, "Error: ") && '\n' !in t
  {
    match f
    case ConnectionFailure => ErrorLine("OpenAI API " + "Connection Error - ");
    case RateLimited => ErrorLine("OpenAI API " + "Rate Limit " + "Exceeded - ");
    case StatusFailure => ErrorLine("OpenAI API " + "Status Error - ");
    case OtherFailure => ErrorLine("An unexpected " + "error occurred with " + "the OpenAI API - ");
  }

  /** A one-line text after the error prefix makes a one-line error text. */
  lemma ErrorLine(rest: string)
    requires '\n' !in rest
    ensures var t := ErrorPrefix + rest;
      StartsWith(t, ErrorPrefix) && '\n' !in t
  {
    assert (ErrorPrefix + rest)[..|ErrorPrefix|] == ErrorPrefix;
  }

  lemma EmptyResponseShape()
    ensures |EmptyResponseMessage| > 0 && EmptyResponseMessage[0] == 'E' && '\n' !in EmptyResponseMessage
  {
  }

  lemma ErrorTextShape(reply: ChatReply)
    requires reply.Failed? ==> '\n' !in reply.detail
    requires reply.Completed? ==> !(|reply.contents| > 0 && reply.contents[0].Some? && reply.contents[0].value != "")
    ensures var msg := ChatSummary(reply);
      |msg| > 0 && msg[0] == 'E' && '\n' !in msg
  {
    match reply
    case Completed(_) =>
      EmptyResponseShape();
    case Failed(f, e) =>
      FailureTextShape(f);
      assert FailureText(f)[0] == 'E' by { assert "Error: "[0] == 'E'; }
  }

  /** With a key, every failure of the service comes back as one "Full Summary" block once parsed. */
  lemma FailureIsFullSummary(key: Option<string>, text: string, reply: ChatReply)
    requires KeySet(key)
    requires reply.Failed? ==> '\n' !in reply.detail
    requires reply.Completed? ==> !(|reply.contents| > 0 && reply.contents[0].Some? && reply.contents[0].value != "")
    ensures var r := Summarize(key, text, reply);
      r.request == Some(SummaryRequest(text)) && Parse(Text(r.summary)) == [Entry(FullSummaryKey, r.summary)]
  {
    ErrorTextShape(reply);
    ErrorTextIsFullSummary(ChatSummary(reply));
  }

  /** With a key and a non-empty answer, the summary is the answer stripped, so the paper text reaches the service. */
  lemma AnswerIsStripped(key: Option<string>, text: string, reply: ChatReply)
    requires KeySet(key) && reply.Completed?
    requires |reply.contents| > 0 && reply.contents[0].Some? && reply.contents[0].value != ""
    ensures var r := Summarize(key, text, reply);
      && r.request.Some? && OccursAt(r.request.value, text, |SummaryIntro|)
      && r.summary == Strip(reply.contents[0].value)
      && Strip(r.summary) == r.summary
  {
    StripIdempotent(reply.contents[0].value);
  }
}
