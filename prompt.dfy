/**
 * The text handling of `generate_visualization_prompt_with_anthropic`
 * (app.py): which input is sent, the fixed replies given without a call,
 * the request text, and the cleaning of the model's reply. The call itself is
 * the `Reply` parameter.
 */
module PromptGen {
  import opened Wrappers
  import opened PyStr
  import opened OrderedDicts
  import opened Config

  /** What the generator may be handed: a parsed dict, a string, or any other value. */
  datatype PromptInput = DictInput(sections: Dict) | StrInput(text: string) | OtherInput

  /** What the messages call produced: the texts of the reply's content blocks, or an exception and its message. */
  datatype Reply = Replied(texts: seq<string>) | Raised(failure: ApiFailure, detail: string)

  /** The request sent to the service (`None` when no call is made) and the prompt returned. */
  datatype PromptResult = PromptResult(request: Option<string>, prompt: string)

  const NoKeyPrompt: string := "Anthropic API key not set. Using default prompt: A generic scientific concept representing research findings."
  const InvalidInputPrompt: string := "Invalid summary input. Default prompt: Key scientific breakthroughs illustrated."
  const EmptySummaryPrompt: string := "Empty summary. Default prompt: Abstract visualization of data."
  const EmptyReplyMessage: string := "Error: Anthropic API (Claude) returned an empty response for visualization prompt."

  /** The line that closes the request and that the reply is cut after. */
  const Marker: string := "Generated Image Prompt:"

  const RequestIntro: string :=
    "\nBased on the following research paper summary, "
    + "generate a concise and visually descriptive prompt "
    + "(around 20-30 words) that can be used by an image "
    + "generation AI to create a compelling visualization "
    + "representing the core findings or essence of the paper."
    + "\n\nSummary:\n"

  /** One section as `key: value`, without its newline. */
  function LineOf(e: Entry): string {
    e.key + ": " + e.value
  }

  /** `f"{key}: {value}\n"`: one section as a line of the request. */
  function SectionLine(e: Entry): string {
    LineOf(e) + "\n"
  }

  /** The text the linearising loop builds, before it is stripped. */
  function Render(d: Dict): string {
    if d == [] then "" else Render(d[..|d| - 1]) + SectionLine(d[|d| - 1])
  }

  /** The loop of the source: one line per entry, in dict order, then `strip()`. */
  method LinearizeSections(d: Dict) returns (s: string)
    ensures s == Strip(Render(d))
  {
    var acc := "";
    var i := 0;
    while i < |d|
      invariant 0 <= i <= |d|
      invariant acc == Render(d[..i])
    {
      assert d[..i + 1][..i] == d[..i];
      acc := acc + d[i].key + ": " + d[i].value + "\n";
      i := i + 1;
    }
    assert d[..|d|] == d;
    s := Strip(acc);
  }

  /** The unstripped rendering is the entries' lines, one after the other, in dict order. */
  lemma {:induction false} RenderLines(d: Dict, k: nat)
    requires k < |d|
    ensures var pre := Render(d[..k]);
      Render(d[..k + 1]) == pre + SectionLine(d[k])
      && OccursAt(Render(d), SectionLine(d[k]), |pre|)
    decreases |d|
  {
    var pre := Render(d[..k]);
    assert d[..k + 1][..k] == d[..k];
    if k == |d| - 1 {
      assert d[..k + 1] == d;
    } else {
      var init := d[..|d| - 1];
      assert init[..k] == d[..k] && init[..k + 1] == d[..k + 1];
      RenderLines(init, k);
      var r0 := Render(init);
      assert Render(d) == r0 + SectionLine(d[|d| - 1]);
      assert Render(d)[|pre|..|pre| + |SectionLine(d[k])|] == r0[|pre|..|pre| + |SectionLine(d[k])|];
    }
  }

  /** The text summarised in the request, or `None` for an input of another type. */
  function SummaryInput(input: PromptInput): Option<string> {
    match input
    case DictInput(d) => Some(Strip(Render(d)))
    case StrInput(s) => Some(s)
    case OtherInput => None
  }

  /** `r` ends with the line `m`: `m` and then one newline. */
  predicate EndsWithLine(r: string, m: string) {
    |r| > |m| && OccursAt(r, m, |r| - |m| - 1) && r[|r| - 1] == '\n'
  }

  /** The request: fixed instructions, the summary, and the closing marker line. */
  function RequestText(summary: string): (r: string)
    ensures OccursAt(r, summary, |RequestIntro|)
    ensures EndsWithLine(r, Marker)
  {
    Framed(RequestIntro, summary, "\n\n", Marker, "\n");
    RequestIntro + summary + ("\n\n" + Marker + "\n")
  }

  /**
   * A body between an introduction and a closing `m` plus one newline occurs
   * right after the introduction, and the text ends with the line `m`.
   */
  lemma Framed(intro: string, body: string, pre: string, m: string, post: string)
    requires post == "\n"
    ensures var r := intro + body + (pre + m + post);
      OccursAt(r, body, |intro|) && EndsWithLine(r, m)
  {
    var r := intro + body + (pre + m + post);
    assert r[|intro|..|intro| + |body|] == body;
    assert r[|r| - |m| - 1..|r| - 1] == m;
  }

  /** `s.lower().startswith(...)` for the two preambles the source removes. */
  predicate HasPreamble(s: string) {
    StartsWith(Lower(s), "here's a prompt:") || StartsWith(Lower(s), "here is a prompt:")
  }

  /** `s.split(":", 1)[-1]`: the text after the first colon, or all of it. */
  function AfterFirstColon(s: string): string {
    var parts := SplitOnce(s, ':');
    parts[|parts| - 1]
  }

  /** `v.split(Marker)[-1].strip()` when the marker occurs in `v`. */
  function AfterMarker(v: string): string {
    if Contains(v, Marker) then Strip(LastPiece(v, Marker)) else v
  }

  /** `v.split(":", 1)[-1].strip()` when `v` opens with a preamble. */
  function DropPreamble(v: string): string {
    if HasPreamble(v) then Strip(AfterFirstColon(v)) else v
  }

  /** The reply's text after the source's clean-up: strip, cut after the marker, drop a preamble. */
  function CleanReply(raw: string): string {
    DropPreamble(AfterMarker(Strip(raw)))
  }

  /** What the generator returns for a key setting, an input and what the call would give. */
  function VisualizationPrompt(apiKey: Option<string>, input: PromptInput, reply: Reply): PromptResult {
    if !KeySet(apiKey) then PromptResult(None, NoKeyPrompt)
    else match SummaryInput(input)
      case None => PromptResult(None, InvalidInputPrompt)
      case Some(s) =>
        if Strip(s) == "" then PromptResult(None, EmptySummaryPrompt)
        else PromptResult(Some(RequestText(s)), ReplyPrompt(reply))
  }

  /** The prompt made of the service's answer, or the error text the source returns. */
  function ReplyPrompt(reply: Reply): string {
    match reply
    case Replied(texts) =>
      if |texts| > 0 && texts[0] != "" then CleanReply(texts[0]) else EmptyReplyMessage
    case Raised(ConnectionFailure, e) => "Error: Anthropic API Connection Error - " + e
    case Raised(RateLimited, e) => "Error: Anthropic API Rate Limit Exceeded - " + e
    case Raised(StatusFailure, e) => "Error: Anthropic API Status Error - " + e
    case Raised(OtherFailure, e) => "Error: An unexpected error occurred with the Anthropic API - " + e
  }

  /** The generator with its linearising loop. */
  method GenerateVisualizationPrompt(apiKey: Option<string>, input: PromptInput, reply: Reply) returns (result: PromptResult)
    ensures result == VisualizationPrompt(apiKey, input, reply)
  {
    if !KeySet(apiKey) {
      return PromptResult(None, NoKeyPrompt);
    }
    var summary: string;
    match input {
      case DictInput(d) =>
        summary := LinearizeSections(d);
      case StrInput(s) =>
        summary := s;
      case OtherInput =>
        return PromptResult(None, InvalidInputPrompt);
    }
    if Strip(summary) == "" {
      return PromptResult(None, EmptySummaryPrompt);
    }
    result := PromptResult(Some(RequestText(summary)), ReplyPrompt(reply));
  }

  /**
   * No call is made, and a fixed default comes back, exactly when the key is
   * unset, the input has another type, or the summary is blank; a blank
   * summary is one made of whitespace only, such as an empty dict.
   */
  lemma NoRequestIff(apiKey: Option<string>, input: PromptInput, reply: Reply)
    ensures var r := VisualizationPrompt(apiKey, input, reply);
      && (r.request.None? <==> !KeySet(apiKey) || input.OtherInput? || AllSpace(SummaryInput(input).value))
      && (r.request.None? ==> r.prompt in {NoKeyPrompt, InvalidInputPrompt, EmptySummaryPrompt})
      && (KeySet(apiKey) && input == DictInput([]) ==> r == PromptResult(None, EmptySummaryPrompt))
  {
    if SummaryInput(input).Some? {
      StripSpec(SummaryInput(input).value);
    }
  }

  /** A blank string summary gets the fixed default, whatever the service would say. */
  lemma BlankSummaryDefault(apiKey: Option<string>, s: string, reply: Reply)
    requires KeySet(apiKey) && AllSpace(s)
    ensures VisualizationPrompt(apiKey, StrInput(s), reply) == PromptResult(None, EmptySummaryPrompt)
  {
    StripSpec(s);
  }

  /**
   * Cutting after the marker keeps the stripped text that follows an
   * occurrence of the marker, the one the split consumes last, so no marker
   * is left in it; without a marker the text is kept whole. Either way the
   * result is a stripped piece of the text.
   */
  lemma AfterMarkerSpec(v: string) returns (start: nat, k: nat)
    requires Strip(v) == v
    ensures var r := AfterMarker(v);
      && start + |r| <= |v| && v[start..start + |r|] == r && Strip(r) == r && !Contains(r, Marker)
      && (Contains(v, Marker) ==>
            |Marker| <= k <= |v| && OccursAt(v, Marker, k - |Marker|)
            && !Contains(v[k..], Marker) && r == Strip(v[k..]))
      && (!Contains(v, Marker) ==> r == v)
  {
    if Contains(v, Marker) {
      assert AfterMarker(v) == Strip(LastPiece(v, Marker));
      start, k := StrippedLastPiece(v, Marker);
    } else {
      assert AfterMarker(v) == v;
      start, k := 0, 0;
      assert v[0..|v|] == v;
    }
  }

  /**
   * The strip of the last piece of a split on `m` is a stripped piece of the
   * text that follows an occurrence of `m` and holds no `m`.
   */
  lemma StrippedLastPiece(v: string, m: string) returns (start: nat, k: nat)
    requires |m| > 0 && Contains(v, m)
    ensures var r := Strip(LastPiece(v, m));
      && start + |r| <= |v| && v[start..start + |r|] == r && Strip(r) == r && !Contains(r, m)
      && |m| <= k <= |v| && OccursAt(v, m, k - |m|) && !Contains(v[k..], m) && r == Strip(v[k..])
  {
    k := LastCut(v, m);
    start := StripSuffixPiece(v, k);
    StripNoOccurrence(v[k..], m);
  }

  /** The stripped text after the first colon is a piece of the text, and holds no `m` the text lacks. */
  lemma AfterColonSpec(v: string, m: string) returns (start: nat)
    ensures var r := Strip(AfterFirstColon(v));
      && start + |r| <= |v| && v[start..start + |r|] == r
      && Strip(r) == r
      && (!Contains(v, m) ==> !Contains(r, m))
  {
    var after := AfterFirstColon(v);
    var k := |v| - |after|;
    SplitOnceSpec(v, ':');
    assert after == v[k..];
    start := StripSuffixPiece(v, k);
    if !Contains(v, m) {
      StripSuffixNoOccurrence(v, k, m);
    }
  }

  /** Dropping a preamble keeps a piece of the text, stripped if the text was, and makes no marker. */
  lemma DropPreambleSpec(v: string) returns (start: nat)
    ensures var r := DropPreamble(v);
      && start + |r| <= |v| && v[start..start + |r|] == r
      && (Strip(v) == v ==> Strip(r) == r)
      && (!Contains(v, Marker) ==> !Contains(r, Marker))
  {
    if HasPreamble(v) {
      start := AfterColonSpec(v, Marker);
    } else {
      start := 0;
      assert v[0..|v|] == v;
    }
  }

  /** The cleaned reply is stripped and never holds the marker: only the text after its last occurrence is kept. */
  lemma CleanReplyClean(raw: string)
    ensures var r := CleanReply(raw);
      Strip(r) == r && !Contains(r, Marker)
  {
    var v0 := Strip(raw);
    StripIdempotent(raw);
    var _, _ := AfterMarkerSpec(v0);
    var _ := DropPreambleSpec(AfterMarker(v0));
  }

  /** Lowercasing leaves colons where they are and makes none. */
  lemma LowerColon(c: char)
    ensures LowerChar(c) == ':' <==> c == ':'
  {
  }

  /** A text that opens with a preamble loses it up to the preamble's own colon. */
  lemma DropPreambleIff(v: string)
    ensures StartsWith(Lower(v), "here's a prompt:") ==> DropPreamble(v) == Strip(v[16..])
    ensures StartsWith(Lower(v), "here is a prompt:") ==> DropPreamble(v) == Strip(v[17..])
    ensures !HasPreamble(v) ==> DropPreamble(v) == v
  {
    if StartsWith(Lower(v), "here's a prompt:") {
      PreambleColon(v, "here's a prompt:");
    } else if StartsWith(Lower(v), "here is a prompt:") {
      PreambleColon(v, "here is a prompt:");
    }
  }

  /** When the lowercased text opens with `p`, whose only colon ends it, the text after the first colon follows `p`. */
  lemma PreambleColon(v: string, p: string)
    requires StartsWith(Lower(v), p) && |p| > 0 && p[|p| - 1] == ':' && ':' !in p[..|p| - 1]
    ensures AfterFirstColon(v) == v[|p|..]
  {
    var i := |p| - 1;
    assert Lower(v)[i] == p[i];
    LowerColon(v[i]);
    forall j | 0 <= j < i ensures v[j] != ':' {
      assert Lower(v)[j] == p[..i][j];
      LowerColon(v[j]);
    }
    SplitOnceSpec(v, ':');
    var parts := SplitOnce(v, ':');
    assert ':' in v;
    assert |parts[0]| == i;
  }
}
