/**
 * `parse_structured_summary` (app.py): turns the summariser's raw text into an
 * ordered dict from section label to section text.
 *
 * The loop of the source is `ParseStructuredSummary`. It is proved equal to
 * `Parse`, a declarative reading of the same rules: every label line opens a
 * block made of the text after its colon and the stripped lines up to the next
 * label line; the blocks are then stored into a dict one after the other.
 */
module SummaryParser {
  import opened Wrappers
  import opened PyStr
  import opened OrderedDicts

  /** What the parser may be handed: a `str`, or any other Python value. */
  datatype Summary = Text(text: string) | NotText

  /** The four recognised section labels, in the order the summariser is asked to use. */
  const SectionLabels: seq<string> := ["Abstract", "Introduction", "Results", "Discussion"]
  /** The key under which unlabelled text is returned whole. */
  const FullSummaryKey: string := "Full Summary"
  /** The key of the one entry returned for a value that is not a string. */
  const ErrorKey: string := "Error"
  const NotTextMessage: string := "Summary was not in expected string format."

  /** A stripped line that opens a section: it starts with a label and its colon. */
  predicate IsLabelLine(line: string) {
    StartsWith(line, "Abstract:") || StartsWith(line, "Introduction:")
    || StartsWith(line, "Results:") || StartsWith(line, "Discussion:")
  }

  /** The label a label line starts with. */
  function LabelOf(line: string): (name: string)
    requires IsLabelLine(line)
    ensures name in SectionLabels && StartsWith(line, name + ":")
  {
    if StartsWith(line, "Abstract:") then "Abstract"
    else if StartsWith(line, "Introduction:") then "Introduction"
    else if StartsWith(line, "Results:") then "Results"
    else "Discussion"
  }

  /** `summary_text.strip().split('\n')`: the lines the source scans. */
  function Lines(text: string): seq<string> {
    Split(Strip(text), '\n')
  }

  /**
   * What the scanner makes of one line once it is stripped: a label line opens
   * a section whose first fragment is the stripped text after the label's colon;
   * any other line is a plain fragment.
   */
  datatype ScannedLine = Opens(section: string, first: string) | Plain(text: string)

  function Scan(line: string): (r: ScannedLine)
    ensures r.Opens? <==> IsLabelLine(Strip(line))
    ensures r.Opens? ==> r.section in SectionLabels
    ensures r.Plain? ==> r.text == Strip(line)
  {
    var s := Strip(line);
    if IsLabelLine(s) then
      var name := LabelOf(s);
      Opens(name, Strip(s[|name| + 1..]))
    else Plain(s)
  }

  /** The scan of every line, in order. */
  function ScanAll(lines: seq<string>): (ts: seq<ScannedLine>)
    ensures |ts| == |lines| && forall i :: 0 <= i < |lines| ==> ts[i] == Scan(lines[i])
  {
    seq(|lines|, i requires 0 <= i < |lines| => Scan(lines[i]))
  }

  /** One section as found in the text: its label and its fragments, in order. */
  datatype Block = Block(name: string, fragments: seq<string>)

  /** The plain fragments from the start of `ts` up to (not including) the next label line. */
  function Body(ts: seq<ScannedLine>): (body: seq<string>)
    ensures |body| <= |ts|
    ensures forall i :: 0 <= i < |body| ==> ts[i] == Plain(body[i])
    ensures |body| < |ts| ==> ts[|body|].Opens?
  {
    if ts == [] || ts[0].Opens? then []
    else [ts[0].text] + Body(ts[1..])
  }

  /** The blocks of the scanned lines, one per label line; lines before the first label belong to none. */
  function Blocks(ts: seq<ScannedLine>): seq<Block> {
    if ts == [] then []
    else match ts[0]
      case Opens(name, first) => [Block(name, [first] + Body(ts[1..]))] + Blocks(ts[1..])
      case Plain(_) => Blocks(ts[1..])
  }

  /** `" ".join(fragments).strip()`: the text stored for a block. */
  function SectionText(b: Block): string {
    Strip(Join(" ", b.fragments))
  }

  /** The dict obtained by storing the blocks one after the other, as `parsed[name] = text`. */
  function Assemble(bs: seq<Block>): Dict {
    if bs == [] then []
    else
      var last := bs[|bs| - 1];
      Put(Assemble(bs[..|bs| - 1]), last.name, SectionText(last))
  }

  /** The blocks of a text. */
  function TextBlocks(s: string): seq<Block> {
    Blocks(ScanAll(Lines(s)))
  }

  /** What `parse_structured_summary` returns. */
  function Parse(summary: Summary): Dict {
    match summary
    case NotText => [Entry(ErrorKey, NotTextMessage)]
    case Text(s) =>
      var bs := TextBlocks(s);
      if bs == [] then [Entry(FullSummaryKey, s)] else Assemble(bs)
  }

  /** The line scanner of the source, step by step. */
  method ParseStructuredSummary(summary: Summary) returns (parsed: Dict)
    ensures parsed == Parse(summary)
  {
    if summary.NotText? {
      return [Entry(ErrorKey, NotTextMessage)];
    }
    var lines := Lines(summary.text);
    var currentSection, currentContent;
    ghost var bs, stored;
    parsed, currentSection, currentContent, bs, stored := ScanLines(lines);
    FlushStores(bs, stored, parsed, currentSection, currentContent);
    if currentSection.Some? && currentSection.value != "" && currentContent != [] {
      parsed := Put(parsed, currentSection.value, Strip(Join(" ", currentContent)));
    }
    if parsed == [] {
      parsed := [Entry(FullSummaryKey, summary.text)];
    }
  }

  /**
   * The loop of the scanner: `parsed` holds every section closed so far,
   * `currentSection` and `currentContent` the one still open.
   */
  method ScanLines(lines: seq<string>)
      returns (parsed: Dict, currentSection: Option<string>, currentContent: seq<string>,
               ghost bs: seq<Block>, ghost stored: seq<Block>)
    ensures bs == Blocks(ScanAll(lines))
    ensures ScannerState(bs, stored, currentSection, currentContent)
    ensures parsed == Assemble(stored)
  {
    parsed := [];
    currentSection := None;
    currentContent := [];
    bs := [];
    stored := [];
    ghost var ts := ScanAll(lines);
    var i := 0;
    while i < |lines|
      invariant i <= |lines|
      invariant ScanInv(ts, i, bs, stored, parsed, currentSection, currentContent)
    {
      var line := Strip(lines[i]);
      if IsLabelLine(line) {
        ghost var parsed0, section0, content0 := parsed, currentSection, currentContent;
        if currentSection.Some? && currentSection.value != "" && currentContent != [] {
          parsed := Put(parsed, currentSection.value, Strip(Join(" ", currentContent)));
        }
        var parts := SplitOnce(line, ':');
        ScanLabelLine(lines[i]);
        currentSection := Some(Strip(parts[0]));
        currentContent := if |parts| > 1 then [Strip(parts[1])] else [];
        LabelStep(ts, i, bs, stored, parsed0, section0, content0, parsed);
        stored := bs;
        bs := bs + [Block(currentSection.value, currentContent)];
      } else if currentSection.Some? && currentSection.value != "" {
        currentContent := currentContent + [line];
        PlainStep(ts, i, bs, stored, parsed, currentSection.value, currentContent[..|currentContent| - 1]);
        bs := stored + [Block(currentSection.value, currentContent)];
      } else {
        SkipStep(ts, i, bs, stored, parsed, currentSection, currentContent);
      }
      i := i + 1;
    }
    assert ts[..|lines|] == ts;
  }

  /** The loop invariant of the scanner after `i` lines. */
  ghost predicate ScanInv(ts: seq<ScannedLine>, i: int, bs: seq<Block>, stored: seq<Block>, parsed: Dict,
                          section: Option<string>, content: seq<string>) {
    && 0 <= i <= |ts|
    && bs == Blocks(ts[..i])
    && ScannerState(bs, stored, section, content)
    && parsed == Assemble(stored)
  }

  /** A label line stores the open section, if any, and opens a new one. */
  lemma LabelStep(ts: seq<ScannedLine>, i: int, bs: seq<Block>, stored: seq<Block>, parsed: Dict,
                  section: Option<string>, content: seq<string>, parsed': Dict)
    requires ScanInv(ts, i, bs, stored, parsed, section, content) && i < |ts| && ts[i].Opens? && ts[i].section != ""
    requires parsed' == if section.Some? && section.value != "" && content != []
      then Put(parsed, section.value, Strip(Join(" ", content))) else parsed
    ensures ScanInv(ts, i + 1, bs + [Block(ts[i].section, [ts[i].first])], bs, parsed',
                    Some(ts[i].section), [ts[i].first])
  {
    FlushStores(bs, stored, parsed, section, content);
    assert ts[..i + 1] == ts[..i] + [ts[i]];
    BlocksSnoc(ts[..i], ts[i]);
  }

  /** A plain line while a section is open adds a fragment to it. */
  lemma PlainStep(ts: seq<ScannedLine>, i: int, bs: seq<Block>, stored: seq<Block>, parsed: Dict,
                  name: string, content: seq<string>)
    requires ScanInv(ts, i, bs, stored, parsed, Some(name), content) && i < |ts| && ts[i].Plain?
    ensures ScanInv(ts, i + 1, stored + [Block(name, content + [ts[i].text])], stored, parsed,
                    Some(name), content + [ts[i].text])
  {
    assert ts[..i + 1] == ts[..i] + [ts[i]];
    BlocksSnoc(ts[..i], ts[i]);
  }

  /** A plain line before any label is dropped. */
  lemma SkipStep(ts: seq<ScannedLine>, i: int, bs: seq<Block>, stored: seq<Block>, parsed: Dict,
                 section: Option<string>, content: seq<string>)
    requires ScanInv(ts, i, bs, stored, parsed, section, content) && i < |ts| && ts[i].Plain?
    requires !(section.Some? && section.value != "")
    ensures ScanInv(ts, i + 1, bs, stored, parsed, section, content)
  {
    assert ts[..i + 1] == ts[..i] + [ts[i]];
    BlocksSnoc(ts[..i], ts[i]);
  }

  /**
   * How the scanner's `current_section` and `current_content` stand for the
   * blocks seen so far: the last block is still open, the ones before it
   * (`stored`) are already in `parsed`.
   */
  ghost predicate ScannerState(bs: seq<Block>, stored: seq<Block>, section: Option<string>, content: seq<string>) {
    && (section.None? <==> bs == [])
    && (section.None? ==> stored == [])
    && (section.Some? ==> section.value != "" && content != [] && bs == stored + [Block(section.value, content)])
  }

  /** Storing the open section, if any, gives the dict of all blocks seen so far. */
  lemma FlushStores(bs: seq<Block>, stored: seq<Block>, parsed: Dict, section: Option<string>, content: seq<string>)
    requires ScannerState(bs, stored, section, content) && parsed == Assemble(stored)
    ensures section.None? ==> Assemble(bs) == parsed
    ensures section.Some? ==> Assemble(bs) == Put(parsed, section.value, Strip(Join(" ", content)))
  {
    if bs != [] {
      assert bs[..|bs| - 1] == stored;
    }
  }

  // ---------------------------------------------------------------------------
  // How the blocks grow as the scanner reads one more line.

  /** The two keys the parser adds on its own never clash with a label. */
  lemma ReservedKeys()
    ensures FullSummaryKey !in SectionLabels && ErrorKey !in SectionLabels
  {
    assert FullSummaryKey[0] == 'F' && ErrorKey[0] == 'E';
    assert SectionLabels[0][0] == 'A' && SectionLabels[1][0] == 'I';
    assert SectionLabels[2][0] == 'R' && SectionLabels[3][0] == 'D';
  }

  /** Each label is free of colons and of surrounding whitespace. */
  lemma LabelShape(name: string)
    requires name in SectionLabels
    ensures ':' !in name && |name| > 0
    ensures Strip(name) == name
  {
    if name == "Abstract" { StripTrimmed("Abstract"); }
    else if name == "Introduction" { StripTrimmed("Introduction"); }
    else if name == "Results" { StripTrimmed("Results"); }
    else { StripTrimmed("Discussion"); }
  }

  /** A line that starts with a colon-free name and a colon splits right after the name. */
  lemma ColonAfterName(line: string, name: string)
    requires ':' !in name && StartsWith(line, name + ":")
    ensures SplitOnce(line, ':') == [name, line[|name| + 1..]]
  {
    SplitOnceSpec(line, ':');
    assert line[..|name| + 1] == name + ":";
    assert line[..|name|] == name;
    assert line[|name|] == ':' by { assert (name + ":")[|name|] == ':'; }
  }

  /** A label line splits at its label's colon, and the label is already stripped. */
  lemma LabelLineParts(line: string)
    requires IsLabelLine(line)
    ensures SplitOnce(line, ':') == [LabelOf(line), line[|LabelOf(line)| + 1..]]
    ensures Strip(LabelOf(line)) == LabelOf(line)
  {
    var name := LabelOf(line);
    LabelShape(name);
    ColonAfterName(line, name);
  }

  /** The body of `ts + [t]`. */
  lemma {:induction false} BodySnoc(ts: seq<ScannedLine>, t: ScannedLine)
    ensures Body(ts + [t]) ==
      if Blocks(ts) != [] || t.Opens? then Body(ts) else Body(ts) + [t.text]
    decreases |ts|
  {
    var all := ts + [t];
    if ts == [] {
      assert all[1..] == [];
    } else {
      assert all[0] == ts[0] && all[1..] == ts[1..] + [t];
      if ts[0].Plain? {
        BodySnoc(ts[1..], t);
      }
    }
  }

  /** Appending a fragment to the last block. */
  function Extend(bs: seq<Block>, fragment: string): seq<Block>
    requires bs != []
  {
    var last := bs[|bs| - 1];
    bs[..|bs| - 1] + [Block(last.name, last.fragments + [fragment])]
  }

  /** The blocks of `ts + [t]`: a label line opens a new block, a plain line extends the last one, if any. */
  lemma BlocksSnoc(ts: seq<ScannedLine>, t: ScannedLine)
    ensures Blocks(ts + [t]) ==
      if t.Opens? then Blocks(ts) + [Block(t.section, [t.first])]
      else if Blocks(ts) == [] then []
      else Extend(Blocks(ts), t.text)
  {
    if t.Opens? {
      BlocksSnocOpens(ts, t.section, t.first);
    } else {
      BlocksSnocPlain(ts, t.text);
    }
  }

  lemma {:induction false} BlocksSnocOpens(ts: seq<ScannedLine>, name: string, first: string)
    ensures Blocks(ts + [Opens(name, first)]) == Blocks(ts) + [Block(name, [first])]
    decreases |ts|
  {
    var t := Opens(name, first);
    var all := ts + [t];
    if ts == [] {
      assert all[1..] == [];
      assert Body(all[1..]) == [] && Blocks(all[1..]) == [];
      assert Blocks(all) == [Block(name, [first] + Body(all[1..]))] + Blocks(all[1..]);
      assert [first] + [] == [first];
    } else {
      var rest := ts[1..];
      assert all[0] == ts[0] && all[1..] == rest + [t];
      BlocksSnocOpens(rest, name, first);
      BodySnoc(rest, t);
      match ts[0]
      case Plain(_) =>
      case Opens(n, f) =>
        var head := Block(n, [f] + Body(rest));
        calc {
          Blocks(all);
          [head] + Blocks(rest + [t]);
          [head] + (Blocks(rest) + [Block(name, [first])]);
          ([head] + Blocks(rest)) + [Block(name, [first])];
        }
    }
  }

  lemma {:induction false} BlocksSnocPlain(ts: seq<ScannedLine>, text: string)
    ensures Blocks(ts + [Plain(text)]) == if Blocks(ts) == [] then [] else Extend(Blocks(ts), text)
    decreases |ts|
  {
    var t := Plain(text);
    var all := ts + [t];
    if ts == [] {
      assert all[1..] == [];
    } else {
      var rest := ts[1..];
      assert all[0] == ts[0] && all[1..] == rest + [t];
      BlocksSnocPlain(rest, text);
      BodySnoc(rest, t);
      if ts[0].Opens? {
        var n, f := ts[0].section, ts[0].first;
        assert Blocks(all) == [Block(n, [f] + Body(rest + [t]))] + Blocks(rest + [t]);
        assert Blocks(ts) == [Block(n, [f] + Body(rest))] + Blocks(rest);
        OpensExtend(n, f, Body(rest), Body(rest + [t]), Blocks(rest), Blocks(rest + [t]), text);
      }
    }
  }

  /** A fragment added after a block that opens the list goes to that block only when no later block exists. */
  lemma OpensExtend(n: string, f: string, body: seq<string>, body': seq<string>,
                    bs: seq<Block>, bs': seq<Block>, text: string)
    requires bs == [] ==> bs' == [] && body' == body + [text]
    requires bs != [] ==> bs' == Extend(bs, text) && body' == body
    ensures [Block(n, [f] + body')] + bs' == Extend([Block(n, [f] + body)] + bs, text)
  {
    var head := Block(n, [f] + body);
    if bs == [] {
      assert [f] + (body + [text]) == head.fragments + [text];
    } else {
      assert ([head] + bs)[..|bs|] == [head] + bs[..|bs| - 1];
    }
  }

  /** The scanner's own reading of a label line agrees with `Scan`. */
  lemma ScanLabelLine(raw: string)
    requires IsLabelLine(Strip(raw))
    ensures var parts := SplitOnce(Strip(raw), ':');
      |parts| == 2 && Scan(raw) == Opens(Strip(parts[0]), Strip(parts[1])) && Strip(parts[0]) != ""
  {
    var line := Strip(raw);
    LabelLineParts(line);
    LabelShape(LabelOf(line));
  }

  // ---------------------------------------------------------------------------
  // What the stored dict holds: one entry per distinct label, in order of first
  // appearance, holding the text of the label's last block.

  /** The labels of the blocks, in order. */
  function Names(bs: seq<Block>): (ns: seq<string>)
    ensures |ns| == |bs| && forall i :: 0 <= i < |bs| ==> ns[i] == bs[i].name
  {
    seq(|bs|, i requires 0 <= i < |bs| => bs[i].name)
  }

  /** The first position of `x` in `s`. */
  function FirstIndex(s: seq<string>, x: string): (i: nat)
    requires x in s
    ensures i < |s| && s[i] == x && forall j :: 0 <= j < i ==> s[j] != x
  {
    if s[0] == x then 0 else 1 + FirstIndex(s[1..], x)
  }

  /** The last position of `x` in `s`. */
  function LastIndex(s: seq<string>, x: string): (i: nat)
    requires x in s
    ensures i < |s| && s[i] == x && forall j :: i < j < |s| ==> s[j] != x
  {
    if s[|s| - 1] == x then |s| - 1
    else
      assert x in s[..|s| - 1] by {
        var k :| 0 <= k < |s| && s[k] == x;
        assert s[..|s| - 1][k] == x;
      }
      LastIndex(s[..|s| - 1], x)
  }

  /**
   * `r` holds one entry per distinct label of `bs`, ordered by the first block
   * of each label, and each entry holds the text of the last block with its label.
   */
  ghost predicate Summarises(r: Dict, bs: seq<Block>) {
    && DistinctKeys(r)
    && (forall k :: k in Keys(r) <==> k in Names(bs))
    && (forall a, b :: 0 <= a < b < |r| ==> FirstIndex(Names(bs), r[a].key) < FirstIndex(Names(bs), r[b].key))
    && (forall a :: 0 <= a < |r| ==> r[a].value == SectionText(bs[LastIndex(Names(bs), r[a].key)]))
  }

  /** Storing blocks one by one, as the scanner does, yields a dict that summarises them. */
  lemma {:induction false} AssembleSpec(bs: seq<Block>)
    ensures Summarises(Assemble(bs), bs)
    decreases |bs|
  {
    if bs != [] {
      var init := bs[..|bs| - 1];
      var last := bs[|bs| - 1];
      AssembleSpec(init);
      assert bs == init + [last];
      if last.name in Keys(Assemble(init)) {
        StoreExisting(Assemble(init), init, last);
      } else {
        StoreNew(Assemble(init), init, last);
      }
    }
  }

  /** Storing a block whose label is already a key replaces that entry's text in place. */
  lemma StoreExisting(r0: Dict, init: seq<Block>, last: Block)
    requires Summarises(r0, init) && last.name in Keys(r0)
    ensures Summarises(Put(r0, last.name, SectionText(last)), init + [last])
  {
    var bs := init + [last];
    var r := Put(r0, last.name, SectionText(last));
    PutSpec(r0, last.name, SectionText(last));
    var ns0 := Names(init);
    var ns := Names(bs);
    assert ns == ns0 + [last.name];
    assert |r| == |r0|;
    forall a | 0 <= a < |r| ensures r[a].key == r0[a].key && r[a].key in ns0 {
      assert Keys(r)[a] == Keys(r0)[a];
      assert r0[a].key in Keys(r0);
    }
    forall k | k in ns0 ensures FirstIndex(ns, k) == FirstIndex(ns0, k) {
      FirstIndexSnoc(ns0, last.name, k);
    }
    forall a | 0 <= a < |r| ensures r[a].value == SectionText(bs[LastIndex(ns, r[a].key)]) {
      if r[a].key != last.name {
        LastIndexSnoc(ns0, last.name, r[a].key);
        assert bs[LastIndex(ns0, r[a].key)] == init[LastIndex(ns0, r[a].key)];
      } else {
        assert LastIndex(ns, last.name) == |init|;
      }
    }
    assert forall k :: k in Keys(r) <==> k in ns by {
      forall k ensures k in Keys(r) <==> k in ns {
        assert k in ns <==> k in ns0 || k == last.name;
      }
    }
  }

  /** Storing a block with a new label appends an entry after all others. */
  lemma StoreNew(r0: Dict, init: seq<Block>, last: Block)
    requires Summarises(r0, init) && last.name !in Keys(r0)
    ensures Summarises(Put(r0, last.name, SectionText(last)), init + [last])
  {
    var bs := init + [last];
    var r := Put(r0, last.name, SectionText(last));
    PutSpec(r0, last.name, SectionText(last));
    assert Names(bs) == Names(init) + [last.name];
    assert r == r0 + [Entry(last.name, SectionText(last))];
    StoreNewOrder(r0, init, last);
    StoreNewValues(r0, init, last);
    assert forall k :: k in Keys(r) <==> k in Names(bs) by {
      forall k ensures k in Keys(r) <==> k in Names(bs) {
        assert Keys(r) == Keys(r0) + [last.name];
        assert k in Names(bs) <==> k in Names(init) || k == last.name;
      }
    }
  }

  lemma StoreNewOrder(r0: Dict, init: seq<Block>, last: Block)
    requires Summarises(r0, init) && last.name !in Keys(r0)
    ensures forall a :: 0 <= a < |r0| + 1 ==> (r0 + [Entry(last.name, SectionText(last))])[a].key in Names(init + [last])
    ensures var r := r0 + [Entry(last.name, SectionText(last))];
      forall a, b :: 0 <= a < b < |r| ==> FirstIndex(Names(init + [last]), r[a].key) < FirstIndex(Names(init + [last]), r[b].key)
  {
    var r := r0 + [Entry(last.name, SectionText(last))];
    var ns0 := Names(init);
    var ns := Names(init + [last]);
    assert ns == ns0 + [last.name];
    forall a | 0 <= a < |r| ensures r[a].key in ns {
      if a < |r0| { assert r0[a].key in Keys(r0); }
    }
    forall a | 0 <= a < |r0| ensures FirstIndex(ns, r0[a].key) == FirstIndex(ns0, r0[a].key) < |init| {
      assert r0[a].key in Keys(r0);
      FirstIndexSnoc(ns0, last.name, r0[a].key);
    }
    assert FirstIndex(ns, last.name) == |init| by { FirstIndexSnoc(ns0, last.name, last.name); }
  }

  lemma StoreNewValues(r0: Dict, init: seq<Block>, last: Block)
    requires Summarises(r0, init) && last.name !in Keys(r0)
    ensures forall a :: 0 <= a < |r0| + 1 ==> (r0 + [Entry(last.name, SectionText(last))])[a].key in Names(init + [last])
    ensures var r := r0 + [Entry(last.name, SectionText(last))];
      forall a :: 0 <= a < |r| ==> r[a].value == SectionText((init + [last])[LastIndex(Names(init + [last]), r[a].key)])
  {
    var r := r0 + [Entry(last.name, SectionText(last))];
    var bs := init + [last];
    var ns0 := Names(init);
    var ns := Names(bs);
    assert ns == ns0 + [last.name];
    forall a | 0 <= a < |r| ensures r[a].key in ns {
      if a < |r0| { assert r0[a].key in Keys(r0); }
    }
    forall a | 0 <= a < |r| ensures r[a].value == SectionText(bs[LastIndex(ns, r[a].key)]) {
      if a < |r0| {
        assert r0[a].key in Keys(r0);
        LastIndexSnoc(ns0, last.name, r[a].key);
        assert bs[LastIndex(ns0, r[a].key)] == init[LastIndex(ns0, r[a].key)];
      } else {
        assert LastIndex(ns, last.name) == |init|;
      }
    }
  }

  lemma FirstIndexSnoc(s: seq<string>, y: string, x: string)
    requires x in s + [y]
    ensures FirstIndex(s + [y], x) == if x in s then FirstIndex(s, x) else |s|
  {
    var i := FirstIndex(s + [y], x);
    if x in s {
      var j := FirstIndex(s, x);
      assert (s + [y])[j] == x;
    }
  }

  lemma LastIndexSnoc(s: seq<string>, y: string, x: string)
    requires x in s + [y] && x != y
    ensures x in s && LastIndex(s + [y], x) == LastIndex(s, x)
  {
    var i := LastIndex(s + [y], x);
    assert i < |s| && s[i] == x;
    var j := LastIndex(s, x);
    assert (s + [y])[j] == x;
  }
}
