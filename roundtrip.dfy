/**
 * How the parser and the prompt generator's linearising loop fit together
 * (app.py): a parsed summary, written out as `key: value` lines the way the
 * prompt generator writes it, parses back to the same dict.
 */
module RoundTrip {
  import opened PyStr
  import opened OrderedDicts
  import opened SummaryParser
  import opened SummaryFacts
  import opened PromptGen

  /** A dict of the shape the parser returns for structured text: distinct labels, stripped one-line values. */
  predicate SectionsDict(d: Dict) {
    && DistinctKeys(d)
    && forall i :: 0 <= i < |d| ==>
         d[i].key in SectionLabels && Strip(d[i].value) == d[i].value && '\n' !in d[i].value
  }


  function LinesOf(d: Dict): (ls: seq<string>)
    ensures |ls| == |d| && forall i :: 0 <= i < |d| ==> ls[i] == LineOf(d[i])
  {
    seq(|d|, i requires 0 <= i < |d| => LineOf(d[i]))
  }

  /** The scan the parser should make of the written lines: one label line per entry. */
  function OpensOf(d: Dict): (ts: seq<ScannedLine>)
    ensures |ts| == |d| && forall i :: 0 <= i < |d| ==> ts[i] == Opens(d[i].key, d[i].value)
  {
    seq(|d|, i requires 0 <= i < |d| => Opens(d[i].key, d[i].value))
  }

  /** The rendering is the entries' lines joined by newlines, plus a final newline. */
  lemma {:induction false} RenderJoin(d: Dict)
    requires d != []
    ensures Render(d) == Join("\n", LinesOf(d)) + "\n"
    decreases |d|
  {
    var init := d[..|d| - 1];
    var last := d[|d| - 1];
    assert Render(d) == Render(init) + SectionLine(last);
    assert SectionLine(last) == LineOf(last) + "\n";
    if init == [] {
      assert LinesOf(d) == [LineOf(last)];
    } else {
      RenderJoin(init);
      assert LinesOf(d) == LinesOf(init) + [LineOf(last)];
      JoinSnoc("\n", LinesOf(init), LineOf(last));
    }
  }

  /** The labels start with a visible character and hold no newline. */
  lemma LabelShapeFacts(key: string)
    requires key in SectionLabels
    ensures |key| > 0 && !IsSpace(key[0]) && '\n' !in key
  {
  }

  /** A line that starts with a label and its colon is a label line for that label. */
  lemma LabelOfKey(line: string, key: string)
    requires key in SectionLabels && StartsWith(line, key + ":")
    ensures IsLabelLine(line) && LabelOf(line) == key
  {
    assert line[0] == (key + ":")[0] == key[0];
    if key == "Abstract" {
      assert StartsWith(line, "Abstract:");
    } else if key == "Introduction" {
      assert StartsWith(line, "Introduction:");
    } else if key == "Results" {
      assert StartsWith(line, "Results:");
    } else {
      assert StartsWith(line, "Discussion:");
    }
  }

  /** What `strip` leaves of a written line: the line itself, or the label and colon for an empty value. */
  lemma StripLine(e: Entry)
    requires e.key in SectionLabels && Strip(e.value) == e.value
    ensures Strip(LineOf(e)) == (if e.value == "" then e.key + ":" else LineOf(e))
    ensures Strip(RStrip(LineOf(e))) == Strip(LineOf(e))
  {
    var x := LineOf(e);
    LabelShapeFacts(e.key);
    assert x[0] == e.key[0];
    assert LStrip(x) == x;
    var head := e.key + ":";
    if e.value == "" {
      assert x[..|x| - 1] == head;
      assert RStrip(head) == head;
      assert RStrip(x) == head;
      assert LStrip(head) == head;
    } else {
      StripSpec(e.value);
      assert x[|x| - 1] == e.value[|e.value| - 1];
      assert RStrip(x) == x;
    }
  }

  /** The parser reads a written line back as its entry, whether or not it was right-stripped. */
  lemma ScanLine(e: Entry)
    requires e.key in SectionLabels && Strip(e.value) == e.value
    ensures Scan(LineOf(e)) == Opens(e.key, e.value)
    ensures Scan(RStrip(LineOf(e))) == Opens(e.key, e.value)
  {
    StripLine(e);
    var s := Strip(LineOf(e));
    assert s[..|e.key| + 1] == e.key + ":";
    LabelOfKey(s, e.key);
    AfterLabel(e);
  }

  /** Past the label and its colon, the stripped line holds the value, after one space. */
  lemma AfterLabel(e: Entry)
    requires e.key in SectionLabels && Strip(e.value) == e.value
    requires Strip(LineOf(e)) == (if e.value == "" then e.key + ":" else LineOf(e))
    ensures Strip(Strip(LineOf(e))[|e.key| + 1..]) == e.value
  {
    var s := Strip(LineOf(e));
    var n := |e.key| + 1;
    if e.value == "" {
      assert s[n..] == "";
    } else {
      var rest := s[n..];
      assert rest == " " + e.value;
      assert rest[1..] == e.value;
      StripSpec(e.value);
      assert LStrip(e.value) == e.value;
      assert LStrip(rest) == e.value;
    }
  }

  /** The lines the parser finds in a rendering: the written lines, the last one right-stripped. */
  lemma LinesOfRender(d: Dict)
    requires d != [] && SectionsDict(d)
    ensures Lines(Render(d)) == LinesOf(d)[..|d| - 1] + [RStrip(LineOf(d[|d| - 1]))]
  {
    var ls := LinesOf(d);
    var joined := Join("\n", ls);
    WrittenLinesShape(d);
    RenderStrip(d);
    assert Lines(Render(d)) == Split(RStrip(joined), '\n');
    SplitStrippedJoin(ls);
    assert ls[|ls| - 1] == LineOf(d[|d| - 1]);
  }

  /** Each written line starts with a visible character and holds no newline. */
  lemma WrittenLinesShape(d: Dict)
    requires SectionsDict(d)
    ensures forall i :: 0 <= i < |d| ==> '\n' !in LinesOf(d)[i] && |LinesOf(d)[i]| > 0 && !IsSpace(LinesOf(d)[i][0])
  {
    var ls := LinesOf(d);
    forall i | 0 <= i < |ls| ensures '\n' !in ls[i] && |ls[i]| > 0 && !IsSpace(ls[i][0]) {
      LabelShapeFacts(d[i].key);
      assert ls[i][0] == d[i].key[0];
    }
  }

  /** Stripping a rendering only right-strips the joined lines. */
  lemma RenderStrip(d: Dict)
    requires d != [] && SectionsDict(d)
    ensures Strip(Render(d)) == RStrip(Join("\n", LinesOf(d)))
  {
    var ls := LinesOf(d);
    var x := Join("\n", ls);
    RenderJoin(d);
    LabelShapeFacts(d[0].key);
    assert ls[0][0] == d[0].key[0];
    JoinFirst(ls);
    assert (x + "\n")[0] == x[0];
    assert LStrip(x + "\n") == x + "\n";
    RStripAppendSpace(x, "\n");
  }

  /** Splitting joined one-line texts, right-stripped, gives them back with the last one right-stripped. */
  lemma SplitStrippedJoin(ls: seq<string>)
    requires |ls| >= 1
    requires forall i :: 0 <= i < |ls| ==> '\n' !in ls[i] && |ls[i]| > 0 && !IsSpace(ls[i][0])
    ensures Split(RStrip(Join("\n", ls)), '\n') == ls[..|ls| - 1] + [RStrip(ls[|ls| - 1])]
  {
    var n := |ls|;
    var last := ls[n - 1];
    RStripSpec(last);
    NoCharInSlice(last, '\n', 0, |RStrip(last)|);
    SplitNoSep(RStrip(last), '\n');
    if n > 1 {
      var init := ls[..n - 1];
      var pre := Join("\n", init);
      assert ls == init + [last];
      JoinSnoc("\n", init, last);
      assert !AllSpace(last) by { assert !IsSpace(last[0]); }
      RStripConcat(pre + "\n", last);
      SplitConcat(pre, '\n', RStrip(last));
      JoinSplit(init, '\n');
    }
  }

  /** The first character of a join is the first character of its first part. */
  lemma JoinFirst(ls: seq<string>)
    requires |ls| >= 1 && |ls[0]| > 0
    ensures |Join("\n", ls)| > 0 && Join("\n", ls)[0] == ls[0][0]
  {
  }

  /** The parser scans a rendering as one label line per entry. */
  lemma ScanRender(d: Dict)
    requires d != [] && SectionsDict(d)
    ensures ScanAll(Lines(Render(d))) == OpensOf(d)
  {
    LinesOfRender(d);
    var lines := Lines(Render(d));
    forall i | 0 <= i < |d| ensures Scan(lines[i]) == Opens(d[i].key, d[i].value) {
      ScanLine(d[i]);
    }
  }

  /** When every line opens a section, every block is one line long. */
  lemma {:induction false} BlocksOfOpens(ts: seq<ScannedLine>)
    requires forall i :: 0 <= i < |ts| ==> ts[i].Opens?
    ensures Blocks(ts) == seq(|ts|, i requires 0 <= i < |ts| => Block(ts[i].section, [ts[i].first]))
    decreases |ts|
  {
    if ts != [] {
      var tail := ts[1..];
      BlocksOfOpens(tail);
      assert Body(tail) == [];
      assert [ts[0].first] + Body(tail) == [ts[0].first];
      assert Blocks(ts) == [Block(ts[0].section, [ts[0].first])] + Blocks(tail);
    }
  }

  /** Each entry as a block with its value as the one fragment. */
  function Singles(d: Dict): (bs: seq<Block>)
    ensures |bs| == |d| && forall i :: 0 <= i < |d| ==> bs[i] == Block(d[i].key, [d[i].value])
  {
    seq(|d|, i requires 0 <= i < |d| => Block(d[i].key, [d[i].value]))
  }

  /** Dropping the last entry keeps the shape and leaves a dict without the last key. */
  lemma SectionsDictInit(d: Dict)
    requires d != [] && SectionsDict(d)
    ensures SectionsDict(d[..|d| - 1])
    ensures d[|d| - 1].key !in Keys(d[..|d| - 1])
    ensures d == d[..|d| - 1] + [Entry(d[|d| - 1].key, d[|d| - 1].value)]
  {
  }

  /** Storing one-line blocks with distinct labels rebuilds the dict they came from. */
  lemma {:induction false} AssembleSingles(d: Dict)
    requires SectionsDict(d)
    ensures Assemble(Singles(d)) == d
    decreases |d|
  {
    if d != [] {
      var bs := Singles(d);
      var init := d[..|d| - 1];
      var last := d[|d| - 1];
      SectionsDictInit(d);
      AssembleSingles(init);
      assert bs[..|bs| - 1] == Singles(init);
      assert SectionText(bs[|bs| - 1]) == last.value;
      assert Assemble(bs) == Put(d[..|d| - 1], last.key, last.value);
    }
  }

  /** Written out as the prompt generator writes it, a dict of sections parses back to itself. */
  lemma RenderParse(d: Dict)
    requires d != [] && SectionsDict(d)
    ensures Parse(Text(Render(d))) == d
    ensures Parse(Text(Strip(Render(d)))) == d
  {
    ScanRender(d);
    var ts := OpensOf(d);
    BlocksOfOpens(ts);
    assert TextBlocks(Render(d)) == Singles(d);
    AssembleSingles(d);
    StripIdempotent(Render(d));
  }

  /** The parser reads no newline into a fragment. */
  lemma ScanNoNewline(line: string)
    requires '\n' !in line
    ensures Scan(line).Plain? ==> '\n' !in Scan(line).text
    ensures Scan(line).Opens? ==> '\n' !in Scan(line).first
  {
    var s := Strip(line);
    StripNoChar(line, '\n');
    if IsLabelLine(s) {
      var name := LabelOf(s);
      NoCharInSlice(s, '\n', |name| + 1, |s|);
      assert s[|name| + 1..|s|] == s[|name| + 1..];
      StripNoChar(s[|name| + 1..], '\n');
    }
  }

  /** No fragment of a block holds a newline: the text is cut at newlines. */
  lemma FragmentsNoNewline(s: string)
    ensures forall k, j :: 0 <= k < |TextBlocks(s)| && 0 <= j < |TextBlocks(s)[k].fragments| ==>
      '\n' !in TextBlocks(s)[k].fragments[j]
  {
    var lines := Lines(s);
    var ts := ScanAll(lines);
    SplitPieces(Strip(s), '\n');
    forall i | 0 <= i < |ts| ensures (ts[i].Plain? ==> '\n' !in ts[i].text) && (ts[i].Opens? ==> '\n' !in ts[i].first) {
      ScanNoNewline(lines[i]);
    }
    BlocksAt(ts);
    var ix := OpenIndices(ts);
    forall k, j | 0 <= k < |TextBlocks(s)| && 0 <= j < |TextBlocks(s)[k].fragments|
      ensures '\n' !in TextBlocks(s)[k].fragments[j]
    {
      var b := TextBlocks(s)[k];
      assert b == BlockAt(ts, ix[k]);
      if j > 0 {
        var body := Body(ts[ix[k] + 1..]);
        assert b.fragments[j] == body[j - 1];
        assert ts[ix[k] + 1 + (j - 1)] == Plain(body[j - 1]);
      }
    }
  }

  /** A structured parse has the shape `SectionsDict` describes. */
  lemma ParseIsSectionsDict(s: string)
    requires TextBlocks(s) != []
    ensures Parse(Text(s)) != [] && SectionsDict(Parse(Text(s)))
  {
    var bs := TextBlocks(s);
    var r := Parse(Text(s));
    ParseSections(s);
    FragmentsNoNewline(s);
    assert Names(bs)[0] in Names(bs);
    assert r != [];
    forall a | 0 <= a < |r| ensures Strip(r[a].value) == r[a].value && '\n' !in r[a].value {
      var b := bs[LastIndex(Names(bs), r[a].key)];
      JoinNoChar(" ", b.fragments, '\n');
      StripNoChar(Join(" ", b.fragments), '\n');
      StripIdempotent(Join(" ", b.fragments));
    }
  }

  /**
   * Parsing a structured summary, writing the result out as the prompt
   * generator does, and parsing that again gives the same dict.
   */
  lemma LinearizedParseIsStable(s: string)
    requires TextBlocks(s) != []
    ensures Parse(Text(Strip(Render(Parse(Text(s)))))) == Parse(Text(s))
  {
    ParseIsSectionsDict(s);
    RenderParse(Parse(Text(s)));
  }
}
