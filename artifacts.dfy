/**
 * The files a run produces (app.py, `save_summary_to_files` and
 * `generate_image_with_ai`): names built from the caller's prefix and a
 * second-resolution timestamp, the document written from the parsed summary,
 * and the placeholder image the image step always falls back to. The clock,
 * the file system and the Gemini client are parameters.
 */
module Artifacts {
  import opened Wrappers
  import opened PyStr
  import opened OrderedDicts
  import opened Config
  import opened SummaryParser
  import opened SummaryFacts

  // ---------------------------------------------------------------------------
  // Timestamps: `datetime.now().strftime("%Y%m%d_%H%M%S")`
  // ---------------------------------------------------------------------------

  datatype DateTime = DateTime(year: int, month: int, day: int, hour: int, minute: int, second: int)

  /** A calendar moment whose year has four digits. */
  predicate ValidTime(t: DateTime) {
    && 1000 <= t.year <= 9999 && 1 <= t.month <= 12 && 1 <= t.day <= 31
    && 0 <= t.hour <= 23 && 0 <= t.minute <= 59 && 0 <= t.second <= 59
  }

  predicate IsDigit(c: char) {
    '0' <= c <= '9'
  }

  function DigitChar(d: int): (c: char)
    requires 0 <= d <= 9
    ensures IsDigit(c) && DigitValue(c) == d
  {
    (48 + d) as char
  }

  function DigitValue(c: char): int {
    c as int - 48
  }

  /** A number below 100 written with two digits, zero-padded. */
  function Pad2(n: int): (r: string)
    requires 0 <= n <= 99
    ensures |r| == 2 && IsDigit(r[0]) && IsDigit(r[1])
  {
    [DigitChar(n / 10), DigitChar(n % 10)]
  }

  /** A number below 10000 written with four digits, zero-padded. */
  function Pad4(n: int): (r: string)
    requires 0 <= n <= 9999
    ensures |r| == 4 && forall i :: 0 <= i < 4 ==> IsDigit(r[i])
  {
    [DigitChar(n / 1000), DigitChar(n / 100 % 10), DigitChar(n / 10 % 10), DigitChar(n % 10)]
  }

  /** The number two digits stand for. */
  function Read2(s: string): int
    requires |s| == 2
  {
    10 * DigitValue(s[0]) + DigitValue(s[1])
  }

  /** The number four digits stand for. */
  function Read4(s: string): int
    requires |s| == 4
  {
    1000 * DigitValue(s[0]) + 100 * DigitValue(s[1]) + 10 * DigitValue(s[2]) + DigitValue(s[3])
  }

  lemma Pad2Read(n: int)
    requires 0 <= n <= 99
    ensures Read2(Pad2(n)) == n
  {
  }

  lemma Pad4Read(n: int)
    requires 0 <= n <= 9999
    ensures Read4(Pad4(n)) == n
  {
    var a, b, c, d := n / 1000, n / 100 % 10, n / 10 % 10, n % 10;
    assert n / 10 == 10 * (n / 100) + c;
    assert n / 100 == 10 * a + b;
  }

  /** `%Y%m%d_%H%M%S`. */
  function Timestamp(t: DateTime): (r: string)
    requires ValidTime(t)
    ensures |r| == 15 && r[8] == '_'
    ensures forall i :: 0 <= i < 15 && i != 8 ==> IsDigit(r[i])
  {
    Pad4(t.year) + Pad2(t.month) + Pad2(t.day) + "_" + Pad2(t.hour) + Pad2(t.minute) + Pad2(t.second)
  }

  /** Reads a timestamp back: the inverse that shows no two moments share one. */
  function ReadTimestamp(s: string): DateTime
    requires |s| == 15
  {
    DateTime(Read4(s[0..4]), Read2(s[4..6]), Read2(s[6..8]), Read2(s[9..11]), Read2(s[11..13]), Read2(s[13..15]))
  }

  lemma {:induction false} TimestampRoundTrip(t: DateTime)
    requires ValidTime(t)
    ensures ReadTimestamp(Timestamp(t)) == t
  {
    var s := Timestamp(t);
    assert s[0..4] == Pad4(t.year);
    assert s[4..6] == Pad2(t.month);
    assert s[6..8] == Pad2(t.day);
    assert s[9..11] == Pad2(t.hour);
    assert s[11..13] == Pad2(t.minute);
    assert s[13..15] == Pad2(t.second);
    Pad4Read(t.year);
    Pad2Read(t.month);
    Pad2Read(t.day);
    Pad2Read(t.hour);
    Pad2Read(t.minute);
    Pad2Read(t.second);
  }

  /** Distinct moments (to the second) get distinct timestamps. */
  lemma TimestampInjective(t1: DateTime, t2: DateTime)
    requires ValidTime(t1) && ValidTime(t2) && t1 != t2
    ensures Timestamp(t1) != Timestamp(t2)
  {
    TimestampRoundTrip(t1);
    TimestampRoundTrip(t2);
  }

  // ---------------------------------------------------------------------------
  // POSIX path helpers: `os.path.splitext` and `os.path.join`
  // ---------------------------------------------------------------------------

  /** An index of `c` in `s`, or -1, as `str.rfind` gives it. */
  function RFind(s: string, c: char): (i: int)
    ensures -1 <= i < |s|
  {
    match RFindChar(s, c)
    case None => -1
    case Some(k) => k
  }

  /**
   * `os.path.splitext`: the extension starts at the last dot after the last
   * slash, unless only dots precede it in the final component (a leading-dot
   * name such as ".bashrc" has no extension).
   */
  function SplitExt(p: string): (string, string) {
    var sep := RFind(p, '/');
    var dot := RFind(p, '.');
    if dot > sep && exists k :: sep + 1 <= k < dot && p[k] != '.' then (p[..dot], p[dot..])
    else (p, "")
  }

  /** `os.path.splitext(p)[0]`. */
  function Root(p: string): string {
    SplitExt(p).0
  }

  /** The two parts of `splitext` put back together give the path; a non-empty extension starts with its only dot. */
  lemma SplitExtParts(p: string)
    ensures SplitExt(p).0 + SplitExt(p).1 == p
    ensures var ext := SplitExt(p).1;
      ext == "" || (ext[0] == '.' && '.' !in ext[1..] && '/' !in ext)
  {
    var sep := RFind(p, '/');
    var dot := RFind(p, '.');
    if SplitExt(p).1 != "" {
      assert p[..dot] + p[dot..] == p;
      RFindCharFacts(p, '.');
      RFindCharFacts(p, '/');
      var ext := p[dot..];
      assert forall j :: 1 <= j < |ext| ==> ext[j] == p[dot + j];
      assert forall j :: 0 <= j < |ext| ==> ext[j] == p[dot + j];
    }
  }

  /** What `RFindChar` promises, restated with `RFind`'s -1. */
  lemma RFindCharFacts(s: string, c: char)
    ensures var i := RFind(s, c);
      (i == -1 || s[i] == c) && forall j :: i < j < |s| ==> s[j] != c
  {
    match RFindChar(s, c)
    case None =>
    case Some(k) =>
      assert forall j :: k < j < |s| ==> s[j] == s[k + 1..][j - k - 1];
  }

  /** A name ending in an extension whose stem ends in a character other than a dot or slash splits there. */
  lemma SplitExtSuffix(stem: string, ext: string)
    requires |stem| > 0 && stem[|stem| - 1] != '.' && stem[|stem| - 1] != '/'
    requires |ext| > 0 && ext[0] == '.' && '.' !in ext[1..] && '/' !in ext
    ensures SplitExt(stem + ext) == (stem, ext)
  {
    var p := stem + ext;
    var n := |stem|;
    LastDot(stem, ext);
    RFindCharFacts(p, '/');
    assert p[n - 1] != '/' && p[n - 1] != '.';
    assert RFind(p, '/') < n - 1 by {
      assert forall j :: n <= j < |p| ==> p[j] == ext[j - n];
    }
    assert p[..n] == stem;
    assert p[n..] == ext;
  }

  /** The dot that starts a dot-free extension is the last dot of the name. */
  lemma LastDot(stem: string, ext: string)
    requires |ext| > 0 && ext[0] == '.' && '.' !in ext[1..]
    ensures RFind(stem + ext, '.') == |stem|
  {
    var p := stem + ext;
    var n := |stem|;
    RFindCharFacts(p, '.');
    assert p[n] == '.';
    assert forall j :: n < j < |p| ==> p[j] == ext[1..][j - n - 1];
  }

  /** `os.path.join(a, b)` on POSIX. */
  function PathJoin(a: string, b: string): (r: string)
    ensures StartsWith(b, "/") ==> r == b
  {
    if StartsWith(b, "/") then b
    else if a == [] || a[|a| - 1] == '/' then a + b
    else a + "/" + b
  }

  lemma PathJoinRelative(a: string, b: string)
    requires a != [] && a[|a| - 1] != '/' && !StartsWith(b, "/")
    ensures PathJoin(a, b) == a + "/" + b
    ensures PathJoin(a, b)[|a| + 1..] == b
  {
    assert (a + "/" + b)[|a| + 1..] == b;
  }

  // ---------------------------------------------------------------------------
  // File names
  // ---------------------------------------------------------------------------

  const DocsFolder: string := "docs"
  const ImagesFolder: string := "images"
  const MarkdownExt: string := ".md"
  const DocxExt: string := ".docx"
  const PngExt: string := ".png"

  /** `f"{splitext(prefix)[0]}_{timestamp}"`, shared by both saved documents. */
  function DocumentBase(prefix: string, t: DateTime): string
    requires ValidTime(t)
  {
    Root(prefix) + "_" + Timestamp(t)
  }

  function MarkdownName(prefix: string, t: DateTime): string
    requires ValidTime(t)
  {
    DocumentBase(prefix, t) + MarkdownExt
  }

  function DocxName(prefix: string, t: DateTime): string
    requires ValidTime(t)
  {
    DocumentBase(prefix, t) + DocxExt
  }

  /** `f"{splitext(prefix)[0]}_visualization_{timestamp}.png"`. */
  function ImageStem(prefix: string, t: DateTime): string
    requires ValidTime(t)
  {
    Root(prefix) + "_visualization_" + Timestamp(t)
  }

  function ImageName(prefix: string, t: DateTime): string
    requires ValidTime(t)
  {
    ImageStem(prefix, t) + PngExt
  }

  /** `os.path.join('images', image_filename)`: the web-relative path of the image. */
  function ImageSubpath(prefix: string, t: DateTime): string
    requires ValidTime(t)
  {
    PathJoin(ImagesFolder, ImageName(prefix, t))
  }

  /**
   * A name built from a prefix that is not an absolute path is not one
   * either (prefixes come from `secure_filename`, which removes slashes).
   */
  lemma NameIsRelative(prefix: string, tag: string, ts: string, ext: string)
    requires prefix == [] || prefix[0] != '/'
    requires |tag| > 0 && tag[0] == '_'
    ensures !StartsWith(Root(prefix) + tag + ts + ext, "/")
  {
    SplitExtParts(prefix);
    var n := Root(prefix) + tag + ts + ext;
    if Root(prefix) != [] {
      assert n[0] == prefix[0];
    } else {
      assert n[0] == tag[0];
    }
  }

  /** A stem that ends in a timestamp ends in a digit. */
  lemma StemEndsInDigit(head: string, t: DateTime)
    requires ValidTime(t)
    ensures var s := head + Timestamp(t);
      |s| > 0 && IsDigit(s[|s| - 1])
  {
    var s := head + Timestamp(t);
    assert s[|s| - 1] == Timestamp(t)[14];
  }

  /**
   * The two documents share their base: `splitext` of either name gives the
   * base back, with ".md" or ".docx" as the only difference.
   */
  lemma DocumentNamesShareBase(prefix: string, t: DateTime)
    requires ValidTime(t)
    ensures SplitExt(MarkdownName(prefix, t)) == (DocumentBase(prefix, t), MarkdownExt)
    ensures SplitExt(DocxName(prefix, t)) == (DocumentBase(prefix, t), DocxExt)
    ensures MarkdownName(prefix, t) != DocxName(prefix, t)
  {
    StemEndsInDigit(Root(prefix) + "_", t);
    SplitExtSuffix(DocumentBase(prefix, t), MarkdownExt);
    SplitExtSuffix(DocumentBase(prefix, t), DocxExt);
  }

  /** The image is a PNG under "images/" whose stem carries the prefix's root and the timestamp. */
  lemma ImageNameShape(prefix: string, t: DateTime)
    requires ValidTime(t) && (prefix == [] || prefix[0] != '/')
    ensures SplitExt(ImageName(prefix, t)) == (ImageStem(prefix, t), PngExt)
    ensures ImageSubpath(prefix, t) == ImagesFolder + "/" + ImageName(prefix, t)
  {
    StemEndsInDigit(Root(prefix) + "_visualization_", t);
    SplitExtSuffix(ImageStem(prefix, t), PngExt);
    NameIsRelative(prefix, "_visualization_", Timestamp(t), PngExt);
    PathJoinRelative(ImagesFolder, ImageName(prefix, t));
  }

  /** Two runs with the same prefix at different seconds never reuse a name. */
  lemma NamesDifferAcrossSeconds(prefix: string, t1: DateTime, t2: DateTime)
    requires ValidTime(t1) && ValidTime(t2) && t1 != t2
    ensures MarkdownName(prefix, t1) != MarkdownName(prefix, t2)
    ensures DocxName(prefix, t1) != DocxName(prefix, t2)
    ensures ImageName(prefix, t1) != ImageName(prefix, t2)
  {
    TimestampInjective(t1, t2);
    DistinctMiddle(Root(prefix) + "_", Timestamp(t1), Timestamp(t2), MarkdownExt);
    DistinctMiddle(Root(prefix) + "_", Timestamp(t1), Timestamp(t2), DocxExt);
    DistinctMiddle(Root(prefix) + "_visualization_", Timestamp(t1), Timestamp(t2), PngExt);
  }

  /** Names that differ only in an equally long middle part differ. */
  lemma DistinctMiddle(head: string, a: string, b: string, tail: string)
    requires |a| == |b| && a != b
    ensures head + a + tail != head + b + tail
  {
    var x, y := head + a + tail, head + b + tail;
    assert x[|head|..|head| + |a|] == a;
    assert y[|head|..|head| + |b|] == b;
  }

  // ---------------------------------------------------------------------------
  // The image step
  // ---------------------------------------------------------------------------

  /** How the attempt at a Gemini call ends; the source raises in every case. */
  datatype GeminiOutcome = NotImplemented | PromptBlocked | OtherException

  /**
   * The attempt reads a variable the function never defines before it gets
   * to its own `NotImplementedError`, so it always ends in a `NameError`,
   * which only the generic handler matches.
   */
  const GeminiAttempt: GeminiOutcome := OtherException

  /** `_copy_placeholder_image`: the image's web path when the placeholder exists and the copy succeeds. */
  function CopyPlaceholder(prefix: string, t: DateTime, placeholderExists: bool, copySucceeds: bool): Option<string>
    requires ValidTime(t)
  {
    if !placeholderExists then None
    else if copySucceeds then Some(ImageSubpath(prefix, t))
    else None
  }

  /**
   * What the image step ends in: a return value, or an exception raised while
   * the `except` clauses are matched, which leaves the function.
   */
  datatype ImageStep = Returned(path: Option<string>) | HandlerRaised

  /**
   * `generate_image_with_ai`. Without a key the placeholder is copied. With a
   * key the attempt raises; the first handler, for `NotImplementedError`, names
   * a built-in class, but reaching the later handlers evaluates the
   * `generation_types.BlockedPromptException` attribute of the Gemini module,
   * and `blockedClauseResolves` says whether that lookup succeeds.
   */
  function GenerateImage(geminiKey: Option<string>, prefix: string, t: DateTime,
                         placeholderExists: bool, copySucceeds: bool,
                         blockedClauseResolves: bool): ImageStep
    requires ValidTime(t)
  {
    if !KeySet(geminiKey) then Returned(CopyPlaceholder(prefix, t, placeholderExists, copySucceeds))
    else match GeminiAttempt
      case NotImplemented => Returned(CopyPlaceholder(prefix, t, placeholderExists, copySucceeds))
      case PromptBlocked =>
        if blockedClauseResolves then Returned(CopyPlaceholder(prefix, t, placeholderExists, copySucceeds))
        else HandlerRaised
      case OtherException =>
        if blockedClauseResolves then Returned(CopyPlaceholder(prefix, t, placeholderExists, copySucceeds))
        else HandlerRaised
  }

  /**
   * With a key, the step leaves by an exception exactly when the handler's
   * class lookup fails. Whenever it returns, the key makes no difference, and
   * the step gives a path exactly when the placeholder is there and copying it
   * works; the path is the timestamped PNG under "images/".
   */
  lemma ImageIsPlaceholder(geminiKey: Option<string>, prefix: string, t: DateTime,
                           placeholderExists: bool, copySucceeds: bool, blockedClauseResolves: bool)
    requires ValidTime(t) && (prefix == [] || prefix[0] != '/')
    ensures var r := GenerateImage(geminiKey, prefix, t, placeholderExists, copySucceeds, blockedClauseResolves);
      && (r.HandlerRaised? <==> KeySet(geminiKey) && !blockedClauseResolves)
      && (r.Returned? ==>
            && r == GenerateImage(None, prefix, t, placeholderExists, copySucceeds, blockedClauseResolves)
            && (r.path.Some? <==> placeholderExists && copySucceeds)
            && (r.path.Some? ==> r.path.value == ImagesFolder + "/" + ImageName(prefix, t)
                                 && SplitExt(ImageName(prefix, t)).1 == PngExt))
  {
    ImageNameShape(prefix, t);
  }

  // ---------------------------------------------------------------------------
  // The DOCX document
  // ---------------------------------------------------------------------------

  datatype DocBlock = Heading(text: string, level: int) | Paragraph(text: string)

  /** The blocks a list of sections becomes: a level-1 heading and a paragraph each, `Error` skipped. */
  function SectionBlocks(d: Dict): seq<DocBlock> {
    if d == [] then []
    else
      var first := if d[0].key != ErrorKey then [Heading(d[0].key, 1), Paragraph(d[0].value)] else [];
      first + SectionBlocks(d[1..])
  }

  /** The document's blocks for a parsed summary. */
  function DocxLayout(parsed: Dict): seq<DocBlock> {
    if FullSummaryKey in Keys(parsed) && |parsed| == 1 then [Paragraph(parsed[0].value)]
    else SectionBlocks(parsed)
  }

  /** A document under construction: `Document()` and its `add_heading`/`add_paragraph`. */
  class Document {
    var blocks: seq<DocBlock>

    constructor()
      ensures blocks == []
    {
      blocks := [];
    }

    method AddHeading(text: string, level: int)
      modifies this
      ensures blocks == old(blocks) + [Heading(text, level)]
    {
      blocks := blocks + [Heading(text, level)];
    }

    method AddParagraph(text: string)
      modifies this
      ensures blocks == old(blocks) + [Paragraph(text)]
    {
      blocks := blocks + [Paragraph(text)];
    }
  }

  /** The loop of `save_summary_to_files` that adds a heading and a paragraph per section other than `Error`. */
  method AddSections(doc: Document, parsed: Dict)
    modifies doc
    ensures doc.blocks == old(doc.blocks) + SectionBlocks(parsed)
  {
    var i := 0;
    while i < |parsed|
      invariant 0 <= i <= |parsed|
      invariant doc.blocks + SectionBlocks(parsed[i..]) == old(doc.blocks) + SectionBlocks(parsed)
    {
      assert parsed[i..][1..] == parsed[i + 1..];
      var section, content := parsed[i].key, parsed[i].value;
      if section != ErrorKey {
        doc.AddHeading(section, 1);
        doc.AddParagraph(content);
      }
      i := i + 1;
    }
    assert parsed[|parsed|..] == [];
  }

  /** The DOCX part of `save_summary_to_files`: parse, then add blocks in parse order. */
  method BuildDocument(summaryText: string) returns (doc: Document)
    ensures fresh(doc)
    ensures doc.blocks == DocxLayout(Parse(Text(summaryText)))
  {
    doc := new Document();
    var parsed := Parse(Text(summaryText));
    if FullSummaryKey in Keys(parsed) && |parsed| == 1 {
      doc.AddParagraph(parsed[0].value);
    } else {
      AddSections(doc, parsed);
    }
  }

  /** Sections without an `Error` entry become alternating headings and paragraphs, in order. */
  lemma {:induction false} SectionBlocksSpec(d: Dict)
    requires forall i :: 0 <= i < |d| ==> d[i].key != ErrorKey
    ensures |SectionBlocks(d)| == 2 * |d|
    ensures forall k :: 0 <= k < |d| ==>
      SectionBlocks(d)[2 * k] == Heading(d[k].key, 1) && SectionBlocks(d)[2 * k + 1] == Paragraph(d[k].value)
  {
    if d != [] {
      SectionBlocksSpec(d[1..]);
      var r := SectionBlocks(d);
      var rest := SectionBlocks(d[1..]);
      assert r == [Heading(d[0].key, 1), Paragraph(d[0].value)] + rest;
      forall k | 1 <= k < |d|
        ensures r[2 * k] == Heading(d[k].key, 1) && r[2 * k + 1] == Paragraph(d[k].value)
      {
        assert r[2 * k] == rest[2 * (k - 1)];
        assert r[2 * k + 1] == rest[2 * (k - 1) + 1];
        assert d[1..][k - 1] == d[k];
      }
    }
  }

  /** An unlabelled summary becomes one paragraph holding the whole text. */
  lemma FallbackDocument(s: string)
    requires forall i :: 0 <= i < |Lines(s)| ==> !IsLabelLine(Strip(Lines(s)[i]))
    ensures DocxLayout(Parse(Text(s))) == [Paragraph(s)]
  {
    ParseFallback(s);
  }

  /**
   * A labelled summary becomes a heading and a paragraph per parsed section,
   * in parse order.
   */
  lemma SectionedDocument(s: string)
    requires TextBlocks(s) != []
    ensures var parsed := Parse(Text(s));
      var layout := DocxLayout(parsed);
      && |layout| == 2 * |parsed| && |parsed| > 0
      && forall k :: 0 <= k < |parsed| ==>
           layout[2 * k] == Heading(parsed[k].key, 1) && layout[2 * k + 1] == Paragraph(parsed[k].value)
  {
    var parsed := Parse(Text(s));
    ParseSections(s);
    ReservedKeys();
    assert FullSummaryKey !in Keys(parsed);
    assert forall i :: 0 <= i < |parsed| ==> parsed[i].key != ErrorKey;
    SectionBlocksSpec(parsed);
    assert |parsed| > 0 by {
      assert Summarises(parsed, TextBlocks(s));
      assert TextBlocks(s)[0].name in Names(TextBlocks(s));
    }
  }

  /**
   * Every document built from a text holds a paragraph, so the "empty
   * document" fallback that follows the layout never has anything to do.
   */
  lemma DocumentHasParagraph(s: string)
    ensures exists k :: 0 <= k < |DocxLayout(Parse(Text(s)))| && DocxLayout(Parse(Text(s)))[k].Paragraph?
  {
    if TextBlocks(s) == [] {
      assert Parse(Text(s)) == [Entry(FullSummaryKey, s)];
      assert DocxLayout(Parse(Text(s)))[0].Paragraph?;
    } else {
      SectionedDocument(s);
      assert DocxLayout(Parse(Text(s)))[1].Paragraph?;
    }
  }

  // ---------------------------------------------------------------------------
  // Saving both documents
  // ---------------------------------------------------------------------------

  datatype SavedFile = SavedFile(fullPath: string, filename: string)

  /** `saved_file_details`: an entry per format, `None` when that write failed. */
  datatype SavedFiles = SavedFiles(md: Option<SavedFile>, docx: Option<SavedFile>)

  /** `save_summary_to_files`, given the clock and whether each of the two writes succeeds. */
  function SaveSummary(prefix: string, t: DateTime, mdWritten: bool, docxWritten: bool): SavedFiles
    requires ValidTime(t)
  {
    var mdName := MarkdownName(prefix, t);
    var docxName := DocxName(prefix, t);
    SavedFiles(
      if mdWritten then Some(SavedFile(PathJoin(DocsFolder, mdName), mdName)) else None,
      if docxWritten then Some(SavedFile(PathJoin(DocsFolder, docxName), docxName)) else None)
  }

  /**
   * Each format is reported exactly when its own write succeeded, under
   * "docs/", with the names that share one base.
   */
  lemma SaveSummaryReports(prefix: string, t: DateTime, mdWritten: bool, docxWritten: bool)
    requires ValidTime(t) && (prefix == [] || prefix[0] != '/')
    ensures var r := SaveSummary(prefix, t, mdWritten, docxWritten);
      && (r.md.Some? <==> mdWritten) && (r.docx.Some? <==> docxWritten)
      && (r.md.Some? ==> r.md.value.fullPath == DocsFolder + "/" + r.md.value.filename
                         && SplitExt(r.md.value.filename) == (DocumentBase(prefix, t), MarkdownExt))
      && (r.docx.Some? ==> r.docx.value.fullPath == DocsFolder + "/" + r.docx.value.filename
                           && SplitExt(r.docx.value.filename) == (DocumentBase(prefix, t), DocxExt))
  {
    DocumentNamesShareBase(prefix, t);
    NameIsRelative(prefix, "_", Timestamp(t), MarkdownExt);
    NameIsRelative(prefix, "_", Timestamp(t), DocxExt);
    PathJoinRelative(DocsFolder, MarkdownName(prefix, t));
    PathJoinRelative(DocsFolder, DocxName(prefix, t));
  }
}
