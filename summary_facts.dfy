/**
 * What `parse_structured_summary` (app.py) promises, stated over `Parse`:
 * which lines open sections, when the whole text comes back under
 * "Full Summary", and which keys, in which order and with which values,
 * a structured result holds.
 */
module SummaryFacts {
  import opened PyStr
  import opened OrderedDicts
  import opened SummaryParser

  /** The positions of the label lines among the scanned lines, in increasing order. */
  function OpenIndices(ts: seq<ScannedLine>): (ix: seq<nat>)
    ensures forall k :: 0 <= k < |ix| ==> ix[k] < |ts| && ts[ix[k]].Opens?
    ensures forall k, l :: 0 <= k < l < |ix| ==> ix[k] < ix[l]
  {
    if ts == [] then []
    else
      var rest := OpenIndices(ts[1..]);
      var shifted := seq(|rest|, k requires 0 <= k < |rest| => rest[k] + 1);
      if ts[0].Opens? then [0] + shifted else shifted
  }

  /** Every label line is listed by `OpenIndices`. */
  lemma {:induction false} OpenIndicesComplete(ts: seq<ScannedLine>, i: nat)
    requires i < |ts| && ts[i].Opens?
    ensures i in OpenIndices(ts)
    decreases |ts|
  {
    var rest := OpenIndices(ts[1..]);
    var shifted := seq(|rest|, k requires 0 <= k < |rest| => rest[k] + 1);
    if i > 0 {
      OpenIndicesComplete(ts[1..], i - 1);
      var k :| 0 <= k < |rest| && rest[k] == i - 1;
      assert shifted[k] == i;
      if ts[0].Opens? {
        assert OpenIndices(ts)[k + 1] == i;
      } else {
        assert OpenIndices(ts)[k] == i;
      }
    } else {
      assert OpenIndices(ts)[0] == 0;
    }
  }

  /** The block opened by the label line at position `i`: its remainder and the plain lines after it. */
  function BlockAt(ts: seq<ScannedLine>, i: nat): Block
    requires i < |ts| && ts[i].Opens?
  {
    Block(ts[i].section, [ts[i].first] + Body(ts[i + 1..]))
  }

  /** The blocks are exactly the blocks opened by the label lines, in line order. */
  lemma {:induction false} BlocksAt(ts: seq<ScannedLine>)
    ensures |Blocks(ts)| == |OpenIndices(ts)|
    ensures forall k :: 0 <= k < |Blocks(ts)| ==> Blocks(ts)[k] == BlockAt(ts, OpenIndices(ts)[k])
    decreases |ts|
  {
    if ts != [] {
      var tail := ts[1..];
      BlocksAt(tail);
      var rest := OpenIndices(tail);
      var shifted := seq(|rest|, k requires 0 <= k < |rest| => rest[k] + 1);
      forall j | 0 <= j < |rest|
        ensures Blocks(tail)[j] == BlockAt(ts, shifted[j])
      {
        assert tail[rest[j] + 1..] == ts[rest[j] + 2..];
      }
      if ts[0].Opens? {
        BlocksAtOpens(ts, Blocks(tail), shifted);
      } else {
        assert Blocks(ts) == Blocks(tail);
        assert OpenIndices(ts) == shifted;
      }
    }
  }

  lemma BlocksAtOpens(ts: seq<ScannedLine>, tailBlocks: seq<Block>, shifted: seq<nat>)
    requires ts != [] && ts[0].Opens?
    requires tailBlocks == Blocks(ts[1..]) && OpenIndices(ts) == [0] + shifted
    requires |tailBlocks| == |shifted|
    requires forall j :: 0 <= j < |shifted| ==> shifted[j] < |ts| && ts[shifted[j]].Opens? && tailBlocks[j] == BlockAt(ts, shifted[j])
    ensures |Blocks(ts)| == |OpenIndices(ts)|
    ensures forall k :: 0 <= k < |Blocks(ts)| ==> Blocks(ts)[k] == BlockAt(ts, OpenIndices(ts)[k])
  {
    assert Blocks(ts) == [BlockAt(ts, 0)] + tailBlocks;
  }

  /** There are no blocks exactly when no line is a label line. */
  lemma NoBlocksIff(ts: seq<ScannedLine>)
    ensures Blocks(ts) == [] <==> forall i :: 0 <= i < |ts| ==> ts[i].Plain?
  {
    BlocksAt(ts);
    if exists i :: 0 <= i < |ts| && ts[i].Opens? {
      var i :| 0 <= i < |ts| && ts[i].Opens?;
      OpenIndicesComplete(ts, i);
    }
  }

  /** Lines before the first label line belong to no block. */
  lemma {:induction false} LeadingPlainDropped(ts: seq<ScannedLine>, i: nat)
    requires i <= |ts|
    requires forall j :: 0 <= j < i ==> ts[j].Plain?
    ensures Blocks(ts) == Blocks(ts[i..])
    decreases i
  {
    if i > 0 {
      LeadingPlainDropped(ts[1..], i - 1);
      assert ts[1..][i - 1..] == ts[i..];
    }
  }

  /** Every block of a text is named after one of the four labels. */
  lemma BlockNamesAreLabels(s: string)
    ensures forall k :: 0 <= k < |TextBlocks(s)| ==> TextBlocks(s)[k].name in SectionLabels
  {
    BlocksAt(ScanAll(Lines(s)));
  }

  /** A text with a label line parses to a dict of labels that summarises its blocks. */
  lemma ParseSections(s: string)
    requires TextBlocks(s) != []
    ensures var r := Parse(Text(s));
      && Summarises(r, TextBlocks(s))
      && forall a :: 0 <= a < |r| ==> r[a].key in SectionLabels
  {
    var bs := TextBlocks(s);
    var r := Parse(Text(s));
    AssembleSpec(bs);
    BlockNamesAreLabels(s);
    forall a | 0 <= a < |r| ensures r[a].key in SectionLabels {
      assert r[a].key in Keys(r);
      var k :| 0 <= k < |bs| && Names(bs)[k] == r[a].key;
    }
  }

  /**
   * The whole text comes back under "Full Summary", untrimmed, exactly when
   * no stripped line starts with a label and its colon.
   */
  lemma ParseFallback(s: string)
    ensures Parse(Text(s)) == [Entry(FullSummaryKey, s)]
        <==> forall i :: 0 <= i < |Lines(s)| ==> !IsLabelLine(Strip(Lines(s)[i]))
  {
    NoLabelLines(s);
    if TextBlocks(s) != [] {
      NotFallback(s);
    }
  }

  /** A text has no blocks exactly when none of its stripped lines is a label line. */
  lemma NoLabelLines(s: string)
    ensures TextBlocks(s) == [] <==> forall i :: 0 <= i < |Lines(s)| ==> !IsLabelLine(Strip(Lines(s)[i]))
  {
    NoBlocksIff(ScanAll(Lines(s)));
  }

  /** A text with blocks never parses to the "Full Summary" entry. */
  lemma NotFallback(s: string)
    requires TextBlocks(s) != []
    ensures Parse(Text(s)) != [Entry(FullSummaryKey, s)]
  {
    ParseSections(s);
    ReservedKeys();
    var r := Parse(Text(s));
    assert |r| == 1 ==> r[0].key in SectionLabels;
  }
}
