/**
 * The parts of Python's `str` type that the summariser relies on:
 * whitespace, `strip`, `split`, `join`, `find`, `in`, `startswith`, `lower`.
 * Strings are sequences of code points, as in Python 3.
 */
module PyStr {
  import opened Wrappers

  /** `str.isspace` of one code point: exactly the characters `str.strip()` removes. */
  predicate IsSpace(c: char) {
    c == ' ' || ('\t' <= c <= '\r') || ('\U{1C}' <= c <= '\U{1F}') || c == '\U{85}' || c == '\U{A0}'
    || c == '\U{1680}' || ('\U{2000}' <= c <= '\U{200A}') || c == '\U{2028}' || c == '\U{2029}'
    || c == '\U{202F}' || c == '\U{205F}' || c == '\U{3000}'
  }

  /** True when the string holds nothing but whitespace (or nothing at all). */
  predicate AllSpace(s: string) {
    forall i :: 0 <= i < |s| ==> IsSpace(s[i])
  }

  /** `s.lstrip()`: the suffix left after dropping leading whitespace. */
  function LStrip(s: string): string {
    if |s| > 0 && IsSpace(s[0]) then LStrip(s[1..]) else s
  }

  /** `s.rstrip()`: the prefix left after dropping trailing whitespace. */
  function RStrip(s: string): string {
    if |s| > 0 && IsSpace(s[|s| - 1]) then RStrip(s[..|s| - 1]) else s
  }

  /** `s.strip()`: whitespace removed at both ends. */
  function Strip(s: string): string {
    RStrip(LStrip(s))
  }

  /** `lstrip` removes exactly the leading whitespace. */
  lemma {:induction false} LStripSpec(s: string)
    ensures |LStrip(s)| <= |s| && LStrip(s) == s[|s| - |LStrip(s)|..]
    ensures AllSpace(s[..|s| - |LStrip(s)|])
    ensures LStrip(s) == [] || !IsSpace(LStrip(s)[0])
    decreases |s|
  {
    if |s| > 0 && IsSpace(s[0]) {
      LStripSpec(s[1..]);
      var r := LStrip(s);
      assert s[..|s| - |r|] == [s[0]] + s[1..][..|s| - 1 - |r|];
    }
  }

  /** `rstrip` removes exactly the trailing whitespace. */
  lemma {:induction false} RStripSpec(s: string)
    ensures |RStrip(s)| <= |s| && RStrip(s) == s[..|RStrip(s)|]
    ensures AllSpace(s[|RStrip(s)|..])
    ensures RStrip(s) == [] || !IsSpace(RStrip(s)[|RStrip(s)| - 1])
    decreases |s|
  {
    if |s| > 0 && IsSpace(s[|s| - 1]) {
      RStripSpec(s[..|s| - 1]);
      var r := RStrip(s);
      assert s[|r|..] == s[..|s| - 1][|r|..] + [s[|s| - 1]];
    }
  }

  /**
   * `strip` keeps a middle slice of `s`, drops only whitespace around it, and
   * leaves no whitespace at either end; it is empty exactly for blank strings.
   */
  lemma StripSpec(s: string)
    ensures var r := Strip(s);
      && 0 <= StripStart(s) && StripStart(s) + |r| <= |s|
      && r == s[StripStart(s)..StripStart(s) + |r|]
      && AllSpace(s[..StripStart(s)]) && AllSpace(s[StripStart(s) + |r|..])
      && (r == [] || (!IsSpace(r[0]) && !IsSpace(r[|r| - 1])))
      && (r == [] <==> AllSpace(s))
  {
    var l := LStrip(s);
    var k := |s| - |l|;
    var r := RStrip(l);
    LStripSpec(s);
    RStripSpec(l);
    assert StripStart(s) == k;
    assert s[k..k + |r|] == l[..|r|];
    assert s[k + |r|..] == l[|r|..];
    if r == [] {
      forall i | 0 <= i < |s| ensures IsSpace(s[i]) {
        if i < k { assert s[i] == s[..k][i]; }
      }
    }
  }

  /** Where the strip of `s` begins inside `s`. */
  function StripStart(s: string): int {
    |s| - |LStrip(s)|
  }

  /** `s.startswith(p)`. */
  predicate StartsWith(s: string, p: string) {
    |p| <= |s| && s[..|p|] == p
  }

  /** `sep.join(parts)`. */
  function Join(sep: string, parts: seq<string>): string {
    if |parts| == 0 then ""
    else if |parts| == 1 then parts[0]
    else parts[0] + sep + Join(sep, parts[1..])
  }

  /** `s.split(sep)` for a one-character separator: the pieces between separators, never none. */
  function Split(s: string, sep: char): (r: seq<string>)
    ensures |r| >= 1
  {
    if |s| == 0 then [""]
    else
      var rest := Split(s[1..], sep);
      if s[0] == sep then [""] + rest
      else [[s[0]] + rest[0]] + rest[1..]
  }

  /** `s.find(c)` for one character, as an option: the first position holding `c`. */
  function FindChar(s: string, c: char): (r: Option<nat>)
    ensures r.None? <==> c !in s
    ensures r.Some? ==> r.value < |s| && s[r.value] == c && c !in s[..r.value]
  {
    if |s| == 0 then None
    else if s[0] == c then Some(0)
    else match FindChar(s[1..], c)
      case None => None
      case Some(i) =>
        assert s[..i + 1] == [s[0]] + s[1..][..i];
        Some(i + 1)
  }

  /** `s.rfind(c)` for one character, as an option: the last position holding `c`. */
  function RFindChar(s: string, c: char): (r: Option<nat>)
    ensures r.None? <==> c !in s
    ensures r.Some? ==> r.value < |s| && s[r.value] == c && c !in s[r.value + 1..]
  {
    if |s| == 0 then None
    else if s[|s| - 1] == c then Some(|s| - 1)
    else
      var r := RFindChar(s[..|s| - 1], c);
      assert r.Some? ==> s[r.value + 1..] == s[..|s| - 1][r.value + 1..] + [s[|s| - 1]];
      assert c !in s[..|s| - 1] ==> c !in s by { assert s == s[..|s| - 1] + [s[|s| - 1]]; }
      r
  }

  /** `s.split(c, 1)`: one piece when `c` does not occur, otherwise the text before and after its first occurrence. */
  function SplitOnce(s: string, c: char): (parts: seq<string>)
    ensures 1 <= |parts| <= 2
  {
    match FindChar(s, c)
    case None => [s]
    case Some(i) => [s[..i], s[i + 1..]]
  }

  /** The pieces of `s.split(c, 1)`: either `s` itself, or the text around the first `c`. */
  lemma SplitOnceSpec(s: string, c: char)
    ensures var parts := SplitOnce(s, c);
      && (|parts| == 1 <==> c !in s)
      && (|parts| == 1 ==> parts[0] == s)
      && (|parts| == 2 ==> parts[0] + [c] + parts[1] == s && c !in parts[0])
  {
    if c in s {
      var i := FindChar(s, c).value;
      assert s[..i] + [c] + s[i + 1..] == s;
    }
  }

  /** `m` occurs in `s` starting at position `i`. */
  predicate OccursAt(s: string, m: string, i: nat) {
    i + |m| <= |s| && s[i..i + |m|] == m
  }

  /** `s.find(m, k)` as an option: the first occurrence of `m` at or after position `k`. */
  function FindFrom(s: string, m: string, k: nat): (r: Option<nat>)
    requires k <= |s|
    ensures r.Some? ==> k <= r.value && OccursAt(s, m, r.value)
    ensures r.Some? ==> forall j :: k <= j < r.value ==> !OccursAt(s, m, j)
    ensures r.None? ==> forall j :: k <= j <= |s| ==> !OccursAt(s, m, j)
    decreases |s| - k
  {
    if OccursAt(s, m, k) then Some(k)
    else if k == |s| then None
    else FindFrom(s, m, k + 1)
  }

  /** `m in s`. */
  predicate Contains(s: string, m: string) {
    FindFrom(s, m, 0).Some?
  }

  /**
   * Where `s.split(m)` starts its last piece: just after the last occurrence
   * of `m` found scanning left to right, or 0 when `m` does not occur.
   */
  function LastCut(s: string, m: string): (k: nat)
    requires |m| > 0
    ensures k <= |s| && !Contains(s[k..], m)
    ensures Contains(s, m) ==> |m| <= k && OccursAt(s, m, k - |m|)
    ensures !Contains(s, m) ==> k == 0
    decreases |s|
  {
    match FindFrom(s, m, 0)
    case None =>
      assert s[0..] == s;
      assert !Contains(s, m);
      0
    case Some(i) =>
      var t := s[i + |m|..];
      var k := LastCut(t, m);
      var cut := i + |m| + k;
      assert s[cut..] == t[k..];
      assert !Contains(s[cut..], m);
      if Contains(t, m) then
        OccursShift(s, m, i + |m|, k - |m|, cut - |m|);
        cut
      else
        assert cut - |m| == i;
        cut
  }

  /** `s.split(m)[-1]` for a non-empty separator: what follows the last occurrence found scanning left to right. */
  function LastPiece(s: string, m: string): (r: string)
    requires |m| > 0
    ensures |r| <= |s| && r == s[|s| - |r|..]
    ensures !Contains(r, m)
    ensures !Contains(s, m) ==> r == s
    ensures Contains(s, m) ==> |r| + |m| <= |s| && OccursAt(s, m, |s| - |r| - |m|)
  {
    s[LastCut(s, m)..]
  }

  /** An occurrence in a suffix is an occurrence in the whole string, shifted. */
  lemma OccursShift(s: string, m: string, a: nat, p: nat, q: nat)
    requires a <= |s| && OccursAt(s[a..], m, p) && q == a + p
    ensures OccursAt(s, m, q)
  {
    assert s[q..q + |m|] == s[a..][p..p + |m|];
  }

  /** `c.lower()` on the ASCII letters; every other code point is left as it is. */
  function LowerChar(c: char): char {
    if 'A' <= c <= 'Z' then (c as int + 32) as char else c
  }

  /** `s.lower()`, code point by code point. */
  function Lower(s: string): (r: string)
    ensures |r| == |s|
    ensures forall i :: 0 <= i < |s| ==> r[i] == LowerChar(s[i])
  {
    if s == [] then [] else [LowerChar(s[0])] + Lower(s[1..])
  }

  // ---------------------------------------------------------------------------
  // Facts about the built-ins that the rest of the model uses.

  /** No piece of a split holds the separator. */
  lemma {:induction false} SplitPieces(s: string, sep: char)
    ensures forall i :: 0 <= i < |Split(s, sep)| ==> sep !in Split(s, sep)[i]
    decreases |s|
  {
    if |s| > 0 {
      SplitPieces(s[1..], sep);
    }
  }

  /** Joining the pieces of a split with the separator gives the string back. */
  lemma {:induction false} SplitJoin(s: string, sep: char)
    ensures Join([sep], Split(s, sep)) == s
    decreases |s|
  {
    if |s| > 0 {
      var rest := Split(s[1..], sep);
      SplitJoin(s[1..], sep);
      if s[0] != sep && |rest| > 1 {
        assert Split(s, sep)[1..] == rest[1..];
      }
      assert s == [s[0]] + s[1..];
    }
  }

  /** Splitting around one separator splits each side independently. */
  lemma {:induction false} SplitConcat(a: string, sep: char, b: string)
    ensures Split(a + [sep] + b, sep) == Split(a, sep) + Split(b, sep)
    decreases |a|
  {
    var s := a + [sep] + b;
    if |a| == 0 {
      assert s[1..] == b;
    } else {
      assert s[1..] == a[1..] + [sep] + b;
      SplitConcat(a[1..], sep, b);
    }
  }

  /** A string without the separator splits into itself. */
  lemma {:induction false} SplitNoSep(s: string, sep: char)
    requires sep !in s
    ensures Split(s, sep) == [s]
    decreases |s|
  {
    if |s| > 0 {
      assert sep !in s[1..] by { assert forall i :: 0 <= i < |s| - 1 ==> s[1..][i] == s[i + 1]; }
      SplitNoSep(s[1..], sep);
      assert s == [s[0]] + s[1..];
    }
  }

  /** A string with no whitespace at either end is its own strip. */
  lemma StripTrimmed(s: string)
    requires s == [] || (!IsSpace(s[0]) && !IsSpace(s[|s| - 1]))
    ensures Strip(s) == s
  {
  }

  /** Stripping twice changes nothing more. */
  lemma StripIdempotent(s: string)
    ensures Strip(Strip(s)) == Strip(s)
  {
    StripSpec(s);
    StripTrimmed(Strip(s));
  }

  /** Trailing whitespace does not change what is left after a right strip. */
  lemma {:induction false} RStripAppendSpace(s: string, t: string)
    requires AllSpace(t)
    ensures RStrip(s + t) == RStrip(s)
    decreases |t|
  {
    if |t| > 0 {
      assert (s + t)[..|s + t| - 1] == s + t[..|t| - 1];
      RStripAppendSpace(s, t[..|t| - 1]);
    } else {
      assert s + t == s;
    }
  }

  /** A right strip only reaches into the last part of a concatenation when that part is all whitespace. */
  lemma {:induction false} RStripConcat(a: string, b: string)
    requires !AllSpace(b)
    ensures RStrip(a + b) == a + RStrip(b)
    decreases |b|
  {
    assert |b| > 0;
    assert (a + b)[|a + b| - 1] == b[|b| - 1];
    if IsSpace(b[|b| - 1]) {
      assert (a + b)[..|a + b| - 1] == a + b[..|b| - 1];
      assert !AllSpace(b[..|b| - 1]) by {
        var i :| 0 <= i < |b| && !IsSpace(b[i]);
        assert b[..|b| - 1][i] == b[i];
      }
      RStripConcat(a, b[..|b| - 1]);
    }
  }

  /** A slice of a string in which `m` does not occur does not contain `m` either. */
  lemma NoOccurrenceInSlice(s: string, m: string, a: nat, b: nat)
    requires a <= b <= |s|
    requires !Contains(s, m)
    ensures !Contains(s[a..b], m)
  {
    var t := s[a..b];
    if Contains(t, m) {
      var j := FindFrom(t, m, 0).value;
      assert t[j..j + |m|] == s[a + j..a + j + |m|];
      assert OccursAt(s, m, a + j);
    }
  }

  /** Stripping makes no new occurrence. */
  lemma StripNoOccurrence(s: string, m: string)
    requires !Contains(s, m)
    ensures !Contains(Strip(s), m)
  {
    StripSpec(s);
    NoOccurrenceInSlice(s, m, StripStart(s), StripStart(s) + |Strip(s)|);
  }

  /** The strip of a suffix of `s` is a stripped piece of `s`. */
  lemma StripSuffixPiece(s: string, k: nat) returns (start: nat)
    requires k <= |s|
    ensures var r := Strip(s[k..]);
      start + |r| <= |s| && s[start..start + |r|] == r && Strip(r) == r
  {
    var t := s[k..];
    StripSpec(t);
    StripIdempotent(t);
    start := k + StripStart(t);
    assert s[start..start + |Strip(t)|] == t[StripStart(t)..StripStart(t) + |Strip(t)|];
  }

  /** The strip of a suffix of `s` holds no `m` that `s` lacks. */
  lemma StripSuffixNoOccurrence(s: string, k: nat, m: string)
    requires k <= |s| && !Contains(s, m)
    ensures !Contains(Strip(s[k..]), m)
  {
    NoOccurrenceInSlice(s, m, k, |s|);
    assert s[k..|s|] == s[k..];
    StripNoOccurrence(s[k..], m);
  }

  /** Joining one more part appends the separator and the part. */
  lemma {:induction false} JoinSnoc(sep: string, parts: seq<string>, x: string)
    requires |parts| >= 1
    ensures Join(sep, parts + [x]) == Join(sep, parts) + sep + x
    decreases |parts|
  {
    if |parts| > 1 {
      JoinSnoc(sep, parts[1..], x);
      assert (parts + [x])[1..] == parts[1..] + [x];
    }
  }

  /** Splitting what was joined gives back the parts, when none holds the separator. */
  lemma {:induction false} JoinSplit(parts: seq<string>, sep: char)
    requires |parts| >= 1
    requires forall i :: 0 <= i < |parts| ==> sep !in parts[i]
    ensures Split(Join([sep], parts), sep) == parts
    decreases |parts|
  {
    if |parts| == 1 {
      SplitNoSep(parts[0], sep);
    } else {
      JoinSplit(parts[1..], sep);
      SplitConcat(parts[0], sep, Join([sep], parts[1..]));
      SplitNoSep(parts[0], sep);
    }
  }

  /** A join holds a character only if the separator or a part does. */
  lemma {:induction false} JoinNoChar(sep: string, parts: seq<string>, c: char)
    requires c !in sep
    requires forall i :: 0 <= i < |parts| ==> c !in parts[i]
    ensures c !in Join(sep, parts)
    decreases |parts|
  {
    if |parts| > 1 {
      JoinNoChar(sep, parts[1..], c);
    }
  }

  /** A slice of a string without `c` is without `c`. */
  lemma NoCharInSlice(s: string, c: char, a: nat, b: nat)
    requires a <= b <= |s| && c !in s
    ensures c !in s[a..b]
  {
  }

  /** Stripping makes no new character. */
  lemma StripNoChar(s: string, c: char)
    requires c !in s
    ensures c !in Strip(s)
  {
    StripSpec(s);
    NoCharInSlice(s, c, StripStart(s), StripStart(s) + |Strip(s)|);
  }
}
