/** Blocks between a start and an end marker, attached to a text and stripped from it again. */
module Blocks {
  import opened Text

  const GAP := [NL, NL]

  datatype Markers = Markers(start: string, end: string)

  /** Two markers that open with a bracket, and neither overlap nor hide in each other. */
  ghost predicate GoodMarkers(k: Markers) {
    && 21 < |k.end| <= |k.start|
    && k.start[0] == k.end[0] == '<' && k.end[|k.end| - 1] == '>' && k.start[21] != k.end[21]
    && '<' !in k.start[1..] && '<' !in k.end[1..]
    && NL !in k.start && NL !in k.end
  }

  /** The content without its first block, if the first start marker comes before the first end marker. */
  function Strip(content: string, k: Markers): string {
    var s, e := Index(content, k.start), Index(content, k.end);
    if s >= 0 && e > s then
      IndexMeans(content, k.end);
      TrimSpace(content[..s] + content[e + |k.end|..])
    else content
  }

  predicate MarkerFree(s: string, k: Markers) {
    !Contains(s, k.start) && !Contains(s, k.end)
  }

  predicate OneBlock(s: string, k: Markers) {
    Occurrences(s, k.start) == 1 && Occurrences(s, k.end) == 1
  }

  /** The markers on lines of their own, with notes between them. */
  predicate Framed(b: string, notes: string, k: Markers) {
    b == k.start + [NL] + (notes + [NL] + k.end)
  }

  /** `b` is a block: framed notes that do not hold the end marker, so that it ends where its frame does. */
  ghost predicate IsBlock(b: string, k: Markers) {
    exists notes :: BlockOf(b, notes, k)
  }

  ghost predicate BlockOf(b: string, notes: string, k: Markers) {
    !Contains(notes, k.end) && Framed(b, notes, k)
  }

  // ---- Where the markers are ----

  lemma MarkersFound(k: Markers)
    requires GoodMarkers(k)
    ensures Index(k.start, k.start) == 0 && Index(k.end, k.end) == 0 && !Contains(k.start, k.end)
    ensures Occurrences(k.start, k.start) == 1 && Occurrences(k.end, k.end) == 1
    ensures Occurrences(k.start, k.end) == 0 && Occurrences(k.end, k.start) == 0
  {
    NoFirstCharNoMatch(k.start[1..], k.start);
    NoFirstCharNoMatch(k.start[1..], k.end);
    NoFirstCharNoMatch(k.end[1..], k.end);
    NoFirstCharNoMatch(k.end[1..], k.start);
    assert k.start <= k.start && k.end <= k.end;
    assert !(k.end <= k.start) && !(k.start <= k.end);
  }

  lemma IndexInThree(a: string, b: string, c: string, pat: string)
    requires pat != "" && NL !in pat
    ensures Contains(a, pat) ==> Index(a + [NL] + (b + [NL] + c), pat) == Index(a, pat)
    ensures !Contains(a, pat) && !Contains(b, pat) && Contains(c, pat) ==>
      Index(a + [NL] + (b + [NL] + c), pat) == |a| + 1 + |b| + 1 + Index(c, pat)
    ensures Occurrences(a + [NL] + (b + [NL] + c), pat) == Occurrences(a, pat) + Occurrences(b, pat) + Occurrences(c, pat)
  {
    hide Index, Occurrences;
    var rest := b + [NL] + c;
    IndexAcrossLine(b, c, pat);
    IndexAcrossLine(a, rest, pat);
    OccurrencesAcrossLine(b, c, pat);
    OccurrencesAcrossLine(a, rest, pat);
  }

  lemma FrameIndex(b: string, notes: string, k: Markers)
    requires GoodMarkers(k) && Framed(b, notes, k)
    ensures Index(b, k.start) == 0 && (!Contains(notes, k.end) ==> Index(b, k.end) == |b| - |k.end|)
    ensures Occurrences(b, k.start) == 1 + Occurrences(notes, k.start)
    ensures Occurrences(b, k.end) == Occurrences(notes, k.end) + 1
  {
    hide Index, Occurrences;
    MarkersFound(k);
    IndexInThree(k.start, notes, k.end, k.start);
    IndexInThree(k.start, notes, k.end, k.end);
  }

  lemma FrameEnds(b: string, notes: string, k: Markers)
    requires GoodMarkers(k) && Framed(b, notes, k)
    ensures |b| > |k.start| + |k.end| && b[0] == '<' && b[|b| - 1] == '>' && Trimmed(b)
  {
    assert b[|b| - 1] == k.end[|k.end| - 1];
  }

  /** A frame holds one marker of each kind exactly when its notes hold none. */
  lemma FrameIsOneBlockIff(b: string, notes: string, k: Markers)
    requires GoodMarkers(k) && Framed(b, notes, k)
    ensures OneBlock(b, k) <==> MarkerFree(notes, k)
  {
    FrameIndex(b, notes, k);
    AbsentIffNone(notes, k.start);
    AbsentIffNone(notes, k.end);
    hide Index, Occurrences;
  }

  lemma BlockMarkers(b: string, k: Markers)
    requires GoodMarkers(k) && IsBlock(b, k)
    ensures |b| > |k.start| + |k.end| && b[0] == '<' && b[|b| - 1] == '>' && Trimmed(b)
    ensures Index(b, k.start) == 0 && Index(b, k.end) == |b| - |k.end|
  {
    var notes :| BlockOf(b, notes, k);
    FrameIndex(b, notes, k);
    FrameEnds(b, notes, k);
    hide Index, Occurrences;
  }

  lemma AfterBreak(b: string, pat: string)
    requires pat != "" && NL !in pat
    ensures Index([NL] + b, pat) == if Contains(b, pat) then 1 + Index(b, pat) else -1
    ensures Occurrences([NL] + b, pat) == Occurrences(b, pat)
  {
    var s := [NL] + b;
    assert s[1..] == b;
    PrefixAcrossLine("", b, pat);
    assert "" + [NL] + b == s;
  }

  lemma IndexAcrossGap(text: string, b: string, pat: string)
    requires pat != "" && NL !in pat
    ensures Contains(text, pat) ==> Index(text + GAP + b, pat) == Index(text, pat)
    ensures !Contains(text, pat) && Contains(b, pat) ==> Index(text + GAP + b, pat) == |text| + 2 + Index(b, pat)
  {
    hide Index;
    assert text + GAP + b == text + [NL] + ([NL] + b);
    AfterBreak(b, pat);
    IndexAcrossLine(text, [NL] + b, pat);
  }

  lemma OccurrencesAcrossGap(text: string, b: string, pat: string)
    requires pat != "" && NL !in pat
    ensures Occurrences(text + GAP + b, pat) == Occurrences(text, pat) + Occurrences(b, pat)
  {
    hide Occurrences;
    assert text + GAP + b == text + [NL] + ([NL] + b);
    AfterBreak(b, pat);
    OccurrencesAcrossLine(text, [NL] + b, pat);
  }

  lemma MarkersPlain(k: Markers)
    requires GoodMarkers(k)
    ensures k.start != "" && k.end != "" && NL !in k.start && NL !in k.end && Trimmed(k.end)
  {
  }

  /** Markers in a text with a block behind it: the text's own come first. */
  lemma AppendedMarkers(text: string, b: string, k: Markers)
    requires GoodMarkers(k) && IsBlock(b, k)
    ensures Index(text + GAP + b, k.start) == if Contains(text, k.start) then Index(text, k.start) else |text| + 2
    ensures Index(text + GAP + b, k.end) == if Contains(text, k.end) then Index(text, k.end) else |text| + 2 + |b| - |k.end|
  {
    BlockMarkers(b, k);
    MarkersPlain(k);
    hide Index, Occurrences, GoodMarkers, IsBlock, Trimmed;
    IndexAcrossGap(text, b, k.start);
    IndexAcrossGap(text, b, k.end);
  }

  // ---- Attaching and stripping ----

  /** The text and the block as a later stripping reads them. */
  function Attached(text: string, b: string): string {
    if text == "" then b else text + GAP + b
  }

  lemma TrimConverted(text: string, b: string)
    requires Trimmed(text) && b != "" && Trimmed(b)
    ensures TrimSpace(text + GAP + b + [NL]) == Attached(text, b) && Trimmed(Attached(text, b)) && Attached(text, b) != ""
  {
    if text == "" {
      TrimAround(GAP, b, [NL]);
      assert text + GAP + b + [NL] == GAP + b + [NL];
    } else {
      TrimAround("", text + GAP + b, [NL]);
      assert "" + (text + GAP + b) + [NL] == text + GAP + b + [NL];
    }
  }

  lemma StripCuts(s: string, k: Markers, front: string, m: string, rest: string)
    requires s == front + m + rest
    requires Index(s, k.start) == |front| && |front| + |k.end| < |front| + |m| && Index(s, k.end) == |front| + |m| - |k.end|
    ensures Strip(s, k) == TrimSpace(front + rest)
  {
    assert s[..|front|] == front && s[|front| + |m|..] == rest;
    hide Index, TrimSpace;
  }

  lemma StripBlockAlone(b: string, k: Markers)
    requires GoodMarkers(k) && IsBlock(b, k)
    ensures Strip(b, k) == ""
  {
    hide *;
    BlockMarkers(b, k);
    assert b == "" + b + "" && "" + "" == "";
    TrimNothing();
    MarkersPlain(k);
    StripCuts(b, k, "", b, "");
  }

  lemma TrimNothing()
    ensures TrimSpace("") == ""
  {
  }

  lemma StripBehindText(text: string, b: string, k: Markers)
    requires GoodMarkers(k) && text != "" && Trimmed(text) && MarkerFree(text, k) && IsBlock(b, k)
    ensures Strip(text + GAP + b, k) == text
  {
    hide *;
    BlockMarkers(b, k);
    MarkersAbsent(text, k);
    AppendedMarkers(text, b, k);
    TrimBeforeGap(text);
    SplitGap(text, b);
    StripCuts(text + GAP + b, k, text + GAP, b, "");
  }

  lemma MarkersAbsent(text: string, k: Markers)
    requires MarkerFree(text, k)
    ensures !Contains(text, k.start) && !Contains(text, k.end) && |GAP| == 2
  {
  }

  lemma TrimBeforeGap(text: string)
    requires text != "" && Trimmed(text)
    ensures TrimSpace("" + text + GAP) == text
  {
    TrimAround("", text, GAP);
  }

  lemma AttachedIs(text: string, b: string)
    ensures Attached(text, b) == if text == "" then b else text + GAP + b
  {
  }

  /** Stripping takes the block out of a text without markers, and leaves the text. */
  lemma StripUndoesAttach(text: string, b: string, k: Markers)
    requires GoodMarkers(k) && Trimmed(text) && MarkerFree(text, k) && IsBlock(b, k)
    ensures Strip(Attached(text, b), k) == text
  {
    hide *;
    AttachedIs(text, b);
    if text == "" { StripBlockAlone(b, k); } else { StripBehindText(text, b, k); }
  }

  lemma SplitGap(text: string, b: string)
    ensures text + GAP + b == (text + GAP) + b + "" && (text + GAP) + "" == "" + text + GAP
  {
  }

  lemma AttachedCounts(text: string, b: string, pat: string)
    requires pat != "" && NL !in pat
    ensures Occurrences(Attached(text, b), pat) == Occurrences(text, pat) + Occurrences(b, pat)
  {
    OccurrencesAcrossGap(text, b, pat);
  }

  // ---- Stacks of blocks ----

  /** Nothing but copies of the block, one gap apart. */
  predicate Stacked(s: string, b: string)
    decreases |s|
  {
    s == b || (b + GAP <= s && Stacked(s[|b| + 2..], b))
  }

  lemma {:induction false} StackedCommutes(s: string, b: string)
    requires Stacked(s, b)
    ensures s + GAP + b == b + GAP + s
    decreases |s|
  {
    if s != b {
      var rest := s[|b| + 2..];
      StackedCommutes(rest, b);
      assert s == b + GAP + rest;
    }
  }

  /** The end marker closes `s`, and occurs nowhere else in it. */
  ghost predicate Closed(s: string, end: string) {
    |end| <= |s| && At(s, end, |s| - |end|) && forall j: nat :: At(s, end, j) ==> j == |s| - |end|
  }

  ghost predicate Closing(end: string) {
    end != "" && NL !in end && end[|end| - 1] == '>'
  }

  lemma NoOverlap(end: string, m: string, n: string, r: string, v: string, w: string)
    requires Closing(end) && Closed(m, end) && Closed(n, end) && n != "" && n[0] == NL && r != "" && v != ""
    ensures !(m == r + v && n == v + w + r)
  {
    hide Closed, Closing;
    if m == r + v && n == v + w + r {
      if |v| >= |end| { LongOverlap(end, m, n, r, v, w); } else { ShortOverlap(end, m, r, v, w); }
    }
  }

  lemma LongOverlap(end: string, m: string, n: string, r: string, v: string, w: string)
    requires Closed(m, end) && r != "" && |v| >= |end| && m == r + v && n == v + w + r
    ensures !Closed(n, end)
  {
    var j := |v| - |end|;
    assert n[j..j + |end|] == v[j..] == m[|m| - |end|..|m|];
    assert At(n, end, j);
  }

  lemma ShortOverlap(end: string, m: string, r: string, v: string, w: string)
    requires Closing(end) && Closed(m, end) && 0 < |v| < |end| && m == r + v
    ensures (v + w + r)[0] != NL
  {
    var i := |end| - |v|;
    assert m[|m| - |end|..|m|] == end;
    assert end[i] == m[|m| - |v|] == v[0];
    assert end[i] in end;
  }

  lemma NotGap(m: string, w: string, b: string)
    requires m != "" && m[0] == '<'
    ensures m + w != GAP + b
  {
    if m + w == GAP + b { FirstChar(m, w, b); }
  }

  lemma FirstChar(m: string, w: string, b: string)
    requires m != ""
    ensures (m + w)[0] == m[0] && (GAP + b)[0] == NL
  {
  }

  lemma GapIsUnique(m: string, w: string, b: string)
    requires m != "" && b != "" && m[0] == b[0] == '<' && AllSpace(w) && w + m == GAP + b
    ensures w == GAP && m == b
  {
    TrimLeftSkips(w, m);
    TrimLeftSkips(GAP, b);
    assert |w| == 2;
    assert w == (w + m)[..2] == (GAP + b)[..2] == GAP;
  }

  /** One period off both sides of m·w·r = r·n. */
  lemma Shorten(x: string, n: string, r: string)
    requires x + r == r + n && |x| == |n| && |r| >= |x|
    ensures r == x + r[|x|..] && x + r[|x|..] == r[|x|..] + n && (r[|x|..] == "" ==> x == n)
  {
    assert r[..|x|] == (r + n)[..|x|] == (x + r)[..|x|] == x;
    assert (x + r)[|x|..] == r;
    assert (r + n)[|x|..] == r[|x|..] + n;
  }

  lemma Rotate(x: string, n: string, r: string)
    requires x + r == r + n && |x| == |n| && |r| < |x|
    ensures x == r + x[|r|..] && n == x[|r|..] + r
  {
    assert (x + r)[..|r|] == x[..|r|] && (r + n)[..|r|] == r;
    assert (x + r)[|r|..] == x[|r|..] + r && (r + n)[|r|..] == n;
  }

  /** Solutions of m·w·r = r·n, where n is a gap and the block `b`: r is a stack of blocks. */
  lemma {:induction false} OnlyStacks(end: string, m: string, w: string, r: string, b: string)
    requires Closing(end) && Closed(m, end) && m[0] == '<' && AllSpace(w) && r != ""
    requires b != "" && b[0] == '<' && Closed(GAP + b, end)
    requires (m + w) + r == r + (GAP + b)
    ensures w == GAP && m == b && Stacked(r, b)
    decreases |r|
  {
    var n, x := GAP + b, m + w;
    assert |x| == |n| by { assert |x + r| == |r + n|; }
    hide Closed, Closing;
    if |r| >= |x| {
      Shorten(x, n, r);
      var rest := r[|x|..];
      NotGap(m, w, b);
      if rest != "" {
        OnlyStacks(end, m, w, rest, b);
        assert b + GAP <= r && r[|b| + 2..] == rest;
      }
    } else {
      Rotate(x, n, r);
      if |r| >= |m| { RestIsBlock(end, m, w, r, b); } else { NoPartialMatch(end, m, w, r, n); }
    }
  }

  lemma RestIsBlock(end: string, m: string, w: string, r: string, b: string)
    requires Closing(end) && AllSpace(w) && m != "" && b != "" && m[0] == b[0] == '<' && Closed(GAP + b, end)
    requires |m| <= |r| < |m + w| && m + w == r + (m + w)[|r|..] && GAP + b == (m + w)[|r|..] + r
    ensures w == GAP && m == b && r == b && Stacked(r, b)
  {
    var d, n := |r| - |m|, GAP + b;
    assert r == m + w[..d] by { assert r == (m + w)[..|r|]; }
    assert (m + w)[|r|..] == w[d..];
    assert d > 0 ==> n[|n| - 1] == w[d - 1] && IsSpace(w[d - 1]);
    EndsWithBracket(n, end);
    assert w[..0] == "" && w[0..] == w && m + "" == m;
    GapIsUnique(m, w, b);
  }

  lemma NoPartialMatch(end: string, m: string, w: string, r: string, n: string)
    requires Closing(end) && Closed(m, end) && Closed(n, end) && n != "" && n[0] == NL && 0 < |r| < |m|
    ensures !(m + w == r + (m + w)[|r|..] && n == (m + w)[|r|..] + r)
  {
    var v := m[|r|..];
    NoOverlap(end, m, n, r, v, w);
    hide Closed, Closing;
    assert (m + w)[|r|..] == v + w;
    assert (r + (v + w))[..|r|] == r && (m + w)[..|r|] == m[..|r|] && m == m[..|r|] + v;
  }

  lemma EndsWithBracket(s: string, end: string)
    requires Closing(end) && Closed(s, end)
    ensures s != "" && !IsSpace(s[|s| - 1])
  {
    assert s[|s| - |end|..|s|] == end;
    assert s[|s| - 1] == end[|end| - 1];
  }

  lemma FirstAtEnd(s: string, end: string)
    requires |end| <= |s| && Index(s, end) == |s| - |end|
    ensures Closed(s, end)
  {
    IndexMeans(s, end);
    hide Index;
  }

  lemma NothingContained(k: Markers)
    requires GoodMarkers(k)
    ensures !Contains("", k.end) && |GAP| == 2 && Closing(k.end)
  {
  }

  lemma ClosedBlock(b: string, k: Markers)
    requires GoodMarkers(k) && IsBlock(b, k)
    ensures Closing(k.end) && Closed(b, k.end) && Closed(GAP + b, k.end)
  {
    hide *;
    BlockMarkers(b, k);
    FirstAtEnd(b, k.end);
    AppendedMarkers("", b, k);
    NothingContained(k);
    assert "" + GAP + b == GAP + b;
    FirstAtEnd(GAP + b, k.end);
  }

  // ---- Counting end markers ----

  /** A stripping takes one end marker away at most, since no two of them overlap. */
  lemma StripKeepsEnds(s: string, k: Markers)
    requires GoodMarkers(k)
    ensures Occurrences(Strip(s, k), k.end) + 1 >= Occurrences(s, k.end)
  {
    hide *;
    MarkersPlain(k);
    var cuts, a, b := WhatIsStripped(s, k);
    if cuts {
      OccurrencesBehind(a, b, k.end);
      TrimKeepsOccurrences(a + b, k.end);
    }
  }

  lemma WhatIsStripped(s: string, k: Markers) returns (cuts: bool, a: string, b: string)
    requires GoodMarkers(k)
    ensures cuts ==> Strip(s, k) == TrimSpace(a + b) && Occurrences(s, k.end) == 1 + Occurrences(b, k.end)
    ensures !cuts ==> Strip(s, k) == s
  {
    hide Index, Occurrences, TrimSpace;
    var i, e := Index(s, k.start), Index(s, k.end);
    cuts, a, b := i >= 0 && e > i, "", "";
    if cuts {
      IndexMeans(s, k.end);
      FirstOccurrence(s, k.end);
      a, b := s[..i], s[e + |k.end|..];
    }
  }

  /** Stripping a framed text whose notes hold an end marker leaves more end markers than the text had. */
  lemma LateEndStays(text: string, b: string, notes: string, k: Markers)
    requires GoodMarkers(k) && Framed(b, notes, k)
    ensures Occurrences(Strip(Attached(text, b), k), k.end) >= Occurrences(text, k.end) + Occurrences(notes, k.end)
  {
    MarkersPlain(k);
    FrameIndex(b, notes, k);
    hide Index, Occurrences, GoodMarkers, Framed, Strip;
    AttachedCounts(text, b, k.end);
    StripKeepsEnds(Attached(text, b), k);
  }

  // ---- What a second stripping makes of an attached block ----

  function Again(text: string, b: string, k: Markers): string {
    TrimSpace(Strip(Attached(text, b), k))
  }

  lemma NoMarkersAgain(text: string, b: string, k: Markers)
    requires GoodMarkers(k) && Trimmed(text) && IsBlock(b, k) && MarkerFree(text, k)
    ensures Again(text, b, k) == text
  {
    StripUndoesAttach(text, b, k);
    TrimmedIsFixed(text);
    hide Strip;
  }

  /** A stray end marker keeps the old block in place. */
  lemma StrayEndAgain(text: string, b: string, k: Markers)
    requires GoodMarkers(k) && Trimmed(text) && IsBlock(b, k) && text != "" && Contains(text, k.end)
    requires Contains(text, k.start) ==> Index(text, k.start) > Index(text, k.end)
    ensures Again(text, b, k) == text + GAP + b && Again(text, b, k) != text
  {
    AppendedMarkers(text, b, k);
    BlockMarkers(b, k);
    IndexMeans(text, k.end);
    TrimConverted(text, b);
    TrimmedIsFixed(text + GAP + b);
    hide Index, TrimSpace;
  }

  /** With an end marker in its notes, no block is taken out again. */
  lemma LateEndAgain(text: string, b: string, notes: string, k: Markers)
    requires GoodMarkers(k) && Framed(b, notes, k) && Contains(notes, k.end)
    ensures Again(text, b, k) != text
  {
    LateEndStays(text, b, notes, k);
    AbsentIffNone(notes, k.end);
    TrimKeepsOccurrences(Strip(Attached(text, b), k), k.end);
    hide Index, Occurrences, Strip, TrimSpace;
  }

  /** A stray start marker swallows the text behind it. */
  lemma StrayStartAgain(text: string, b: string, k: Markers)
    requires GoodMarkers(k) && Trimmed(text) && IsBlock(b, k) && Contains(text, k.start) && !Contains(text, k.end)
    ensures |Again(text, b, k)| < |text| && Again(text, b, k) != text
  {
    hide *;
    AppendedMarkers(text, b, k);
    BlockMarkers(b, k);
    MarkersPlain(k);
    var at := IndexWithin(text, k.start);
    SplitWhole(text, GAP + b, at);
    StripCuts(text + GAP + b, k, text[..at], text[at..] + (GAP + b), "");
    AgainIs(text, b, k);
    TwiceTrimmedIsShort(text[..at]);
  }

  lemma IndexWithin(s: string, pat: string) returns (at: nat)
    requires pat != "" && Contains(s, pat)
    ensures at == Index(s, pat) < |s| && |GAP| == 2
  {
    IndexMeans(s, pat);
    at := Index(s, pat);
  }

  lemma AgainIs(text: string, b: string, k: Markers)
    requires text != ""
    ensures Again(text, b, k) == TrimSpace(Strip(text + GAP + b, k))
  {
  }

  lemma SplitWhole(text: string, rest: string, at: nat)
    requires at <= |text|
    ensures text + rest == text[..at] + (text[at..] + rest) + "" && text[..at] + "" == text[..at]
    ensures forall b :: text + GAP + b == text + (GAP + b)
  {
  }

  lemma TwiceTrimmedIsShort(s: string)
    ensures |TrimSpace(TrimSpace(s))| <= |s|
  {
    var i, j := TrimSpaceCuts(s);
    TrimmedIsFixed(TrimSpace(s));
    hide TrimSpace;
  }

  lemma FirstPair(text: string, k: Markers) returns (front: string, m: string, rest: string)
    requires GoodMarkers(k) && Contains(text, k.start) && Contains(text, k.end) && Index(text, k.start) < Index(text, k.end)
    ensures text == front + m + rest && |k.end| < |m| && Index(text, k.start) == |front| && Index(text, k.end) == |front| + |m| - |k.end|
    ensures Closed(m, k.end) && m[0] == '<'
  {
    IndexMeans(text, k.start);
    IndexMeans(text, k.end);
    var s, e := Index(text, k.start), Index(text, k.end);
    hide Index;
    ClosedSlice(text, s, e, k.end);
    hide Closed;
    front, m, rest := text[..s], text[s..e + |k.end|], text[e + |k.end|..];
    assert m[0] == text[s] == text[s..s + |k.start|][0];
  }

  lemma ClosedSlice(text: string, s: nat, e: nat, end: string)
    requires s <= e && At(text, end, e) && forall j :: 0 <= j < e ==> !At(text, end, j)
    ensures Closed(text[s..e + |end|], end)
  {
    var m := text[s..e + |end|];
    SliceOfSlice(text, s, e + |end|, e - s, e - s + |end|);
    forall j: nat | At(m, end, j) ensures j == |m| - |end| {
      SliceOfSlice(text, s, e + |end|, j, j + |end|);
      assert At(text, end, s + j);
    }
  }

  lemma SliceOfSlice(s: string, a: nat, b: nat, i: nat, j: nat)
    requires a <= b <= |s| && i <= j <= b - a
    ensures s[a..b][i..j] == s[a + i..a + j]
  {
    assert forall x :: 0 <= x < j - i ==> s[a..b][i..j][x] == s[a + i..a + j][x];
  }

  lemma PairAgain(text: string, b: string, k: Markers, front: string, m: string, rest: string)
    requires GoodMarkers(k) && Trimmed(text) && IsBlock(b, k)
    requires text == front + m + rest && |k.end| < |m| && Index(text, k.start) == |front| && Index(text, k.end) == |front| + |m| - |k.end|
    ensures Again(text, b, k) == TrimSpace(front + (rest + GAP + b))
  {
    AppendedMarkers(text, b, k);
    assert text != "" by { IndexMeans(text, k.end); }
    hide Index;
    var whole := text + GAP + b;
    assert whole == front + m + (rest + GAP + b);
    StripCuts(whole, k, front, m, rest + GAP + b);
    var cut := front + (rest + GAP + b);
    var i, j := TrimSpaceCuts(cut);
    TrimmedIsFixed(TrimSpace(cut));
    hide TrimSpace;
  }

  /** With a text in front of it, a pair of markers does not survive. */
  lemma PairInsideChanges(text: string, b: string, k: Markers, front: string, m: string, rest: string)
    requires GoodMarkers(k) && Trimmed(text) && IsBlock(b, k)
    requires text == front + m + rest && front != "" && Closed(m, k.end) && m[0] == '<'
    ensures TrimSpace(front + (rest + GAP + b)) != text
  {
    BlockMarkers(b, k);
    ClosedBlock(b, k);
    hide Index, IsBlock, Occurrences, Closed, GoodMarkers, Closing;
    assert !IsSpace(front[0]) by { FirstOfThree(front, m, rest); }
    TrimBetween(front, rest + GAP + b, b);
    hide TrimSpace, Trimmed;
    PairMeetsGap(k.end, m, rest, b);
    SameRest(front, m, rest, GAP, b);
  }

  lemma FirstOfThree(front: string, m: string, rest: string)
    requires front != ""
    ensures (front + m + rest)[0] == front[0]
  {
  }

  lemma TrimBetween(front: string, back: string, b: string)
    requires front != "" && !IsSpace(front[0]) && back != "" && b != "" && Trimmed(b) && back[|back| - 1] == b[|b| - 1]
    ensures TrimSpace(front + back) == front + back
  {
    var s := front + back;
    assert s[0] == front[0] && s[|s| - 1] == back[|back| - 1];
    TrimmedIsFixed(s);
  }

  lemma SameRest(front: string, m: string, rest: string, gap: string, b: string)
    ensures front + (rest + gap + b) == front + m + rest ==> m + rest == rest + (gap + b)
  {
    assert front + m + rest == front + (m + rest) && rest + gap + b == rest + (gap + b);
    assert (front + (m + rest))[|front|..] == m + rest;
    assert (front + (rest + (gap + b)))[|front|..] == rest + (gap + b);
  }

  lemma PairMeetsGap(end: string, m: string, rest: string, b: string)
    requires Closing(end) && Closed(m, end) && m != "" && m[0] == '<' && b != "" && b[0] == '<' && Closed(GAP + b, end)
    ensures m + rest != rest + (GAP + b)
  {
    hide Closed, Closing;
    NotGap(m, "", b);
    assert m + "" == m;
    if m + rest == rest + (GAP + b) {
      assert rest == "" ==> m + rest == m && rest + (GAP + b) == GAP + b;
      if rest != "" { OnlyStacks(end, m, "", rest, b); }
    }
  }

  /** Where the markers come first, only a stack of blocks survives. */
  lemma PairFirstStacks(text: string, b: string, k: Markers, m: string, rest: string)
    requires GoodMarkers(k) && Trimmed(text) && IsBlock(b, k) && text == m + rest && Closed(m, k.end) && m[0] == '<'
    requires TrimSpace(rest + GAP + b) == text
    ensures Stacked(text, b)
  {
    BlockMarkers(b, k);
    ClosedBlock(b, k);
    hide Index, IsBlock, Occurrences, Closed, TrimSpace, Closing, Stacked;
    var i := TrimLeftCuts(rest);
    var w, r := rest[..i], rest[i..];
    assert rest == w + r && AllSpace(w);
    if r == "" { BlankAfter(text, b, m, rest); } else { StackAfter(k.end, text, b, m, w, r); }
  }

  lemma BlankAfter(text: string, b: string, m: string, rest: string)
    requires Trimmed(text) && Trimmed(b) && b != "" && text == m + rest && AllSpace(rest) && TrimSpace(rest + GAP + b) == text
    ensures Stacked(text, b)
  {
    TrimRightSkips(m, rest);
    assert TrimRight(text) == text by { TrimmedIsFixed(text); }
    var j := TrimRightCuts(m);
    assert rest == "" by { assert |text| <= |m|; }
    assert rest + GAP + b == GAP + b + "";
    TrimAround(GAP, b, "");
  }

  lemma StackAfter(end: string, text: string, b: string, m: string, w: string, r: string)
    requires Closing(end) && Closed(m, end) && m[0] == '<' && AllSpace(w) && r != "" && !IsSpace(r[0]) && text == m + (w + r)
    requires Trimmed(b) && b != "" && b[0] == '<' && Closed(GAP + b, end) && TrimSpace(w + r + GAP + b) == text
    ensures Stacked(text, b)
  {
    hide Closed, Closing;
    var cut := r + (GAP + b);
    assert cut[0] == r[0] && cut[|cut| - 1] == b[|b| - 1];
    TrimAround(w, cut, "");
    assert w + cut + "" == w + r + GAP + b;
    hide TrimSpace, Stacked;
    assert (m + w) + r == cut by { assert (m + w) + r == m + (w + r); }
    OnlyStacks(end, m, w, r, b);
    OneMoreBlock(text, b, r);
  }

  lemma OneMoreBlock(text: string, b: string, r: string)
    requires text == b + (GAP + r) && Stacked(r, b)
    ensures Stacked(text, b)
  {
    assert b + GAP <= text && text[|b| + 2..] == r;
  }

  lemma StackTail(text: string, b: string) returns (tail: string)
    requires Stacked(text, b) && text != b
    ensures text == b + [NL] + ([NL] + tail)
  {
    tail := text[|b| + 2..];
  }

  lemma ContainsIs(s: string, pat: string)
    ensures Contains(s, pat) <==> Index(s, pat) >= 0
  {
  }

  lemma StackIndex(text: string, b: string, k: Markers)
    requires GoodMarkers(k) && IsBlock(b, k) && Stacked(text, b)
    ensures Index(text, k.start) == 0 && Index(text, k.end) == |b| - |k.end|
  {
    hide *;
    BlockMarkers(b, k);
    MarkersPlain(k);
    if text != b {
      var tail := StackTail(text, b);
      ContainsIs(b, k.start);
      ContainsIs(b, k.end);
      IndexAcrossLine(b, [NL] + tail, k.start);
      IndexAcrossLine(b, [NL] + tail, k.end);
    }
  }

  lemma {:induction false} StackTrimmed(text: string, b: string)
    requires b != "" && Trimmed(b) && Stacked(text, b)
    ensures text != "" && Trimmed(text) && |text| >= |b| && text == b + text[|b|..]
    decreases |text|
  {
    if text != b {
      StackTrimmed(text[|b| + 2..], b);
      assert text[0] == (b + GAP)[0];
      assert text[|text| - 1] == text[|b| + 2..][|text| - |b| - 3];
    }
  }

  lemma StackAgain(text: string, b: string, k: Markers)
    requires GoodMarkers(k) && IsBlock(b, k) && Stacked(text, b)
    ensures Again(text, b, k) == text
  {
    hide *;
    BlockMarkers(b, k);
    MarkersPlain(k);
    StackIndex(text, b, k);
    StackTrimmed(text, b);
    StackCut(text, b);
    var rest := text[|b|..];
    assert text == "" + b + rest;
    PairAgain(text, b, k, "", b, rest);
  }

  lemma StackCut(text: string, b: string)
    requires b != "" && Trimmed(b) && Stacked(text, b)
    ensures |text| >= |b| && TrimSpace("" + (text[|b|..] + GAP + b)) == text
  {
    StackTrimmed(text, b);
    if text == b {
      assert text[|b|..] == "";
      assert "" + ("" + GAP + b) == GAP + b + "";
      TrimAround(GAP, b, "");
    } else {
      var tail := text[|b| + 2..];
      StackedCommutes(tail, b);
      assert b + GAP <= text;
      hide Stacked;
      StackCutMore(text, tail, b);
    }
  }

  lemma StackCutMore(text: string, tail: string, b: string)
    requires |text| >= |b| + 2 && b + GAP <= text && tail == text[|b| + 2..] && Trimmed(text)
    requires tail + GAP + b == b + GAP + tail
    ensures TrimSpace("" + (text[|b|..] + GAP + b)) == text
  {
    TrimAround(GAP, text, "");
    hide TrimSpace, Trimmed;
    assert text == b + GAP + tail;
    assert text[|b|..] == GAP + tail;
    Regroup(tail, b);
  }

  lemma Regroup(tail: string, b: string)
    requires tail + GAP + b == b + GAP + tail
    ensures "" + ((GAP + tail) + GAP + b) == GAP + (b + GAP + tail) + ""
  {
    assert (GAP + tail) + GAP + b == GAP + (tail + GAP + b);
  }

  /** The two markers never begin at the same place. */
  lemma MarkersApart(text: string, k: Markers)
    requires GoodMarkers(k) && Contains(text, k.start) && Contains(text, k.end)
    ensures Index(text, k.start) != Index(text, k.end)
  {
    IndexMeans(text, k.start);
    IndexMeans(text, k.end);
    var i, j := Index(text, k.start), Index(text, k.end);
    hide Index;
    assert text[i..i + |k.start|][21] == text[i + 21];
    assert text[j..j + |k.end|][21] == text[j + 21];
  }

  /** The second stripping gives the text back exactly when it holds no marker, or is a stack of blocks. */
  lemma AgainIff(text: string, b: string, k: Markers)
    requires GoodMarkers(k) && Trimmed(text) && IsBlock(b, k)
    ensures Again(text, b, k) == text <==> MarkerFree(text, k) || Stacked(text, b)
  {
    if MarkerFree(text, k) {
      NoMarkersAgain(text, b, k);
    } else if Stacked(text, b) {
      StackAgain(text, b, k);
    } else {
      hide Index, Again, IsBlock;
      MarkersChange(text, b, k);
    }
  }

  lemma MarkersChange(text: string, b: string, k: Markers)
    requires GoodMarkers(k) && Trimmed(text) && IsBlock(b, k) && !MarkerFree(text, k) && !Stacked(text, b)
    ensures Again(text, b, k) != text
  {
    assert text != "" by { MarkersPlain(k); }
    assert Contains(text, k.start) || Contains(text, k.end);
    hide Again, IsBlock, Stacked, GoodMarkers, Trimmed, Index;
    if !Contains(text, k.end) {
      StrayStartAgain(text, b, k);
    } else if !Contains(text, k.start) {
      StrayEndAgain(text, b, k);
    } else {
      MarkersApart(text, k);
      if Index(text, k.start) > Index(text, k.end) {
        StrayEndAgain(text, b, k);
      } else {
        PairChanges(text, b, k);
      }
    }
  }

  lemma DropEmpty(front: string, m: string, rest: string, more: string)
    requires front == ""
    ensures front + more == more && front + m + rest == m + rest
  {
  }

  lemma PairChanges(text: string, b: string, k: Markers)
    requires GoodMarkers(k) && Trimmed(text) && IsBlock(b, k) && !Stacked(text, b)
    requires Contains(text, k.start) && Contains(text, k.end) && Index(text, k.start) < Index(text, k.end)
    ensures Again(text, b, k) != text
  {
    var front, m, rest := FirstPair(text, k);
    PairAgain(text, b, k, front, m, rest);
    hide Again, IsBlock, Stacked, GoodMarkers, Trimmed, Index, Contains, Closed, TrimSpace;
    if front != "" {
      PairInsideChanges(text, b, k, front, m, rest);
    } else {
      DropEmpty(front, m, rest, rest + GAP + b);
      if Again(text, b, k) == text { PairFirstStacks(text, b, k, m, rest); }
    }
  }

  lemma SuffixCancels(a: string, b: string, s: string)
    ensures a + s == b + s <==> a == b
  {
    if a + s == b + s {
      assert |a| == |b| && a == (a + s)[..|a|] && b == (b + s)[..|b|];
    }
  }
}
