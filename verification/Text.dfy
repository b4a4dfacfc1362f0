/** Strings as the Go standard library treats them: trimming, splitting, joining and searching. */
module Text {

  const NL: char := '\n'

  datatype Option<+T> = None | Some(value: T)

  /** unicode.IsSpace. */
  predicate IsSpace(c: char) {
    || '\t' <= c <= '\r'
    || c == ' '
    || c == '\U{85}'
    || c == '\U{A0}'
    || c == '\U{1680}'
    || '\U{2000}' <= c <= '\U{200A}'
    || c == '\U{2028}'
    || c == '\U{2029}'
    || c == '\U{202F}'
    || c == '\U{205F}'
    || c == '\U{3000}'
  }

  function TrimLeft(s: string): string {
    if s != [] && IsSpace(s[0]) then TrimLeft(s[1..]) else s
  }

  function TrimRight(s: string): string {
    if s != [] && IsSpace(s[|s| - 1]) then TrimRight(s[..|s| - 1]) else s
  }

  /** strings.TrimSpace. */
  function TrimSpace(s: string): string {
    TrimRight(TrimLeft(s))
  }

  /** Neither end is white space. */
  predicate Trimmed(s: string) {
    s != [] ==> !IsSpace(s[0]) && !IsSpace(s[|s| - 1])
  }

  lemma TrimmedIsFixed(s: string)
    requires Trimmed(s)
    ensures TrimSpace(s) == s
  {
  }

  /** TrimSpace cuts white space off both ends and stops at the first other character. */
  lemma TrimSpaceCuts(s: string) returns (i: nat, j: nat)
    ensures i <= j <= |s| && TrimSpace(s) == s[i..j]
    ensures forall k :: 0 <= k < i || j <= k < |s| ==> IsSpace(s[k])
    ensures Trimmed(TrimSpace(s))
  {
    i := TrimLeftCuts(s);
    var t := TrimRightCuts(TrimLeft(s));
    j := i + t;
    assert s[i..][..t] == s[i..j];
    forall k | j <= k < |s| ensures IsSpace(s[k]) { assert s[i..][k - i] == s[k]; }
  }

  lemma {:induction false} TrimLeftCuts(s: string) returns (i: nat)
    ensures i <= |s| && TrimLeft(s) == s[i..] && (i < |s| ==> !IsSpace(s[i]))
    ensures forall k :: 0 <= k < i ==> IsSpace(s[k])
  {
    if s != [] && IsSpace(s[0]) {
      var rest := TrimLeftCuts(s[1..]);
      i := rest + 1;
      assert s[1..][rest..] == s[i..];
      forall k | 0 < k < i ensures IsSpace(s[k]) { assert s[k] == s[1..][k - 1]; }
    } else {
      i := 0;
    }
  }

  lemma {:induction false} TrimRightCuts(s: string) returns (j: nat)
    ensures j <= |s| && TrimRight(s) == s[..j] && (j > 0 ==> !IsSpace(s[j - 1]))
    ensures forall k :: j <= k < |s| ==> IsSpace(s[k])
  {
    if s != [] && IsSpace(s[|s| - 1]) {
      j := TrimRightCuts(s[..|s| - 1]);
    } else {
      j := |s|;
    }
  }

  predicate AllSpace(s: string) {
    forall i :: 0 <= i < |s| ==> IsSpace(s[i])
  }

  lemma {:induction false} TrimLeftSkips(u: string, s: string)
    requires AllSpace(u)
    ensures TrimLeft(u + s) == TrimLeft(s)
  {
    if u == "" {
      assert u + s == s;
    } else {
      TrimLeftSkips(u[1..], s);
      assert (u + s)[1..] == u[1..] + s;
    }
  }

  lemma {:induction false} TrimRightSkips(s: string, v: string)
    requires AllSpace(v)
    ensures TrimRight(s + v) == TrimRight(s)
  {
    if v == "" {
      assert s + v == s;
    } else {
      TrimRightSkips(s, v[..|v| - 1]);
      assert (s + v)[..|s + v| - 1] == s + v[..|v| - 1];
    }
  }

  /** White space around a trimmed text is all that TrimSpace removes. */
  lemma TrimAround(u: string, s: string, v: string)
    requires AllSpace(u) && AllSpace(v) && s != "" && Trimmed(s)
    ensures TrimSpace(u + s + v) == s
  {
    TrimLeftSkips(u, s + v);
    assert u + s + v == u + (s + v);
    TrimRightSkips(s, v);
  }

  // ---- Splitting and case ----

  /** strings.Split on one character. */
  function Split(s: string, sep: char): (parts: seq<string>)
    ensures parts != []
  {
    if s == "" then [""]
    else
      var rest := Split(s[1..], sep);
      if s[0] == sep then [""] + rest else [[s[0]] + rest[0]] + rest[1..]
  }

  function Join(parts: seq<string>, sep: char): string {
    if parts == [] then "" else if |parts| == 1 then parts[0] else parts[0] + [sep] + Join(parts[1..], sep)
  }

  lemma {:induction false} JoinSnoc(parts: seq<string>, last: string, sep: char)
    requires parts != []
    ensures Join(parts + [last], sep) == Join(parts, sep) + [sep] + last
  {
    if |parts| > 1 {
      JoinSnoc(parts[1..], last, sep);
      assert (parts + [last])[1..] == parts[1..] + [last];
    } else {
      assert (parts + [last])[1..] == [last];
    }
  }

  lemma {:induction false} JoinHas(parts: seq<string>, sep: char, c: char)
    requires c in Join(parts, sep)
    ensures c == sep || exists part :: part in parts && c in part
  {
    if |parts| > 1 && c !in parts[0] && c != sep {
      JoinHas(parts[1..], sep, c);
      var part :| part in parts[1..] && c in part;
      assert part in parts;
    } else if |parts| >= 1 && c in parts[0] {
      assert parts[0] in parts;
    }
  }

  lemma {:induction false} SplitPartsAreBare(s: string, sep: char, part: string)
    requires part in Split(s, sep)
    ensures sep !in part
  {
    if s != "" {
      var rest := Split(s[1..], sep);
      if part in rest {
        SplitPartsAreBare(s[1..], sep, part);
      } else if s[0] != sep {
        SplitPartsAreBare(s[1..], sep, rest[0]);
      }
    }
  }

  /** Joining the parts gives the string back. */
  lemma {:induction false} JoinUndoesSplit(s: string, sep: char)
    ensures Join(Split(s, sep), sep) == s
  {
    if s != "" {
      JoinUndoesSplit(s[1..], sep);
      var rest := Split(s[1..], sep);
      if s[0] == sep {
        assert ([""] + rest)[1..] == rest;
      } else {
        assert ([[s[0]] + rest[0]] + rest[1..])[1..] == rest[1..];
      }
    }
  }

  lemma {:induction false} SplitAtSep(a: string, b: string, sep: char)
    requires sep !in a
    ensures Split(a + [sep] + b, sep) == [a] + Split(b, sep)
  {
    var s := a + [sep] + b;
    if a == "" {
      assert s[1..] == b;
    } else {
      SplitAtSep(a[1..], b, sep);
      assert s[1..] == a[1..] + [sep] + b;
      assert [s[0]] + a[1..] == a;
    }
  }

  lemma {:induction false} SplitBare(s: string, sep: char)
    requires sep !in s
    ensures Split(s, sep) == [s]
  {
    if s != "" {
      SplitBare(s[1..], sep);
      assert [s[0]] + s[1..] == s;
    }
  }

  /** Splitting gives back the parts that were joined. */
  lemma {:induction false} SplitUndoesJoin(parts: seq<string>, sep: char)
    requires parts != [] && forall part :: part in parts ==> sep !in part
    ensures Split(Join(parts, sep), sep) == parts
  {
    if |parts| == 1 {
      SplitBare(parts[0], sep);
    } else {
      SplitUndoesJoin(parts[1..], sep);
      SplitAtSep(parts[0], Join(parts[1..], sep), sep);
      assert parts[0] + [sep] + Join(parts[1..], sep) == Join(parts, sep);
    }
  }

  // ---- Searching ----

  predicate At(s: string, pat: string, i: nat) {
    i + |pat| <= |s| && s[i..i + |pat|] == pat
  }

  /** strings.Index: where `pat` first occurs in `s`, or -1. */
  function Index(s: string, pat: string): int {
    if pat <= s then 0
    else if s == "" then -1
    else
      var i := Index(s[1..], pat);
      if i < 0 then -1 else i + 1
  }

  predicate Contains(s: string, pat: string) {
    Index(s, pat) >= 0
  }

  /** How many positions of `s` begin an occurrence of `pat`. */
  function Occurrences(s: string, pat: string): nat {
    if s == "" then 0 else (if pat <= s then 1 else 0) + Occurrences(s[1..], pat)
  }

  lemma {:induction false} IndexMeans(s: string, pat: string)
    ensures Index(s, pat) >= -1
    ensures Contains(s, pat) ==> At(s, pat, Index(s, pat)) && forall j :: 0 <= j < Index(s, pat) ==> !At(s, pat, j)
    ensures !Contains(s, pat) ==> forall j: nat :: !At(s, pat, j)
  {
    if pat <= s {
      assert s[..|pat|] == pat;
    } else if s != "" {
      IndexMeans(s[1..], pat);
      forall j: nat ensures At(s, pat, j) <==> j > 0 && At(s[1..], pat, j - 1) {
        if j > 0 && j + |pat| <= |s| { assert s[j..j + |pat|] == s[1..][j - 1..j - 1 + |pat|]; }
      }
    }
  }

  /** The first occurrence is the only position with these properties. */
  lemma IndexIs(s: string, pat: string, i: nat)
    requires At(s, pat, i) && forall j :: 0 <= j < i ==> !At(s, pat, j)
    ensures Index(s, pat) == i
  {
    IndexMeans(s, pat);
  }

  lemma AtAcrossLine(a: string, b: string, pat: string, j: nat)
    requires pat != "" && NL !in pat
    ensures At(a + [NL] + b, pat, j) <==> At(a, pat, j) || (j > |a| && At(b, pat, j - |a| - 1))
  {
    var s := a + [NL] + b;
    if j + |pat| <= |a| {
      assert s[j..j + |pat|] == a[j..j + |pat|];
    } else if j + |pat| <= |s| {
      if j <= |a| {
        assert s[j..j + |pat|][|a| - j] == NL;
      } else {
        assert s[j..j + |pat|] == b[j - |a| - 1..j - |a| - 1 + |pat|];
      }
    }
  }

  /** A pattern without line breaks is found line by line. */
  lemma {:induction false} IndexAcrossLine(a: string, b: string, pat: string)
    requires pat != "" && NL !in pat
    ensures Index(a + [NL] + b, pat) ==
      if Contains(a, pat) then Index(a, pat) else if Contains(b, pat) then |a| + 1 + Index(b, pat) else -1
  {
    var s := a + [NL] + b;
    PrefixAcrossLine(a, b, pat);
    if a == "" {
      assert s[1..] == b;
    } else {
      IndexAcrossLine(a[1..], b, pat);
      assert s[1..] == a[1..] + [NL] + b;
    }
  }

  lemma {:induction false} OccurrencesAcrossLine(a: string, b: string, pat: string)
    requires pat != "" && NL !in pat
    ensures Occurrences(a + [NL] + b, pat) == Occurrences(a, pat) + Occurrences(b, pat)
  {
    var s := a + [NL] + b;
    PrefixAcrossLine(a, b, pat);
    if a == "" {
      assert s[1..] == b;
    } else {
      OccurrencesAcrossLine(a[1..], b, pat);
      assert s[1..] == a[1..] + [NL] + b;
    }
  }

  lemma PrefixAcrossLine(a: string, b: string, pat: string)
    requires pat != "" && NL !in pat
    ensures pat <= a + [NL] + b <==> pat <= a
  {
    AtAcrossLine(a, b, pat, 0);
    var s := a + [NL] + b;
    assert pat <= s <==> At(s, pat, 0);
    assert pat <= a <==> At(a, pat, 0);
  }

  lemma {:induction false} NoFirstCharNoMatch(s: string, pat: string)
    requires pat != "" && pat[0] !in s
    ensures !Contains(s, pat) && Occurrences(s, pat) == 0
  {
    if s != "" {
      assert s[0] in s;
      NoFirstCharNoMatch(s[1..], pat);
    }
  }

  lemma {:induction false} AbsentIffNone(s: string, pat: string)
    requires pat != ""
    ensures !Contains(s, pat) <==> Occurrences(s, pat) == 0
  {
    if s != "" { AbsentIffNone(s[1..], pat); }
  }

  lemma {:induction false} OccurrencesBehind(a: string, s: string, pat: string)
    ensures Occurrences(a + s, pat) >= Occurrences(s, pat)
    ensures pat != "" && pat[0] !in a ==> Occurrences(a + s, pat) == Occurrences(s, pat)
  {
    if a == "" {
      assert a + s == s;
    } else {
      OccurrencesBehind(a[1..], s, pat);
      assert (a + s)[1..] == a[1..] + s && (a + s)[0] == a[0];
    }
  }

  /** Behind the first occurrence, one fewer is left. */
  lemma {:induction false} FirstOccurrence(s: string, pat: string)
    requires pat != "" && pat[0] !in pat[1..] && Contains(s, pat)
    ensures Index(s, pat) + |pat| <= |s| && Occurrences(s, pat) == 1 + Occurrences(s[Index(s, pat) + |pat|..], pat)
  {
    if pat <= s {
      OccurrencesBehind(pat[1..], s[|pat|..], pat);
      assert s[1..] == pat[1..] + s[|pat|..];
      assert Index(s, pat) == 0;
    } else {
      FirstOccurrence(s[1..], pat);
      assert s[1..][Index(s[1..], pat) + |pat|..] == s[Index(s, pat) + |pat|..];
    }
  }

  lemma {:induction false} OccurrencesBeforeSpace(s: string, u: string, pat: string)
    requires pat != "" && !IsSpace(pat[|pat| - 1]) && AllSpace(u)
    ensures Occurrences(s + u, pat) == Occurrences(s, pat)
  {
    if s + u != "" {
      assert |s| < |pat| <= |s + u| ==> (s + u)[|pat| - 1] == u[|pat| - 1 - |s|];
      if s == "" {
        OccurrencesBeforeSpace("", u[1..], pat);
        assert (s + u)[1..] == "" + u[1..];
      } else {
        OccurrencesBeforeSpace(s[1..], u, pat);
        assert (s + u)[1..] == s[1..] + u;
      }
    }
  }

  /** Trimming takes no occurrence of a trimmed pattern away. */
  lemma TrimKeepsOccurrences(s: string, pat: string)
    requires pat != "" && Trimmed(pat)
    ensures Occurrences(TrimSpace(s), pat) == Occurrences(s, pat)
  {
    var i, j := TrimSpaceCuts(s);
    assert s == s[..i] + (s[i..j] + s[j..]);
    assert pat[0] !in s[..i];
    OccurrencesBehind(s[..i], s[i..j] + s[j..], pat);
    OccurrencesBeforeSpace(s[i..j], s[j..], pat);
  }

  /** strings.ReplaceAll with one word for another. */
  function Substitute(s: string, from: string, to: string): string
    requires from != ""
  {
    if s == "" then "" else if from <= s then to + Substitute(s[|from|..], from, to) else [s[0]] + Substitute(s[1..], from, to)
  }

  /** No occurrence of `from` can share a character with one of `pat`: it has neither end of it and does not lie inside. */
  ghost predicate CannotOverlap(from: string, pat: string) {
    pat != "" && pat[0] !in from && pat[|pat| - 1] !in from && forall i: nat :: !At(pat, from, i)
  }

  lemma NotInsidePattern(s: string, from: string, pat: string, i: nat)
    requires CannotOverlap(from, pat) && pat <= s && i < |pat| && from != ""
    ensures !(from <= s[i..])
  {
    assert !At(pat, from, i);
    assert s[i..][|pat| - 1 - i] == s[|pat| - 1] == pat[|pat| - 1];
    assert i + |from| <= |pat| ==> pat[i..i + |from|] == s[i..i + |from|] == s[i..][..|from|];
  }

  lemma {:induction false} SubstituteCopies(s: string, from: string, to: string, pat: string, i: nat)
    requires from != "" && CannotOverlap(from, pat) && pat <= s && i <= |pat|
    ensures Substitute(s[i..], from, to) == pat[i..] + Substitute(s[|pat|..], from, to)
    decreases |pat| - i
  {
    if i < |pat| {
      NotInsidePattern(s, from, pat, i);
      SubstituteCopies(s, from, to, pat, i + 1);
      assert s[i..][1..] == s[i + 1..] && s[i..][0] == pat[i];
      assert pat[i..] == [pat[i]] + pat[i + 1..];
    } else {
      assert pat[i..] == "";
    }
  }

  /** Substitution keeps what the word cannot overlap. */
  lemma {:induction false} SubstituteKeeps(s: string, from: string, to: string, pat: string)
    requires from != "" && CannotOverlap(from, pat) && Contains(s, pat)
    ensures Contains(Substitute(s, from, to), pat)
    decreases |s|
  {
    IndexMeans(s, pat);
    var j := Index(s, pat);
    if j == 0 {
      SubstituteCopies(s, from, to, pat, 0);
      assert s[0..] == s && pat[0..] == pat;
      ContainsBehind("", pat + Substitute(s[|pat|..], from, to), pat);
    } else {
      var step := if from <= s then |from| else 1;
      assert s[j..j + |pat|][0] == s[j];
      assert from <= s ==> forall i :: 0 <= i < |from| ==> s[i] == from[i];
      assert s[step..][j - step..j - step + |pat|] == s[j..j + |pat|];
      IndexMeans(s[step..], pat);
      assert At(s[step..], pat, j - step);
      SubstituteKeeps(s[step..], from, to, pat);
      ContainsBehind(if from <= s then to else [s[0]], Substitute(s[step..], from, to), pat);
    }
  }

  lemma ContainsBehind(a: string, s: string, pat: string)
    requires pat != "" && Contains(s, pat)
    ensures Contains(a + s, pat)
  {
    AbsentIffNone(s, pat);
    AbsentIffNone(a + s, pat);
    OccurrencesBehind(a, s, pat);
  }

  function ReplaceAll(s: string, from: char, to: char): string {
    seq(|s|, i requires 0 <= i < |s| => if s[i] == from then to else s[i])
  }

  /** unicode.ToLower, as far as it can produce an ASCII letter. */
  function LowerChar(c: char): char {
    if 'A' <= c <= 'Z' then (c as int + 32) as char
    else if c == '\U{130}' then 'i'
    else if c == '\U{212A}' then 'k'
    else c
  }

  function Lower(s: string): string {
    seq(|s|, i requires 0 <= i < |s| => LowerChar(s[i]))
  }
}
