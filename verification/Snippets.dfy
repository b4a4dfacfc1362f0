/** Snippets of UTF-8 text: white space is collapsed, and long text is cut without splitting a character. */
module Snippets {
  import Text

  type Byte = b: int | 0 <= b < 256
  type Bytes = seq<Byte>

  const BLANK: Byte := 0x20
  const DOTS: Bytes := [0x2E, 0x2E, 0x2E]

  // ---- UTF-8, section 4 of RFC 3629 ----

  predicate Tail(b: Byte) {
    0x80 <= b <= 0xBF
  }

  predicate ThreeByteLead(a: Byte, b: Byte) {
    || (a == 0xE0 && 0xA0 <= b <= 0xBF)
    || (0xE1 <= a <= 0xEC && Tail(b))
    || (a == 0xED && 0x80 <= b <= 0x9F)
    || (0xEE <= a <= 0xEF && Tail(b))
  }

  predicate FourByteLead(a: Byte, b: Byte) {
    || (a == 0xF0 && 0x90 <= b <= 0xBF)
    || (0xF1 <= a <= 0xF3 && Tail(b))
    || (a == 0xF4 && 0x80 <= b <= 0x8F)
  }

  /** The length of the character that `s` begins with; 0 when it begins with none. */
  function RuneLen(s: Bytes): nat {
    if s == [] then 0
    else if s[0] < 0x80 then 1
    else if |s| >= 2 && 0xC2 <= s[0] <= 0xDF && Tail(s[1]) then 2
    else if |s| >= 3 && ThreeByteLead(s[0], s[1]) && Tail(s[2]) then 3
    else if |s| >= 4 && FourByteLead(s[0], s[1]) && Tail(s[2]) && Tail(s[3]) then 4
    else 0
  }

  /** utf8.ValidString. */
  predicate Valid(s: Bytes)
    decreases |s|
  {
    s == [] || (RuneLen(s) > 0 && Valid(s[RuneLen(s)..]))
  }

  /** A decoder's step: a character, or a single byte that begins none. */
  function StepLen(s: Bytes): nat
    requires s != []
  {
    if RuneLen(s) > 0 then RuneLen(s) else 1
  }

  /** unicode.IsSpace of the character that `s` begins with. */
  predicate SpaceAt(s: Bytes) {
    match RuneLen(s)
    case 1 => s[0] == 0x20 || 0x09 <= s[0] <= 0x0D
    case 2 => s[0] == 0xC2 && (s[1] == 0x85 || s[1] == 0xA0)
    case 3 =>
      || (s[0] == 0xE1 && s[1] == 0x9A && s[2] == 0x80)
      || (s[0] == 0xE2 && s[1] == 0x80 && (s[2] <= 0x8A || s[2] == 0xA8 || s[2] == 0xA9 || s[2] == 0xAF))
      || (s[0] == 0xE2 && s[1] == 0x81 && s[2] == 0x9F)
      || (s[0] == 0xE3 && s[1] == 0x80 && s[2] == 0x80)
    case _ => false
  }

  // ---- The tables are those of Unicode ----

  /** A Unicode scalar value: a code point that is no surrogate. */
  predicate Scalar(c: nat) {
    c < 0xD800 || 0xE000 <= c < 0x110000
  }

  /** The bytes of a scalar value, by the bit patterns of section 3 of RFC 3629. */
  function Encode(c: nat): Bytes
    requires Scalar(c)
  {
    if c < 0x80 then [c]
    else if c < 0x800 then [0xC0 + c / 64, Continued(c)]
    else if c < 0x10000 then [0xE0 + c / 64 / 64, Continued(c / 64), Continued(c)]
    else [0xF0 + c / 64 / 64 / 64, Continued(c / 64 / 64), Continued(c / 64), Continued(c)]
  }

  /** A byte for the last six bits. */
  function Continued(bits: nat): Byte {
    0x80 + bits % 64
  }

  /** The six bits of such a byte. */
  function Bits(b: Byte): int {
    b - 0x80
  }

  /** Every scalar value is read as one character, whatever follows it. */
  lemma EncodedIsRune(c: nat, rest: Bytes)
    requires Scalar(c)
    ensures RuneLen(Encode(c) + rest) == |Encode(c)|
  {
  }

  lemma Shifted(high: nat, b: Byte) returns (c: nat)
    requires Tail(b)
    ensures c == 64 * high + Bits(b) && c / 64 == high && Continued(c) == b
  {
    c := 64 * high + Bits(b);
  }

  /** Whatever is read as a character is the encoding of a scalar value. */
  lemma RuneIsEncoded(s: Bytes) returns (c: nat)
    requires RuneLen(s) > 0
    ensures Scalar(c) && RuneLen(s) <= |s| && s[..RuneLen(s)] == Encode(c)
  {
    match RuneLen(s)
    case 1 => c := s[0];
    case 2 => c := TwoAreEncoded(s);
    case 3 => c := ThreeAreEncoded(s);
    case _ => c := FourAreEncoded(s);
  }

  lemma TwoAreEncoded(s: Bytes) returns (c: nat)
    requires RuneLen(s) == 2
    ensures Scalar(c) && s[..2] == Encode(c)
  {
    hide Continued, Bits;
    c := Shifted(s[0] - 0xC0, s[1]);
    BitsBound(s[1]);
  }

  lemma ThreeAreEncoded(s: Bytes) returns (c: nat)
    requires RuneLen(s) == 3
    ensures Scalar(c) && s[..3] == Encode(c)
  {
    hide Continued, Bits;
    var high := Shifted(s[0] - 0xE0, s[1]);
    c := Shifted(high, s[2]);
    BitsBound(s[1]);
    BitsBound(s[2]);
  }

  lemma FourAreEncoded(s: Bytes) returns (c: nat)
    requires RuneLen(s) == 4
    ensures Scalar(c) && s[..4] == Encode(c)
  {
    hide Continued, Bits;
    var top := Shifted(s[0] - 0xF0, s[1]);
    var high := Shifted(top, s[2]);
    c := Shifted(high, s[3]);
    BitsBound(s[1]);
    BitsBound(s[2]);
    BitsBound(s[3]);
  }

  lemma BitsBound(b: Byte)
    requires Tail(b)
    ensures 0 <= Bits(b) == b - 0x80 < 64
  {
  }

  /** A text begins with white space exactly when its first character is white space of unicode.IsSpace. */
  lemma SpaceIff(c: nat, rest: Bytes)
    requires Scalar(c)
    ensures SpaceAt(Encode(c) + rest) <==> Text.IsSpace(c as char)
  {
    EncodedIsRune(c, rest);
  }

  lemma RuneFits(s: Bytes)
    ensures RuneLen(s) <= |s| && RuneLen(s) <= 4
  {
  }

  /** The first character depends on its own bytes alone. */
  lemma RuneIsLocal(s: Bytes, t: Bytes)
    ensures RuneLen(s) > 0 ==> RuneLen(s + t) == RuneLen(s)
    ensures RuneLen(s + t) > 0 && RuneLen(s + t) <= |s| ==> RuneLen(s) == RuneLen(s + t)
  {
  }

  lemma {:induction false} ValidJoins(s: Bytes, t: Bytes)
    requires Valid(s) && Valid(t)
    ensures Valid(s + t)
    decreases |s|
  {
    hide RuneLen;
    if s == [] {
      assert s + t == t;
    } else {
      var n := RuneLen(s);
      RuneFits(s);
      ValidJoins(s[n..], t);
      RuneIsLocal(s, t);
      assert (s + t)[n..] == s[n..] + t;
    }
  }

  // ---- Collapsing white space ----

  function Word(s: Bytes): Bytes
    decreases |s|
  {
    if s == [] || SpaceAt(s) then []
    else
      RuneFits(s);
      s[..StepLen(s)] + Word(s[StepLen(s)..])
  }

  lemma {:induction false} WordFits(s: Bytes)
    ensures |Word(s)| <= |s| && Word(s) == s[..|Word(s)|]
    ensures s != [] && !SpaceAt(s) ==> Word(s) != []
    ensures Valid(s) ==> Valid(Word(s)) && Valid(s[|Word(s)|..])
    decreases |s|
  {
    if s != [] && !SpaceAt(s) {
      RuneFits(s);
      var n := StepLen(s);
      var front, rest := s[..n], s[n..];
      WordFits(rest);
      assert s == front + rest;
      assert s[..|Word(s)|] == front + rest[..|Word(rest)|];
      assert s[|Word(s)|..] == rest[|Word(rest)|..];
      if Valid(s) {
        RuneIsLocal(front, rest);
        assert front[n..] == [];
        assert Valid(front);
        ValidJoins(front, Word(rest));
      }
    }
  }

  /** strings.Fields, joined by single blanks. */
  function Collapse(s: Bytes): Bytes
    decreases |s|
  {
    if s == [] then []
    else if SpaceAt(s) then
      RuneFits(s);
      Collapse(s[RuneLen(s)..])
    else
      WordFits(s);
      var rest := Collapse(s[|Word(s)|..]);
      if rest == [] then Word(s) else Word(s) + ([BLANK] + rest)
  }

  /** One white space character. */
  predicate Space(t: Bytes) {
    RuneLen(t) == |t| && SpaceAt(t)
  }

  /** Text without white space. */
  predicate Solid(w: Bytes) {
    w != [] && Valid(w) && Word(w) == w
  }

  lemma SpaceIsSeen(t: Bytes, s: Bytes)
    requires Space(t)
    ensures t != [] && SpaceAt(t + s) && RuneLen(t + s) == |t| && (t + s)[|t|..] == s
  {
    RuneIsLocal(t, s);
  }

  /** The first character of a solid text stays, whatever follows. */
  lemma SolidHead(w: Bytes, s: Bytes)
    requires Solid(w)
    ensures var n := RuneLen(w);
      0 < n <= |w| && !SpaceAt(w + s) && StepLen(w + s) == n && (w + s)[..n] == w[..n] && (w + s)[n..] == w[n..] + s
    ensures w[RuneLen(w)..] != [] ==> Solid(w[RuneLen(w)..])
  {
    RuneFits(w);
    RuneIsLocal(w, s);
    var n := RuneLen(w);
    assert w == w[..n] + w[n..];
    assert Word(w) == w[..n] + Word(w[n..]);
    assert Word(w)[n..] == Word(w[n..]);
  }

  lemma {:induction false} WordIsFound(w: Bytes, s: Bytes)
    requires Solid(w) && (s == [] || SpaceAt(s))
    ensures Word(w + s) == w
    decreases |w|
  {
    SolidHead(w, s);
    var n := RuneLen(w);
    assert w == w[..n] + w[n..];
    hide SpaceAt, RuneLen, Valid, StepLen;
    if w[n..] == [] { assert w[n..] + s == s; } else { WordIsFound(w[n..], s); }
  }

  lemma WordIsKept(w: Bytes, s: Bytes)
    requires Solid(w) && (s == [] || SpaceAt(s))
    ensures Collapse(w + s) == w + if Collapse(s) == [] then [] else [BLANK] + Collapse(s)
  {
    SolidHead(w, s);
    WordIsFound(w, s);
    assert (w + s)[|w|..] == s;
    hide SpaceAt, RuneLen, Valid, StepLen, Word;
  }

  /** Any white space between two words becomes one blank, and before the first and behind the last it goes. */
  lemma CollapseMeans(w: Bytes, t: Bytes, s: Bytes)
    requires Solid(w) && Space(t)
    ensures Collapse(t + s) == Collapse(s)
    ensures Collapse(w) == w
    ensures Collapse(w + (t + s)) == w + if Collapse(s) == [] then [] else [0x20] + Collapse(s)
  {
    SpaceIsSeen(t, s);
    WordIsKept(w, t + s);
    WordIsKept(w, []);
    assert w + [] == w;
    hide SpaceAt, RuneLen, Valid, StepLen, Word;
  }

  lemma {:induction false} CollapseKeepsValid(s: Bytes)
    requires Valid(s)
    ensures Valid(Collapse(s))
    decreases |s|
  {
    if s != [] {
      if SpaceAt(s) {
        RuneFits(s);
        CollapseKeepsValid(s[RuneLen(s)..]);
      } else {
        WordFits(s);
        CollapseKeepsValid(s[|Word(s)|..]);
        var rest := Collapse(s[|Word(s)|..]);
        assert [BLANK][1..] == [];
        assert Valid([BLANK]);
        ValidJoins([BLANK], rest);
        ValidJoins(Word(s), [BLANK] + rest);
      }
    }
  }

  // ---- Trimming valid text ----

  function TrimLeft(s: Bytes): Bytes
    decreases |s|
  {
    if s != [] && SpaceAt(s) then
      RuneFits(s);
      TrimLeft(s[RuneLen(s)..])
    else s
  }

  /** Without the white space at the end. */
  function TrimRight(s: Bytes): Bytes
    decreases |s|
  {
    if s == [] then []
    else
      RuneFits(s);
      var rest := TrimRight(s[StepLen(s)..]);
      if rest == [] && SpaceAt(s) then [] else s[..StepLen(s)] + rest
  }

  /** TrimLeft takes white space away, and stops at the first word. */
  lemma TrimLeftMeans(w: Bytes, t: Bytes, s: Bytes)
    requires Solid(w) && Space(t)
    ensures TrimLeft(t + s) == TrimLeft(s) && TrimLeft(w + s) == w + s && TrimLeft([]) == []
  {
    SpaceIsSeen(t, s);
    SolidHead(w, s);
    hide SpaceAt, RuneLen, Valid, StepLen, Word;
  }

  lemma TrimRightUnfolds(s: Bytes, t: Bytes)
    requires s != [] && Valid(s)
    ensures 0 < RuneLen(s) <= |s| && Valid(s[RuneLen(s)..])
    ensures var n := RuneLen(s);
      var rest := TrimRight(s[n..] + t);
      TrimRight(s + t) == if rest == [] && SpaceAt(s) then [] else s[..n] + rest
  {
    RuneFits(s);
    RuneIsLocal(s, t);
    SpaceIsLocal(s, t);
    assert (s + t)[RuneLen(s)..] == s[RuneLen(s)..] + t && (s + t)[..RuneLen(s)] == s[..RuneLen(s)];
    hide RuneLen, SpaceAt;
  }

  lemma SpaceIsLocal(s: Bytes, t: Bytes)
    requires RuneLen(s) > 0
    ensures SpaceAt(s + t) == SpaceAt(s)
  {
    RuneIsLocal(s, t);
  }

  lemma TrimRightOfSpace(t: Bytes)
    requires Space(t)
    ensures TrimRight(t) == [] && TrimRight([]) == []
  {
    assert t[|t|..] == [];
  }

  lemma {:induction false} TrimRightOfSpaces(s: Bytes, t: Bytes)
    requires Valid(s) && Space(t)
    ensures TrimRight(s + t) == TrimRight(s)
    decreases |s|
  {
    hide *;
    if s == [] {
      TrimRightOfSpace(t);
      assert s + t == t;
    } else {
      TrimRightUnfolds(s, t);
      TrimRightUnfolds(s, []);
      TrimRightOfSpaces(s[RuneLen(s)..], t);
      assert s + [] == s && s[RuneLen(s)..] + [] == s[RuneLen(s)..];
    }
  }

  lemma {:induction false} TrimRightOfWord(w: Bytes)
    requires Solid(w)
    ensures TrimRight(w) == w
    decreases |w|
  {
    SolidHead(w, []);
    assert w + [] == w;
    var n := RuneLen(w);
    assert w == w[..n] + w[n..];
    hide SpaceAt, RuneLen, Valid, Word;
    if w[n..] != [] { TrimRightOfWord(w[n..]); }
  }

  lemma {:induction false} TrimRightStops(s: Bytes, w: Bytes)
    requires Valid(s) && Solid(w) && w != []
    ensures TrimRight(s + w) == s + w
    decreases |s|
  {
    hide *;
    if s == [] {
      TrimRightOfWord(w);
      assert s + w == w;
    } else {
      TrimRightUnfolds(s, w);
      var n := RuneLen(s);
      TrimRightStops(s[n..], w);
      assert s[n..] + w != [] && s[..n] + (s[n..] + w) == s + w;
    }
  }

  /** TrimRight takes white space away, and stops at the last word. */
  lemma TrimRightMeans(s: Bytes, t: Bytes, w: Bytes)
    requires Valid(s) && Space(t) && Solid(w)
    ensures TrimRight(s + t) == TrimRight(s) && TrimRight(s + w) == s + w && TrimRight([]) == []
  {
    TrimRightOfSpaces(s, t);
    TrimRightOfSpace(t);
    TrimRightStops(s, w);
  }

  lemma {:induction false} TrimLeftKeepsValid(s: Bytes)
    requires Valid(s)
    ensures Valid(TrimLeft(s)) && |TrimLeft(s)| <= |s|
    decreases |s|
  {
    if s != [] && SpaceAt(s) {
      RuneFits(s);
      TrimLeftKeepsValid(s[RuneLen(s)..]);
    }
  }

  lemma {:induction false} TrimRightKeepsValid(s: Bytes)
    requires Valid(s)
    ensures Valid(TrimRight(s)) && |TrimRight(s)| <= |s|
    decreases |s|
  {
    if s != [] {
      RuneFits(s);
      var n := RuneLen(s);
      var front, rest := s[..n], s[n..];
      TrimRightKeepsValid(rest);
      assert s == front + rest;
      RuneIsLocal(front, rest);
      assert front[n..] == [];
      assert Valid(front);
      ValidJoins(front, TrimRight(rest));
    }
  }

  // ---- Cutting ----

  /** No longer prefix of `s` up to `keep` bytes is valid. */
  ghost predicate LongestValid(t: Bytes, s: Bytes, keep: nat)
    requires keep <= |s|
  {
    t <= s && |t| <= keep && Valid(t) && forall n :: |t| < n <= keep ==> !Valid(s[..n])
  }

  method Cut(raw: Bytes, keep: nat) returns (truncated: Bytes)
    requires keep <= |raw|
    ensures LongestValid(truncated, raw, keep)
  {
    truncated := raw[..keep];
    while !Valid(truncated) && |truncated| > 0
      invariant |truncated| <= keep && truncated == raw[..|truncated|]
      invariant forall n :: |truncated| < n <= keep ==> !Valid(raw[..n])
      decreases |truncated|
    {
      truncated := truncated[..|truncated| - 1];
    }
  }

  /** In valid text, every position is at most three bytes behind the end of a character. */
  lemma {:induction false} BoundaryNear(s: Bytes, k: nat) returns (b: nat)
    requires Valid(s) && k <= |s|
    ensures b <= k <= b + 3 && Valid(s[..b])
    decreases |s|
  {
    var n := RuneLen(s);
    RuneFits(s);
    if k < n || k == 0 {
      b := 0;
    } else {
      var rest := BoundaryNear(s[n..], k - n);
      b := n + rest;
      var front := s[..n];
      assert s == front + s[n..];
      RuneIsLocal(front, s[n..]);
      assert front[n..] == [];
      assert Valid(front);
      ValidJoins(front, s[n..][..rest]);
      assert s[..b] == front + s[n..][..rest];
    }
  }

  /** Of valid text at most three bytes are dropped. */
  lemma CutDropsLittle(raw: Bytes, keep: nat, truncated: Bytes)
    requires Valid(raw) && keep <= |raw| && LongestValid(truncated, raw, keep)
    ensures |truncated| + 3 >= keep
  {
    var b := BoundaryNear(raw, keep);
  }

  /** What a snippet with at most `limit` bytes must be. */
  ghost predicate IsSnippet(snippet: Bytes, raw: Bytes, limit: nat)
    requires limit >= 3
  {
    var text := Collapse(raw);
    if |text| <= limit then snippet == text
    else exists t: Bytes :: LongestValid(t, text, limit - 3) && snippet == TrimRight(TrimLeft(t)) + [0x2E, 0x2E, 0x2E]
  }

  method Shorten(raw: Bytes, limit: nat) returns (snippet: Bytes)
    requires limit >= 3
    ensures IsSnippet(snippet, raw, limit)
    ensures |snippet| <= limit
    ensures Valid(raw) || |Collapse(raw)| > limit ==> Valid(snippet)
  {
    var text := Collapse(raw);
    if Valid(raw) { CollapseKeepsValid(raw); }
    if |text| <= limit {
      return text;
    }
    var truncated := Cut(text, limit - 3);
    TrimLeftKeepsValid(truncated);
    TrimRightKeepsValid(TrimLeft(truncated));
    DotsAreValid();
    ValidJoins(TrimRight(TrimLeft(truncated)), DOTS);
    return TrimRight(TrimLeft(truncated)) + DOTS;
  }

  lemma DotsAreValid()
    ensures Valid(DOTS)
  {
    assert DOTS[1..][1..][1..] == [];
    assert Valid(DOTS[1..][1..]);
    assert Valid(DOTS[1..]);
  }

  method SnippetText(raw: Bytes) returns (snippet: Bytes)
    ensures IsSnippet(snippet, raw, 180) && |snippet| <= 180
    ensures Valid(raw) || |Collapse(raw)| > 180 ==> Valid(snippet)
  {
    snippet := Shorten(raw, 180);
  }

  method LocalLibrarySnippet(raw: Bytes) returns (snippet: Bytes)
    ensures IsSnippet(snippet, raw, 240) && |snippet| <= 240
    ensures Valid(raw) || |Collapse(raw)| > 240 ==> Valid(snippet)
  {
    snippet := Shorten(raw, 240);
  }
}
