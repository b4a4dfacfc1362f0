/** Text helpers of the Codex console: decimals, identifiers and single markdown lines. */
module ConsoleText {
  import opened Text

  // ---- Decimals ----

  function Digit(d: nat): char
    requires d < 10
  {
    ('0' as int + d) as char
  }

  /** The format %d, for numbers that are not negative. */
  function Decimal(n: nat): string {
    if n < 10 then [Digit(n)] else Decimal(n / 10) + [Digit(n % 10)]
  }

  function ValueOf(s: string): int {
    if s == "" then 0 else 10 * ValueOf(s[..|s| - 1]) + (s[|s| - 1] as int - '0' as int)
  }

  /** Distinct numbers are written differently. */
  lemma {:induction false} DecimalReadsBack(n: nat)
    ensures ValueOf(Decimal(n)) == n
  {
    if n < 10 {
      assert ValueOf([Digit(n)][..0]) == 0;
    } else {
      DecimalReadsBack(n / 10);
      var s := Decimal(n);
      assert s[..|s| - 1] == Decimal(n / 10) && s[|s| - 1] == Digit(n % 10);
    }
  }

  lemma {:induction false} DecimalIsDigits(n: nat)
    ensures Decimal(n) != "" && forall c :: c in Decimal(n) ==> '0' <= c <= '9'
  {
    if n >= 10 { DecimalIsDigits(n / 10); }
  }

  // ---- Identifiers ----

  function TrimStart(s: string, c: char): string {
    if s != "" && s[0] == c then TrimStart(s[1..], c) else s
  }

  function TrimEnd(s: string, c: char): string {
    if s != "" && s[|s| - 1] == c then TrimEnd(s[..|s| - 1], c) else s
  }

  /** strings.Trim with a single character. */
  function Trim(s: string, c: char): string {
    TrimEnd(TrimStart(s, c), c)
  }

  predicate IdChar(c: char) {
    'a' <= c <= 'z' || '0' <= c <= '9'
  }

  /** Every run of other characters becomes one dash. */
  function Dashed(s: string, lastDash: bool): string {
    if s == "" then ""
    else if IdChar(s[0]) then [s[0]] + Dashed(s[1..], false)
    else if lastDash then Dashed(s[1..], true)
    else "-" + Dashed(s[1..], true)
  }

  function NormalId(value: string): string {
    var id := Trim(Dashed(Lower(TrimSpace(value)), false), '-');
    if id == "" then "item" else if |id| > 72 then id[..72] else id
  }

  predicate IsSlug(s: string) {
    forall i :: 0 <= i < |s| ==> 'a' <= s[i] <= 'z' || '0' <= s[i] <= '9' || s[i] == '-'
  }

  lemma {:induction false} DashedIsSlug(s: string, lastDash: bool)
    ensures IsSlug(Dashed(s, lastDash))
  {
    if s != "" { DashedIsSlug(s[1..], !IdChar(s[0])); }
  }

  lemma {:induction false} TrimStartIsSlug(s: string, c: char)
    requires IsSlug(s)
    ensures IsSlug(TrimStart(s, c))
  {
    if s != "" && s[0] == c { TrimStartIsSlug(s[1..], c); }
  }

  lemma {:induction false} TrimEndIsSlug(s: string, c: char)
    requires IsSlug(s)
    ensures IsSlug(TrimEnd(s, c)) && |TrimEnd(s, c)| <= |s|
  {
    if s != "" && s[|s| - 1] == c { TrimEndIsSlug(s[..|s| - 1], c); }
  }

  /** A normalized identifier has letters, digits and dashes only, and at least one of them. */
  lemma NormalIdIsSlug(value: string)
    ensures IsSlug(NormalId(value)) && 1 <= |NormalId(value)| <= 72
  {
    DashedIsSlug(Lower(TrimSpace(value)), false);
    TrimStartIsSlug(Dashed(Lower(TrimSpace(value)), false), '-');
    TrimEndIsSlug(TrimStart(Dashed(Lower(TrimSpace(value)), false), '-'), '-');
  }

  /** A slug in its final form: single dashes, and only inside. */
  ghost predicate TidySlug(s: string) {
    && s != ""
    && (forall c :: c in s ==> 'a' <= c <= 'z' || '0' <= c <= '9' || c == '-')
    && s[0] != '-' && s[|s| - 1] != '-' && SingleDashes(s)
  }

  ghost predicate SingleDashes(s: string) {
    forall i :: 0 <= i < |s| - 1 ==> s[i] != '-' || s[i + 1] != '-'
  }

  lemma {:induction false} DashedHasSingleDashes(s: string, lastDash: bool)
    ensures SingleDashes(Dashed(s, lastDash)) && (lastDash && Dashed(s, lastDash) != "" ==> Dashed(s, lastDash)[0] != '-')
  {
    if s != "" { DashedHasSingleDashes(s[1..], !IdChar(s[0])); }
  }

  lemma {:induction false} TrimStartIsSuffix(s: string, c: char)
    ensures |TrimStart(s, c)| <= |s| && TrimStart(s, c) == s[|s| - |TrimStart(s, c)|..]
    ensures TrimStart(s, c) != "" ==> TrimStart(s, c)[0] != c
  {
    if s != "" && s[0] == c { TrimStartIsSuffix(s[1..], c); }
  }

  lemma {:induction false} TrimEndIsPrefix(s: string, c: char)
    ensures TrimEnd(s, c) <= s && (TrimEnd(s, c) != "" ==> TrimEnd(s, c)[|TrimEnd(s, c)| - 1] != c)
  {
    if s != "" && s[|s| - 1] == c { TrimEndIsPrefix(s[..|s| - 1], c); }
  }

  lemma TrimmedIsTidy(s: string)
    requires SingleDashes(s) && IsSlug(s)
    ensures SingleDashes(Trim(s, '-')) && IsSlug(Trim(s, '-'))
    ensures Trim(s, '-') != "" ==> TidySlug(Trim(s, '-'))
  {
    TrimStartIsSuffix(s, '-');
    TrimEndIsPrefix(TrimStart(s, '-'), '-');
    var t, k := Trim(s, '-'), |s| - |TrimStart(s, '-')|;
    hide TrimStart, TrimEnd;
    forall i | 0 <= i < |t| ensures t[i] == s[k + i] { assert TrimStart(s, '-')[i] == s[k + i]; }
    forall i | 0 <= i < |t| - 1 ensures t[i] != '-' || t[i + 1] != '-' { assert t[i] == s[k + i] && t[i + 1] == s[k + i + 1]; }
  }

  lemma CutIsTidyIff(t: string)
    requires TidySlug(t) && |t| > 72
    ensures TidySlug(t[..72]) <==> t[71] != '-'
  {
    var cut := t[..72];
    assert forall c :: c in cut ==> c in t;
    forall i | 0 <= i < |cut| - 1 ensures cut[i] != '-' || cut[i + 1] != '-' { assert cut[i] == t[i] && cut[i + 1] == t[i + 1]; }
  }

  /** An identifier is a tidy slug, unless the cut at 72 characters leaves a dash at its end. */
  lemma NormalIdIsTidyIff(value: string)
    ensures NormalId(value) != ""
    ensures TidySlug(NormalId(value)) <==> NormalId(value)[|NormalId(value)| - 1] != '-'
  {
    var lower := Lower(TrimSpace(value));
    DashedHasSingleDashes(lower, false);
    DashedIsSlug(lower, false);
    TrimmedIsTidy(Dashed(lower, false));
    ItemIsTidy();
    hide Lower, TrimSpace, Dashed, Trim, TidySlug, SingleDashes, IsSlug;
    var t := Trim(Dashed(lower, false), '-');
    if |t| > 72 { CutIsTidyIff(t); }
    if t != "" { TidyEnds(t); }
  }

  lemma ItemIsTidy()
    ensures TidySlug("item")
  {
  }

  lemma TidyEnds(t: string)
    requires TidySlug(t)
    ensures t != "" && t[|t| - 1] != '-'
  {
  }

  lemma SinglePair(s: string, i: nat)
    requires SingleDashes(s) && i < |s| - 1
    ensures s[i] != '-' || s[i + 1] != '-'
  {
  }

  lemma {:induction false} TidyIsDashed(s: string, lastDash: bool)
    requires forall c :: c in s ==> 'a' <= c <= 'z' || '0' <= c <= '9' || c == '-'
    requires SingleDashes(s) && (lastDash && s != "" ==> s[0] != '-')
    ensures Dashed(s, lastDash) == s
  {
    if s != "" {
      var rest := s[1..];
      forall i | 0 <= i < |rest| - 1 ensures rest[i] != '-' || rest[i + 1] != '-' {
        assert rest[i] == s[i + 1] && rest[i + 1] == s[i + 2];
      }
      assert SingleDashes(rest);
      assert forall c :: c in rest ==> c in s;
      assert rest != "" ==> s[0] != '-' || s[1] != '-' by {
        if rest != "" { SinglePair(s, 0); }
      }
      assert s[0] in s;
      TidyIsDashed(rest, s[0] == '-');
      assert s == [s[0]] + s[1..];
    }
  }

  /** Tidy slugs of at most 72 characters are identifiers as they stand. */
  lemma TidySlugStays(s: string)
    requires TidySlug(s) && |s| <= 72
    ensures NormalId(s) == s
  {
    assert s[0] in s && s[|s| - 1] in s;
    TrimmedIsFixed(s);
    forall i | 0 <= i < |s| ensures Lower(s)[i] == s[i] { assert s[i] in s; }
    assert Lower(s) == s;
    TidyIsDashed(s, false);
  }

  /** Normalizing again changes nothing, exactly unless the cut left a dash at the end. */
  lemma NormalIdAgainIff(value: string)
    ensures NormalId(NormalId(value)) == NormalId(value) <==> NormalId(value)[|NormalId(value)| - 1] != '-'
  {
    hide *;
    var id := NormalId(value);
    NormalIdIsSlug(value);
    NormalIdIsTidyIff(value);
    if TidySlug(id) { TidySlugStays(id); } else { DashIsLost(id); }
  }

  lemma DashIsLost(id: string)
    requires id != "" && |id| <= 72 && id[|id| - 1] == '-'
    ensures NormalId(id) != id
  {
    var dashed := Dashed(Lower(TrimSpace(id)), false);
    TrimEndIsPrefix(TrimStart(dashed, '-'), '-');
    hide Dashed, TrimStart, TrimEnd, TrimSpace, Lower;
    if |Trim(dashed, '-')| > 72 {
      DashedFits(Lower(TrimSpace(id)), false);
      TrimStartIsSuffix(dashed, '-');
      var i, j := TrimSpaceCuts(id);
      LowerFits(TrimSpace(id));
    }
  }

  lemma LowerFits(s: string)
    ensures |Lower(s)| == |s|
  {
  }

  lemma {:induction false} DashedFits(s: string, lastDash: bool)
    ensures |Dashed(s, lastDash)| <= |s|
  {
    if s != "" { DashedFits(s[1..], !IdChar(s[0])); }
  }

  function LetterOf(c: char): string {
    if 'a' <= c <= 'z' || '0' <= c <= '9' then [c] else ""
  }

  /** The letters and digits of a text. */
  function Letters(s: string): string {
    if s == "" then "" else LetterOf(s[0]) + Letters(s[1..])
  }

  lemma {:induction false} DashesHideNothing(s: string, lastDash: bool)
    ensures Letters(Dashed(s, lastDash)) == Letters(s)
  {
    if s != "" {
      DashesHideNothing(s[1..], !IdChar(s[0]));
      var rest := Dashed(s[1..], !IdChar(s[0]));
      assert ([s[0]] + rest)[1..] == rest && ("-" + rest)[1..] == rest;
    }
  }

  lemma {:induction false} LettersJoin(a: string, b: string)
    ensures Letters(a + b) == Letters(a) + Letters(b)
  {
    hide LetterOf;
    if a == "" {
      assert a + b == b;
    } else {
      var s := a + b;
      LettersJoin(a[1..], b);
      assert s[1..] == a[1..] + b && s[0] == a[0];
    }
  }

  lemma {:induction false} TrimStartHidesNothing(s: string)
    ensures Letters(TrimStart(s, '-')) == Letters(s)
  {
    if s != "" && s[0] == '-' { TrimStartHidesNothing(s[1..]); }
  }

  lemma {:induction false} TrimEndHidesNothing(s: string)
    ensures Letters(TrimEnd(s, '-')) == Letters(s)
  {
    if s != "" && s[|s| - 1] == '-' {
      var front := s[..|s| - 1];
      TrimEndHidesNothing(front);
      LettersJoin(front, "-");
      assert s == front + "-" && "-"[1..] == "";
    }
  }

  /** No letter and no digit is lost or added, but for the cut at 72 characters and the name of a blank one. */
  lemma LettersStay(value: string)
    ensures var letters := Letters(Lower(TrimSpace(value)));
      if letters == "" then NormalId(value) == "item" else Letters(NormalId(value)) <= letters
    ensures |NormalId(value)| < 72 && Letters(Lower(TrimSpace(value))) != "" ==>
      Letters(NormalId(value)) == Letters(Lower(TrimSpace(value)))
  {
    hide Lower, TrimSpace;
    var lower := Lower(TrimSpace(value));
    var dashed := Dashed(lower, false);
    DashesHideNothing(lower, false);
    TrimStartHidesNothing(dashed);
    TrimEndHidesNothing(TrimStart(dashed, '-'));
    var id := Trim(dashed, '-');
    DashedIsSlug(lower, false);
    TrimStartIsSlug(dashed, '-');
    TrimEndIsSlug(TrimStart(dashed, '-'), '-');
    TrimEndIsPrefix(TrimStart(dashed, '-'), '-');
    TrimStartIsSuffix(dashed, '-');
    hide Dashed, TrimStart, TrimEnd;
    if |id| > 72 {
      LettersJoin(id[..72], id[72..]);
      assert id == id[..72] + id[72..];
    }
    if id != "" { LettersAtStart(id); }
  }

  lemma LettersAtStart(id: string)
    requires id != "" && IsSlug(id) && id[0] != '-'
    ensures Letters(id) != ""
  {
  }

  // ---- Single lines ----

  /** The word that `s` begins with. */
  function Word(s: string): string {
    if s == "" || IsSpace(s[0]) then "" else [s[0]] + Word(s[1..])
  }

  lemma {:induction false} WordFits(s: string)
    ensures |Word(s)| <= |s| && (s != "" && !IsSpace(s[0]) ==> Word(s) != "")
    ensures forall c :: c in Word(s) ==> !IsSpace(c)
  {
    if s != "" && !IsSpace(s[0]) { WordFits(s[1..]); }
  }

  /** strings.Fields. */
  function Fields(s: string): seq<string>
    decreases |s|
  {
    if s == "" then []
    else if IsSpace(s[0]) then Fields(s[1..])
    else
      WordFits(s);
      [Word(s)] + Fields(s[|Word(s)|..])
  }

  /** A word without white space. */
  predicate Solid(w: string) {
    w != "" && forall c :: c in w ==> !IsSpace(c)
  }

  lemma {:induction false} WordIsFound(w: string, s: string)
    requires Solid(w) && (s == "" || IsSpace(s[0]))
    ensures Word(w + s) == w
  {
    assert w[0] in w && (w + s)[1..] == w[1..] + s;
    if |w| > 1 {
      WordIsFound(w[1..], s);
    } else {
      assert w[1..] + s == s;
    }
  }

  /** White space separates the words, and makes none of its own. */
  lemma FieldsMean(w: string, c: char, s: string)
    requires Solid(w) && IsSpace(c)
    ensures Fields("") == [] && Fields([c] + s) == Fields(s) && Fields(w) == [w]
    ensures Fields(w + ([c] + s)) == [w] + Fields(s)
  {
    WordIsFound(w, "");
    WordIsFound(w, [c] + s);
    assert w[0] in w && w + "" == w && ([c] + s)[1..] == s;
    assert (w + ([c] + s))[|w|..] == [c] + s && w[|w|..] == "";
  }

  lemma {:induction false} FieldsHaveNoSpace(s: string)
    ensures forall word :: word in Fields(s) ==> word != "" && forall c :: c in word ==> !IsSpace(c)
    decreases |s|
  {
    if s != "" {
      if IsSpace(s[0]) {
        FieldsHaveNoSpace(s[1..]);
      } else {
        WordFits(s);
        FieldsHaveNoSpace(s[|Word(s)|..]);
      }
    }
  }

  /** One line of markdown; `truncate` cleans and shortens the value. */
  function MarkdownLine(value: string, fallback: string, truncate: string -> string): string {
    var line := Join(Fields(ReplaceAll(truncate(value), NL, ' ')), ' ');
    if line == "" then fallback else line
  }

  /** Only the fallback can bring a line break into a markdown line. */
  lemma MarkdownLineIsLine(value: string, fallback: string, truncate: string -> string)
    requires NL !in fallback
    ensures NL !in MarkdownLine(value, fallback, truncate)
  {
    var words := Fields(ReplaceAll(truncate(value), NL, ' '));
    FieldsHaveNoSpace(ReplaceAll(truncate(value), NL, ' '));
    if NL in Join(words, ' ') {
      JoinHas(words, ' ', NL);
      var word :| word in words && NL in word;
      assert IsSpace(NL);
    }
  }
}
