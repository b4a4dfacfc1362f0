/** Fresh names in the Codex console: thread identifiers within a response, and categories of profile memory. */
module FreshNames {
  import opened Text
  import opened ConsoleText
  import opened Sets

  // ---- Thread identifiers ----

  /** The format %03d. */
  function ThreeDigits(n: nat): string {
    if n < 10 then "00" + Decimal(n) else if n < 100 then "0" + Decimal(n) else Decimal(n)
  }

  function GivenId(id: string, index: nat): string {
    if TrimSpace(id) == "" then "thread-" + ThreeDigits(index + 1) else TrimSpace(id)
  }

  /** The names tried in turn: the given one, then with the hash of its source, then with a counter as well. */
  function ThreadName(id: string, suffix: string, attempt: nat): string {
    if attempt == 0 then id
    else if attempt == 1 then id + "-" + suffix
    else id + "-" + suffix + "-" + Decimal(attempt)
  }

  /** A thread keeps the name it has, trimmed; one without gets its number from 1 on, filled up to three digits. */
  lemma GivenIdMeans(id: string, index: nat)
    ensures TrimSpace(id) != "" ==> GivenId(id, index) == TrimSpace(id)
    ensures TrimSpace(id) == "" ==> var digits := Decimal(index + 1);
      exists zeros: string :: (forall c :: c in zeros ==> c == '0') && |zeros| == (if |digits| < 3 then 3 - |digits| else 0)
        && GivenId(id, index) == "thread-" + (zeros + digits)
  {
    hide TrimSpace;
    var n := index + 1;
    var zeros := if n < 10 then "00" else if n < 100 then "0" else "";
    assert n < 10 ==> |Decimal(n)| == 1;
    assert 10 <= n < 100 ==> |Decimal(n)| == 2;
    if n >= 100 {
      assert |Decimal(n)| == |Decimal(n / 10)| + 1;
      assert |Decimal(n / 10)| == |Decimal(n / 10 / 10)| + 1;
      assert |Decimal(n / 10 / 10)| >= 1;
    }
    assert zeros + Decimal(n) == ThreeDigits(n);
  }

  /** The first three candidates, and a stem with its first two categories. */
  lemma NameExamples()
    ensures ThreadName("t", "s", 0) == "t" && ThreadName("t", "s", 1) == "t-s" && ThreadName("t", "s", 2) == "t-s-2"
    ensures Stem("") == "codex-memory" && Stem("w") == "w" && Stem(" -w- ") == "w"
    ensures Category("w", 0) == "w-codex" && Category("w", 1) == "w-codex-2"
  {
    TrimmedIsFixed("");
    TrimmedIsFixed("w");
    TrimAround(" ", "-w-", " ");
    assert " " + "-w-" + " " == " -w- ";
    StemExample();
    hide TrimSpace;
    assert Decimal(2) == "2";
  }

  lemma StemExample()
    ensures Trim("", '-') == "" && Trim("w", '-') == "w" && Trim("-w-", '-') == "w"
  {
    assert "-w-"[1..] == "w-" && "w-"[..1] == "w";
    assert TrimStart("w-", '-') == "w-" && TrimEnd("w", '-') == "w";
  }

  lemma ThreadNamesDiffer(id: string, suffix: string, i: nat, j: nat)
    requires i < j
    ensures ThreadName(id, suffix, i) != ThreadName(id, suffix, j)
  {
    if i >= 2 {
      var base := id + "-" + suffix + "-";
      DecimalReadsBack(i);
      DecimalReadsBack(j);
      assert ThreadName(id, suffix, i)[|base|..] == Decimal(i) && ThreadName(id, suffix, j)[|base|..] == Decimal(j);
    } else {
      assert |ThreadName(id, suffix, i)| < |ThreadName(id, suffix, j)|;
    }
  }

  /** The first name not taken; it is found within one more try than there are names taken. */
  method UniqueThreadId(rawId: string, index: nat, suffix: string, seen: set<string>) returns (name: string, tries: nat)
    ensures name !in seen
    ensures 1 <= tries <= |seen| + 1 && name == ThreadName(GivenId(rawId, index), suffix, tries - 1)
    ensures NamesTaken(GivenId(rawId, index), suffix, tries - 1, seen)
  {
    var id := TrimSpace(rawId);
    if id == "" {
      id := "thread-" + ThreeDigits(index + 1);
    }
    hide ThreadName;
    name, tries := FirstFreeName(id, suffix, seen);
  }

  method FirstFreeName(id: string, suffix: string, seen: set<string>) returns (name: string, tries: nat)
    ensures name !in seen
    ensures 1 <= tries <= |seen| + 1 && name == ThreadName(id, suffix, tries - 1)
    ensures NamesTaken(id, suffix, tries - 1, seen)
  {
    name, tries := id, 1;
    assert name == ThreadName(id, suffix, 0);
    ghost var tried: set<string> := {};
    assert AllTried(id, suffix, 0, tried) && NamesTaken(id, suffix, 0, seen);
    hide *;
    while name in seen
      invariant tries >= 1 && name == ThreadName(id, suffix, tries - 1)
      invariant NamesTaken(id, suffix, tries - 1, seen)
      invariant AllTried(id, suffix, tries - 1, tried)
      invariant tried <= seen && |tried| == tries - 1 <= |seen|
      decreases |seen| + 1 - tries
    {
      NewName(id, suffix, tries - 1, tried, seen);
      tried := tried + {name};
      SubsetIsSmaller(tried, seen);
      name := NextName(id, suffix, tries);
      tries := tries + 1;
    }
  }

  method NextName(id: string, suffix: string, tries: nat) returns (name: string)
    requires tries >= 1
    ensures name == ThreadName(id, suffix, tries)
  {
    return if tries == 1 then id + "-" + suffix else id + "-" + suffix + "-" + Decimal(tries);
  }

  ghost predicate AllTried(id: string, suffix: string, attempts: nat, tried: set<string>) {
    forall s :: s in tried ==> exists k :: 0 <= k < attempts && s == ThreadName(id, suffix, k)
  }

  /** The first `attempts` names are taken. */
  predicate NamesTaken(id: string, suffix: string, attempts: nat, seen: set<string>) {
    forall k :: 0 <= k < attempts ==> ThreadName(id, suffix, k) in seen
  }

  lemma NewName(id: string, suffix: string, attempt: nat, tried: set<string>, seen: set<string>)
    requires AllTried(id, suffix, attempt, tried) && NamesTaken(id, suffix, attempt, seen) && ThreadName(id, suffix, attempt) in seen
    ensures NamesTaken(id, suffix, attempt + 1, seen)
    ensures ThreadName(id, suffix, attempt) !in tried
    ensures AllTried(id, suffix, attempt + 1, tried + {ThreadName(id, suffix, attempt)})
  {
    hide ThreadName;
    forall s | s in tried ensures s != ThreadName(id, suffix, attempt) {
      var k :| 0 <= k < attempt && s == ThreadName(id, suffix, k);
      ThreadNamesDiffer(id, suffix, k, attempt);
    }
  }

  ghost predicate Distinct(names: seq<string>) {
    forall i, j :: 0 <= i < j < |names| ==> names[i] != names[j]
  }

  /** The name of thread `i`: its given identifier, or that with something behind it if it is taken. */
  predicate NamedAfter(rawIds: seq<string>, names: seq<string>, i: nat)
    requires i < |names| <= |rawIds|
  {
    var given := GivenId(rawIds[i], i);
    given <= names[i] && (given !in names[..i] ==> names[i] == given)
  }

  /** The identifiers of all threads of a response are pairwise distinct, and each keeps its own unless it is taken. */
  method ThreadIds(rawIds: seq<string>, suffixes: seq<string>) returns (names: seq<string>)
    requires |rawIds| == |suffixes|
    ensures |names| == |rawIds| && Distinct(names)
    ensures forall i :: 0 <= i < |names| ==> NamedAfter(rawIds, names, i)
  {
    names := [];
    var seen: set<string> := {};
    for i := 0 to |rawIds|
      invariant |names| == i && Distinct(names)
      invariant forall s :: s in seen <==> s in names
      invariant forall k :: 0 <= k < i ==> NamedAfter(rawIds, names, k)
    {
      var name, tries := UniqueThreadId(rawIds[i], i, suffixes[i], seen);
      OneMoreName(rawIds, names, suffixes[i], name, tries);
      names := names + [name];
      seen := seen + {name};
      hide NamedAfter, GivenId, ThreadName;
    }
  }

  lemma OneMoreName(rawIds: seq<string>, names: seq<string>, suffix: string, name: string, tries: nat)
    requires |names| < |rawIds| && name !in names && tries >= 1 && Distinct(names)
    requires name == ThreadName(GivenId(rawIds[|names|], |names|), suffix, tries - 1)
    requires tries > 1 ==> ThreadName(GivenId(rawIds[|names|], |names|), suffix, 0) in names
    requires forall k :: 0 <= k < |names| ==> NamedAfter(rawIds, names, k)
    ensures Distinct(names + [name]) && forall k :: 0 <= k <= |names| ==> NamedAfter(rawIds, names + [name], k)
  {
    var more := names + [name];
    NameExtends(GivenId(rawIds[|names|], |names|), suffix, tries - 1);
    assert more[..|names|] == names;
    hide GivenId;
    forall k | 0 <= k < |names| ensures NamedAfter(rawIds, more, k) {
      assert NamedAfter(rawIds, names, k) && more[..k] == names[..k];
    }
    assert NamedAfter(rawIds, more, |names|);
    forall i, j | 0 <= i < j < |more| ensures more[i] != more[j] {
      if j == |names| { assert names[i] in names; }
    }
  }

  lemma NameExtends(id: string, suffix: string, attempt: nat)
    ensures id <= ThreadName(id, suffix, attempt)
  {
  }

  /** Distinct identifiers are all kept. */
  lemma {:induction false} DistinctIdsAreKept(rawIds: seq<string>, names: seq<string>, n: nat)
    requires n <= |names| == |rawIds| && forall i :: 0 <= i < |names| ==> NamedAfter(rawIds, names, i)
    requires forall i, j :: 0 <= i < j < |rawIds| ==> GivenId(rawIds[i], i) != GivenId(rawIds[j], j)
    ensures forall i :: 0 <= i < n ==> names[i] == GivenId(rawIds[i], i)
  {
    if n > 0 {
      DistinctIdsAreKept(rawIds, names, n - 1);
      hide GivenId;
      assert NamedAfter(rawIds, names, n - 1);
    }
  }

  // ---- Profile categories ----

  const MAX_CATEGORY := 128
  const MAX_ATTEMPTS := 100

  function Stem(base: string): string {
    var stem := Trim(TrimSpace(base), '-');
    if stem == "" then "codex-memory" else stem
  }

  function CategorySuffix(attempt: nat): string {
    if attempt == 0 then "-codex" else "-codex-" + Decimal(attempt + 1)
  }

  /** Strings count their bytes here. */
  function Category(stem: string, attempt: nat): string {
    var limit := MAX_CATEGORY - |CategorySuffix(attempt)|;
    (if limit >= 0 && |stem| > limit then Trim(stem[..limit], '-') else stem) + CategorySuffix(attempt)
  }

  /** The digits that a name ends in. */
  function TrailingDigits(s: string): string {
    if s != "" && '0' <= s[|s| - 1] <= '9' then TrailingDigits(s[..|s| - 1]) + [s[|s| - 1]] else ""
  }

  lemma {:induction false} TrailingDigitsAre(front: string, digits: string)
    requires front != "" && !('0' <= front[|front| - 1] <= '9')
    requires forall i :: 0 <= i < |digits| ==> '0' <= digits[i] <= '9'
    ensures TrailingDigits(front + digits) == digits
  {
    if digits == "" {
      assert front + digits == front;
    } else {
      TrailingDigitsAre(front, digits[..|digits| - 1]);
      assert (front + digits)[..|front + digits| - 1] == front + digits[..|digits| - 1];
    }
  }

  lemma CategoryDigits(stem: string, attempt: nat)
    ensures attempt == 0 ==> TrailingDigits(Category(stem, attempt)) == ""
    ensures attempt > 0 ==> TrailingDigits(Category(stem, attempt)) == Decimal(attempt + 1)
  {
    var c, suffix := Category(stem, attempt), CategorySuffix(attempt);
    var cut := c[..|c| - |suffix|];
    assert c == cut + suffix;
    if attempt == 0 {
      assert c[|c| - 1] == 'x';
    } else {
      DecimalIsDigits(attempt + 1);
      var digits := Decimal(attempt + 1);
      assert forall i :: 0 <= i < |digits| ==> digits[i] in digits;
      hide Decimal, Category;
      assert c == (cut + "-codex-") + Decimal(attempt + 1);
      TrailingDigitsAre(cut + "-codex-", Decimal(attempt + 1));
    }
  }

  lemma CategoriesDiffer(stem: string, i: nat, j: nat)
    requires i < j
    ensures Category(stem, i) != Category(stem, j)
  {
    hide *;
    CategoryDigits(stem, i);
    CategoryDigits(stem, j);
    if i == 0 {
      DecimalIsDigits(j + 1);
    } else {
      DecimalReadsBack(i + 1);
      DecimalReadsBack(j + 1);
    }
  }

  lemma {:induction false} DecimalLength(n: nat, digits: nat)
    requires digits > 0 && n < Power(digits)
    ensures |Decimal(n)| <= digits
    decreases digits
  {
    if n >= 10 { DecimalLength(n / 10, digits - 1); }
  }

  function Power(n: nat): nat {
    if n == 0 then 1 else 10 * Power(n - 1)
  }

  /** A candidate fits into a category name. */
  lemma CategoryFits(stem: string, attempt: nat)
    requires attempt < MAX_ATTEMPTS
    ensures |Category(stem, attempt)| <= MAX_CATEGORY
  {
    assert Power(1) == 10 && Power(2) == 100 && Power(3) == 1000;
    DecimalLength(attempt + 1, 3);
    hide Decimal;
    var limit := MAX_CATEGORY - |CategorySuffix(attempt)|;
    if limit >= 0 && |stem| > limit { TrimFits(stem[..limit]); }
  }

  lemma TrimFits(s: string)
    ensures |Trim(s, '-')| <= |s|
  {
    TrimStartFits(s);
    TrimEndFits(TrimStart(s, '-'));
  }

  lemma {:induction false} TrimStartFits(s: string)
    ensures |TrimStart(s, '-')| <= |s|
  {
    if s != "" && s[0] == '-' { TrimStartFits(s[1..]); }
  }

  lemma {:induction false} TrimEndFits(s: string)
    ensures |TrimEnd(s, '-')| <= |s|
  {
    if s != "" && s[|s| - 1] == '-' { TrimEndFits(s[..|s| - 1]); }
  }

  predicate TakenBefore(stem: string, i: nat, used: set<string>) {
    forall j :: 0 <= j < i ==> Category(stem, j) in used
  }

  /**
   * A free category of at most 128 bytes. It fails exactly when all hundred candidates are taken, and those are
   * pairwise distinct, so never while fewer than a hundred categories exist.
   */
  method UniqueCategory(base: string, used: set<string>) returns (category: Option<string>)
    ensures category.Some? ==> category.value !in used && |category.value| <= MAX_CATEGORY
    ensures category.Some? ==> exists i :: 0 <= i < MAX_ATTEMPTS && category.value == Category(Stem(base), i) && TakenBefore(Stem(base), i, used)
    ensures category.None? <==> TakenBefore(Stem(base), MAX_ATTEMPTS, used)
    ensures |used| < MAX_ATTEMPTS ==> category.Some?
  {
    var stem := Stem(base);
    ghost var tried: set<string> := {};
    hide Category, Stem;
    for index := 0 to MAX_ATTEMPTS
      invariant TakenBefore(stem, index, used)
      invariant forall s :: s in tried ==> exists k :: 0 <= k < index && s == Category(stem, k)
      invariant tried <= used && |tried| == index
    {
      var candidate := CategoryCandidate(stem, index);
      if candidate !in used {
        CategoryFits(stem, index);
        return Some(candidate);
      }
      NewCategory(stem, index, tried);
      tried := tried + {candidate};
    }
    SubsetIsSmaller(tried, used);
    return None;
  }

  lemma NewCategory(stem: string, index: nat, tried: set<string>)
    requires forall s :: s in tried ==> exists k :: 0 <= k < index && s == Category(stem, k)
    ensures Category(stem, index) !in tried
  {
    forall s | s in tried ensures s != Category(stem, index) {
      var k :| 0 <= k < index && s == Category(stem, k);
      CategoriesDiffer(stem, k, index);
    }
  }

  method CategoryCandidate(stem: string, index: nat) returns (candidate: string)
    requires index < MAX_ATTEMPTS
    ensures candidate == Category(stem, index)
  {
    var suffix := "-codex";
    if index > 0 {
      suffix := "-codex-" + Decimal(index + 1);
    }
    var limit := MAX_CATEGORY - |suffix|;
    var nextStem := stem;
    if limit >= 0 && |nextStem| > limit {
      nextStem := Trim(nextStem[..limit], '-');
    }
    return nextStem + suffix;
  }
}
