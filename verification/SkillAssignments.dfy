/** Assigned skill paths: how they are normalized when assignments are saved and again whenever they are read. */
module SkillAssignments {
  import opened Text
  import opened Paths
  import opened RelPaths

  // ---- path.Clean on strings ----

  /** The segments of a rooted path without "", "." and "..", which cannot lead above the root. */
  function CleanRooted(segments: Path): Path {
    if segments == [] then []
    else
      var front, last := CleanRooted(segments[..|segments| - 1]), segments[|segments| - 1];
      if last == "" || last == "." then front
      else if last == ".." then (if front == [] then [] else front[..|front| - 1])
      else front + [last]
  }

  /** path.Clean. */
  function Clean(s: string): string {
    if s == "" then "."
    else if s[0] == '/' then "/" + Join(CleanRooted(Split(s, '/')), '/')
    else
      var segments := CleanRel(Split(s, '/'));
      if segments == [] then "." else Join(segments, '/')
  }

  predicate EndsWith(s: string, suffix: string) {
    |suffix| <= |s| && s[|s| - |suffix|..] == suffix
  }

  // ---- Normalization ----

  function SkillsRoot(): string {
    "/skills"
  }

  function SkillFile(): string {
    "/SKILL.md"
  }

  /** The directory of a skill file, or the path itself, without one trailing slash. */
  function SkillDir(clean: string): string {
    var dir := if EndsWith(clean, SkillFile()) then Clean(clean[..|clean| - |SkillFile()| + 1]) else clean;
    if EndsWith(dir, "/") then dir[..|dir| - 1] else dir
  }

  /** The path put below the skills root. */
  function Rooted(dir: string): string {
    var abs := if dir != "" && dir[0] == '/' then dir else "/" + dir;
    if SkillsRoot() + "/" <= abs then abs else SkillsRoot() + abs
  }

  /** Only paths at or below the skills root are kept. */
  function Accepted(path: string): string {
    if path == SkillsRoot() || SkillsRoot() + "/" <= path then path else ""
  }

  function Normalize(value: string): string {
    var clean := TrimSpace(ReplaceAll(value, '\\', '/'));
    if clean == "" then ""
    else
      var dir := SkillDir(clean);
      if dir == "" || dir == "." then "" else Accepted(Clean(Rooted(dir)))
  }

  // ---- What cleaning does to a string ----

  lemma {:induction false} RootedSegments(segments: Path, s: string)
    requires s in CleanRooted(segments)
    ensures s in segments && PlainSegment(s)
  {
    if segments != [] {
      var front, last := CleanRooted(segments[..|segments| - 1]), segments[|segments| - 1];
      assert last in segments;
      if s in front {
        RootedSegments(segments[..|segments| - 1], s);
        assert s in segments;
      }
    }
  }

  lemma {:induction false} RootedKeepsPlain(p: Path)
    requires forall s :: s in p ==> PlainSegment(s)
    ensures CleanRooted(p) == p && CleanRooted([""] + p) == p
  {
    hide PlainSegment;
    BlankInFront(p);
    if p != [] {
      RootedKeepsPlain(p[..|p| - 1]);
      assert PlainSegment(p[|p| - 1]);
      PlainAtEnd(p[..|p| - 1], p[|p| - 1]);
      assert p[..|p| - 1] + [p[|p| - 1]] == p;
    }
  }

  lemma PlainAtEnd(front: Path, last: string)
    requires PlainSegment(last)
    ensures CleanRooted(front + [last]) == CleanRooted(front) + [last]
  {
    assert (front + [last])[..|front|] == front;
  }

  lemma {:induction false} BlankInFront(p: Path)
    ensures CleanRooted([""] + p) == CleanRooted(p)
  {
    if p == [] {
      assert ([""] + p)[..0] == [];
    } else {
      BlankInFront(p[..|p| - 1]);
      assert ([""] + p)[..|p|] == [""] + p[..|p| - 1];
    }
  }

  /** The length of the joined segments, each with a slash before it. */
  function SlashedLength(p: Path): nat {
    if p == [] then 0 else SlashedLength(p[..|p| - 1]) + 1 + |p[|p| - 1]|
  }

  lemma {:induction false} JoinLength(p: Path)
    ensures p != [] ==> |Join(p, '/')| + 1 == SlashedLength(p)
  {
    if |p| > 1 {
      JoinLength(p[..|p| - 1]);
      JoinSnoc(p[..|p| - 1], p[|p| - 1], '/');
      assert p[..|p| - 1] + [p[|p| - 1]] == p;
    } else if |p| == 1 {
      assert p[..0] == [];
    }
  }

  lemma {:induction false} CleaningShortens(segments: Path)
    requires segments != [] && segments[0] == ""
    ensures SlashedLength(CleanRooted(segments)) + 1 <= SlashedLength(segments)
  {
    if |segments| == 1 {
      assert segments[..0] == [];
    } else {
      var front, last := CleanRooted(segments[..|segments| - 1]), segments[|segments| - 1];
      CleaningShortens(segments[..|segments| - 1]);
      if last != "" && last != "." && last != ".." { assert (front + [last])[..|front|] == front; }
    }
  }

  /** Cleaning a rooted path never makes it longer. */
  lemma CleanShortens(s: string)
    requires s != "" && s[0] == '/'
    ensures |Clean(s)| <= |s| && Clean(s) != "" && Clean(s)[0] == '/'
  {
    var parts := Split(s, '/');
    JoinUndoesSplit(s, '/');
    JoinLength(parts);
    assert parts[0] == "";
    CleaningShortens(parts);
    JoinLength(CleanRooted(parts));
    hide Join, Split, CleanRooted;
  }

  lemma {:induction false} RelativeSegments(segments: Path, s: string)
    requires s in CleanRel(segments)
    ensures s in segments
  {
    if segments != [] {
      assert segments[|segments| - 1] in segments;
      if s in CleanRel(segments[..|segments| - 1]) {
        RelativeSegments(segments[..|segments| - 1], s);
      }
    }
  }

  /** Cleaning brings no character in, except for slashes and a single dot. */
  lemma CleanBringsNothing(s: string, c: char)
    requires c in Clean(s) && c != '/' && c != '.'
    ensures c in s
  {
    var parts := Split(s, '/');
    JoinUndoesSplit(s, '/');
    var cleaned := if s != "" && s[0] == '/' then CleanRooted(parts) else CleanRel(parts);
    assert c in Join(cleaned, '/');
    JoinHas(cleaned, '/', c);
    var part :| part in cleaned && c in part;
    assert part in parts by {
      if s != "" && s[0] == '/' { RootedSegments(parts, part); } else { RelativeSegments(parts, part); }
    }
    PartInJoin(parts, part, c);
  }

  lemma {:induction false} PartInJoin(parts: seq<string>, part: string, c: char)
    requires part in parts && c in part
    ensures c in Join(parts, '/')
  {
    if |parts| > 1 && part != parts[0] {
      assert part in parts[1..];
      PartInJoin(parts[1..], part, c);
    }
  }

  /** A cleaned rooted path is clean, and does not end in a slash unless it is the root. */
  lemma CleanIsClean(s: string)
    requires s != "" && s[0] == '/'
    ensures Clean(Clean(s)) == Clean(s) && (|Clean(s)| > 1 ==> Clean(s)[|Clean(s)| - 1] != '/')
  {
    var segments := CleanRooted(Split(s, '/'));
    forall x | x in segments ensures PlainSegment(x) && '/' !in x {
      RootedSegments(Split(s, '/'), x);
      SplitPartsAreBare(s, '/', x);
    }
    CleanOfPlain(segments);
  }

  lemma CleanOfPlain(p: Path)
    requires forall s :: s in p ==> PlainSegment(s) && '/' !in s
    ensures Clean("/" + Join(p, '/')) == "/" + Join(p, '/')
    ensures p != [] ==> Join(p, '/') != "" && Join(p, '/')[|Join(p, '/')| - 1] != '/'
  {
    var s := "/" + Join(p, '/');
    if p == [] {
      SplitAtSep("", "", '/');
      assert "" + ['/'] + "" == s && [""] + [""] == ["", ""];
      assert Split(s, '/') == ["", ""];
      assert ["", ""][..1] == [""] && [""][..0] == [];
      assert CleanRooted(["", ""]) == [];
    } else {
      SplitUndoesJoin(p, '/');
      SplitAtSep("", Join(p, '/'), '/');
      assert "" + ['/'] + Join(p, '/') == s;
      RootedKeepsPlain(p);
      LastOfJoin(p);
    }
  }

  lemma LastOfJoin(p: Path)
    requires p != [] && forall s :: s in p ==> PlainSegment(s) && '/' !in s
    ensures Join(p, '/') != "" && Join(p, '/')[|Join(p, '/')| - 1] != '/'
  {
    var last := p[|p| - 1];
    assert last in p && PlainSegment(last);
    if |p| > 1 {
      JoinSnoc(p[..|p| - 1], last, '/');
      assert p[..|p| - 1] + [last] == p;
    }
    assert last[|last| - 1] in last;
  }

  // ---- What ordinary paths become ----

  predicate Named(s: string) {
    PlainSegment(s) && Trimmed(s) && '/' !in s && '\\' !in s
  }

  function Spelled(p: Path, rooted: bool): string {
    (if rooted then "/" else "") + Join(p, '/')
  }

  lemma {:induction false} JoinAvoids(p: Path, c: char)
    requires c != '/' && forall s :: s in p ==> c !in s
    ensures c !in Join(p, '/')
  {
    if c in Join(p, '/') { JoinHas(p, '/', c); }
  }

  /** How a joined path begins and ends. */
  lemma JoinEnds(p: Path)
    requires p != [] && p[0] != "" && p[|p| - 1] != ""
    ensures var j, last := Join(p, '/'), p[|p| - 1];
      j != "" && j[0] == p[0][0] && j[|j| - 1] == last[|last| - 1] && (|p| > 1 ==> |j| > 1)
  {
    if |p| > 1 {
      var front := Join(p[..|p| - 1], '/');
      JoinSnoc(p[..|p| - 1], p[|p| - 1], '/');
      assert p[..|p| - 1] + [p[|p| - 1]] == p;
      assert Join(p, '/') == front + (['/'] + p[|p| - 1]);
    }
  }

  lemma SpelledIsTidy(p: Path, rooted: bool)
    requires p != [] && forall s :: s in p ==> Named(s)
    ensures var x := Spelled(p, rooted);
      x != "" && Trimmed(x) && '\\' !in x && x[|x| - 1] != '/' && (x[0] == '/' <==> rooted) && (!rooted ==> x != ".")
  {
    var last := p[|p| - 1];
    assert Named(p[0]) && Named(last) by { assert p[0] in p && last in p; }
    JoinEnds(p);
    JoinAvoids(p, '\\');
    assert p[0][0] in p[0] && last[|last| - 1] in last;
    assert |p| == 1 ==> Join(p, '/') == p[0];
    hide Join;
  }

  lemma CleanOfSpelled(p: Path, rooted: bool)
    requires p != [] && forall s :: s in p ==> Named(s)
    ensures Clean(Spelled(p, rooted) + "/") == Spelled(p, rooted)
  {
    hide *;
    SpelledIsTidy(p, rooted);
    forall s | s in p ensures PlainSegment(s) && '/' !in s { NamedIsBare(s); }
    SplitOfSpelled(p, rooted);
    SplitAtLast(Spelled(p, rooted), "");
    assert '/' !in "";
    assert Spelled(p, rooted) + "/" + "" == Spelled(p, rooted) + "/";
    CleanKeepsPlainPaths(p);
    RootedKeepsPlain(p);
    var q := (if rooted then [""] else []) + p;
    BlankAtEnd(q);
    assert !rooted ==> q == p;
    CleanBySplit(Spelled(p, rooted) + "/");
    SpelledUnfolds(p, rooted);
  }

  lemma SpelledUnfolds(p: Path, rooted: bool)
    ensures Spelled(p, rooted) == (if rooted then "/" else "") + Join(p, '/') && (!rooted ==> Spelled(p, rooted) == Join(p, '/'))
  {
  }

  lemma BlankAtEnd(q: Path)
    ensures CleanRel(q + [""]) == CleanRel(q) && CleanRooted(q + [""]) == CleanRooted(q)
  {
    assert (q + [""])[..|q|] == q;
  }

  lemma CleanBySplit(s: string)
    requires s != ""
    ensures s[0] == '/' ==> Clean(s) == "/" + Join(CleanRooted(Split(s, '/')), '/')
    ensures s[0] != '/' && CleanRel(Split(s, '/')) != [] ==> Clean(s) == Join(CleanRel(Split(s, '/')), '/')
  {
  }

  /** The skill file at the end of a path is dropped, and nothing else is. */
  lemma SkillDirOfSpelled(p: Path, rooted: bool)
    requires p != [] && forall s :: s in p ==> Named(s)
    ensures SkillDir(Spelled(p, rooted) + SkillFile()) == Spelled(p, rooted)
    ensures p[|p| - 1] != "SKILL.md" ==> SkillDir(Spelled(p, rooted)) == Spelled(p, rooted)
  {
    hide *;
    var x := Spelled(p, rooted);
    SpelledIsTidy(p, rooted);
    CleanOfSpelled(p, rooted);
    forall s | s in p ensures '/' !in s { NamedIsBare(s); }
    if EndsWith(x, "/SKILL.md") { NoSkillFile(p, rooted); }
    DirOfFile(x);
  }

  lemma NamedIsBare(s: string)
    requires Named(s)
    ensures PlainSegment(s) && '/' !in s
  {
  }

  lemma DirOfFile(x: string)
    requires x != "" && x[|x| - 1] != '/'
    ensures Clean(x + "/") == x ==> SkillDir(x + SkillFile()) == x
    ensures !EndsWith(x, "/SKILL.md") ==> SkillDir(x) == x
  {
    var y := x + SkillFile();
    assert y[..|y| - 9 + 1] == x + "/" && y[|y| - 9..] == SkillFile();
    hide Clean;
  }

  lemma SplitAtLast(a: string, b: string)
    requires '/' !in b
    ensures Split(a + "/" + b, '/') == Split(a, '/') + [b]
  {
    var parts := Split(a, '/');
    JoinUndoesSplit(a, '/');
    JoinSnoc(parts, b, '/');
    forall part | part in parts + [b] ensures '/' !in part { if part in parts { SplitPartsAreBare(a, '/', part); } }
    SplitUndoesJoin(parts + [b], '/');
  }

  lemma SplitOfSpelled(p: Path, rooted: bool)
    requires p != [] && forall s :: s in p ==> '/' !in s
    ensures Split(Spelled(p, rooted), '/') == (if rooted then [""] else []) + p
  {
    SplitUndoesJoin(p, '/');
    SplitAtSep("", Join(p, '/'), '/');
    assert Spelled(p, true) == "" + ['/'] + Join(p, '/');
    assert Spelled(p, false) == Join(p, '/');
    hide Join, Split;
  }

  lemma NoSkillFile(p: Path, rooted: bool)
    requires p != [] && (forall s :: s in p ==> '/' !in s) && EndsWith(Spelled(p, rooted), "/SKILL.md")
    ensures p[|p| - 1] == "SKILL.md"
  {
    var x := Spelled(p, rooted);
    SplitOfSpelled(p, rooted);
    var front := x[..|x| - 9];
    assert x == front + "/" + "SKILL.md" by { assert "/SKILL.md" == "/" + "SKILL.md"; }
    assert '/' !in "SKILL.md";
    SplitAtLast(front, "SKILL.md");
    hide *;
    var parts := Split(x, '/');
    assert parts[|parts| - 1] == p[|p| - 1];
  }

  lemma UnderRoot(p: Path)
    requires p != [] && forall s :: s in p ==> Named(s)
    ensures SkillsRoot() + "/" <= Spelled(p, true) <==> p[0] == "skills" && |p| > 1
  {
    var j := Join(p, '/');
    assert Spelled(p, true)[1..] == j && SkillsRoot() + "/" == "/" + "skills/";
    assert SkillsRoot() + "/" <= Spelled(p, true) <==> "skills/" <= j;
    forall s | s in p ensures '/' !in s { assert Named(s); }
    if "skills/" <= j { SplitBehindSkills(p); }
    if p[0] == "skills" && |p| > 1 { assert j == "skills/" + Join(p[1..], '/'); }
    hide Join, SkillsRoot, Spelled;
  }

  lemma SplitBehindSkills(p: Path)
    requires p != [] && (forall s :: s in p ==> '/' !in s) && "skills/" <= Join(p, '/')
    ensures p[0] == "skills" && |p| > 1
  {
    var j := Join(p, '/');
    assert j == "skills" + ['/'] + j[7..];
    assert '/' !in "skills";
    SplitAtSep("skills", j[7..], '/');
    SplitUndoesJoin(p, '/');
  }

  /**
   * With or without a leading slash, with or without the skills root and the skill file, a plain path becomes the
   * path below the skills root.
   */
  lemma PlainPathsAreRooted(p: Path, rooted: bool)
    requires p != [] && forall s :: s in p ==> Named(s)
    ensures var at := Spelled(if p[0] == "skills" && |p| > 1 then p else ["skills"] + p, true);
      && Normalize(Spelled(p, rooted) + "/SKILL.md") == at
      && (p[|p| - 1] != "SKILL.md" ==> Normalize(Spelled(p, rooted)) == at)
  {
    var x, q := Spelled(p, rooted), if p[0] == "skills" && |p| > 1 then p else ["skills"] + p;
    forall s | s in q ensures Named(s) { SkillsIsNamed(); assert s == "skills" || s in p; }
    SpelledIsTidy(p, rooted);
    SkillDirOfSpelled(p, rooted);
    UnderRoot(p);
    UnderRoot(q);
    RootOfSpelled(p, rooted);
    CleanOfPlain(q);
    FileIsTidy(x);
    hide *;
    NormalizesTo(x + SkillFile(), x, q);
    if p[|p| - 1] != "SKILL.md" { NormalizesTo(x, x, q); }
  }

  lemma SkillsIsNamed()
    ensures Named("skills")
  {
  }

  lemma FileIsTidy(x: string)
    requires x != "" && Trimmed(x) && '\\' !in x
    ensures SkillFile() == "/SKILL.md" && Trimmed(x + SkillFile()) && '\\' !in x + SkillFile()
  {
    assert '\\' !in SkillFile();
  }

  lemma RootOfSpelled(p: Path, rooted: bool)
    requires p != [] && forall s :: s in p ==> Named(s)
    ensures Rooted(Spelled(p, rooted)) == Spelled(if p[0] == "skills" && |p| > 1 then p else ["skills"] + p, true)
  {
    SpelledIsTidy(p, rooted);
    UnderRoot(p);
    SpelledBelowRoot(p);
    hide Spelled, Named, SkillsRoot;
  }

  lemma SpelledBelowRoot(p: Path)
    requires p != []
    ensures Spelled(p, true) == "/" + Spelled(p, false) && SkillsRoot() + Spelled(p, true) == Spelled(["skills"] + p, true)
  {
    assert (["skills"] + p)[1..] == p;
    assert Join(["skills"] + p, '/') == "skills" + ['/'] + Join(p, '/');
    assert SkillsRoot() == "/" + "skills";
  }

  lemma NormalizesTo(value: string, dir: string, q: Path)
    requires value != "" && Trimmed(value) && '\\' !in value && SkillDir(value) == dir && dir != "" && dir != "."
    requires Rooted(dir) == Spelled(q, true) && Clean(Spelled(q, true)) == Spelled(q, true) && SkillsRoot() + "/" <= Spelled(q, true)
    ensures Normalize(value) == Spelled(q, true)
  {
    NoSlashes(value);
    TrimmedIsFixed(value);
    hide Clean, SkillDir, Rooted, Spelled, SkillsRoot, TrimSpace;
  }

  lemma NoSlashes(value: string)
    requires '\\' !in value
    ensures ReplaceAll(value, '\\', '/') == value
  {
  }

  /** A blank path and the current directory assign nothing. */
  lemma NothingIsAssigned()
    ensures Normalize("") == Normalize(" \t") == Normalize(".") == ""
  {
    TrimAroundNothing();
    TrimmedIsFixed(".");
    NoSlashes(".");
    NoSlashes(" \t");
    hide Clean, TrimSpace;
  }

  lemma TrimAroundNothing()
    ensures TrimSpace("") == "" && TrimSpace(" \t") == ""
  {
    assert " \t"[1..] == "\t" && "\t"[1..] == "";
    assert TrimLeft("\t") == "" && TrimLeft(" \t") == "";
  }

  // ---- Which normalized paths are read back as they were saved ----

  /** What every normalized path satisfies. */
  ghost predicate Normal(r: string) {
    && |r| > 1 && r[0] == '/' && Clean(r) == r && r[|r| - 1] != '/' && '\\' !in r
    && (r == SkillsRoot() || SkillsRoot() + "/" <= r)
  }

  lemma RootIsPlain()
    ensures SkillsRoot() == "/" + SkillsRoot()[1..] && |SkillsRoot()| == 7 && SkillsRoot()[0] == '/' && SkillsRoot()[6] == 's'
    ensures '\\' !in SkillsRoot() && (forall c :: c in SkillsRoot() ==> !IsSpace(c))
    ensures |SkillFile()| == 9 && SkillFile()[0] == '/' && SkillFile()[8] == 'd'
  {
  }

  /** The directory part of a rooted path: rooted, no longer, and much shorter without a skill file. */
  lemma SkillDirShortens(clean: string)
    requires clean != "" && clean[0] == '/'
    ensures |SkillDir(clean)| <= |clean| && (EndsWith(clean, SkillFile()) ==> |SkillDir(clean)| + 8 <= |clean|)
    ensures SkillDir(clean) != "" ==> SkillDir(clean)[0] == '/'
  {
    RootIsPlain();
    hide SkillFile, Clean;
    if EndsWith(clean, SkillFile()) { CleanShortens(clean[..|clean| - |SkillFile()| + 1]); }
  }

  lemma SkillDirBringsNothing(clean: string, c: char)
    requires c in SkillDir(clean) && c != '/' && c != '.'
    ensures c in clean
  {
    RootIsPlain();
    hide SkillFile, Clean;
    if EndsWith(clean, SkillFile()) { CleanBringsNothing(clean[..|clean| - |SkillFile()| + 1], c); }
  }

  lemma RootedBringsNothing(dir: string, c: char)
    requires c in Rooted(dir) && c != '/' && c !in SkillsRoot()
    ensures c in dir
  {
    hide SkillsRoot;
  }

  lemma RootedIsRooted(dir: string)
    ensures Rooted(dir) != "" && Rooted(dir)[0] == '/' && SkillsRoot() + "/" <= Rooted(dir)
    ensures dir != "" && dir[0] == '/' && SkillsRoot() + "/" <= dir ==> Rooted(dir) == dir
    ensures dir != "" && dir[0] == '/' && !(SkillsRoot() + "/" <= dir) ==> |Rooted(dir)| == |dir| + 7
  {
    RootIsPlain();
    hide SkillsRoot;
  }

  lemma NormalizedIsNormal(value: string)
    ensures Normalize(value) != "" ==> Normal(Normalize(value))
  {
    hide Clean, SkillDir, Rooted, SkillsRoot, TrimSpace, SkillFile;
    var clean := TrimSpace(ReplaceAll(value, '\\', '/'));
    var dir := SkillDir(clean);
    var rooted := Rooted(dir);
    RootedIsRooted(dir);
    CleanShortens(rooted);
    CleanIsClean(rooted);
    RootIsPlain();
    if '\\' in Clean(rooted) {
      CleanBringsNothing(rooted, '\\');
      RootedBringsNothing(dir, '\\');
      SkillDirBringsNothing(clean, '\\');
      var i, j := TrimSpaceCuts(ReplaceAll(value, '\\', '/'));
    }
  }

  /** The path reads back as itself: it does not end in white space or in a skill file, and is not the root. */
  predicate Stable(r: string) {
    r == "" || (r != SkillsRoot() && !IsSpace(r[|r| - 1]) && !EndsWith(r, SkillFile()))
  }

  lemma NoBackslash(r: string)
    requires '\\' !in r
    ensures ReplaceAll(r, '\\', '/') == r
  {
  }

  lemma StableReadsBack(r: string)
    requires Normal(r) && Stable(r)
    ensures Normalize(r) == r
  {
    hide Clean, TrimSpace, SkillsRoot, SkillFile;
    NoBackslash(r);
    TrimmedIsFixed(r);
    RootedIsRooted(r);
  }

  /** Reading a rooted path never makes it longer, unless the root has to be put in front. */
  lemma NormalizeShortens(r: string)
    requires Normal(r)
    ensures var clean := TrimSpace(r);
      clean != "" && clean[0] == '/' && (Normalize(r) == "" || (SkillDir(clean) != "" && Normalize(r) == Clean(Rooted(SkillDir(clean)))))
    ensures |Normalize(r)| <= |Rooted(SkillDir(TrimSpace(r)))|
  {
    hide Clean, SkillDir, Rooted, SkillsRoot, SkillFile, TrimSpace;
    NoBackslash(r);
    var i, j := TrimSpaceCuts(r);
    assert !IsSpace('/');
    RootedIsRooted(SkillDir(TrimSpace(r)));
    CleanShortens(Rooted(SkillDir(TrimSpace(r))));
  }

  lemma SkillFileIsDropped(r: string)
    requires Normal(r) && EndsWith(TrimSpace(r), SkillFile())
    ensures |Normalize(r)| < |r|
  {
    hide Normalize, Clean, SkillDir, Rooted, SkillsRoot, SkillFile, TrimSpace, EndsWith;
    NormalizeShortens(r);
    var i, j := TrimSpaceCuts(r);
    SkillDirShortens(TrimSpace(r));
    RootedIsRooted(SkillDir(TrimSpace(r)));
  }

  lemma SpacesAreDropped(r: string)
    requires Normal(r) && IsSpace(r[|r| - 1]) && !EndsWith(TrimSpace(r), SkillFile())
    ensures Normalize(r) != r
  {
    hide Normalize, Clean, SkillsRoot, SkillFile, TrimSpace;
    NormalizeShortens(r);
    RootIsPlain();
    var clean := TrimSpace(r);
    var i, j := TrimSpaceCuts(r);
    assert i == 0 by { assert !IsSpace('/'); }
    assert clean == r[..j] && j < |r|;
    var dir := SkillDir(clean);
    RootedIsRooted(dir);
    PrefixStays(r, j);
    if |Rooted(dir)| >= |r| && Normalize(r) == r {
      assert dir == SkillsRoot();
      SpaceNotFromRoot(r, dir);
    }
  }

  /** Trimming leaves the root with its slash in place. */
  lemma PrefixStays(r: string, j: nat)
    requires Normal(r) && j < |r| && (forall k :: j <= k < |r| ==> IsSpace(r[k]))
    ensures SkillsRoot() + "/" <= r[..j]
  {
    hide Clean, SkillsRoot;
    RootIsPlain();
    assert r[|r| - 1] in r;
    if r != SkillsRoot() {
      assert r[7] == (SkillsRoot() + "/")[7] == '/';
      assert !IsSpace('/');
    }
  }

  lemma SpaceNotFromRoot(r: string, dir: string)
    requires r == Clean(Rooted(dir)) && dir == SkillsRoot() && r != ""
    ensures !IsSpace(r[|r| - 1])
  {
    hide Clean, SkillsRoot;
    var c := r[|r| - 1];
    assert !IsSpace('/') && !IsSpace('.');
    RootIsPlain();
    if IsSpace(c) {
      CleanBringsNothing(Rooted(dir), c);
      RootedBringsNothing(dir, c);
    }
  }

  lemma RootIsDoubled()
    ensures Normalize(SkillsRoot()) != SkillsRoot()
  {
    var r := SkillsRoot();
    assert '\\' !in r;
    NoBackslash(r);
    TrimmedIsFixed(r);
    assert SkillDir(r) == r && Rooted(r) == "/skills/skills";
    var p := ["skills", "skills"];
    assert Join(p, '/') == "skills" + ['/'] + "skills";
    CleanOfPlain(p);
    assert "/" + Join(p, '/') == "/skills/skills";
  }

  function DottedRoot(): string {
    "/skills/."
  }

  lemma DottedSplits()
    ensures Split(DottedRoot(), '/') == ["", "skills", "."] && DottedRoot()[0] == '/'
  {
    assert DottedRoot() == "" + ['/'] + ("skills" + ['/'] + ".");
    SplitAtSep("", "skills" + ['/'] + ".", '/');
    SplitAtSep("skills", ".", '/');
    SplitBare(".", '/');
    assert [""] + (["skills"] + ["."]) == ["", "skills", "."];
  }

  lemma DottedIsKept()
    ensures TrimSpace(ReplaceAll(DottedRoot(), '\\', '/')) == DottedRoot() && Rooted(SkillDir(DottedRoot())) == DottedRoot()
    ensures SkillDir(DottedRoot()) == DottedRoot() != "." && Accepted(SkillsRoot()) == SkillsRoot()
  {
    assert '\\' !in DottedRoot();
    NoBackslash(DottedRoot());
    TrimmedIsFixed(DottedRoot());
    hide TrimSpace, ReplaceAll, Clean;
  }

  lemma RootIsReached()
    ensures Normalize(DottedRoot()) == SkillsRoot()
  {
    DottedIsKept();
    DottedSplits();
    RootSegments();
    assert Join(["skills"], '/') == "skills";
    assert "/" + "skills" == SkillsRoot();
    hide TrimSpace, ReplaceAll, SkillDir, Rooted, Accepted, CleanRooted, Split, Join, DottedRoot, SkillsRoot;
  }

  lemma RootSegments()
    ensures CleanRooted(["", "skills", "."]) == ["skills"]
  {
    var all := ["", "skills", "."];
    assert all[..2] == ["", "skills"] && all[..2][..1] == [""] && [""][..0] == [];
    assert CleanRooted([""]) == [];
    assert CleanRooted(["", "skills"]) == ["skills"];
  }

  /** A path that is saved in one form and read back in another. */
  lemma NormalizingTwiceDiffers()
    ensures DottedRoot() == "/skills/." && Normalize(Normalize(DottedRoot())) != Normalize(DottedRoot())
  {
    RootIsReached();
    RootIsDoubled();
  }

  /**
   * A saved path is read back unchanged exactly when it does not end in white space or in a skill file and is not
   * the skills root itself.
   */
  lemma ReadsBackIff(value: string)
    ensures var r := Normalize(value); Normalize(r) == r <==> Stable(r)
  {
    var r := Normalize(value);
    NormalizedIsNormal(value);
    if r == "" {
      assert TrimSpace(ReplaceAll("", '\\', '/')) == "";
    } else if Stable(r) {
      StableReadsBack(r);
    } else if r == SkillsRoot() {
      RootIsDoubled();
    } else if EndsWith(TrimSpace(r), SkillFile()) {
      SkillFileIsDropped(r);
    } else if IsSpace(r[|r| - 1]) {
      SpacesAreDropped(r);
    } else {
      TrimmedIsFixed(r);
    }
  }

  // ---- Whole documents of assignments ----

  datatype Assignment = Assignment(agentId: string, paths: seq<string>)

  const KNOWN_AGENTS := ["claude-code", "codex", "cursor", "gemini-cli"]

  function NormalizedPaths(paths: seq<string>): set<string> {
    if paths == [] then {}
    else
      var last := Normalize(paths[|paths| - 1]);
      NormalizedPaths(paths[..|paths| - 1]) + if last == "" then {} else {last}
  }

  /** The skills assigned to an agent, over all items that name it. */
  function Grouped(items: seq<Assignment>, agent: string): set<string> {
    if items == [] then {}
    else
      var last := items[|items| - 1];
      Grouped(items[..|items| - 1], agent) + if TrimSpace(last.agentId) == agent then NormalizedPaths(last.paths) else {}
  }

  ghost predicate Ascending(s: seq<string>) {
    forall i, j :: 0 <= i < j < |s| ==> StringLess(s[i], s[j])
  }

  ghost predicate Lists(s: seq<string>, values: set<string>) {
    Ascending(s) && forall x :: x in s <==> x in values
  }

  /** One entry for each known agent in turn, with its skills in ascending order. */
  ghost predicate Normalizes(items: seq<Assignment>, out: seq<Assignment>) {
    |out| == |KNOWN_AGENTS| && forall i :: 0 <= i < |out| ==>
      out[i].agentId == KNOWN_AGENTS[i] && Lists(out[i].paths, Grouped(items, KNOWN_AGENTS[i]))
  }

  predicate IsLeast(x: string, values: set<string>) {
    x in values && forall y :: y in values ==> y == x || StringLess(x, y)
  }

  lemma {:induction false} LeastExists(values: set<string>)
    requires values != {}
    ensures exists x :: IsLeast(x, values)
  {
    hide StringLess;
    var x :| x in values;
    if values == {x} {
      assert IsLeast(x, values);
    } else {
      LeastExists(values - {x});
      var first :| IsLeast(first, values - {x});
      LeastOfTwo(x, first, values);
    }
  }

  lemma LeastOfTwo(x: string, first: string, values: set<string>)
    requires x in values && IsLeast(first, values - {x})
    ensures IsLeast(if StringLess(x, first) then x else first, values)
  {
    hide StringLess;
    StringLessIsStrictOrder();
    var least := if StringLess(x, first) then x else first;
    forall y | y in values ensures y == least || StringLess(least, y) {
      assert y == x || y in values - {x};
    }
  }

  method SortedStringSet(values: set<string>) returns (out: seq<string>)
    ensures Lists(out, values)
  {
    out := [];
    var rest := values;
    while rest != {}
      invariant rest <= values && Ascending(out)
      invariant forall x :: x in values <==> x in rest || x in out
      invariant forall x, y :: x in out && y in rest ==> StringLess(x, y)
      decreases rest
    {
      LeastExists(rest);
      var first :| IsLeast(first, rest);
      hide StringLess;
      rest := rest - {first};
      out := out + [first];
    }
  }

  method NormalizeAssignments(items: seq<Assignment>) returns (out: seq<Assignment>)
    ensures Normalizes(items, out)
  {
    var grouped: map<string, set<string>> := map[];
    for i := 0 to |items|
      invariant forall agent :: agent in grouped ==> agent in KNOWN_AGENTS && grouped[agent] == Grouped(items[..i], agent)
      invariant forall agent :: agent in KNOWN_AGENTS && agent !in grouped ==> Grouped(items[..i], agent) == {}
    {
      assert items[..i + 1][..i] == items[..i];
      hide NormalizedPaths, TrimSpace;
      var agent := TrimSpace(items[i].agentId);
      if agent in KNOWN_AGENTS {
        var added := AddPaths(items[i].paths);
        grouped := grouped[agent := (if agent in grouped then grouped[agent] else {}) + added];
      }
    }
    assert items[..|items|] == items;
    out := [];
    for i := 0 to |KNOWN_AGENTS|
      invariant |out| == i && forall k :: 0 <= k < i ==>
        out[k].agentId == KNOWN_AGENTS[k] && Lists(out[k].paths, Grouped(items, KNOWN_AGENTS[k]))
    {
      var agent := KNOWN_AGENTS[i];
      assert agent in KNOWN_AGENTS;
      hide Grouped, Lists;
      var paths := SortedStringSet(if agent in grouped then grouped[agent] else {});
      out := out + [Assignment(agent, paths)];
    }
  }

  method AddPaths(paths: seq<string>) returns (added: set<string>)
    ensures added == NormalizedPaths(paths)
  {
    added := {};
    for i := 0 to |paths|
      invariant added == NormalizedPaths(paths[..i])
    {
      assert paths[..i + 1][..i] == paths[..i];
      hide Normalize;
      var normalized := Normalize(paths[i]);
      if normalized != "" {
        added := added + {normalized};
      }
    }
    assert paths[..|paths|] == paths;
  }

  lemma {:induction false} PathsAreNormalized(paths: seq<string>, r: string)
    requires r in NormalizedPaths(paths)
    ensures r != "" && exists value :: r == Normalize(value)
  {
    hide Normalize;
    if r in NormalizedPaths(paths[..|paths| - 1]) {
      PathsAreNormalized(paths[..|paths| - 1], r);
    } else {
      assert r == Normalize(paths[|paths| - 1]);
    }
  }

  lemma {:induction false} GroupIsNormalized(items: seq<Assignment>, agent: string, r: string)
    requires r in Grouped(items, agent)
    ensures r != "" && exists value :: r == Normalize(value)
  {
    hide NormalizedPaths, Normalize, TrimSpace;
    if r in Grouped(items[..|items| - 1], agent) {
      GroupIsNormalized(items[..|items| - 1], agent, r);
    } else {
      PathsAreNormalized(items[|items| - 1].paths, r);
    }
  }

  predicate ReadsBack(p: string) {
    p != "" && Normalize(p) == p
  }

  lemma {:induction false} StablePathsStay(paths: seq<string>)
    requires forall p :: p in paths ==> ReadsBack(p)
    ensures forall r :: r in NormalizedPaths(paths) <==> r in paths
  {
    hide Normalize;
    if paths != [] {
      assert paths == paths[..|paths| - 1] + [paths[|paths| - 1]];
      assert ReadsBack(paths[|paths| - 1]);
      StablePathsStay(paths[..|paths| - 1]);
    }
  }

  lemma {:induction false} GroupedFromDistinct(out: seq<Assignment>, n: nat, i: nat)
    requires n <= |out| == |KNOWN_AGENTS| && i < |out| && forall k :: 0 <= k < |out| ==> out[k].agentId == KNOWN_AGENTS[k]
    ensures Grouped(out[..n], KNOWN_AGENTS[i]) == if i < n then NormalizedPaths(out[i].paths) else {}
  {
    hide NormalizedPaths, TrimSpace;
    if n > 0 {
      assert out[..n][..n - 1] == out[..n - 1];
      GroupedFromDistinct(out, n - 1, i);
      AgentsAreTrimmed(n - 1);
      AgentsDiffer(n - 1, i);
    } else {
      assert out[..0] == [];
    }
  }

  lemma AgentsAreTrimmed(i: nat)
    requires i < |KNOWN_AGENTS|
    ensures TrimSpace(KNOWN_AGENTS[i]) == KNOWN_AGENTS[i]
  {
    assert Trimmed(KNOWN_AGENTS[i]);
    TrimmedIsFixed(KNOWN_AGENTS[i]);
  }

  lemma AgentsDiffer(i: nat, j: nat)
    requires i < |KNOWN_AGENTS| && j < |KNOWN_AGENTS|
    ensures KNOWN_AGENTS[i] == KNOWN_AGENTS[j] <==> i == j
  {
    assert |KNOWN_AGENTS[0]| == 11 && |KNOWN_AGENTS[1]| == 5 && |KNOWN_AGENTS[2]| == 6 && |KNOWN_AGENTS[3]| == 10;
  }

  lemma {:induction false} SameListing(a: seq<string>, b: seq<string>, values: set<string>)
    requires Lists(a, values) && Lists(b, values)
    ensures a == b
    decreases |a|
  {
    StringLessIsStrictOrder();
    hide StringLess;
    assert a != [] ==> a[0] in a;
    assert b != [] ==> b[0] in b;
    if a != [] && b != [] {
      var x, y := a[|a| - 1], b[|b| - 1];
      assert x in b && y in a;
      assert x == y;
      ListsWithoutLast(a, values);
      ListsWithoutLast(b, values);
      SameListing(a[..|a| - 1], b[..|b| - 1], values - {x});
      assert a == a[..|a| - 1] + [x] && b == b[..|b| - 1] + [y];
    }
  }

  lemma ListsWithoutLast(a: seq<string>, values: set<string>)
    requires Lists(a, values) && a != []
    ensures Lists(a[..|a| - 1], values - {a[|a| - 1]})
  {
    StringLessIsStrictOrder();
    hide StringLess;
    var front, last := a[..|a| - 1], a[|a| - 1];
    assert a == front + [last];
    forall x | x in front ensures x != last { var i :| 0 <= i < |front| && front[i] == x; }
  }

  /** A saved document whose paths are all stable is read back as it was saved. */
  lemma StableDocumentReadsBack(items: seq<Assignment>, saved: seq<Assignment>, read: seq<Assignment>)
    requires Normalizes(items, saved) && Normalizes(saved, read)
    requires forall a, p :: a in saved && p in a.paths ==> Stable(p)
    ensures read == saved
  {
    forall i | 0 <= i < |saved| ensures read[i] == saved[i] {
      AgentReadsBack(items, saved, i);
      SameListing(read[i].paths, saved[i].paths, Grouped(items, KNOWN_AGENTS[i]));
    }
  }

  lemma AgentReadsBack(items: seq<Assignment>, saved: seq<Assignment>, i: nat)
    requires Normalizes(items, saved) && i < |saved| && forall p :: p in saved[i].paths ==> Stable(p)
    ensures Grouped(saved, KNOWN_AGENTS[i]) == Grouped(items, KNOWN_AGENTS[i])
  {
    hide Normalize, NormalizedPaths, Grouped, Stable;
    var paths := saved[i].paths;
    forall p | p in paths ensures ReadsBack(p) {
      GroupIsNormalized(items, KNOWN_AGENTS[i], p);
      var value :| p == Normalize(value);
      ReadsBackIff(value);
    }
    StablePathsStay(paths);
    GroupedFromDistinct(saved, |saved|, i);
    assert saved[..|saved|] == saved;
  }
}
