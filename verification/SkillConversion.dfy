/** The notes block that a platform conversion leaves in SKILL.md: putting it in, and taking it out again. */
module SkillConversion {
  import opened Text
  import opened Blocks

  function StartMarker(): string {
    "<!-- vola-conversion:start -->"
  }

  function EndMarker(): string {
    "<!-- vola-conversion:end -->"
  }

  datatype Platform = ClaudeCode | Codex

  /** The parts of a skill manifest that the notes mention. */
  datatype Manifest = Manifest(scripts: nat, dependencyFiles: nat, envVars: seq<string>, externalReferences: nat)

  /** One conversion: the manifest at hand, and the platforms it leads from and to. */
  datatype Conversion = Conversion(manifest: Option<Manifest>, source: Platform, target: Platform)

  function PlatformName(p: Platform): string {
    match p
    case ClaudeCode => "claude-code"
    case Codex => "codex"
  }

  function JoinComma(parts: seq<string>): string {
    if parts == [] then "" else if |parts| == 1 then parts[0] else parts[0] + ", " + JoinComma(parts[1..])
  }

  function ScriptsLine(): string {
    "- Scripts copied: verify " + "runtime and permissions " + "before relying on them."
  }

  function DependenciesLine(): string {
    "- Dependencies copied: " + "prepare the matching " + "runtime environment."
  }

  function EnvironmentLine(envVars: seq<string>): string {
    "- Environment variables: " + JoinComma(envVars)
  }

  function ReferencesLine(): string {
    "- External references: " + "check `manifest.vola.json`" + " for included and " + "missing files."
  }

  function ManifestLines(m: Manifest): seq<string> {
    (if m.scripts > 0 then [ScriptsLine()] else []) +
    (if m.dependencyFiles > 0 then [DependenciesLine()] else []) +
    (if m.envVars != [] then [EnvironmentLine(m.envVars)] else []) +
    (if m.externalReferences > 0 then [ReferencesLine()] else [])
  }

  function HeadLines(c: Conversion): seq<string> {
    ["## Vola Conversion Notes", "", "- Source platform: " + PlatformName(c.source), "- Target platform: " + PlatformName(c.target)]
  }

  function NoteLines(c: Conversion): seq<string> {
    HeadLines(c) + match c.manifest case None => [] case Some(m) => ManifestLines(m)
  }

  function Notes(c: Conversion): string {
    Join(NoteLines(c), NL)
  }

  function Block(c: Conversion): string {
    Join([StartMarker()] + NoteLines(c) + [EndMarker()], NL)
  }

  function Conversions(): Markers {
    Markers(StartMarker(), EndMarker())
  }

  /** A reference to a file outside the skill as it is found in a text, and the path that takes its place. */
  datatype Reference = Reference(found: string, path: string)

  /** What the pattern for references makes sure of: a path without brackets and white space. */
  predicate External(r: Reference) {
    r.found != "" && '/' in r.found && '<' !in r.found && '>' !in r.found && ' ' !in r.found
  }

  ghost predicate Extracts(references: string -> seq<Reference>) {
    forall s, r :: r in references(s) ==> External(r)
  }

  function Rewritten(s: string, references: seq<Reference>): string
    decreases |references|
  {
    if references == [] then s
    else
      var r := references[0];
      Rewritten(if r.found == "" then s else Substitute(s, r.found, r.path), references[1..])
  }

  predicate Rewrites(c: Conversion) {
    c.source == ClaudeCode && c.target == Codex
  }

  /** What remains of `content` when a conversion begins; `references` finds the references to external files. */
  function Body(content: string, c: Conversion, references: string -> seq<Reference>): string {
    var stripped := Strip(TrimSpace(content), Conversions());
    TrimSpace(if Rewrites(c) then Rewritten(stripped, references(stripped)) else stripped)
  }

  function Convert(content: string, c: Conversion, references: string -> seq<Reference>): string {
    Body(content, c, references) + GAP + Block(c) + [NL]
  }

  /** The environment variables as the notes list them. A stored manifest may name anything here. */
  function Variables(c: Conversion): string {
    if c.manifest.Some? then JoinComma(c.manifest.value.envVars) else ""
  }

  /** No environment variable closes the block before its end. */
  predicate EndsLast(c: Conversion) {
    !Contains(Variables(c), EndMarker())
  }

  // ---- What the notes say, and what is rewritten ----

  lemma CopyLinesDiffer()
    ensures StartsWith(ScriptsLine(), 'S', 'c') && StartsWith(DependenciesLine(), 'D', 'e')
  {
    assert ScriptsLine()[2] == "- Scripts copied: verify "[2] == 'S' && DependenciesLine()[2] == "- Dependencies copied: "[2] == 'D';
  }

  lemma NameLinesDiffer(envVars: seq<string>)
    ensures StartsWith(EnvironmentLine(envVars), 'E', 'n') && StartsWith(ReferencesLine(), 'E', 'x')
  {
    assert EnvironmentLine(envVars)[3] == "- Environment variables: "[3] == 'n' && ReferencesLine()[3] == "- External references: "[3] == 'x';
    hide JoinComma;
  }

  predicate StartsWith(line: string, c: char, d: char) {
    |line| > 4 && line[2] == c && line[3] == d
  }

  lemma PlatformLines(p: Platform)
    ensures PlatformName(p) == if p == Codex then "codex" else "claude-code"
    ensures StartsWith("- Source platform: " + PlatformName(p), 'S', 'o')
    ensures StartsWith("- Target platform: " + PlatformName(p), 'T', 'a')
    ensures StartsWith("## Vola Conversion Notes", ' ', 'V')
  {
  }

  /** The notes name both platforms, and each warning exactly when the manifest has something to warn of. */
  lemma NotesSay(c: Conversion)
    ensures var lines := NoteLines(c);
      && |lines| >= 4
      && lines[..2] == ["## Vola Conversion Notes", ""]
      && lines[2] == "- Source platform: " + (if c.source == Codex then "codex" else "claude-code")
      && lines[3] == "- Target platform: " + (if c.target == Codex then "codex" else "claude-code")
      && (ScriptsLine() in lines <==> c.manifest.Some? && c.manifest.value.scripts > 0)
      && (DependenciesLine() in lines <==> c.manifest.Some? && c.manifest.value.dependencyFiles > 0)
      && (ReferencesLine() in lines <==> c.manifest.Some? && c.manifest.value.externalReferences > 0)
    ensures c.manifest.Some? ==>
      var envVars := c.manifest.value.envVars;
      EnvironmentLine(envVars) in NoteLines(c) <==> envVars != []
  {
    hide *;
    HeadSays(c);
    CopyLinesDiffer();
    match c.manifest
    case None =>
      NameLinesDiffer([]);
      NotesUnfold(c);
    case Some(m) =>
      NameLinesDiffer(m.envVars);
      ManifestSays(m);
      NotesUnfold(c);
  }

  lemma NotesUnfold(c: Conversion)
    ensures NoteLines(c) == HeadLines(c) + if c.manifest.Some? then ManifestLines(c.manifest.value) else []
  {
    hide HeadLines, ManifestLines;
  }

  lemma ManifestSays(m: Manifest)
    ensures ScriptsLine() in ManifestLines(m) <==> m.scripts > 0
    ensures DependenciesLine() in ManifestLines(m) <==> m.dependencyFiles > 0
    ensures EnvironmentLine(m.envVars) in ManifestLines(m) <==> m.envVars != []
    ensures ReferencesLine() in ManifestLines(m) <==> m.externalReferences > 0
  {
    CopyLinesDiffer();
    NameLinesDiffer(m.envVars);
    hide ScriptsLine, DependenciesLine, EnvironmentLine, ReferencesLine;
  }

  lemma HeadSays(c: Conversion)
    ensures |HeadLines(c)| == 4 && HeadLines(c)[..2] == ["## Vola Conversion Notes", ""]
    ensures HeadLines(c)[2] == "- Source platform: " + (if c.source == Codex then "codex" else "claude-code")
    ensures HeadLines(c)[3] == "- Target platform: " + (if c.target == Codex then "codex" else "claude-code")
    ensures forall line :: line in HeadLines(c) ==>
      !StartsWith(line, 'S', 'c') && !StartsWith(line, 'D', 'e') && !StartsWith(line, 'E', 'n') && !StartsWith(line, 'E', 'x')
  {
    PlatformLines(c.source);
    PlatformLines(c.target);
    hide PlatformName;
  }

  lemma {:induction false} VariablesAreListed(envVars: seq<string>, last: string)
    ensures JoinComma(envVars + [last]) == if envVars == [] then last else JoinComma(envVars) + ", " + last
  {
    if envVars != [] {
      VariablesAreListed(envVars[1..], last);
      assert (envVars + [last])[1..] == envVars[1..] + [last];
    }
  }

  /** Only a conversion from Claude Code to Codex looks for references at all. */
  lemma OthersRewriteNothing(content: string, c: Conversion, one: string -> seq<Reference>, other: string -> seq<Reference>)
    requires c.source == Codex || c.target == ClaudeCode
    ensures Convert(content, c, one) == Convert(content, c, other)
  {
    hide Strip, TrimSpace, Rewritten, Block;
  }

  function ToolReference(s: string): seq<Reference> {
    if s == "~/a/b" then [Reference("~/a/b", "external/b")] else []
  }

  /** A reference that such a conversion finds is replaced by the packaged path. */
  lemma ReferenceIsRewritten(m: Option<Manifest>)
    ensures Body("~/a/b", Conversion(m, ClaudeCode, Codex), ToolReference) == "external/b"
  {
    var s := "~/a/b";
    StartIsGood();
    EndIsGood();
    TrimmedIsFixed(s);
    PlainLine(s, StartMarker());
    PlainLine(s, EndMarker());
    TrimmedIsFixed("external/b");
    ReplacedWhole();
    hide StartMarker, EndMarker, TrimSpace, Substitute;
    assert Strip(s, Conversions()) == s;
    var r := Reference(s, "external/b");
    assert [r][1..] == [] && Rewritten("external/b", []) == "external/b";
    assert Rewritten(s, [r]) == "external/b";
  }

  lemma ReplacedWhole()
    ensures Substitute("~/a/b", "~/a/b", "external/b") == "external/b"
  {
    assert "~/a/b"[5..] == "";
  }

  // ---- The markers and the block ----

  lemma MarkersAreGood()
    ensures GoodMarkers(Conversions())
  {
    StartIsGood();
    EndIsGood();
    hide StartMarker, EndMarker;
  }

  lemma StartIsGood()
    ensures var s := StartMarker();
      |s| == 30 && s[0] == '<' && s[21] == 's' && '<' !in s[1..] && NL !in s
  {
    MarkerHead();
    assert '<' !in ":start -->" && NL !in ":start -->";
    assert StartMarker() == "<" + (MarkerName() + ":start -->");
    assert StartMarker()[1..] == MarkerName() + ":start -->";
    hide MarkerName;
  }

  lemma EndIsGood()
    ensures var s := EndMarker();
      |s| == 28 && s[0] == '<' && s[21] == 'e' && s[27] == '>' && '<' !in s[1..] && NL !in s && '/' !in s
  {
    MarkerHead();
    assert '<' !in ":end -->" && NL !in ":end -->" && '/' !in ":end -->";
    assert EndMarker() == "<" + (MarkerName() + ":end -->");
    assert EndMarker()[1..] == MarkerName() + ":end -->";
    hide MarkerName;
  }

  function MarkerName(): string {
    "!-- vola-conversion"
  }

  lemma MarkerHead()
    ensures '<' !in MarkerName() && NL !in MarkerName() && '/' !in MarkerName()
  {
  }

  /** A pattern without line breaks lies in one of the lines. */
  lemma {:induction false} JoinContains(parts: seq<string>, pat: string)
    requires pat != "" && NL !in pat
    ensures Contains(Join(parts, NL), pat) <==> exists part :: part in parts && Contains(part, pat)
  {
    if |parts| > 1 {
      JoinContains(parts[1..], pat);
      IndexAcrossLine(parts[0], Join(parts[1..], NL), pat);
      assert forall part :: part in parts <==> part == parts[0] || part in parts[1..];
    }
    hide Index;
  }

  lemma ScriptsAvoid()
    ensures '<' !in ScriptsLine()
  {
    assert '<' !in "- Scripts copied: verify ";
    assert '<' !in "runtime and permissions ";
    assert '<' !in "before relying on them.";
  }

  lemma DependenciesAvoid()
    ensures '<' !in DependenciesLine()
  {
    assert '<' !in "- Dependencies copied: ";
    assert '<' !in "prepare the matching ";
    assert '<' !in "runtime environment.";
  }

  lemma ReferencesAvoid()
    ensures '<' !in ReferencesLine()
  {
    assert '<' !in "- External references: ";
    assert '<' !in "check `manifest.vola.json`" by { ManifestNameAvoids(); }
    assert '<' !in " for included and ";
    assert '<' !in "missing files.";
  }

  lemma ManifestNameAvoids()
    ensures '<' !in "check `manifest.vola.json`"
  {
  }

  lemma EnvironmentContains(envVars: seq<string>, pat: string)
    requires pat != "" && pat[0] == '<'
    ensures Contains(EnvironmentLine(envVars), pat) <==> Contains(JoinComma(envVars), pat)
  {
    var head := "- Environment variables: ";
    assert '<' !in head;
    hide Index, Occurrences;
    OccurrencesBehind(head, JoinComma(envVars), pat);
    AbsentIffNone(head + JoinComma(envVars), pat);
    AbsentIffNone(JoinComma(envVars), pat);
  }

  lemma HeadAvoids(c: Conversion)
    ensures forall line :: line in HeadLines(c) ==> '<' !in line
  {
    assert '<' !in "## Vola Conversion Notes";
    assert '<' !in "- Source platform: ";
    assert '<' !in "- Target platform: ";
    assert '<' !in PlatformName(c.source) && '<' !in PlatformName(c.target);
    hide PlatformName;
  }

  lemma PlainLine(line: string, pat: string)
    requires pat != "" && pat[0] == '<' && '<' !in line
    ensures !Contains(line, pat)
  {
    NoFirstCharNoMatch(line, pat);
  }

  lemma ManifestLinesContain(m: Manifest, pat: string)
    requires pat != "" && pat[0] == '<'
    ensures (exists line :: line in ManifestLines(m) && Contains(line, pat)) <==> Contains(JoinComma(m.envVars), pat)
  {
    hide ScriptsLine, DependenciesLine, ReferencesLine, EnvironmentLine, Index;
    ScriptsAvoid();
    DependenciesAvoid();
    ReferencesAvoid();
    PlainLine(ScriptsLine(), pat);
    PlainLine(DependenciesLine(), pat);
    PlainLine(ReferencesLine(), pat);
    PlainLine("", pat);
    EnvironmentContains(m.envVars, pat);
    assert m.envVars != [] ==> EnvironmentLine(m.envVars) in ManifestLines(m);
  }

  lemma HeadLinesContain(c: Conversion, pat: string)
    requires pat != "" && pat[0] == '<'
    ensures !exists line :: line in HeadLines(c) && Contains(line, pat)
  {
    hide HeadLines, Index;
    HeadAvoids(c);
    forall line | line in HeadLines(c) ensures !Contains(line, pat) { PlainLine(line, pat); }
  }

  /** Whatever the notes hold of a marker, they hold in the environment variables. */
  lemma NotesContain(c: Conversion, pat: string)
    requires pat != "" && pat[0] == '<' && NL !in pat
    ensures Contains(Notes(c), pat) <==> Contains(Variables(c), pat)
  {
    hide HeadLines, ManifestLines, Index;
    JoinContains(NoteLines(c), pat);
    HeadLinesContain(c, pat);
    PlainLine("", pat);
    if c.manifest.Some? { ManifestLinesContain(c.manifest.value, pat); }
  }

  lemma BlockIsFramed(c: Conversion)
    ensures Framed(Block(c), Notes(c), Conversions())
  {
    var lines := NoteLines(c);
    assert lines != [];
    hide StartMarker, EndMarker, NoteLines;
    JoinSnoc([StartMarker()] + lines, EndMarker(), NL);
    assert ([StartMarker()] + lines)[1..] == lines;
    assert Join([StartMarker()] + lines, NL) == StartMarker() + [NL] + Join(lines, NL);
  }

  lemma NotesMarkers(c: Conversion)
    ensures Contains(Notes(c), EndMarker()) <==> !EndsLast(c)
    ensures MarkerFree(Notes(c), Conversions()) <==> MarkerFree(Variables(c), Conversions())
  {
    hide StartMarker, EndMarker, Notes, Variables, Index;
    StartIsGood();
    EndIsGood();
    NotesContain(c, StartMarker());
    NotesContain(c, EndMarker());
  }

  lemma FrameIsUnique(b: string, x: string, y: string, k: Markers)
    requires Framed(b, x, k) && Framed(b, y, k)
    ensures x == y
  {
    assert |x| == |y|;
    assert x == b[|k.start| + 1..|k.start| + 1 + |x|];
    assert y == b[|k.start| + 1..|k.start| + 1 + |y|];
  }

  /**
   * The notes of a conversion form a block exactly when the joined environment variables do not hold the end marker,
   * and hold one marker of each kind exactly when the variables hold neither.
   */
  lemma BlockIsBlockIff(c: Conversion)
    ensures IsBlock(Block(c), Conversions()) <==> EndsLast(c)
    ensures OneBlock(Block(c), Conversions()) <==> MarkerFree(Variables(c), Conversions())
  {
    hide StartMarker, EndMarker, Block, Notes, Variables, Index, OneBlock, EndsLast, Framed;
    MarkersAreGood();
    BlockIsFramed(c);
    NotesMarkers(c);
    FrameIsOneBlockIff(Block(c), Notes(c), Conversions());
    assert EndsLast(c) ==> BlockOf(Block(c), Notes(c), Conversions());
    if IsBlock(Block(c), Conversions()) {
      var notes :| BlockOf(Block(c), notes, Conversions());
      FrameIsUnique(Block(c), notes, Notes(c), Conversions());
    }
  }

  // ---- Rewriting keeps the markers ----

  lemma ReferencesCannotOverlap(r: Reference)
    requires External(r)
    ensures CannotOverlap(r.found, EndMarker())
  {
    hide EndMarker;
    EndIsGood();
    var end := EndMarker();
    forall i: nat ensures !At(end, r.found, i) {
      var k :| 0 <= k < |r.found| && r.found[k] == '/';
      assert i + |r.found| <= |end| ==> end[i..i + |r.found|][k] == end[i + k];
    }
  }

  lemma {:induction false} RewrittenKeepsEnd(s: string, references: seq<Reference>)
    requires Contains(s, EndMarker()) && forall r :: r in references ==> External(r)
    ensures Contains(Rewritten(s, references), EndMarker())
    decreases |references|
  {
    hide EndMarker, Substitute, External, CannotOverlap, Index;
    if references != [] {
      var r := references[0];
      assert External(r);
      FoundIsSomething(r);
      ReferencesCannotOverlap(r);
      SubstituteKeeps(s, r.found, r.path, EndMarker());
      RewrittenKeepsEnd(Substitute(s, r.found, r.path), references[1..]);
    }
  }

  lemma FoundIsSomething(r: Reference)
    requires External(r)
    ensures r.found != ""
  {
  }

  // ---- Chains of conversions ----

  function ConvertAll(content: string, chain: seq<Conversion>, references: string -> seq<Reference>): string {
    if chain == [] then content
    else Convert(ConvertAll(content, chain[..|chain| - 1], references), chain[|chain| - 1], references)
  }

  predicate AllEndLast(chain: seq<Conversion>) {
    forall c :: c in chain ==> EndsLast(c)
  }

  /** The end markers in what the last conversion of a chain leaves of the text. */
  ghost function EndsLeft(content: string, chain: seq<Conversion>, references: string -> seq<Reference>): nat
    requires chain != []
  {
    Occurrences(BodyOfLast(content, chain, references), EndMarker())
  }

  function BodyOfLast(content: string, chain: seq<Conversion>, references: string -> seq<Reference>): string
    requires chain != []
  {
    Body(ConvertAll(content, chain[..|chain| - 1], references), chain[|chain| - 1], references)
  }

  lemma BodyIs(content: string, c: Conversion, references: string -> seq<Reference>)
    ensures var stripped := Strip(TrimSpace(content), Conversions());
      Body(content, c, references) == TrimSpace(if Rewrites(c) then Rewritten(stripped, references(stripped)) else stripped)
    ensures Trimmed(Body(content, c, references))
  {
    hide Strip, Rewritten, Conversions;
    var stripped := Strip(TrimSpace(content), Conversions());
    var i, j := TrimSpaceCuts(if Rewrites(c) then Rewritten(stripped, references(stripped)) else stripped);
  }

  /** A text that a stripping leaves or gives back, without references, is the next body. */
  lemma PlainBody(content: string, c: Conversion, references: string -> seq<Reference>, text: string)
    requires Strip(TrimSpace(content), Conversions()) == text && Trimmed(text) && references(text) == []
    ensures Body(content, c, references) == text
  {
    hide *;
    BodyIs(content, c, references);
    NothingRewritten(text);
    TrimmedIsFixed(text);
  }

  lemma NothingRewritten(text: string)
    ensures Rewritten(text, []) == text
  {
  }

  lemma EndMarkerIsPlain()
    ensures EndMarker() != "" && NL !in EndMarker() && Trimmed(EndMarker()) && Conversions().end == EndMarker()
  {
    hide EndMarker, StartMarker;
    EndIsGood();
  }

  /** An end marker that stripping leaves stays in the next body. */
  lemma EndStaysInBody(content: string, c: Conversion, references: string -> seq<Reference>)
    requires Extracts(references) && Occurrences(Strip(TrimSpace(content), Conversions()), EndMarker()) > 0
    ensures Occurrences(Body(content, c, references), EndMarker()) > 0
  {
    hide *;
    EndMarkerIsPlain();
    BodyIs(content, c, references);
    var stripped := Strip(TrimSpace(content), Conversions());
    AbsentIffNone(stripped, EndMarker());
    AllExternal(references, stripped);
    RewrittenKeepsEnd(stripped, references(stripped));
    AbsentIffNone(Rewritten(stripped, references(stripped)), EndMarker());
    TrimKeepsOccurrences(Rewritten(stripped, references(stripped)), EndMarker());
    TrimKeepsOccurrences(stripped, EndMarker());
  }

  lemma AllExternal(references: string -> seq<Reference>, s: string)
    requires Extracts(references)
    ensures forall r :: r in references(s) ==> External(r)
  {
    hide External;
  }

  /** How the text with its block reads once it is trimmed. */
  lemma ConvertedReads(content: string, c: Conversion, references: string -> seq<Reference>)
    ensures TrimSpace(Convert(content, c, references)) == Attached(Body(content, c, references), Block(c))
    ensures Trimmed(Attached(Body(content, c, references), Block(c)))
    ensures Convert(content, c, references) == Body(content, c, references) + (GAP + Block(c) + [NL])
  {
    hide *;
    MarkersAreGood();
    BlockIsFramed(c);
    FrameEnds(Block(c), Notes(c), Conversions());
    BodyIs(content, c, references);
    TrimConverted(Body(content, c, references), Block(c));
    ConvertIs(content, c, references);
  }

  lemma ConvertIs(content: string, c: Conversion, references: string -> seq<Reference>)
    ensures Convert(content, c, references) == Body(content, c, references) + GAP + Block(c) + [NL]
    ensures Convert(content, c, references) == Body(content, c, references) + (GAP + Block(c) + [NL])
  {
    hide Body, Block;
  }

  /** The end markers that stripping leaves of a converted text are those of its body and of its notes. */
  lemma EndsAfterStrip(content: string, c: Conversion, references: string -> seq<Reference>)
    ensures var body, converted := Body(content, c, references), TrimSpace(Convert(content, c, references));
      && Occurrences(Strip(converted, Conversions()), EndMarker()) >= Occurrences(body, EndMarker()) + Occurrences(Notes(c), EndMarker())
      && Occurrences(converted, EndMarker()) == Occurrences(body, EndMarker()) + Occurrences(Notes(c), EndMarker()) + 1
    ensures Occurrences(Notes(c), EndMarker()) == 0 <==> EndsLast(c)
  {
    hide *;
    EndMarkerIsPlain();
    MarkersAreGood();
    BlockIsFramed(c);
    NotesMarkers(c);
    AbsentIffNone(Notes(c), EndMarker());
    ConvertedReads(content, c, references);
    FrameIndex(Block(c), Notes(c), Conversions());
    AttachedCounts(Body(content, c, references), Block(c), EndMarker());
    LateEndStays(Body(content, c, references), Block(c), Notes(c), Conversions());
  }

  lemma StripGivesBack(content: string, c: Conversion, references: string -> seq<Reference>)
    requires EndsLast(c) && MarkerFree(Body(content, c, references), Conversions())
    ensures Strip(TrimSpace(Convert(content, c, references)), Conversions()) == Body(content, c, references)
  {
    hide *;
    MarkersAreGood();
    BlockIsBlockIff(c);
    ConvertedReads(content, c, references);
    BodyIs(content, c, references);
    StripUndoesAttach(Body(content, c, references), Block(c), Conversions());
  }

  lemma TextIsPlain(content: string)
    requires MarkerFree(TrimSpace(content), Conversions())
    ensures Trimmed(TrimSpace(content)) && Strip(TrimSpace(content), Conversions()) == TrimSpace(content)
    ensures Occurrences(TrimSpace(content), EndMarker()) == 0
  {
    hide StartMarker, EndMarker;
    EndIsGood();
    var i, j := TrimSpaceCuts(content);
    AbsentIffNone(TrimSpace(content), EndMarker());
  }

  /** What the last conversion of a chain starts from: the trimmed original, or a text with an end marker left in it. */
  lemma {:induction false} ChainBody(content: string, chain: seq<Conversion>, references: string -> seq<Reference>)
    requires MarkerFree(TrimSpace(content), Conversions()) && references(TrimSpace(content)) == [] && Extracts(references)
    requires chain != []
    ensures AllEndLast(chain[..|chain| - 1]) ==> BodyOfLast(content, chain, references) == TrimSpace(content)
    ensures !AllEndLast(chain[..|chain| - 1]) ==> EndsLeft(content, chain, references) > 0
  {
    hide *;
    TextIsPlain(content);
    ChainUnfolds(content, chain, references);
    var front, last := chain[..|chain| - 1], chain[|chain| - 1];
    if |chain| == 1 {
      PlainBody(content, last, references, TrimSpace(content));
    } else {
      ChainUnfolds(content, front, references);
      ChainBody(content, front, references);
      var before, prior := ConvertAll(content, front[..|front| - 1], references), front[|front| - 1];
      EndsAfterStrip(before, prior, references);
      if AllEndLast(front) {
        StripGivesBack(before, prior, references);
        PlainBody(Convert(before, prior, references), last, references, TrimSpace(content));
      } else {
        EndStaysInBody(Convert(before, prior, references), last, references);
      }
    }
  }

  lemma ChainUnfolds(content: string, chain: seq<Conversion>, references: string -> seq<Reference>)
    requires chain != []
    ensures var front, last := chain[..|chain| - 1], chain[|chain| - 1];
      && ConvertAll(content, chain, references) == Convert(ConvertAll(content, front, references), last, references)
      && BodyOfLast(content, chain, references) == Body(ConvertAll(content, front, references), last, references)
      && (AllEndLast(chain) <==> AllEndLast(front) && EndsLast(last))
    ensures EndsLeft(content, chain, references) == Occurrences(BodyOfLast(content, chain, references), EndMarker())
    ensures |chain| == 1 ==> ConvertAll(content, chain[..|chain| - 1], references) == content && AllEndLast(chain[..|chain| - 1])
  {
    hide Body, Convert, EndsLast, EndMarker;
    assert forall c :: c in chain <==> c in chain[..|chain| - 1] || c == chain[|chain| - 1];
  }

  /**
   * Conversions of a text without markers and external references leave the trimmed original above the block of the
   * last one exactly when none before the last has an environment variable with the end marker in it. Stripping gives
   * the original back exactly when the last has none either, and there is one block exactly when the last holds
   * neither marker there.
   */
  lemma ChainKeepsTextIff(content: string, chain: seq<Conversion>, references: string -> seq<Reference>)
    requires MarkerFree(TrimSpace(content), Conversions()) && references(TrimSpace(content)) == [] && Extracts(references)
    requires chain != []
    ensures var text, front, last := TrimSpace(content), chain[..|chain| - 1], chain[|chain| - 1];
      var converted := ConvertAll(content, chain, references);
      && (converted == text + GAP + Block(last) + [NL] <==> AllEndLast(front))
      && (Strip(TrimSpace(converted), Conversions()) == text <==> AllEndLast(chain))
      && (OneBlock(TrimSpace(converted), Conversions()) <==> AllEndLast(front) && MarkerFree(Variables(last), Conversions()))
  {
    hide *;
    TextIsPlain(content);
    ChainUnfolds(content, chain, references);
    ChainBody(content, chain, references);
    var text, front, last := TrimSpace(content), chain[..|chain| - 1], chain[|chain| - 1];
    var before := ConvertAll(content, front, references);
    EndsAfterStrip(before, last, references);
    ConvertIs(before, last, references);
    SuffixCancels(Body(before, last, references), text, GAP + Block(last) + [NL]);
    Regrouped(text, Block(last));
    if AllEndLast(front) {
      if EndsLast(last) { StripGivesBack(before, last, references); }
      OneBlockAttached(before, last, references);
    } else {
      OneBlockCounts(TrimSpace(Convert(before, last, references)));
    }
  }

  lemma Regrouped(text: string, b: string)
    ensures text + GAP + b + [NL] == text + (GAP + b + [NL])
  {
  }

  lemma OneBlockCounts(s: string)
    ensures OneBlock(s, Conversions()) ==> Occurrences(s, EndMarker()) == 1
  {
    hide EndMarker, StartMarker;
  }

  lemma OneBlockAttached(content: string, c: Conversion, references: string -> seq<Reference>)
    requires MarkerFree(Body(content, c, references), Conversions())
    ensures OneBlock(TrimSpace(Convert(content, c, references)), Conversions()) <==> MarkerFree(Variables(c), Conversions())
  {
    hide Body, Block, Variables, Convert, TrimSpace, StartMarker, EndMarker, Attached, Occurrences, Index;
    var body := Body(content, c, references);
    StartIsGood();
    EndIsGood();
    ConvertedReads(content, c, references);
    BlockIsBlockIff(c);
    AttachedCounts(body, Block(c), StartMarker());
    AttachedCounts(body, Block(c), EndMarker());
    AbsentIffNone(body, StartMarker());
    AbsentIffNone(body, EndMarker());
  }

  // ---- When repeating a conversion changes nothing ----

  lemma BodyAgain(content: string, c: Conversion, references: string -> seq<Reference>)
    requires Rewrites(c) ==> references(Strip(Attached(Body(content, c, references), Block(c)), Conversions())) == []
    ensures Body(Convert(content, c, references), c, references) == Again(Body(content, c, references), Block(c), Conversions())
  {
    hide *;
    ConvertedReads(content, c, references);
    BodyIs(Convert(content, c, references), c, references);
    var body := Body(content, c, references);
    NothingRewritten(Strip(Attached(body, Block(c)), Conversions()));
    AgainUnfolds(body, Block(c));
  }

  lemma AgainUnfolds(text: string, b: string)
    ensures Again(text, b, Conversions()) == TrimSpace(Strip(Attached(text, b), Conversions()))
  {
  }

  /**
   * Repeating a conversion that finds no more references to rewrite changes nothing exactly when no environment
   * variable holds the end marker and the text left after the first stripping holds no marker, or is nothing but
   * copies of the new block. A stray start marker loses text, a stray end marker piles up blocks.
   */
  lemma RepeatingIsIdempotentIff(content: string, c: Conversion, references: string -> seq<Reference>)
    requires Rewrites(c) ==> references(Strip(Attached(Body(content, c, references), Block(c)), Conversions())) == []
    ensures var text := Body(content, c, references);
      (Convert(Convert(content, c, references), c, references) == Convert(content, c, references)) <==>
      EndsLast(c) && (MarkerFree(text, Conversions()) || Stacked(text, Block(c)))
  {
    hide *;
    var text, b := Body(content, c, references), Block(c);
    MarkersAreGood();
    BlockIsBlockIff(c);
    BlockIsFramed(c);
    NotesMarkers(c);
    EndMarkerIsPlain();
    BodyIs(content, c, references);
    BodyAgain(content, c, references);
    if EndsLast(c) { AgainIff(text, b, Conversions()); } else { LateEndAgain(text, b, Notes(c), Conversions()); }
    ConvertIs(content, c, references);
    ConvertIs(Convert(content, c, references), c, references);
    SuffixCancels(Again(text, b, Conversions()), text, GAP + b + [NL]);
  }

  // ---- Where it fails ----

  function NoReferences(s: string): seq<Reference> {
    []
  }

  function ClosingVariable(): Conversion {
    Conversion(Some(Manifest(0, 0, [EndMarker()], 0)), Codex, ClaudeCode)
  }

  /** A manifest that names the end marker as an environment variable: the block cannot be taken out whole again. */
  lemma VariableClosesBlock()
    ensures var c := ClosingVariable();
      var once := Convert("Plan", c, NoReferences);
      && Strip(TrimSpace(once), Conversions()) != "Plan" && !OneBlock(TrimSpace(once), Conversions())
      && Convert(once, c, NoReferences) != once
  {
    hide *;
    var c, chain := ClosingVariable(), [ClosingVariable()];
    assert c in chain && chain[..0] == [];
    ClosingVariableCloses();
    PlanIsPlain();
    ChainUnfolds("Plan", chain, NoReferences);
    ChainKeepsTextIff("Plan", chain, NoReferences);
    RepeatingIsIdempotentIff("Plan", c, NoReferences);
    AllEndLastHas(chain, c);
  }

  lemma AllEndLastHas(chain: seq<Conversion>, c: Conversion)
    requires c in chain && !EndsLast(c)
    ensures !AllEndLast(chain)
  {
  }

  lemma ClosingVariableCloses()
    ensures !EndsLast(ClosingVariable()) && !MarkerFree(Variables(ClosingVariable()), Conversions()) && !Rewrites(ClosingVariable())
  {
    hide EndMarker, StartMarker;
    MarkersAreGood();
    MarkersFound(Conversions());
    assert Variables(ClosingVariable()) == EndMarker();
  }

  lemma PlanIsPlain()
    ensures TrimSpace("Plan") == "Plan" && MarkerFree("Plan", Conversions()) && NoReferences("Plan") == [] && Extracts(NoReferences)
  {
    hide EndMarker, StartMarker;
    StartIsGood();
    EndIsGood();
    TrimmedIsFixed("Plan");
    PlainLine("Plan", StartMarker());
    PlainLine("Plan", EndMarker());
  }

  /** A content that is a stray end marker: every conversion adds a block. */
  lemma StrayEndPilesUp(c: Conversion)
    ensures var once := Convert(EndMarker(), c, NoReferences); Convert(once, c, NoReferences) != once
  {
    hide *;
    EndMarkerIsPlain();
    EndIsNoStack(c);
    NothingFound(Strip(Attached(EndMarker(), Block(c)), Conversions()));
    TrimmedIsFixed(EndMarker());
    NothingFound(EndMarker());
    PlainBody(EndMarker(), c, NoReferences, EndMarker());
    RepeatingIsIdempotentIff(EndMarker(), c, NoReferences);
  }

  lemma NothingFound(s: string)
    ensures NoReferences(s) == []
  {
  }

  lemma EndIsNoStack(c: Conversion)
    ensures Strip(EndMarker(), Conversions()) == EndMarker()
    ensures !MarkerFree(EndMarker(), Conversions()) && !Stacked(EndMarker(), Block(c))
  {
    hide EndMarker, StartMarker, Block, Index, Notes;
    MarkersAreGood();
    MarkersFound(Conversions());
    BlockIsFramed(c);
    FrameEnds(Block(c), Notes(c), Conversions());
    AbsentIffNone(EndMarker(), StartMarker());
  }
}
