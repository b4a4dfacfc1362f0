/** Project handover files: rendering, and the manual notes that a regeneration carries over. */
module Handover {
  import opened Text
  import opened ConsoleText

  datatype Item = Item(id: string, title: string, kind: string, at: string, detail: string, source: string)

  datatype Handover = Handover(
    id: string, project: string, summary: string, latestActivity: string,
    threads: nat, runs: nat, artifacts: nat, memories: nat,
    recentThreads: seq<Item>, recentRuns: seq<Item>, recentArtifacts: seq<Item>, memoryCandidates: seq<Item>)

  /** Cleaning and shortening of a text, of which only the result matters here. */
  type Truncate = string -> string

  // ---- Manual notes ----

  function NotesHeading(): string {
    "## Manual notes"
  }

  /** The heading at the beginning of a line that is not the first. */
  function NotesMark(): string {
    [NL] + NotesHeading()
  }

  function Placeholder(): string {
    "No manual notes yet."
  }

  /** Everything behind the first line. */
  function AfterFirstLine(s: string): string {
    Join(Split(s, NL)[1..], NL)
  }

  function Notes(existing: string): string {
    var text := TrimSpace(existing);
    var index := Index(text, NotesMark());
    if index < 0 && !(NotesHeading() <= text) then ""
    else
      IndexMeans(text, NotesMark());
      TrimSpace(AfterFirstLine(TrimStart(text[if index < 0 then 0 else index..], NL)))
  }

  function NotesOrPlaceholder(existing: string): string {
    if Notes(existing) != "" then Notes(existing) else Placeholder()
  }

  // ---- Rendering ----

  function Marker(id: string): string {
    "<!-- codex-console-handover:" + NormalId(id) + " -->"
  }

  function ItemHead(item: Item, truncate: Truncate): string {
    var head := MarkdownLine(item.title, item.id, truncate);
    var hasKind, hasAt := TrimSpace(item.kind) != "", TrimSpace(item.at) != "";
    if hasKind && hasAt then head + " (" + item.kind + ", " + item.at + ")"
    else if hasKind then head + " (" + item.kind + ")"
    else if hasAt then head + " (" + item.at + ")"
    else head
  }

  function DetailLines(detail: string): seq<string> {
    if detail == "" then [] else ["  - Detail: " + detail]
  }

  function SourceLines(source: string): seq<string> {
    if source == "" then [] else ["  - Source: `" + ReplaceAll(source, '`', '\'') + "`"]
  }

  function ItemLines(item: Item, truncate: Truncate): seq<string> {
    ["- " + ItemHead(item, truncate)] + DetailLines(MarkdownLine(item.detail, "", truncate)) + SourceLines(MarkdownLine(item.source, "", truncate))
  }

  function ItemsLines(items: seq<Item>, truncate: Truncate): seq<string> {
    if items == [] then [] else ItemsLines(items[..|items| - 1], truncate) + ItemLines(items[|items| - 1], truncate)
  }

  function GroupLines(title: string, items: seq<Item>, empty: string, truncate: Truncate): seq<string> {
    ["## " + title, ""] + (if items == [] then ["- " + empty] else ItemsLines(items, truncate)) + [""]
  }

  function TitleLine(h: Handover, truncate: Truncate): string {
    "# Codex handover: " + MarkdownLine(h.project, "unassigned", truncate)
  }

  function SavedLine(savedAt: string): string {
    "Generated by Vola Codex " + "Console at " + savedAt + "."
  }

  function CounterLines(h: Handover): seq<string> {
    ["- Threads: " + Decimal(h.threads), "- Runs: " + Decimal(h.runs),
     "- Artifacts: " + Decimal(h.artifacts), "- Memory candidates: " + Decimal(h.memories), ""]
  }

  function StatusLines(h: Handover, savedAt: string, truncate: Truncate): seq<string> {
    ["", Marker(h.id), "", SavedLine(savedAt), "", "## Project status", "",
     "- Summary: " + MarkdownLine(h.summary, "No summary.", truncate),
     "- Latest activity: " + MarkdownLine(h.latestActivity, "unknown", truncate)] + CounterLines(h)
  }

  function MemoryAdvice(): string {
    "- Candidate memories " + "should be reviewed " + "before syncing to " + "long-term memory."
  }

  function SkillAdvice(): string {
    "- Skill candidates " + "should be reviewed " + "before assignment or " + "local agent sync."
  }

  function HookAdvice(): string {
    "- Hook files should " + "remain disabled until " + "their commands and " + "write paths are reviewed."
  }

  function ReviewLines(): seq<string> {
    ["## Review notes", "", MemoryAdvice(), SkillAdvice(), HookAdvice(), ""]
  }

  function Groups(h: Handover, truncate: Truncate): seq<string> {
    GroupLines("Recent threads", h.recentThreads, "No recent threads.", truncate) +
    GroupLines("Recent runs", h.recentRuns, "No recent runs.", truncate) +
    GroupLines("Recent artifacts", h.recentArtifacts, "No recent artifacts.", truncate) +
    GroupLines("Memory candidates", h.memoryCandidates, "No memory candidates.", truncate)
  }

  /** All lines above the manual notes. */
  function HeadLines(h: Handover, savedAt: string, truncate: Truncate): seq<string> {
    [TitleLine(h, truncate)] + (StatusLines(h, savedAt, truncate) + Groups(h, truncate) + ReviewLines())
  }

  function Render(h: Handover, savedAt: string, existing: string, truncate: Truncate): string {
    TrimSpace(Join(HeadLines(h, savedAt, truncate) + [NotesHeading(), "", NotesOrPlaceholder(existing)], NL)) + [NL]
  }

  method AppendItem(lines: seq<string>, item: Item, truncate: Truncate) returns (out: seq<string>)
    ensures out == lines + ItemLines(item, truncate)
  {
    hide ItemHead, MarkdownLine;
    out := lines + ["- " + ItemHead(item, truncate)];
    var detail := MarkdownLine(item.detail, "", truncate);
    if detail != "" {
      out := out + ["  - Detail: " + detail];
    }
    assert out == lines + (["- " + ItemHead(item, truncate)] + DetailLines(detail));
    var source := MarkdownLine(item.source, "", truncate);
    if source != "" {
      out := out + ["  - Source: `" + ReplaceAll(source, '`', '\'') + "`"];
    }
  }

  method AppendGroup(lines: seq<string>, title: string, items: seq<Item>, empty: string, truncate: Truncate) returns (out: seq<string>)
    ensures out == lines + GroupLines(title, items, empty, truncate)
  {
    hide ItemLines;
    out := lines + ["## " + title, ""];
    if items == [] {
      return out + ["- " + empty, ""];
    }
    ghost var start := out;
    for i := 0 to |items|
      invariant out == start + ItemsLines(items[..i], truncate)
    {
      assert items[..i + 1][..i] == items[..i];
      out := AppendItem(out, items[i], truncate);
    }
    assert items[..|items|] == items;
    out := out + [""];
  }

  method RenderMarkdown(h: Handover, savedAt: string, existing: string, truncate: Truncate) returns (content: string)
    ensures content == Render(h, savedAt, existing, truncate)
  {
    hide GroupLines, TitleLine, StatusLines, ReviewLines, NotesHeading, NotesOrPlaceholder, TrimSpace, Join;
    var lines := [TitleLine(h, truncate)] + StatusLines(h, savedAt, truncate);
    ghost var start := lines;
    lines := AppendGroup(lines, "Recent threads", h.recentThreads, "No recent threads.", truncate);
    lines := AppendGroup(lines, "Recent runs", h.recentRuns, "No recent runs.", truncate);
    lines := AppendGroup(lines, "Recent artifacts", h.recentArtifacts, "No recent artifacts.", truncate);
    lines := AppendGroup(lines, "Memory candidates", h.memoryCandidates, "No memory candidates.", truncate);
    assert lines == start + Groups(h, truncate);
    hide Groups;
    lines := lines + ReviewLines();
    assert lines == HeadLines(h, savedAt, truncate);
    hide HeadLines;
    lines := lines + [NotesHeading(), "", NotesOrPlaceholder(existing)];
    content := TrimSpace(Join(lines, NL)) + [NL];
  }

  // ---- What is shown where ----

  predicate IsHeading(line: string) {
    "## " <= line
  }

  ghost predicate NoHeadings(lines: seq<string>) {
    forall line :: line in lines ==> !IsHeading(line)
  }

  lemma NotAHeading(line: string)
    requires |line| < 2 || line[0] != '#' || line[1] != '#'
    ensures !IsHeading(line)
  {
    assert "## "[0] == '#' && "## "[1] == '#';
  }

  lemma NotAmong(heading: string, lines: seq<string>)
    requires IsHeading(heading) && NoHeadings(lines)
    ensures heading !in lines
  {
  }

  /** The lines up to the next heading. */
  function UpToHeading(lines: seq<string>): seq<string> {
    if lines == [] || IsHeading(lines[0]) then [] else [lines[0]] + UpToHeading(lines[1..])
  }

  /** What a reader finds under a heading. */
  function Section(lines: seq<string>, heading: string): seq<string> {
    if lines == [] then [] else if lines[0] == heading then UpToHeading(lines[1..]) else Section(lines[1..], heading)
  }

  lemma {:induction false} UpToHeadingStops(a: seq<string>, b: seq<string>)
    requires NoHeadings(a) && (b == [] || IsHeading(b[0]))
    ensures UpToHeading(a + b) == a
  {
    if a == [] {
      assert a + b == b;
    } else {
      UpToHeadingStops(a[1..], b);
      assert (a + b)[1..] == a[1..] + b;
    }
  }

  lemma {:induction false} SectionSkips(a: seq<string>, b: seq<string>, heading: string)
    requires heading !in a
    ensures Section(a + b, heading) == Section(b, heading)
  {
    if a == [] {
      assert a + b == b;
    } else {
      SectionSkips(a[1..], b, heading);
      assert (a + b)[1..] == a[1..] + b;
    }
  }

  lemma FoundHere(heading: string, body: seq<string>, after: seq<string>)
    ensures Section(([heading] + body) + after, heading) == UpToHeading(body + after)
  {
    assert (([heading] + body) + after)[1..] == body + after;
    hide UpToHeading;
  }

  /** Under a heading that does not come before, a reader finds what stands there up to the next one. */
  lemma SectionIs(before: seq<string>, heading: string, body: seq<string>, after: seq<string>)
    requires heading !in before && NoHeadings(body) && (after == [] || IsHeading(after[0]))
    ensures Section(before + (([heading] + body) + after), heading) == body
  {
    hide *;
    SectionSkips(before, ([heading] + body) + after, heading);
    FoundHere(heading, body, after);
    UpToHeadingStops(body, after);
  }

  /** No line that an item brings can be taken for a heading. */
  lemma {:induction false} ItemsBringNoHeading(items: seq<Item>, truncate: Truncate)
    ensures forall line :: line in ItemsLines(items, truncate) ==> line != "" && (line[0] == '-' || line[0] == ' ')
  {
    hide ItemHead, MarkdownLine, ReplaceAll;
    if items != [] { ItemsBringNoHeading(items[..|items| - 1], truncate); }
  }

  /** What a group shows under its title: its items one after the other, or the phrase for none. */
  function GroupBody(items: seq<Item>, empty: string, truncate: Truncate): seq<string> {
    [""] + (if items == [] then ["- " + empty] else ItemsLines(items, truncate)) + [""]
  }

  lemma GroupIs(title: string, items: seq<Item>, empty: string, truncate: Truncate)
    ensures GroupLines(title, items, empty, truncate) == ["## " + title] + GroupBody(items, empty, truncate)
    ensures NoHeadings(GroupBody(items, empty, truncate))
  {
    GroupHasNoHeading(items, empty, truncate);
    hide ItemsLines, NoHeadings, IsHeading;
  }

  lemma GroupHasNoHeading(items: seq<Item>, empty: string, truncate: Truncate)
    ensures NoHeadings(GroupBody(items, empty, truncate))
  {
    ItemsBringNoHeading(items, truncate);
    hide ItemsLines, IsHeading;
    var middle := if items == [] then ["- " + empty] else ItemsLines(items, truncate);
    forall line | line in GroupBody(items, empty, truncate) ensures !IsHeading(line) {
      assert line == "" || line in middle;
      NotAHeading(line);
    }
  }

  /** The lines under the first heading: summary, latest activity and the four counters. */
  function StatusBody(h: Handover, truncate: Truncate): seq<string> {
    ["", "- Summary: " + MarkdownLine(h.summary, "No summary.", truncate),
     "- Latest activity: " + MarkdownLine(h.latestActivity, "unknown", truncate),
     "- Threads: " + Decimal(h.threads), "- Runs: " + Decimal(h.runs),
     "- Artifacts: " + Decimal(h.artifacts), "- Memory candidates: " + Decimal(h.memories), ""]
  }

  lemma StatusIs(h: Handover, savedAt: string, truncate: Truncate)
    ensures StatusLines(h, savedAt, truncate) == ["", Marker(h.id), "", SavedLine(savedAt), ""] + (["## Project status"] + StatusBody(h, truncate))
  {
    hide MarkdownLine, Decimal, Marker, SavedLine;
  }

  lemma StatusHasNoHeading(h: Handover, truncate: Truncate)
    ensures NoHeadings(StatusBody(h, truncate))
  {
    hide MarkdownLine, Decimal, IsHeading;
    NotAHeading("");
    NotAHeading("- Summary: " + MarkdownLine(h.summary, "No summary.", truncate));
    NotAHeading("- Latest activity: " + MarkdownLine(h.latestActivity, "unknown", truncate));
    NotAHeading("- Threads: " + Decimal(h.threads));
    NotAHeading("- Runs: " + Decimal(h.runs));
    NotAHeading("- Artifacts: " + Decimal(h.artifacts));
    NotAHeading("- Memory candidates: " + Decimal(h.memories));
  }

  function Top(h: Handover, savedAt: string, truncate: Truncate): seq<string> {
    [TitleLine(h, truncate), "", Marker(h.id), "", SavedLine(savedAt), ""]
  }

  lemma TopHasNoHeading(h: Handover, savedAt: string, truncate: Truncate)
    ensures NoHeadings(Top(h, savedAt, truncate))
  {
    assert SavedLine(savedAt)[0] == 'G' && Marker(h.id)[0] == '<' && TitleLine(h, truncate)[1] == ' ';
    hide SavedLine, Marker, TitleLine, IsHeading;
    NotAHeading("");
    NotAHeading(SavedLine(savedAt));
    NotAHeading(Marker(h.id));
    NotAHeading(TitleLine(h, truncate));
  }

  /** Each group is found under its own title, and the counters under the status, whatever the fields hold. */
  lemma SectionsAreShown(h: Handover, savedAt: string, truncate: Truncate)
    ensures var lines := HeadLines(h, savedAt, truncate);
      && lines[0] == "# Codex handover: " + MarkdownLine(h.project, "unassigned", truncate)
      && lines[2] == Marker(h.id) && lines[4] == SavedLine(savedAt)
      && Section(lines, "## Project status") == StatusBody(h, truncate)
      && Section(lines, "## Recent threads") == GroupBody(h.recentThreads, "No recent threads.", truncate)
      && Section(lines, "## Recent runs") == GroupBody(h.recentRuns, "No recent runs.", truncate)
      && Section(lines, "## Recent artifacts") == GroupBody(h.recentArtifacts, "No recent artifacts.", truncate)
      && Section(lines, "## Memory candidates") == GroupBody(h.memoryCandidates, "No memory candidates.", truncate)
  {
    StatusHasNoHeading(h, truncate);
    TopHasNoHeading(h, savedAt, truncate);
    GroupIs("Recent threads", h.recentThreads, "No recent threads.", truncate);
    GroupIs("Recent runs", h.recentRuns, "No recent runs.", truncate);
    GroupIs("Recent artifacts", h.recentArtifacts, "No recent artifacts.", truncate);
    GroupIs("Memory candidates", h.memoryCandidates, "No memory candidates.", truncate);
    ReviewBegins();
    HeadIsSections(h, savedAt, truncate);
    hide Section, UpToHeading, StatusBody, GroupBody, ReviewLines, HeadLines, InSections, MarkdownLine, Marker, SavedLine, NoHeadings;
    FiveSections(Top(h, savedAt, truncate), StatusBody(h, truncate), GroupBody(h.recentThreads, "No recent threads.", truncate),
      GroupBody(h.recentRuns, "No recent runs.", truncate), GroupBody(h.recentArtifacts, "No recent artifacts.", truncate),
      GroupBody(h.memoryCandidates, "No memory candidates.", truncate), ReviewLines());
  }

  lemma ReviewBegins()
    ensures ReviewLines() != [] && IsHeading(ReviewLines()[0])
  {
  }

  /** The head as its top and its sections. */
  function InSections(top: seq<string>, status: seq<string>, threads: seq<string>, runs: seq<string>, artifacts: seq<string>,
                      memories: seq<string>, rest: seq<string>): seq<string> {
    top + ((["## Project status"] + status) + ((["## Recent threads"] + threads) + ((["## Recent runs"] + runs) +
      ((["## Recent artifacts"] + artifacts) + ((["## Memory candidates"] + memories) + rest)))))
  }

  lemma Regroup(t: seq<string>, mid: seq<string>, p: seq<string>, a: seq<string>, b: seq<string>, c: seq<string>, d: seq<string>, rest: seq<string>)
    ensures t + (((mid + p) + (((a + b) + c) + d)) + rest) == (t + mid) + (p + (a + (b + (c + (d + rest)))))
  {
    assert (((a + b) + c) + d) + rest == a + (b + (c + (d + rest)));
    var tail := a + (b + (c + (d + rest)));
    assert ((mid + p) + (((a + b) + c) + d)) + rest == (mid + p) + tail;
    assert t + ((mid + p) + tail) == (t + mid) + (p + tail);
  }

  lemma HeadIsSections(h: Handover, savedAt: string, truncate: Truncate)
    ensures HeadLines(h, savedAt, truncate) == InSections(Top(h, savedAt, truncate), StatusBody(h, truncate), GroupBody(h.recentThreads, "No recent threads.", truncate),
        GroupBody(h.recentRuns, "No recent runs.", truncate), GroupBody(h.recentArtifacts, "No recent artifacts.", truncate),
        GroupBody(h.memoryCandidates, "No memory candidates.", truncate), ReviewLines())
  {
    StatusIs(h, savedAt, truncate);
    GroupIs("Recent threads", h.recentThreads, "No recent threads.", truncate);
    GroupIs("Recent runs", h.recentRuns, "No recent runs.", truncate);
    GroupIs("Recent artifacts", h.recentArtifacts, "No recent artifacts.", truncate);
    GroupIs("Memory candidates", h.memoryCandidates, "No memory candidates.", truncate);
    hide TitleLine, Marker, SavedLine, StatusBody, StatusLines, GroupBody, GroupLines, ReviewLines;
    assert "## " + "Recent threads" == "## Recent threads" && "## " + "Recent runs" == "## Recent runs";
    assert "## " + "Recent artifacts" == "## Recent artifacts" && "## " + "Memory candidates" == "## Memory candidates";
    Regroup([TitleLine(h, truncate)], ["", Marker(h.id), "", SavedLine(savedAt), ""], ["## Project status"] + StatusBody(h, truncate),
      ["## Recent threads"] + GroupBody(h.recentThreads, "No recent threads.", truncate),
      ["## Recent runs"] + GroupBody(h.recentRuns, "No recent runs.", truncate),
      ["## Recent artifacts"] + GroupBody(h.recentArtifacts, "No recent artifacts.", truncate),
      ["## Memory candidates"] + GroupBody(h.memoryCandidates, "No memory candidates.", truncate), ReviewLines());
    assert [TitleLine(h, truncate)] + ["", Marker(h.id), "", SavedLine(savedAt), ""] == Top(h, savedAt, truncate);
  }

  lemma Associate(a: seq<string>, b: seq<string>, c: seq<string>)
    ensures (a + b) + c == a + (b + c)
  {
  }

  lemma NotAmongBoth(heading: string, a: seq<string>, other: string, b: seq<string>)
    requires heading !in a && heading != other && heading !in b
    ensures heading !in a + ([other] + b)
  {
  }

  lemma HeadingsNotAmong(heading: string, top: seq<string>, status: seq<string>, threads: seq<string>, runs: seq<string>, artifacts: seq<string>)
    requires IsHeading(heading)
    requires NoHeadings(top) && NoHeadings(status) && NoHeadings(threads) && NoHeadings(runs) && NoHeadings(artifacts)
    ensures heading !in top && heading !in status && heading !in threads && heading !in runs && heading !in artifacts
  {
    hide *;
    NotAmong(heading, top);
    NotAmong(heading, status);
    NotAmong(heading, threads);
    NotAmong(heading, runs);
    NotAmong(heading, artifacts);
  }

  lemma FirstTwoSections(top: seq<string>, status: seq<string>, threads: seq<string>, after: seq<string>)
    requires "## Project status" !in top && "## Recent threads" !in top && "## Recent threads" !in status
    requires NoHeadings(status) && NoHeadings(threads) && after != [] && IsHeading(after[0])
    ensures var lines := top + ((["## Project status"] + status) + ((["## Recent threads"] + threads) + after));
      && lines == ((top + (["## Project status"] + status)) + (["## Recent threads"] + threads)) + after
      && Section(lines, "## Project status") == status && Section(lines, "## Recent threads") == threads
  {
    HeadingsDiffer();
    hide UpToHeading, Section, IsHeading, NoHeadings;
    var P, T := "## Project status", "## Recent threads";
    var t := ([T] + threads) + after;
    NotAmongBoth(T, top, P, status);
    Associate(top, [P] + status, t);
    Associate(top + ([P] + status), [T] + threads, after);
    SectionIs(top, P, status, t);
    SectionIs(top + ([P] + status), T, threads, after);
  }

  lemma LastThreeSections(top: seq<string>, runs: seq<string>, artifacts: seq<string>, memories: seq<string>, rest: seq<string>)
    requires "## Recent runs" !in top && "## Recent artifacts" !in top && "## Memory candidates" !in top
    requires "## Recent artifacts" !in runs && "## Memory candidates" !in runs && "## Memory candidates" !in artifacts
    requires NoHeadings(runs) && NoHeadings(artifacts) && NoHeadings(memories) && rest != [] && IsHeading(rest[0])
    ensures var lines := top + ((["## Recent runs"] + runs) + ((["## Recent artifacts"] + artifacts) + ((["## Memory candidates"] + memories) + rest)));
      && Section(lines, "## Recent runs") == runs && Section(lines, "## Recent artifacts") == artifacts
      && Section(lines, "## Memory candidates") == memories
  {
    HeadingsDiffer();
    hide UpToHeading, Section, IsHeading, NoHeadings;
    var R, A, M := "## Recent runs", "## Recent artifacts", "## Memory candidates";
    var m := ([M] + memories) + rest;
    var a := ([A] + artifacts) + m;
    var upTo1 := top + ([R] + runs);
    NotAmongBoth(A, top, R, runs);
    NotAmongBoth(M, top, R, runs);
    NotAmongBoth(M, upTo1, A, artifacts);
    Associate(top, [R] + runs, a);
    Associate(upTo1, [A] + artifacts, m);
    SectionIs(top, R, runs, a);
    SectionIs(upTo1, A, artifacts, m);
    SectionIs(upTo1 + ([A] + artifacts), M, memories, rest);
  }

  lemma FiveSections(top: seq<string>, status: seq<string>, threads: seq<string>, runs: seq<string>, artifacts: seq<string>,
                     memories: seq<string>, rest: seq<string>)
    requires NoHeadings(top) && NoHeadings(status) && NoHeadings(threads) && NoHeadings(runs) && NoHeadings(artifacts) && NoHeadings(memories)
    requires rest != [] && IsHeading(rest[0])
    ensures var lines := InSections(top, status, threads, runs, artifacts, memories, rest);
      && top <= lines
      && Section(lines, "## Project status") == status && Section(lines, "## Recent threads") == threads
      && Section(lines, "## Recent runs") == runs && Section(lines, "## Recent artifacts") == artifacts
      && Section(lines, "## Memory candidates") == memories
  {
    HeadingsDiffer();
    hide UpToHeading, Section, IsHeading, NoHeadings;
    var P, T, R := "## Project status", "## Recent threads", "## Recent runs";
    var A, M := "## Recent artifacts", "## Memory candidates";
    forall heading | heading in [P, T, R, A, M]
      ensures heading !in top && heading !in status && heading !in threads && heading !in runs && heading !in artifacts
    {
      HeadingsNotAmong(heading, top, status, threads, runs, artifacts);
    }
    var after := ([R] + runs) + (([A] + artifacts) + (([M] + memories) + rest));
    FirstTwoSections(top, status, threads, after);
    var upTo1 := top + ([P] + status);
    forall heading | heading in [R, A, M] ensures heading !in upTo1 + ([T] + threads) {
      NotAmongBoth(heading, top, P, status);
      NotAmongBoth(heading, upTo1, T, threads);
    }
    LastThreeSections(upTo1 + ([T] + threads), runs, artifacts, memories, rest);
  }

  lemma HeadingsDiffer()
    ensures forall line :: line in ["## Project status", "## Recent threads", "## Recent runs", "## Recent artifacts", "## Memory candidates"] ==>
      IsHeading(line)
    ensures "## Project status" != "## Recent threads" && "## Project status" != "## Recent runs"
    ensures "## Project status" != "## Recent artifacts" && "## Project status" != "## Memory candidates"
    ensures "## Recent threads" != "## Recent runs" && "## Recent threads" != "## Recent artifacts"
    ensures "## Recent threads" != "## Memory candidates" && "## Recent runs" != "## Recent artifacts"
    ensures "## Recent runs" != "## Memory candidates" && "## Recent artifacts" != "## Memory candidates"
  {
    assert |"## Project status"| == 17 && |"## Recent threads"| == 17 && |"## Recent runs"| == 14;
    assert |"## Recent artifacts"| == 19 && |"## Memory candidates"| == 20;
    assert "## Project status"[3] == 'P' && "## Recent threads"[3] == 'R';
  }

  function Unchanged(s: string): string {
    s
  }

  lemma OneLetter(c: char, fallback: string)
    requires !IsSpace(c)
    ensures MarkdownLine([c], fallback, Unchanged) == [c] && MarkdownLine("", fallback, Unchanged) == fallback
  {
    assert ReplaceAll([c], NL, ' ') == [c] && ReplaceAll("", NL, ' ') == "";
    assert [c][1..] == "";
    assert Word([c]) == [c];
    assert Fields([c]) == [[c]] && Fields("") == [];
  }

  /** An item with all its fields, and one with none but its identifier. */
  lemma ItemExamples()
    ensures ItemLines(Item("i", "T", "k", "a", "d", "`"), Unchanged) == ["- T (k, a)", "  - Detail: d", "  - Source: `'`"]
    ensures ItemLines(Item("i", "", "", "", "", ""), Unchanged) == ["- i"]
    ensures ItemHead(Item("i", "T", "k", "", "", ""), Unchanged) == "T (k)" && ItemHead(Item("i", "T", "", "a", "", ""), Unchanged) == "T (a)"
  {
    OneLetter('T', "i");
    OneLetter('d', "");
    OneLetter('`', "");
    TrimmedIsFixed("k");
    TrimmedIsFixed("a");
    TrimmedIsFixed("");
    assert ReplaceAll("`", '`', '\'') == "'";
    hide TrimSpace, MarkdownLine, ReplaceAll;
    assert "- " + "T (k, a)" == "- T (k, a)" && "- " + "i" == "- i";
    assert "  - Detail: " + "d" == "  - Detail: d" && "  - Source: `" + "'" + "`" == "  - Source: `'`";
    assert "T" + " (" + "k" + ", " + "a" + ")" == "T (k, a)" && "T" + " (" + "k" + ")" == "T (k)" && "T" + " (" + "a" + ")" == "T (a)";
  }

  // ---- Notes survive a rendering ----

  lemma SplitsAtFirst(line: string, rest: string)
    requires NL !in line
    ensures AfterFirstLine(line + [NL] + rest) == rest
  {
    SplitAtSep(line, rest, NL);
    JoinUndoesSplit(rest, NL);
    assert ([line] + Split(rest, NL))[1..] == Split(rest, NL);
  }

  lemma {:induction false} FirstLine(s: string, i: nat) returns (line: string, rest: string)
    requires i < |s| && s[i] == NL
    ensures s == line + [NL] + rest && NL !in line && |line| <= i
  {
    if s[0] == NL {
      line, rest := "", s[1..];
    } else {
      line, rest := FirstLine(s[1..], i - 1);
      line := [s[0]] + line;
      assert s == [s[0]] + s[1..];
    }
  }

  /** A heading at the beginning of a line, searched behind a text and in it. */
  lemma MarkBehind(head: string, heading: string, tail: string)
    requires heading != "" && NL !in heading
    ensures var s := head + ([NL] + heading) + tail;
      Index(s, [NL] + heading) == if Contains(head, [NL] + heading) then Index(head, [NL] + heading) else |head|
  {
    var mark := [NL] + heading;
    var s := head + mark + tail;
    IndexMeans(head, mark);
    assert At(s, mark, |head|) by { assert s[|head|..|head| + |mark|] == mark; }
    forall i: nat | i < |head| ensures At(s, mark, i) <==> At(head, mark, i) { InsideHead(head, heading, tail, i); }
    IndexIs(s, mark, if Contains(head, mark) then Index(head, mark) else |head|);
  }

  lemma InsideHead(head: string, heading: string, tail: string, i: nat)
    requires heading != "" && NL !in heading && i < |head|
    ensures At(head + ([NL] + heading) + tail, [NL] + heading, i) <==> At(head, [NL] + heading, i)
  {
    var mark := [NL] + heading;
    var s := head + mark + tail;
    if i + |mark| <= |head| {
      assert s[i..i + |mark|] == head[i..i + |mark|];
    } else {
      assert forall k :: 1 <= k < |mark| ==> mark[k] != NL;
      assert s[|head|] == NL;
      if At(s, mark, i) { AtIndex(s, mark, i, |head| - i); }
    }
  }

  lemma AtIndex(s: string, pat: string, i: nat, k: nat)
    requires At(s, pat, i) && k < |pat|
    ensures s[i + k] == pat[k]
  {
    assert s[i..i + |pat|][k] == s[i + k];
  }

  /** TrimSpace cannot reach behind the beginning of a trimmed tail. */
  lemma TrimKeepsTail(u: string, v: string)
    requires v != "" && Trimmed(v)
    ensures |TrimSpace(u + v)| >= |v|
  {
    var i, j := TrimSpaceCuts(u + v);
    assert (u + v)[|u|] == v[0] && (u + v)[|u + v| - 1] == v[|v| - 1];
  }

  predicate Heading(heading: string) {
    |heading| > 1 && NL !in heading && heading[0] == '#'
  }

  /** The text of a rendered handover around its notes. */
  function Framed(head: string, heading: string, notes: string): string {
    head + ([NL] + heading) + ([NL, NL] + notes)
  }

  lemma NotesFound(head: string, heading: string, notes: string)
    requires Heading(heading) && notes != "" && Trimmed(notes) && !Contains(head, [NL] + heading)
    ensures var s := Framed(head, heading, notes);
      Index(s, [NL] + heading) == |head| && TrimSpace(AfterFirstLine(TrimStart(s[|head|..], NL))) == notes
  {
    MarkBehind(head, heading, [NL, NL] + notes);
    var s := Framed(head, heading, notes);
    var section := heading + [NL] + ([NL] + notes);
    assert s[|head|..] == [NL] + section;
    assert section[0] == '#';
    SkipBreak(section);
    SplitsAtFirst(heading, [NL] + notes);
    TrimAround([NL], notes, "");
    assert [NL] + notes + "" == [NL] + notes;
  }

  lemma NotesBuried(head: string, heading: string, notes: string)
    requires Heading(heading) && notes != "" && Trimmed(notes) && Contains(head, [NL] + heading)
    ensures var s := Framed(head, heading, notes);
      0 <= Index(s, [NL] + heading) <= |s| && TrimSpace(AfterFirstLine(TrimStart(s[Index(s, [NL] + heading)..], NL))) != notes
  {
    hide Index, At, TrimSpace, Contains;
    var mark, s := [NL] + heading, Framed(head, heading, notes);
    MarkBehind(head, heading, [NL, NL] + notes);
    MarkWithin(head, heading);
    var i := Index(head, mark);
    BuriedSection(head, heading, [NL, NL] + notes, i);
    var tail := heading + ([NL, NL] + notes);
    var section := head[i + 1..] + [NL] + tail;
    assert section[0] == head[i + 1];
    SkipBreak(section);
    assert tail[0] == heading[0] && tail[|tail| - 1] == notes[|notes| - 1];
    RestKeepsTail(section, head[i + 1..], tail);
  }

  lemma MarkWithin(head: string, heading: string)
    requires Heading(heading) && Contains(head, [NL] + heading)
    ensures var i := Index(head, [NL] + heading); 0 <= i < |head| - 1 && head[i] == NL && head[i + 1] == heading[0]
  {
    var mark := [NL] + heading;
    IndexMeans(head, mark);
    AtIndex(head, mark, Index(head, mark), 0);
    AtIndex(head, mark, Index(head, mark), 1);
  }

  lemma BuriedSection(head: string, heading: string, tail: string, i: nat)
    requires i < |head| && head[i] == NL
    ensures (head + ([NL] + heading) + tail)[i..] == [NL] + (head[i + 1..] + [NL] + (heading + tail))
  {
  }

  lemma SkipBreak(section: string)
    requires section != "" && section[0] != NL
    ensures TrimStart([NL] + section, NL) == section
  {
    assert ([NL] + section)[1..] == section;
  }

  lemma RestKeepsTail(section: string, front: string, tail: string)
    requires section == front + [NL] + tail && tail != "" && Trimmed(tail)
    ensures |TrimSpace(AfterFirstLine(section))| >= |tail|
  {
    hide TrimSpace;
    assert section[|front|] == NL;
    var line, rest := FirstLine(section, |front|);
    SplitsAtFirst(line, rest);
    SuffixOf(line, rest, front, tail);
    TrimKeepsTail(rest[..|rest| - |tail|], tail);
  }

  lemma SuffixOf(line: string, rest: string, front: string, tail: string)
    requires line + [NL] + rest == front + [NL] + tail && |line| <= |front|
    ensures |rest| >= |tail| && rest == rest[..|rest| - |tail|] + tail
  {
    var s := line + [NL] + rest;
    assert s == front + [NL] + tail;
    assert s[|s| - |tail|..] == tail && s[|s| - |rest|..] == rest;
  }

  // ---- The heading as a line ----

  /** A line that can stand above the notes: no line break in it, and it is not the notes' heading. */
  predicate SafeLine(line: string) {
    NL !in line && !(NotesHeading() <= line)
  }

  lemma PrefixOfFirst(heading: string, lines: seq<string>)
    requires heading != "" && NL !in heading && lines != [] && heading <= Join(lines, NL)
    ensures heading <= lines[0]
  {
    if |lines| > 1 {
      PrefixAcrossLine(lines[0], Join(lines[1..], NL), heading);
    }
  }

  /** A heading behind a line break is found in the first line, right behind it, or below. */
  lemma AtBreak(first: string, below: string, heading: string, i: nat)
    requires heading != "" && NL !in heading
    ensures At(first + [NL] + below, [NL] + heading, i) <==>
      At(first, [NL] + heading, i) || (i == |first| && heading <= below) || (i > |first| && At(below, [NL] + heading, i - |first| - 1))
  {
    var mark, s := [NL] + heading, first + [NL] + below;
    if i < |first| {
      if i + |mark| <= |first| {
        assert s[i..i + |mark|] == first[i..i + |mark|];
      } else {
        assert forall k :: 1 <= k < |mark| ==> mark[k] in heading;
        assert s[|first|] == NL;
        if At(s, mark, i) { AtIndex(s, mark, i, |first| - i); }
      }
    } else if i + |mark| <= |s| {
      if i == |first| {
        assert s[i..i + |mark|] == [NL] + below[..|heading|];
        assert ([NL] + below[..|heading|])[1..] == below[..|heading|] && mark[1..] == heading;
      } else {
        assert s[i..i + |mark|] == below[i - |first| - 1..i - |first| - 1 + |mark|];
      }
    }
  }

  lemma BreakContainsIff(first: string, below: string, heading: string)
    requires heading != "" && NL !in heading && !(heading <= below)
    ensures Contains(first + [NL] + below, [NL] + heading) <==> Contains(first, [NL] + heading) || Contains(below, [NL] + heading)
  {
    var mark, s := [NL] + heading, first + [NL] + below;
    IndexMeans(s, mark);
    IndexMeans(first, mark);
    IndexMeans(below, mark);
    hide Index, At;
    if Contains(s, mark) { AtBreak(first, below, heading, Index(s, mark)); }
    if Contains(first, mark) { AtBreak(first, below, heading, Index(first, mark)); }
    if Contains(below, mark) { AtBreak(first, below, heading, |first| + 1 + Index(below, mark)); }
  }

  /** Lines none of which begins with the heading hold it behind a line break exactly when one of them does. */
  lemma {:induction false} LinesContainIff(heading: string, lines: seq<string>)
    requires heading != "" && NL !in heading && lines != []
    requires forall k :: 1 <= k < |lines| ==> !(heading <= lines[k])
    ensures Contains(Join(lines, NL), [NL] + heading) <==> exists line :: line in lines && Contains(line, [NL] + heading)
  {
    hide Contains;
    if |lines| == 1 {
      assert lines[0] in lines;
    } else {
      var rest := lines[1..];
      LinesContainIff(heading, rest);
      if heading <= Join(rest, NL) { PrefixOfFirst(heading, rest); }
      BreakContainsIff(lines[0], Join(rest, NL), heading);
      assert forall line :: line in lines <==> line == lines[0] || line in rest;
    }
  }

  /** What cannot lie inside the heading: a character that it lacks, first or behind one that does not end it. */
  predicate Barrier(c: string, heading: string)
    requires heading != ""
  {
    && c != "" && NL !in c
    && (c[0] !in heading || (|c| > 1 && c[1] !in heading && c[0] != heading[|heading| - 1]))
  }

  lemma AtBarrier(x: string, c: string, y: string, heading: string, i: nat)
    requires heading != "" && NL !in heading && Barrier(c, heading)
    ensures At(x + c + y, [NL] + heading, i) <==>
      At(x, [NL] + heading, i) || (i >= |x| + |c| && At(y, [NL] + heading, i - |x| - |c|))
  {
    var mark, s := [NL] + heading, x + c + y;
    assert mark[|mark| - 1] == heading[|heading| - 1] && forall k :: 1 <= k < |mark| ==> mark[k] in heading;
    assert s[|x|] == c[0] && (|c| > 1 ==> s[|x| + 1] == c[1]) && c == s[|x|..|x| + |c|];
    if i < |x| {
      if i + |mark| <= |x| {
        assert s[i..i + |mark|] == x[i..i + |mark|];
      } else if At(s, mark, i) {
        if |x| - i < |mark| - 1 && |c| > 1 { AtIndex(s, mark, i, |x| + 1 - i); }
        AtIndex(s, mark, i, |x| - i);
      }
    } else if i < |x| + |c| {
      assert c[i - |x|] in c;
      if At(s, mark, i) { AtIndex(s, mark, i, 0); }
    } else if i + |mark| <= |s| {
      assert s[i..i + |mark|] == y[i - |x| - |c|..i - |x| - |c| + |mark|];
    }
  }

  lemma BarrierContainsIff(x: string, c: string, y: string, heading: string)
    requires heading != "" && NL !in heading && Barrier(c, heading)
    ensures Contains(x + c + y, [NL] + heading) <==> Contains(x, [NL] + heading) || Contains(y, [NL] + heading)
  {
    var mark, s := [NL] + heading, x + c + y;
    IndexMeans(s, mark);
    IndexMeans(x, mark);
    IndexMeans(y, mark);
    hide Index, At, Barrier;
    if Contains(s, mark) { AtBarrier(x, c, y, heading, Index(s, mark)); }
    if Contains(x, mark) { AtBarrier(x, c, y, heading, Index(x, mark)); }
    if Contains(y, mark) { AtBarrier(x, c, y, heading, |x| + |c| + Index(y, mark)); }
  }

  // ---- Rendered handovers ----

  lemma HeadingFacts()
    ensures Heading(NotesHeading()) && Trimmed(Placeholder()) && Placeholder() != ""
  {
  }

  /** A file without the heading at the beginning of a line has no notes. */
  lemma NoHeadingNoNotes(existing: string)
    requires !Contains(TrimSpace(existing), "\n## Manual notes") && !("## Manual notes" <= TrimSpace(existing))
    ensures Notes(existing) == "" && NotesOrPlaceholder(existing) == "No manual notes yet."
  {
    assert NotesMark() == "\n## Manual notes";
  }

  /** The notes of a file that begins with the heading are all that follows its line. */
  lemma NotesBehindHeading(notes: string)
    requires notes != "" && Trimmed(notes) && !Contains("## Manual notes" + "\n" + notes, "\n## Manual notes")
    ensures Notes("## Manual notes" + "\n" + notes) == notes
  {
    var text := "## Manual notes" + "\n" + notes;
    HeadingFacts();
    TrimmedIsFixed(text);
    TrimmedIsFixed(notes);
    assert NotesMark() == "\n## Manual notes" && '\n' !in "## Manual notes";
    SplitsAtFirst("## Manual notes", notes);
    assert text[0..] == text && text[0] == '#';
    hide TrimSpace, AfterFirstLine, Index;
  }

  lemma NotesAreTrimmed(existing: string)
    ensures Trimmed(NotesOrPlaceholder(existing)) && NotesOrPlaceholder(existing) != ""
  {
    HeadingFacts();
    hide NotesHeading, Placeholder;
    var text := TrimSpace(existing);
    var index := Index(text, NotesMark());
    if !(index < 0 && !(NotesHeading() <= text)) {
      IndexMeans(text, NotesMark());
      var i, j := TrimSpaceCuts(AfterFirstLine(TrimStart(text[if index < 0 then 0 else index..], NL)));
    }
  }

  function Head(h: Handover, savedAt: string, truncate: Truncate): string {
    Join(HeadLines(h, savedAt, truncate), NL)
  }

  lemma HeadBegins(h: Handover, savedAt: string, truncate: Truncate)
    ensures HeadLines(h, savedAt, truncate) != [] && Head(h, savedAt, truncate) != "" && Head(h, savedAt, truncate)[0] == '#'
  {
    var lines := HeadLines(h, savedAt, truncate);
    assert lines[0] == TitleLine(h, truncate) && lines[0][0] == '#';
    hide HeadLines, TitleLine;
  }

  lemma RenderIsFramed(h: Handover, savedAt: string, existing: string, truncate: Truncate)
    ensures var framed := Framed(Head(h, savedAt, truncate), NotesHeading(), NotesOrPlaceholder(existing));
      Render(h, savedAt, existing, truncate) == framed + [NL] && TrimSpace(framed + [NL]) == framed
  {
    var lines, notes := HeadLines(h, savedAt, truncate), NotesOrPlaceholder(existing);
    HeadBegins(h, savedAt, truncate);
    NotesAreTrimmed(existing);
    hide HeadLines, NotesHeading, Placeholder, Notes, NotesOrPlaceholder;
    JoinSnoc(lines, NotesHeading(), NL);
    JoinSnoc(lines + [NotesHeading()], "", NL);
    JoinSnoc(lines + [NotesHeading(), ""], notes, NL);
    assert lines + [NotesHeading()] + [""] == lines + [NotesHeading(), ""] && lines + [NotesHeading(), ""] + [notes] == lines + [NotesHeading(), "", notes];
    var framed := Framed(Join(lines, NL), NotesHeading(), notes);
    assert Join(lines + [NotesHeading(), "", notes], NL) == framed;
    assert framed[0] == Join(lines, NL)[0] && framed[|framed| - 1] == notes[|notes| - 1];
    TrimmedIsFixed(framed);
    TrimAround("", framed, [NL]);
    assert "" + framed + [NL] == framed + [NL];
  }

  /** The notes are found again exactly when nothing above them looks like their heading at the beginning of a line. */
  lemma NotesFollowHead(h: Handover, savedAt: string, existing: string, truncate: Truncate)
    ensures Notes(Render(h, savedAt, existing, truncate)) == NotesOrPlaceholder(existing) <==> !HoldsMark(Head(h, savedAt, truncate))
  {
    var head, heading, notes := Head(h, savedAt, truncate), NotesHeading(), NotesOrPlaceholder(existing);
    RenderIsFramed(h, savedAt, existing, truncate);
    NotesAreTrimmed(existing);
    HeadingFacts();
    hide Head, NotesHeading, NotesOrPlaceholder, Placeholder, Render, TrimSpace, Index, AfterFirstLine;
    if Contains(head, [NL] + heading) {
      NotesBuried(head, heading, notes);
    } else {
      NotesFound(head, heading, notes);
    }
  }

  // ---- Which fields hold the heading ----

  /** The heading of the notes at the beginning of a line that is not the first. */
  predicate HoldsMark(s: string) {
    Contains(s, NotesMark())
  }

  /** An item whose kind, time or, for want of a title, identifier holds the heading. */
  predicate BuriesNotes(item: Item, truncate: Truncate) {
    HoldsMark(item.kind) || HoldsMark(item.at) || (MarkdownLine(item.title, "", truncate) == "" && HoldsMark(item.id))
  }

  function AllItems(h: Handover): seq<Item> {
    h.recentThreads + h.recentRuns + h.recentArtifacts + h.memoryCandidates
  }

  ghost predicate SomeBury(items: seq<Item>, truncate: Truncate) {
    exists item :: item in items && BuriesNotes(item, truncate)
  }

  /** The time of saving or some item holds the heading where it reaches the rendered file. */
  ghost predicate Burying(h: Handover, savedAt: string, truncate: Truncate) {
    HoldsMark(savedAt) || SomeBury(AllItems(h), truncate)
  }

  ghost predicate Headless(lines: seq<string>) {
    forall line :: line in lines ==> !(NotesHeading() <= line)
  }

  ghost predicate Marked(lines: seq<string>) {
    exists line :: line in lines && HoldsMark(line)
  }

  ghost predicate SafeLines(lines: seq<string>) {
    forall line :: line in lines ==> SafeLine(line)
  }

  lemma BareHoldsNoMark(s: string)
    requires NL !in s
    ensures !HoldsMark(s)
  {
    NoFirstCharNoMatch(s, NotesMark());
  }

  lemma SafeAreUnmarked(lines: seq<string>)
    requires SafeLines(lines)
    ensures Headless(lines) && !Marked(lines)
  {
    forall line | line in lines ensures !HoldsMark(line) { BareHoldsNoMark(line); }
    hide HoldsMark;
  }

  lemma MarkedBehind(a: string, s: string)
    requires NL !in a
    ensures HoldsMark(a + s) <==> HoldsMark(s)
  {
    hide Index, Occurrences, NotesHeading;
    OccurrencesBehind(a, s, NotesMark());
    AbsentIffNone(s, NotesMark());
    AbsentIffNone(a + s, NotesMark());
  }

  lemma MarkedAround(x: string, c: string, y: string)
    requires Barrier(c, NotesHeading())
    ensures HoldsMark(x + c + y) <==> HoldsMark(x) || HoldsMark(y)
  {
    HeadingFacts();
    hide NotesHeading, Barrier, Contains;
    BarrierContainsIff(x, c, y, NotesHeading());
  }

  lemma MarkedBefore(x: string, c: string)
    requires Barrier(c, NotesHeading())
    ensures HoldsMark(x + c) <==> HoldsMark(x)
  {
    hide Barrier, NotesHeading, HoldsMark;
    MarkedAround(x, c, "");
    BareHoldsNoMark("");
    assert x + c + "" == x + c;
  }

  lemma ItemBarriers()
    ensures Barrier(" (", NotesHeading()) && Barrier(", ", NotesHeading()) && Barrier(")", NotesHeading()) && Barrier(".", NotesHeading())
  {
    var heading := NotesHeading();
    assert heading == "## Manual notes";
    assert heading[|heading| - 1] == 's';
  }

  lemma BlankHoldsNoMark(s: string)
    requires HoldsMark(s)
    ensures TrimSpace(s) != ""
  {
    IndexMeans(s, NotesMark());
    var i := Index(s, NotesMark());
    assert NotesMark()[1] == '#';
    AtIndex(s, NotesMark(), i, 1);
    var l, r := TrimSpaceCuts(s);
  }

  lemma TitleMarkedIff(item: Item, truncate: Truncate)
    ensures HoldsMark(MarkdownLine(item.title, item.id, truncate)) <==>
      MarkdownLine(item.title, "", truncate) == "" && HoldsMark(item.id)
  {
    MarkdownLineIsLine(item.title, "", truncate);
    BareHoldsNoMark(MarkdownLine(item.title, "", truncate));
    hide HoldsMark;
  }

  lemma ItemHeadMarkedIff(item: Item, truncate: Truncate)
    ensures HoldsMark(ItemHead(item, truncate)) <==> BuriesNotes(item, truncate)
  {
    ItemBarriers();
    TitleMarkedIff(item, truncate);
    if HoldsMark(item.kind) { BlankHoldsNoMark(item.kind); }
    if HoldsMark(item.at) { BlankHoldsNoMark(item.at); }
    var head := MarkdownLine(item.title, item.id, truncate);
    hide HoldsMark, MarkdownLine, NotesHeading, Barrier, TrimSpace;
    MarkedBefore(item.kind, ")");
    MarkedBefore(item.at, ")");
    MarkedAround(item.kind, ", ", item.at + ")");
    MarkedAround(head, " (", item.kind + ", " + (item.at + ")"));
    MarkedAround(head, " (", item.kind + ")");
    MarkedAround(head, " (", item.at + ")");
    assert head + " (" + (item.kind + ", " + (item.at + ")")) == head + " (" + item.kind + ", " + item.at + ")";
    assert head + " (" + (item.kind + ")") == head + " (" + item.kind + ")";
    assert head + " (" + (item.at + ")") == head + " (" + item.at + ")";
  }

  lemma Dashes(line: string)
    requires NL !in line && line != "" && line[0] != '#'
    ensures SafeLine(line)
  {
    assert NotesHeading()[0] == '#';
  }

  lemma NotTheHeading(line: string)
    requires NL !in line && (|line| < 5 || line[3] != 'M' || line[4] != 'a')
    ensures SafeLine(line)
  {
    assert NotesHeading()[3] == 'M' && NotesHeading()[4] == 'a';
  }

  lemma NotAtStart(line: string)
    requires line != "" && line[0] != '#'
    ensures !(NotesHeading() <= line)
  {
    assert NotesHeading()[0] == '#';
  }

  lemma ItemMarkedIff(item: Item, truncate: Truncate)
    ensures var lines := ItemLines(item, truncate); Headless(lines) && (Marked(lines) <==> BuriesNotes(item, truncate))
  {
    var detail, source := MarkdownLine(item.detail, "", truncate), MarkdownLine(item.source, "", truncate);
    MarkdownLineIsLine(item.detail, "", truncate);
    MarkdownLineIsLine(item.source, "", truncate);
    ItemHeadMarkedIff(item, truncate);
    MarkedBehind("- ", ItemHead(item, truncate));
    NotAtStart("- " + ItemHead(item, truncate));
    hide ItemHead, HoldsMark, BuriesNotes, MarkdownLine, NotesHeading, SafeLine;
    Dashes("  - Detail: " + detail);
    Dashes("  - Source: `" + ReplaceAll(source, '`', '\'') + "`");
    OneMayHold(ItemLines(item, truncate), "- " + ItemHead(item, truncate));
  }

  /** Lines that are safe but for one. */
  lemma OneMayHold(lines: seq<string>, held: string)
    requires held in lines && !(NotesHeading() <= held) && forall line :: line in lines ==> line == held || SafeLine(line)
    ensures Headless(lines) && (Marked(lines) <==> HoldsMark(held))
  {
    forall line | line in lines && line != held ensures !HoldsMark(line) { BareHoldsNoMark(line); }
    hide HoldsMark;
  }

  lemma JoinedMarkedIff(a: seq<string>, b: seq<string>)
    ensures Headless(a + b) <==> Headless(a) && Headless(b)
    ensures Marked(a + b) <==> Marked(a) || Marked(b)
  {
    hide HoldsMark, NotesHeading;
    assert forall line :: line in a + b <==> line in a || line in b;
  }

  lemma JoinedBuryIff(a: seq<Item>, b: seq<Item>, truncate: Truncate)
    ensures SomeBury(a + b, truncate) <==> SomeBury(a, truncate) || SomeBury(b, truncate)
  {
    hide BuriesNotes;
    assert forall item :: item in a + b <==> item in a || item in b;
  }

  lemma OneBuries(item: Item, truncate: Truncate)
    ensures SomeBury([item], truncate) <==> BuriesNotes(item, truncate)
    ensures !SomeBury([], truncate) && Headless([]) && !Marked([])
  {
    hide BuriesNotes;
    assert item in [item];
  }

  lemma {:induction false} ItemsMarkedIff(items: seq<Item>, truncate: Truncate)
    ensures var lines := ItemsLines(items, truncate); Headless(lines) && (Marked(lines) <==> SomeBury(items, truncate))
  {
    hide BuriesNotes, SomeBury, Headless, Marked, ItemLines;
    if items == [] {
      OneBuries(Item("", "", "", "", "", ""), truncate);
    } else {
      var front, last := items[..|items| - 1], items[|items| - 1];
      assert items == front + [last];
      ItemsMarkedIff(front, truncate);
      ItemMarkedIff(last, truncate);
      OneBuries(last, truncate);
      JoinedMarkedIff(ItemsLines(front, truncate), ItemLines(last, truncate));
      JoinedBuryIff(front, [last], truncate);
    }
  }

  lemma GroupMarkedIff(title: string, items: seq<Item>, empty: string, truncate: Truncate)
    requires NL !in title && NL !in empty && (title == "" || title[0] != 'M' || (|title| > 1 && title[1] != 'a'))
    ensures var lines := GroupLines(title, items, empty, truncate);
      Headless(lines) && (Marked(lines) <==> SomeBury(items, truncate))
  {
    ItemsMarkedIff(items, truncate);
    OneBuries(Item("", "", "", "", "", ""), truncate);
    var heading := "## " + title;
    assert |heading| > 4 ==> heading[3] == title[0] && heading[4] == title[1];
    NotTheHeading(heading);
    NotTheHeading("");
    Dashes("- " + empty);
    SafeAreUnmarked([heading, ""]);
    SafeAreUnmarked(["- " + empty]);
    SafeAreUnmarked([""]);
    hide SafeLine, ItemsLines, Headless, Marked, SomeBury;
    var middle := if items == [] then ["- " + empty] else ItemsLines(items, truncate);
    JoinedMarkedIff([heading, ""], middle);
    JoinedMarkedIff([heading, ""] + middle, [""]);
  }

  lemma ThreadsMarkedIff(items: seq<Item>, truncate: Truncate)
    ensures var lines := GroupLines("Recent threads", items, "No recent threads.", truncate);
      Headless(lines) && (Marked(lines) <==> SomeBury(items, truncate))
  {
    hide GroupLines, Headless, Marked, SomeBury;
    GroupMarkedIff("Recent threads", items, "No recent threads.", truncate);
  }

  lemma RunsMarkedIff(items: seq<Item>, truncate: Truncate)
    ensures var lines := GroupLines("Recent runs", items, "No recent runs.", truncate);
      Headless(lines) && (Marked(lines) <==> SomeBury(items, truncate))
  {
    hide GroupLines, Headless, Marked, SomeBury;
    GroupMarkedIff("Recent runs", items, "No recent runs.", truncate);
  }

  lemma ArtifactsMarkedIff(items: seq<Item>, truncate: Truncate)
    ensures var lines := GroupLines("Recent artifacts", items, "No recent artifacts.", truncate);
      Headless(lines) && (Marked(lines) <==> SomeBury(items, truncate))
  {
    hide GroupLines, Headless, Marked, SomeBury;
    GroupMarkedIff("Recent artifacts", items, "No recent artifacts.", truncate);
  }

  lemma MemoriesMarkedIff(items: seq<Item>, truncate: Truncate)
    ensures var lines := GroupLines("Memory candidates", items, "No memory candidates.", truncate);
      Headless(lines) && (Marked(lines) <==> SomeBury(items, truncate))
  {
    hide GroupLines, Headless, Marked, SomeBury;
    GroupMarkedIff("Memory candidates", items, "No memory candidates.", truncate);
  }

  lemma GroupsMarkedIff(h: Handover, truncate: Truncate)
    ensures Headless(Groups(h, truncate)) && (Marked(Groups(h, truncate)) <==> SomeBury(AllItems(h), truncate))
  {
    ThreadsMarkedIff(h.recentThreads, truncate);
    RunsMarkedIff(h.recentRuns, truncate);
    ArtifactsMarkedIff(h.recentArtifacts, truncate);
    MemoriesMarkedIff(h.memoryCandidates, truncate);
    JoinedBuryIff(h.recentThreads, h.recentRuns, truncate);
    JoinedBuryIff(h.recentThreads + h.recentRuns, h.recentArtifacts, truncate);
    JoinedBuryIff(h.recentThreads + h.recentRuns + h.recentArtifacts, h.memoryCandidates, truncate);
    hide Headless, Marked, SomeBury, GroupLines;
    var a := GroupLines("Recent threads", h.recentThreads, "No recent threads.", truncate);
    var b := GroupLines("Recent runs", h.recentRuns, "No recent runs.", truncate);
    var c := GroupLines("Recent artifacts", h.recentArtifacts, "No recent artifacts.", truncate);
    var d := GroupLines("Memory candidates", h.memoryCandidates, "No memory candidates.", truncate);
    JoinedMarkedIff(a, b);
    JoinedMarkedIff(a + b, c);
    JoinedMarkedIff(a + b + c, d);
  }

  lemma MemoryAdviceIsSafe()
    ensures SafeLine(MemoryAdvice())
  {
    assert NL !in "- Candidate memories ";
    assert NL !in "should be reviewed ";
    assert NL !in "before syncing to ";
    assert NL !in "long-term memory.";
    Dashes(MemoryAdvice());
  }

  lemma SkillAdviceIsSafe()
    ensures SafeLine(SkillAdvice())
  {
    assert NL !in "- Skill candidates ";
    assert NL !in "should be reviewed ";
    assert NL !in "before assignment or ";
    assert NL !in "local agent sync.";
    Dashes(SkillAdvice());
  }

  lemma HookAdviceIsSafe()
    ensures SafeLine(HookAdvice())
  {
    assert NL !in "- Hook files should ";
    assert NL !in "remain disabled until ";
    assert NL !in "their commands and ";
    assert NL !in "write paths are reviewed.";
    Dashes(HookAdvice());
  }

  lemma ReviewIsSafe()
    ensures SafeLines(ReviewLines())
  {
    MemoryAdviceIsSafe();
    SkillAdviceIsSafe();
    HookAdviceIsSafe();
    NotTheHeading("## Review notes");
    NotTheHeading("");
    hide SafeLine, MemoryAdvice, SkillAdvice, HookAdvice;
  }

  lemma CountersAreSafe(h: Handover)
    ensures SafeLines(CounterLines(h))
  {
    DecimalIsDigits(h.threads);
    DecimalIsDigits(h.runs);
    DecimalIsDigits(h.artifacts);
    DecimalIsDigits(h.memories);
    hide Decimal;
    Dashes("- Threads: " + Decimal(h.threads));
    Dashes("- Runs: " + Decimal(h.runs));
    Dashes("- Artifacts: " + Decimal(h.artifacts));
    Dashes("- Memory candidates: " + Decimal(h.memories));
    NotTheHeading("");
    hide SafeLine;
  }

  lemma MarkerIsSafe(id: string)
    ensures SafeLine(Marker(id)) && Marker(id)[0] == '<' && Marker(id)[|Marker(id)| - 1] == '>'
  {
    NormalIdIsSlug(id);
    hide NormalId;
    assert NL !in "<!-- codex-console-handover:";
    Dashes(Marker(id));
  }

  lemma StatusMarkedIff(h: Handover, savedAt: string, truncate: Truncate)
    ensures var lines := StatusLines(h, savedAt, truncate); Headless(lines) && (Marked(lines) <==> HoldsMark(savedAt))
  {
    MarkerIsSafe(h.id);
    CountersAreSafe(h);
    SavedMarkedIff(savedAt);
    SummaryIsSafe(h, truncate);
    NotTheHeading("## Project status");
    NotTheHeading("");
    hide SafeLine, MarkdownLine, Marker, SavedLine, CounterLines, HoldsMark, NotesHeading;
    OneMayHold(StatusLines(h, savedAt, truncate), SavedLine(savedAt));
  }

  lemma SavedMarkedIff(savedAt: string)
    ensures HoldsMark(SavedLine(savedAt)) <==> HoldsMark(savedAt)
    ensures !(NotesHeading() <= SavedLine(savedAt))
  {
    var front := "Generated by Vola Codex " + "Console at ";
    assert NL !in "Generated by Vola Codex ";
    assert NL !in "Console at ";
    assert front[0] == 'G';
    ItemBarriers();
    NotAtStart(SavedLine(savedAt));
    hide HoldsMark, Barrier, NotesHeading;
    assert SavedLine(savedAt) == front + (savedAt + ".");
    MarkedBehind(front, savedAt + ".");
    MarkedBefore(savedAt, ".");
  }

  lemma SummaryIsSafe(h: Handover, truncate: Truncate)
    ensures SafeLine("- Summary: " + MarkdownLine(h.summary, "No summary.", truncate))
    ensures SafeLine("- Latest activity: " + MarkdownLine(h.latestActivity, "unknown", truncate))
  {
    MarkdownLineIsLine(h.summary, "No summary.", truncate);
    MarkdownLineIsLine(h.latestActivity, "unknown", truncate);
    hide MarkdownLine;
    Dashes("- Summary: " + MarkdownLine(h.summary, "No summary.", truncate));
    Dashes("- Latest activity: " + MarkdownLine(h.latestActivity, "unknown", truncate));
  }

  lemma TitleIsLine(h: Handover, truncate: Truncate)
    ensures NL !in TitleLine(h, truncate)
  {
    MarkdownLineIsLine(h.project, "unassigned", truncate);
    hide MarkdownLine;
    assert NL !in "# Codex handover: ";
  }

  /** The lines above the notes hold their heading exactly when one of the fields that reach them does. */
  lemma HeadMarkedIff(h: Handover, savedAt: string, truncate: Truncate)
    ensures HoldsMark(Head(h, savedAt, truncate)) <==> Burying(h, savedAt, truncate)
  {
    var title, status, groups := TitleLine(h, truncate), StatusLines(h, savedAt, truncate), Groups(h, truncate);
    var lines, below := HeadLines(h, savedAt, truncate), status + groups + ReviewLines();
    TitleIsLine(h, truncate);
    StatusMarkedIff(h, savedAt, truncate);
    GroupsMarkedIff(h, truncate);
    ReviewIsSafe();
    SafeAreUnmarked(ReviewLines());
    HeadingFacts();
    hide TitleLine, StatusLines, Groups, ReviewLines, NotesHeading, HoldsMark, Headless, Marked, SomeBury;
    JoinedMarkedIff(status, groups);
    JoinedMarkedIff(status + groups, ReviewLines());
    BareHoldsNoMark(title);
    assert lines == [title] + below;
    OnlyBelow(title, below);
  }

  lemma OnlyBelow(title: string, below: seq<string>)
    requires Headless(below) && !HoldsMark(title)
    ensures HoldsMark(Join([title] + below, NL)) <==> Marked(below)
  {
    HeadingFacts();
    var lines := [title] + below;
    hide NotesHeading, Contains;
    forall k | 1 <= k < |lines| ensures !(NotesHeading() <= lines[k]) { assert lines[k] in below; }
    LinesContainIff(NotesHeading(), lines);
    assert forall line :: line in lines <==> line == title || line in below;
  }

  /**
   * Extracting the notes of a rendered handover gives back the notes of the file it replaces (or the placeholder)
   * exactly when neither the time of saving nor a kind, time or titleless identifier of an item holds their heading at
   * the beginning of a line.
   */
  lemma NotesSurviveIff(h: Handover, savedAt: string, existing: string, truncate: Truncate)
    ensures Notes(Render(h, savedAt, existing, truncate)) == NotesOrPlaceholder(existing) <==> !Burying(h, savedAt, truncate)
  {
    hide *;
    NotesFollowHead(h, savedAt, existing, truncate);
    HeadMarkedIff(h, savedAt, truncate);
  }

  // ---- Any number of regenerations ----

  /** A regeneration: the handover data of the moment, and the time of saving. */
  datatype Round = Round(handover: Handover, savedAt: string)

  function Regenerate(existing: string, rounds: seq<Round>, truncate: Truncate): string {
    if rounds == [] then existing
    else
      var last := rounds[|rounds| - 1];
      Render(last.handover, last.savedAt, Regenerate(existing, rounds[..|rounds| - 1], truncate), truncate)
  }

  ghost predicate BuryingRound(r: Round, truncate: Truncate) {
    Burying(r.handover, r.savedAt, truncate)
  }

  /** The notes found after `n` rounds are those found at first, or the placeholder. */
  predicate KeptAfter(existing: string, rounds: seq<Round>, truncate: Truncate, n: nat)
    requires n <= |rounds|
  {
    Notes(Regenerate(existing, rounds[..n], truncate)) == NotesOrPlaceholder(existing)
  }

  lemma NextRound(existing: string, rounds: seq<Round>, truncate: Truncate, n: nat)
    requires n < |rounds| && (n > 0 ==> KeptAfter(existing, rounds, truncate, n))
    ensures KeptAfter(existing, rounds, truncate, n + 1) <==> !BuryingRound(rounds[n], truncate)
  {
    var before := Regenerate(existing, rounds[..n], truncate);
    assert rounds[..n + 1][..n] == rounds[..n];
    assert n == 0 ==> before == existing;
    NotesSurviveIff(rounds[n].handover, rounds[n].savedAt, before, truncate);
    NotesAreTrimmed(existing);
    hide Notes, Render, Burying, Placeholder;
  }

  lemma {:induction false} KeptWhileNoneBuries(existing: string, rounds: seq<Round>, truncate: Truncate, n: nat)
    requires 0 < n <= |rounds| && forall k :: 0 <= k < n ==> !BuryingRound(rounds[k], truncate)
    ensures KeptAfter(existing, rounds, truncate, n)
  {
    hide KeptAfter, BuryingRound;
    if n > 1 { KeptWhileNoneBuries(existing, rounds, truncate, n - 1); }
    NextRound(existing, rounds, truncate, n - 1);
  }

  /**
   * Manual notes survive every round of a sequence of regenerations, whatever the handover data of each, exactly when
   * none of the rounds brings their heading in a field.
   */
  lemma NotesSurviveRegenerationsIff(existing: string, rounds: seq<Round>, truncate: Truncate)
    ensures (forall n :: 0 < n <= |rounds| ==> KeptAfter(existing, rounds, truncate, n)) <==>
            (forall k :: 0 <= k < |rounds| ==> !BuryingRound(rounds[k], truncate))
  {
    hide KeptAfter, BuryingRound;
    if forall k :: 0 <= k < |rounds| ==> !BuryingRound(rounds[k], truncate) {
      forall n | 0 < n <= |rounds| ensures KeptAfter(existing, rounds, truncate, n) {
        KeptWhileNoneBuries(existing, rounds, truncate, n);
      }
    }
    if forall n :: 0 < n <= |rounds| ==> KeptAfter(existing, rounds, truncate, n) {
      forall k | 0 <= k < |rounds| ensures !BuryingRound(rounds[k], truncate) {
        assert KeptAfter(existing, rounds, truncate, k + 1);
        NextRound(existing, rounds, truncate, k);
      }
    }
  }

  /** No line break in the fields that are rendered as they are. */
  predicate SingleLine(item: Item) {
    NL !in item.id && NL !in item.kind && NL !in item.at
  }

  /** Single-line kinds, times and identifiers are enough. */
  lemma SingleLinesNeverBury(h: Handover, savedAt: string, truncate: Truncate)
    requires NL !in savedAt && forall item :: item in AllItems(h) ==> SingleLine(item)
    ensures !Burying(h, savedAt, truncate)
  {
    BareHoldsNoMark(savedAt);
    forall item | item in AllItems(h) ensures !BuriesNotes(item, truncate) {
      BareHoldsNoMark(item.id);
      BareHoldsNoMark(item.kind);
      BareHoldsNoMark(item.at);
    }
    hide HoldsMark, BuriesNotes;
  }

  /** A kind with a line break and the heading behind it: whatever the notes were, they are not found again. */
  lemma MultiLineKindBuriesNotes(existing: string, truncate: Truncate)
    ensures var item := Item("t", "Title", "chat\n## Manual notes", "", "", "");
      var h := Handover("id", "p", "", "", 1, 0, 0, 0, [item], [], [], []);
      Notes(Render(h, "now", existing, truncate)) != NotesOrPlaceholder(existing)
  {
    var item := Item("t", "Title", "chat\n## Manual notes", "", "", "");
    var h := Handover("id", "p", "", "", 1, 0, 0, 0, [item], [], [], []);
    NotesSurviveIff(h, "now", existing, truncate);
    KindHoldsMark();
    hide Notes, Render, HoldsMark;
    assert AllItems(h)[0] == item && BuriesNotes(item, truncate);
  }

  lemma KindHoldsMark()
    ensures HoldsMark("chat\n## Manual notes")
  {
    assert "chat\n## Manual notes" == "chat" + NotesMark();
    BareHoldsNoMark("chat");
    assert Contains(NotesMark(), NotesMark()) by { assert NotesMark() <= NotesMark(); }
    MarkedBehind("chat", NotesMark());
  }

  // ---- Content edited by hand ----

  lemma ContainsWithin(a: string, b: string, c: string, pat: string)
    requires Contains(b, pat)
    ensures Contains(a + b + c, pat)
  {
    IndexMeans(b, pat);
    IndexMeans(a + b + c, pat);
    var i := Index(b, pat);
    hide Index;
    assert (a + b + c)[|a| + i..|a| + i + |pat|] == b[i..i + |pat|];
    assert At(a + b + c, pat, |a| + i);
  }

  lemma {:induction false} LineContains(lines: seq<string>, k: nat, pat: string)
    requires k < |lines| && Contains(lines[k], pat)
    ensures Contains(Join(lines, NL), pat)
  {
    hide Contains;
    var rest := Join(lines[1..], NL);
    if |lines| == 1 {
    } else if k == 0 {
      ContainsWithin("", lines[0], [NL] + rest, pat);
      assert "" + lines[0] + ([NL] + rest) == lines[0] + [NL] + rest;
    } else {
      LineContains(lines[1..], k - 1, pat);
      ContainsWithin(lines[0] + [NL], rest, "", pat);
      assert lines[0] + [NL] + rest + "" == lines[0] + [NL] + rest;
    }
  }

  /** What is stored when the user sends the content along: the marker is put in unless it is there. */
  function Override(h: Handover, content: string, truncate: Truncate): string {
    var text, marker := TrimSpace(content), Marker(h.id);
    if text == "" then ""
    else if Contains(text, marker) then text + [NL]
    else
      var lines := Split(text, NL);
      if HasHash(TrimSpace(lines[0])) then TrimSpace(Join([lines[0], "", marker] + lines[1..], NL)) + [NL]
      else TrimSpace(Join([TitleLine(h, truncate), "", marker, "", text], NL)) + [NL]
  }

  predicate HasHash(s: string) {
    s != "" && s[0] == '#'
  }

  lemma MarkerFits(id: string)
    ensures Marker(id) != "" && Trimmed(Marker(id)) && Contains(Marker(id), Marker(id))
  {
    MarkerIsSafe(id);
    var m := Marker(id);
    assert |m| > 28;
    hide Marker;
    assert m <= m;
  }

  /** The text with the marker put in as a line of its own, behind the first line. */
  function UnderTitle(first: string, marker: string, rest: seq<string>): string {
    Join([first, "", marker] + rest, NL)
  }

  lemma UnderTitleIsText(text: string, marker: string, first: string, rest: seq<string>)
    requires text != "" && Trimmed(text) && Split(text, NL) == [first] + rest && marker != "" && Trimmed(marker) && Contains(marker, marker)
    ensures var out := UnderTitle(first, marker, rest); out != "" && Trimmed(out) && Contains(out, marker)
  {
    JoinUndoesSplit(text, NL);
    FirstCharOfJoin(first, rest);
    UnderTitleLines(first, marker, rest);
    hide *;
    var below := if rest == [] then "" else [NL] + Join(rest, NL);
    assert text == first + below;
    ContainsWithin(first + [NL, NL], marker, below, marker);
    EndsStay(first, marker, below);
  }

  lemma EndsStay(first: string, marker: string, below: string)
    requires first + below != "" && Trimmed(first + below) && marker != "" && Trimmed(marker) && (below != "" ==> below[0] == NL)
    ensures Trimmed(first + [NL, NL] + marker + below)
  {
    var text, out := first + below, first + [NL, NL] + marker + below;
    assert first == "" ==> text[0] == NL && IsSpace(NL);
    assert out[0] == first[0] == text[0];
    assert below != "" ==> out[|out| - 1] == below[|below| - 1] == text[|text| - 1];
    assert below == "" ==> out[|out| - 1] == marker[|marker| - 1];
  }

  lemma Untouched(text: string, marker: string)
    requires text != "" && Trimmed(text)
    ensures TrimSpace(text) == text && TrimSpace(text + [NL]) == text
  {
    TrimmedIsFixed(text);
    TrimAround("", text, [NL]);
    assert "" + text + [NL] == text + [NL];
  }

  lemma OwnTitleIsText(title: string, marker: string, text: string)
    requires text != "" && Trimmed(text) && marker != "" && title != "" && !IsSpace(title[0])
    ensures var out := Join([title, "", marker, "", text], NL); out != "" && Trimmed(out) && Contains(out, marker)
  {
    MarkerAmong([title, ""], marker, ["", text]);
    assert [title, ""] + [marker] + ["", text] == [title, "", marker, "", text];
    JoinSnoc([title, "", marker, ""], text, NL);
    assert [title, "", marker, ""] + [text] == [title, "", marker, "", text];
    FirstCharOfJoin(title, ["", marker, "", text]);
    assert [title] + ["", marker, "", text] == [title, "", marker, "", text];
    hide Join, Contains;
    var out := Join([title, "", marker, "", text], NL);
    assert out[0] == title[0] && out[|out| - 1] == text[|text| - 1];
  }

  lemma TitleBegins(h: Handover, truncate: Truncate)
    ensures TitleLine(h, truncate) != "" && !IsSpace(TitleLine(h, truncate)[0])
  {
    assert TitleLine(h, truncate)[0] == '#';
  }

  /** What is stored, but for its line break: trimmed, and with the marker in it. */
  function Stored(h: Handover, text: string, truncate: Truncate): string {
    var lines := Split(text, NL);
    if Contains(text, Marker(h.id)) then text
    else if HasHash(TrimSpace(lines[0])) then UnderTitle(lines[0], Marker(h.id), lines[1..])
    else Join([TitleLine(h, truncate), "", Marker(h.id), "", text], NL)
  }

  lemma StoredHoldsMarker(h: Handover, text: string, truncate: Truncate)
    requires text != "" && Trimmed(text)
    ensures var out := Stored(h, text, truncate); out != "" && Trimmed(out) && Contains(out, Marker(h.id))
  {
    var lines := Split(text, NL);
    MarkerFits(h.id);
    TitleBegins(h, truncate);
    assert lines == [lines[0]] + lines[1..];
    hide Marker, TitleLine, Join, Split, Contains, TrimSpace;
    UnderTitleIsText(text, Marker(h.id), lines[0], lines[1..]);
    OwnTitleIsText(TitleLine(h, truncate), Marker(h.id), text);
  }

  lemma OverrideIs(h: Handover, content: string, truncate: Truncate)
    requires TrimSpace(content) != ""
    ensures Override(h, content, truncate) ==
      if Contains(TrimSpace(content), Marker(h.id)) then TrimSpace(content) + [NL]
      else TrimSpace(Stored(h, TrimSpace(content), truncate)) + [NL]
  {
    hide Marker, TitleLine, Join, Contains, TrimSpace, Split;
  }

  lemma OverrideStores(h: Handover, content: string, truncate: Truncate)
    requires TrimSpace(content) != ""
    ensures Trimmed(TrimSpace(content)) && Override(h, content, truncate) == Stored(h, TrimSpace(content), truncate) + [NL]
  {
    var text := TrimSpace(content);
    var i, j := TrimSpaceCuts(content);
    OverrideIs(h, content, truncate);
    StoredHoldsMarker(h, text, truncate);
    Untouched(Stored(h, text, truncate), Marker(h.id));
    hide Marker, TitleLine, Join, Contains, TrimSpace, Split, Override;
  }

  /** Content sent along is stored with the marker in it, and sending what was stored changes nothing. */
  lemma OverrideIsStable(h: Handover, content: string, truncate: Truncate)
    requires TrimSpace(content) != ""
    ensures var stored := Override(h, content, truncate);
      Contains(stored, Marker(h.id)) && Override(h, stored, truncate) == stored
  {
    hide *;
    OverrideStores(h, content, truncate);
    var out, marker := Stored(h, TrimSpace(content), truncate), Marker(h.id);
    MarkerFits(h.id);
    StoredHoldsMarker(h, TrimSpace(content), truncate);
    Untouched(out, marker);
    OverrideIs(h, out + [NL], truncate);
    ContainsWithin("", out, [NL], marker);
    assert "" + out + [NL] == out + [NL];
  }

  lemma UnderTitleInserts(text: string, marker: string, first: string, rest: seq<string>)
    requires Split(text, NL) == [first] + rest
    ensures first <= text && UnderTitle(first, marker, rest) == first + [NL, NL] + marker + text[|first|..]
  {
    JoinUndoesSplit(text, NL);
    FirstCharOfJoin(first, rest);
    UnderTitleLines(first, marker, rest);
    hide *;
    var below := if rest == [] then "" else [NL] + Join(rest, NL);
    assert text == first + below;
  }

  lemma UnderTitleLines(first: string, marker: string, rest: seq<string>)
    ensures UnderTitle(first, marker, rest) == first + [NL, NL] + marker + if rest == [] then "" else [NL] + Join(rest, NL)
  {
    hide *;
    var below := if rest == [] then "" else [NL] + Join(rest, NL);
    FirstCharOfJoin(first, ["", marker] + rest);
    FirstCharOfJoin("", [marker] + rest);
    FirstCharOfJoin(marker, rest);
    assert [first] + (["", marker] + rest) == [first, "", marker] + rest && [""] + ([marker] + rest) == ["", marker] + rest;
    UnderTitleJoins(first, marker, rest);
    assert Join([marker] + rest, NL) == marker + below;
    BlankLineBetween(first, marker, below);
  }

  lemma UnderTitleJoins(first: string, marker: string, rest: seq<string>)
    ensures UnderTitle(first, marker, rest) == Join([first, "", marker] + rest, NL)
  {
  }

  lemma BlankLineBetween(first: string, marker: string, below: string)
    ensures first + [NL] + ("" + [NL] + (marker + below)) == first + [NL, NL] + marker + below
  {
    assert [NL] + ("" + [NL] + (marker + below)) == [NL, NL] + (marker + below);
  }

  lemma OwnTitleInserts(title: string, marker: string, text: string)
    ensures Join([title, "", marker, "", text], NL) == title + [NL, NL] + marker + [NL, NL] + text
  {
    JoinSnoc([title, "", marker, ""], text, NL);
    JoinSnoc([title, "", marker], "", NL);
    JoinSnoc([title, ""], marker, NL);
    JoinSnoc([title], "", NL);
    assert [title, "", marker, ""] + [text] == [title, "", marker, "", text] && [title] + [""] == [title, ""];
    assert [title, "", marker] + [""] == [title, "", marker, ""] && [title, ""] + [marker] == [title, "", marker];
    hide Join;
  }

  /**
   * Nothing is stored for blank content. Otherwise the whole text is stored: as it is when it holds the marker, with the
   * marker behind its first line when that is a heading, and else below a title and the marker.
   */
  lemma OverrideMeans(h: Handover, content: string, truncate: Truncate)
    ensures TrimSpace(content) == "" ==> Override(h, content, truncate) == ""
    ensures TrimSpace(content) != "" ==>
      var text, marker := TrimSpace(content), Marker(h.id);
      var first := Split(text, NL)[0];
      first <= text &&
      Override(h, content, truncate) ==
        if Contains(text, marker) then text + "\n"
        else if TrimSpace(first) != "" && TrimSpace(first)[0] == '#' then first + "\n\n" + marker + text[|first|..] + "\n"
        else TitleLine(h, truncate) + "\n\n" + marker + "\n\n" + text + "\n"
  {
    if TrimSpace(content) == "" {
      NothingStored(h, content, truncate);
    } else {
      OverrideStores(h, content, truncate);
      StoredIs(h, TrimSpace(content), truncate);
      hide *;
    }
  }

  lemma NothingStored(h: Handover, content: string, truncate: Truncate)
    requires TrimSpace(content) == ""
    ensures Override(h, content, truncate) == ""
  {
  }

  lemma StoredIs(h: Handover, text: string, truncate: Truncate)
    ensures var first, marker := Split(text, NL)[0], Marker(h.id);
      first <= text &&
      Stored(h, text, truncate) ==
        if Contains(text, marker) then text
        else if TrimSpace(first) != "" && TrimSpace(first)[0] == '#' then first + "\n\n" + marker + text[|first|..]
        else TitleLine(h, truncate) + "\n\n" + marker + "\n\n" + text
  {
    hide Marker, TitleLine, Join, Contains, TrimSpace, Split, UnderTitle;
    var lines := Split(text, NL);
    assert lines == [lines[0]] + lines[1..];
    UnderTitleInserts(text, Marker(h.id), lines[0], lines[1..]);
    OwnTitleInserts(TitleLine(h, truncate), Marker(h.id), text);
  }

  lemma FirstCharOfJoin(first: string, rest: seq<string>)
    ensures Join([first] + rest, NL) == if rest == [] then first else first + [NL] + Join(rest, NL)
  {
    assert ([first] + rest)[1..] == rest;
  }

  lemma MarkerAmong(front: seq<string>, marker: string, rest: seq<string>)
    requires marker != ""
    ensures Contains(Join(front + [marker] + rest, NL), marker)
  {
    var lines := front + [marker] + rest;
    assert lines[|front|] == marker;
    assert Contains(marker, marker) by { assert marker <= marker; }
    LineContains(lines, |front|, marker);
  }
}
