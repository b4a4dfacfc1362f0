/** Restoring a backup archive: inspection of its entries, the preview, and the writes in skip and overwrite mode. */
module BackupRestore {
  import opened Text
  import opened Paths
  import opened RelPaths

  const MAX_ENTRY_BYTES := 50 * 1024 * 1024
  const MAX_TOTAL_BYTES := 200 * 1024 * 1024
  const TWO_TO_64 := 0x1_0000_0000_0000_0000

  /** An archive entry: `size` is its declared uncompressed size, `data` is None when it cannot be read. */
  datatype ZipEntry = ZipEntry(name: string, isDir: bool, size: nat, data: Option<string>)

  datatype Category = Identity | Inbox | MemoryProfile | Projects | Roles | Scratch | Skills | Unknown | Vault

  datatype Entry = Entry(zipPath: string, cleanPath: Path, target: Path, category: Category, bytes: nat, data: string)

  datatype Inspection =
    | Inspected(entries: seq<Entry>, unsafePaths: nat, exportSeen: bool, categorySeen: bool)
    | EntryTooLarge(name: string)
    | TotalTooLarge
    | Unreadable(name: string)

  // ---- Entry names ----

  datatype CleanedName = Unsafe | Clean(path: Path, exported: bool)

  function Normalized(name: string): string {
    TrimSpace(ReplaceAll(name, '\\', '/'))
  }

  predicate IsDots(part: string) {
    TrimSpace(part) == "." || TrimSpace(part) == ".."
  }

  predicate UnsafeName(name: string) {
    var n := Normalized(name);
    n == "" || n[0] == '/' || exists part :: part in Split(n, '/') && IsDots(part)
  }

  /** The trimmed parts that are not blank. */
  function Segments(parts: seq<string>): Path {
    if parts == [] then []
    else
      var last := TrimSpace(parts[|parts| - 1]);
      Segments(parts[..|parts| - 1]) + if last == "" then [] else [last]
  }

  function CleanName(name: string): CleanedName {
    if UnsafeName(name) then Unsafe
    else
      var segments := Segments(Split(Normalized(name), '/'));
      if segments != [] && segments[0] == "export" then Clean(segments[1..], true) else Clean(segments, false)
  }

  method NormalizeName(name: string) returns (cleaned: CleanedName)
    ensures cleaned == CleanName(name)
  {
    var normalized := TrimSpace(ReplaceAll(name, '\\', '/'));
    if normalized == "" || normalized[0] == '/' {
      return Unsafe;
    }
    var parts := Split(normalized, '/');
    var segments: Path := [];
    for i := 0 to |parts|
      invariant segments == Segments(parts[..i])
      invariant forall k :: 0 <= k < i ==> !IsDots(parts[k])
    {
      var part := TrimSpace(parts[i]);
      assert parts[..i + 1][..i] == parts[..i];
      if part == "" {
        continue;
      }
      if part == "." || part == ".." {
        assert parts[i] in parts && IsDots(parts[i]);
        return Unsafe;
      }
      segments := segments + [part];
    }
    assert parts[..|parts|] == parts;
    var exported := segments != [] && segments[0] == "export";
    return Clean(if exported then segments[1..] else segments, exported);
  }

  predicate BareSegment(s: string) {
    PlainSegment(s) && Trimmed(s) && '/' !in s
  }

  lemma {:induction false} SegmentsAreBare(parts: seq<string>, sep: char)
    requires forall part :: part in parts ==> sep !in part && !IsDots(part)
    ensures forall s :: s in Segments(parts) ==> PlainSegment(s) && Trimmed(s) && sep !in s
  {
    if parts != [] {
      SegmentsAreBare(parts[..|parts| - 1], sep);
      var part := parts[|parts| - 1];
      assert part in parts;
      var i, j := TrimSpaceCuts(part);
    }
  }

  /** Whatever the archive says, an accepted path is a list of plain names: it cannot climb out of its category. */
  lemma CleanNamesArePlain(name: string)
    ensures CleanName(name).Clean? ==> forall s :: s in CleanName(name).path ==> BareSegment(s)
  {
    if CleanName(name).Clean? {
      var parts := Split(Normalized(name), '/');
      forall part | part in parts ensures '/' !in part { SplitPartsAreBare(Normalized(name), '/', part); }
      SegmentsAreBare(parts, '/');
    }
  }

  /** A name is refused when it is blank, absolute, or has "." or ".." between its slashes of either kind. */
  lemma RefusedIff(name: string)
    ensures CleanName(name) == Unsafe <==>
      var n := TrimSpace(ReplaceAll(name, '\\', '/'));
      || n == ""
      || n[0] == '/'
      || exists part :: part in Split(n, '/') && TrimSpace(part) in {".", ".."}
  {
    var n := Normalized(name);
    if n != "" && n[0] != '/' {
      if part :| part in Split(n, '/') && TrimSpace(part) in {".", ".."} { assert IsDots(part); }
      if part :| part in Split(n, '/') && IsDots(part) { assert TrimSpace(part) in {".", ".."}; }
    }
  }

  lemma SegmentsGrow(front: seq<string>, part: string)
    ensures Segments(front + [part]) == Segments(front) + if TrimSpace(part) == "" then [] else [TrimSpace(part)]
  {
    assert (front + [part])[..|front|] == front;
  }

  /** Every part that is not blank is kept in its place, without the white space around it. */
  lemma {:induction false} SegmentsOf(a: seq<string>, part: string, b: seq<string>)
    ensures Segments(a + [part] + b) == Segments(a) + (if TrimSpace(part) == "" then [] else [TrimSpace(part)]) + Segments(b)
  {
    hide Segments, TrimSpace;
    SegmentsGrow(a, part);
    if b == [] {
      NoSegments();
      assert a + [part] + b == a + [part];
    } else {
      var front, last := b[..|b| - 1], b[|b| - 1];
      SegmentsOf(a, part, front);
      SegmentsGrow(front, last);
      SegmentsGrow(a + [part] + front, last);
      assert b == front + [last] && a + [part] + b == a + [part] + front + [last];
    }
  }

  lemma NoSegments()
    ensures Segments([]) == []
  {
  }

  lemma {:induction false} BareSegmentsStay(p: Path)
    requires forall s :: s in p ==> BareSegment(s)
    ensures Segments(p) == p
  {
    if p != [] {
      var front, last := p[..|p| - 1], p[|p| - 1];
      BareSegmentsStay(front);
      assert last in p;
      TrimmedIsFixed(last);
      assert p == front + [last];
    }
  }

  lemma JoinHasEnds(p: Path)
    requires p != [] && p[0] != "" && p[|p| - 1] != ""
    ensures var joined, last := Join(p, '/'), p[|p| - 1];
      joined != "" && joined[0] == p[0][0] && joined[|joined| - 1] == last[|last| - 1]
  {
    if |p| > 1 {
      JoinSnoc(p[..|p| - 1], p[|p| - 1], '/');
      assert p == p[..|p| - 1] + [p[|p| - 1]];
    }
  }

  lemma {:induction false} SlashesAreAlike(p: Path)
    requires forall s :: s in p ==> '\\' !in s
    ensures ReplaceAll(Join(p, '\\'), '\\', '/') == Join(p, '/') && ReplaceAll(Join(p, '/'), '\\', '/') == Join(p, '/')
  {
    if p != [] {
      assert p[0] in p && ReplaceAll(p[0], '\\', '/') == p[0];
      if |p| > 1 { SlashesAreAlike(p[1..]); }
    }
  }

  /** A plain path is read as it stands, written with either slash, and only a leading "export" is taken off. */
  lemma PlainNamesAreKept(p: Path)
    requires p != [] && forall s :: s in p ==> BareSegment(s) && '\\' !in s
    ensures CleanName(Join(p, '/')) == CleanName(Join(p, '\\'))
    ensures p[0] != "export" ==> CleanName(Join(p, '/')) == Clean(p, false)
    ensures CleanName(Join(["export"] + p, '/')) == Clean(p, true)
  {
    PlainPathIsRead(p);
    var below := ["export"] + p;
    ExportIsBare();
    hide *;
    assert forall s :: s in below ==> s == "export" || s in p;
    PlainPathIsRead(below);
    assert below[1..] == p;
  }

  lemma ExportIsBare()
    ensures BareSegment("export") && '\\' !in "export"
  {
  }

  lemma PlainPathIsRead(p: Path)
    requires p != [] && forall s :: s in p ==> BareSegment(s) && '\\' !in s
    ensures CleanName(Join(p, '/')) == CleanName(Join(p, '\\'))
    ensures CleanName(Join(p, '/')) == if p[0] == "export" then Clean(p[1..], true) else Clean(p, false)
  {
    SlashesAreAlike(p);
    assert p[0] in p && p[|p| - 1] in p;
    JoinHasEnds(p);
    TrimmedIsFixed(Join(p, '/'));
    SplitUndoesJoin(p, '/');
    forall part | part in p ensures !IsDots(part) { TrimmedIsFixed(part); }
    BareSegmentsStay(p);
  }

  // ---- Categories and targets ----

  /** The directory names that matter. */
  datatype Dir = IdentityDir | InboxDir | MemoryDir | ProfileDir | ProjectsDir | RolesDir | ScratchDir | SkillsDir | VaultDir | OtherDir

  function NameOf(d: Dir): string {
    match d
    case IdentityDir => "identity"
    case InboxDir => "inbox"
    case MemoryDir => "memory"
    case ProfileDir => "profile"
    case ProjectsDir => "projects"
    case RolesDir => "roles"
    case ScratchDir => "scratch"
    case SkillsDir => "skills"
    case VaultDir => "vault"
    case OtherDir => ""
  }

  function DirOf(s: string): Dir {
    if s == "identity" then IdentityDir
    else if s == "inbox" then InboxDir
    else if s == "memory" then MemoryDir
    else if s == "profile" then ProfileDir
    else if s == "projects" then ProjectsDir
    else if s == "roles" then RolesDir
    else if s == "scratch" then ScratchDir
    else if s == "skills" then SkillsDir
    else if s == "vault" then VaultDir
    else OtherDir
  }

  function CategoryOf(p: Path): Category {
    if |p| < 2 then Unknown
    else match DirOf(p[0])
      case IdentityDir => Identity
      case VaultDir => Vault
      case SkillsDir => Skills
      case MemoryDir =>
        if |p| == 2 then Unknown
        else (match DirOf(p[1]) case ProfileDir => MemoryProfile case ProjectsDir => Projects case ScratchDir => Scratch case _ => Unknown)
      case ProjectsDir => Projects
      case RolesDir => Roles
      case InboxDir => Inbox
      case _ => Unknown
  }

  /** The stored path, as segments; empty when there is none. */
  function TargetOf(p: Path): Path {
    if |p| < 2 then []
    else match DirOf(p[0])
      case MemoryDir =>
        if |p| == 2 then []
        else (match DirOf(p[1])
              case ProfileDir => CleanRel(p)
              case ScratchDir => CleanRel(p)
              case ProjectsDir => CleanRel([NameOf(ProjectsDir)] + p[2..])
              case _ => [])
      case ProfileDir => []
      case ScratchDir => []
      case OtherDir => []
      case _ => CleanRel(p)
  }

  /** The directory that a category owns. */
  function RootOf(c: Category): Path {
    match c
    case Identity => [NameOf(IdentityDir)]
    case Inbox => [NameOf(InboxDir)]
    case MemoryProfile => [NameOf(MemoryDir), NameOf(ProfileDir)]
    case Projects => [NameOf(ProjectsDir)]
    case Roles => [NameOf(RolesDir)]
    case Scratch => [NameOf(MemoryDir), NameOf(ScratchDir)]
    case Skills => [NameOf(SkillsDir)]
    case Unknown => []
    case Vault => [NameOf(VaultDir)]
  }

  lemma NamesMatch(s: string)
    ensures DirOf(s) != OtherDir ==> NameOf(DirOf(s)) == s
  {
  }

  /** An entry has no target exactly when its category is unknown; otherwise it lands strictly below its category's root. */
  lemma TargetsMatchCategories(name: string)
    requires CleanName(name).Clean?
    ensures var p := CleanName(name).path;
      (TargetOf(p) == [] <==> CategoryOf(p) == Unknown) && (CategoryOf(p) != Unknown ==> RootOf(CategoryOf(p)) < TargetOf(p))
  {
    CleanNamesArePlain(name);
    assert forall s :: s in CleanName(name).path ==> BareSegment(s);
    PlainTargets(CleanName(name).path);
  }

  /** Which paths belong to which category. */
  lemma CategoryIff(p: Path)
    ensures var c, top := CategoryOf(p), |p| > 1;
      && (c == Identity <==> top && p[0] == "identity")
      && (c == Inbox <==> top && p[0] == "inbox")
      && (c == Roles <==> top && p[0] == "roles")
      && (c == Skills <==> top && p[0] == "skills")
      && (c == Vault <==> top && p[0] == "vault")
      && (c == MemoryProfile <==> |p| > 2 && p[..2] == ["memory", "profile"])
      && (c == Scratch <==> |p| > 2 && p[..2] == ["memory", "scratch"])
      && (c == Projects <==> (top && p[0] == "projects") || (|p| > 2 && p[..2] == ["memory", "projects"]))
  {
    if |p| > 2 { assert p[..2] == [p[0], p[1]]; }
  }

  /** A path with a category is stored as it stands, but for the projects below memory. */
  lemma TargetIsPath(p: Path)
    requires |p| > 1 && (forall s :: s in p ==> PlainSegment(s)) && CategoryOf(p) != Unknown
    ensures TargetOf(p) == if p[0] == "memory" && p[1] == "projects" then ["projects"] + p[2..] else p
  {
    hide *;
    TargetByDirs(p);
    CategoryIff(p);
    DirNames(p[0]);
    if |p| > 2 { DirNames(p[1]); }
  }

  lemma DirNames(s: string)
    ensures (DirOf(s) == MemoryDir <==> s == "memory") && (DirOf(s) == ProjectsDir <==> s == "projects")
  {
  }

  lemma TargetByDirs(p: Path)
    requires (forall s :: s in p ==> PlainSegment(s)) && CategoryOf(p) != Unknown
    ensures |p| > 1 && (DirOf(p[0]) == MemoryDir ==> |p| > 2)
    ensures TargetOf(p) == if DirOf(p[0]) == MemoryDir && DirOf(p[1]) == ProjectsDir then ["projects"] + p[2..] else p
  {
    CleanKeepsPlainPaths(p);
    if |p| > 2 { MovedIsPlain(p); }
    assert NameOf(ProjectsDir) == "projects";
    hide CleanRel, PlainSegment, DirOf, NameOf;
  }

  lemma MovedIsPlain(p: Path)
    requires |p| > 2 && forall s :: s in p ==> PlainSegment(s)
    ensures CleanRel(["projects"] + p[2..]) == ["projects"] + p[2..]
  {
    var moved := ["projects"] + p[2..];
    hide CleanRel;
    forall s | s in moved ensures PlainSegment(s) { if s in p[2..] { assert s in p; } }
    CleanKeepsPlainPaths(moved);
  }

  lemma PlainTargets(p: Path)
    requires forall s :: s in p ==> PlainSegment(s)
    ensures TargetOf(p) == [] <==> CategoryOf(p) == Unknown
    ensures CategoryOf(p) != Unknown ==> RootOf(CategoryOf(p)) < TargetOf(p)
  {
    if p != [] {
      CleanKeepsPlainPaths(p);
      NamesMatch(p[0]);
      if |p| > 2 {
        NamesMatch(p[1]);
        MovedIsPlain(p);
        assert NameOf(ProjectsDir) == "projects";
      }
    }
    hide CleanRel, PlainSegment, NameOf, DirOf;
  }

  // ---- Inspection ----

  function TotalBytes(entries: seq<Entry>): nat {
    if entries == [] then 0 else TotalBytes(entries[..|entries| - 1]) + entries[|entries| - 1].bytes
  }

  predicate Kept(f: ZipEntry) {
    !f.isDir && CleanName(f.name).Clean? && CleanName(f.name).path != []
  }

  function EntryFor(f: ZipEntry, includeData: bool): Entry
    requires Kept(f)
  {
    var p := CleanName(f.name).path;
    Entry(f.name, p, TargetOf(p), CategoryOf(p), f.size, if includeData && f.data.Some? then f.data.value else "")
  }

  function InspectOne(soFar: Inspection, f: ZipEntry, includeData: bool): Inspection
    requires soFar.Inspected?
  {
    if f.isDir then soFar
    else if f.size > MAX_ENTRY_BYTES then EntryTooLarge(f.name)
    else if TotalBytes(soFar.entries) + f.size > MAX_TOTAL_BYTES then TotalTooLarge
    else if CleanName(f.name) == Unsafe then soFar.(unsafePaths := soFar.unsafePaths + 1)
    else if CleanName(f.name).path == [] then soFar
    else if includeData && f.data == None then Unreadable(f.name)
    else
      var entry := EntryFor(f, includeData);
      Inspected(soFar.entries + [entry], soFar.unsafePaths, soFar.exportSeen || CleanName(f.name).exported,
                soFar.categorySeen || entry.category != Unknown)
  }

  function Inspect(files: seq<ZipEntry>, includeData: bool): Inspection {
    if files == [] then Inspected([], 0, false, false)
    else
      var soFar := Inspect(files[..|files| - 1], includeData);
      if soFar.Inspected? then InspectOne(soFar, files[|files| - 1], includeData) else soFar
  }

  predicate Recognized(i: Inspection) {
    i.Inspected? && i.entries != [] && (i.exportSeen || i.categorySeen)
  }

  lemma {:induction false} RejectionStays(files: seq<ZipEntry>, n: nat, includeData: bool)
    requires n <= |files| && !Inspect(files[..n], includeData).Inspected?
    ensures Inspect(files, includeData) == Inspect(files[..n], includeData)
  {
    if n < |files| {
      assert files[..|files| - 1][..n] == files[..n];
      RejectionStays(files[..|files| - 1], n, includeData);
    } else {
      assert files[..n] == files;
    }
  }

  lemma TotalBytesGrows(entries: seq<Entry>, e: Entry)
    ensures TotalBytes(entries + [e]) == TotalBytes(entries) + e.bytes
  {
    assert (entries + [e])[..|entries|] == entries;
  }

  /** The accepted bytes never exceed the limit. */
  lemma {:induction false} AcceptedWithinLimit(files: seq<ZipEntry>, includeData: bool)
    ensures Inspect(files, includeData).Inspected? ==> TotalBytes(Inspect(files, includeData).entries) <= 200 * 1024 * 1024
  {
    if files != [] {
      AcceptedWithinLimit(files[..|files| - 1], includeData);
      var soFar, f := Inspect(files[..|files| - 1], includeData), files[|files| - 1];
      if soFar.Inspected? && Kept(f) { TotalBytesGrows(soFar.entries, EntryFor(f, includeData)); }
    }
  }

  lemma NothingInspected(includeData: bool)
    ensures Inspect([], includeData) == Inspected([], 0, false, false)
  {
  }

  lemma InspectionGrows(files: seq<ZipEntry>, i: nat, includeData: bool)
    requires i < |files| && Inspect(files[..i], includeData).Inspected?
    ensures Inspect(files[..i + 1], includeData) == InspectOne(Inspect(files[..i], includeData), files[i], includeData)
  {
    hide InspectOne;
    assert files[..i + 1][..i] == files[..i];
  }

  /** One pass over the archive. */
  method InspectEntries(files: seq<ZipEntry>, includeData: bool) returns (result: Inspection)
    requires forall f :: f in files ==> f.size < TWO_TO_64
    ensures result == Inspect(files, includeData)
  {
    hide *;
    result := Inspected([], 0, false, false);
    NothingInspected(includeData);
    for i := 0 to |files|
      invariant result.Inspected? && result == Inspect(files[..i], includeData)
    {
      InspectionGrows(files, i, includeData);
      AcceptedWithinLimit(files[..i], includeData);
      result := InspectFile(result, files[i], includeData);
      if !result.Inspected? {
        RejectionStays(files, i + 1, includeData);
        return;
      }
    }
    assert files[..|files|] == files;
  }

  /** One file of the archive, with the running total added up in 64-bit words. */
  method InspectFile(soFar: Inspection, f: ZipEntry, includeData: bool) returns (next: Inspection)
    requires soFar.Inspected? && TotalBytes(soFar.entries) <= 200 * 1024 * 1024 && f.size < TWO_TO_64
    ensures next == InspectOne(soFar, f, includeData)
  {
    if f.isDir {
      return soFar;
    }
    if f.size > MAX_ENTRY_BYTES {
      return EntryTooLarge(f.name);
    }
    var totalBytes := SumOfBytes(soFar.entries);
    if (totalBytes + f.size) % TWO_TO_64 > MAX_TOTAL_BYTES {
      return TotalTooLarge;
    }
    var cleaned := NormalizeName(f.name);
    if cleaned == Unsafe {
      return soFar.(unsafePaths := soFar.unsafePaths + 1);
    }
    if cleaned.path == [] {
      return soFar;
    }
    if includeData && f.data == None {
      return Unreadable(f.name);
    }
    var category := CategoryOf(cleaned.path);
    var entry := Entry(f.name, cleaned.path, TargetOf(cleaned.path), category, f.size, if includeData then f.data.value else "");
    return Inspected(soFar.entries + [entry], soFar.unsafePaths, soFar.exportSeen || cleaned.exported,
                     soFar.categorySeen || category != Unknown);
  }

  /** Adding up in 64-bit words, which does not wrap for what inspection has accepted. */
  method SumOfBytes(entries: seq<Entry>) returns (total: nat)
    requires TotalBytes(entries) < TWO_TO_64
    ensures total == TotalBytes(entries)
  {
    total := 0;
    for i := 0 to |entries|
      invariant total == TotalBytes(entries[..i])
    {
      assert entries[..i + 1][..i] == entries[..i];
      PrefixWeighsLess(entries, i + 1);
      total := (total + entries[i].bytes) % TWO_TO_64;
    }
    assert entries[..|entries|] == entries;
  }

  lemma {:induction false} PrefixWeighsLess(entries: seq<Entry>, n: nat)
    requires n <= |entries|
    ensures TotalBytes(entries[..n]) <= TotalBytes(entries)
  {
    if n == |entries| {
      assert entries[..n] == entries;
    } else {
      PrefixWeighsLess(entries[..|entries| - 1], n);
      assert entries[..|entries| - 1][..n] == entries[..n];
    }
  }

  // ---- What inspection accepts ----

  function Listed(f: ZipEntry, includeData: bool): seq<Entry> {
    if Kept(f) then [EntryFor(f, includeData)] else []
  }

  /** The entries of the usable files, in order. */
  function EntriesFor(files: seq<ZipEntry>, includeData: bool): seq<Entry> {
    if files == [] then [] else EntriesFor(files[..|files| - 1], includeData) + Listed(files[|files| - 1], includeData)
  }

  function KeptBytes(files: seq<ZipEntry>): nat {
    if files == [] then 0
    else KeptBytes(files[..|files| - 1]) + if Kept(files[|files| - 1]) then files[|files| - 1].size else 0
  }

  /** Entry `i` passes the size limits after the ones before it, and can be read if it has to be. */
  predicate Passes(files: seq<ZipEntry>, i: nat, includeData: bool)
    requires i < |files|
  {
    files[i].isDir ||
    (&& files[i].size <= 50 * 1024 * 1024
     && KeptBytes(files[..i]) + files[i].size <= 200 * 1024 * 1024
     && (includeData && Kept(files[i]) ==> files[i].data.Some?))
  }

  ghost predicate AllPass(files: seq<ZipEntry>, includeData: bool) {
    forall i :: 0 <= i < |files| ==> Passes(files, i, includeData)
  }

  predicate IsUnsafe(f: ZipEntry) {
    !f.isDir && CleanName(f.name) == Unsafe
  }

  function UnsafeFiles(files: seq<ZipEntry>): nat {
    if files == [] then 0 else UnsafeFiles(files[..|files| - 1]) + if IsUnsafe(files[|files| - 1]) then 1 else 0
  }

  lemma {:induction false} NoneIsUnsafe(files: seq<ZipEntry>)
    ensures UnsafeFiles(files) == 0 <==> forall f :: f in files ==> !IsUnsafe(f)
  {
    hide IsUnsafe;
    if files != [] {
      NoneIsUnsafe(files[..|files| - 1]);
      assert forall f :: f in files <==> f in files[..|files| - 1] || f == files[|files| - 1];
    }
  }

  predicate LooksExported(f: ZipEntry) {
    Kept(f) && (CleanName(f.name).exported || CategoryOf(CleanName(f.name).path) != Unknown)
  }

  /** `i` is what inspecting `files` must yield when nothing is rejected. */
  ghost predicate Accepts(files: seq<ZipEntry>, includeData: bool, i: Inspection)
    requires i.Inspected?
  {
    Lists(files, includeData, i) && Notices(files, i)
  }

  ghost predicate Lists(files: seq<ZipEntry>, includeData: bool, i: Inspection)
    requires i.Inspected?
  {
    && i.entries == EntriesFor(files, includeData)
    && TotalBytes(i.entries) == KeptBytes(files)
  }

  ghost predicate Notices(files: seq<ZipEntry>, i: Inspection)
    requires i.Inspected?
  {
    && i.unsafePaths == UnsafeFiles(files)
    && (i.exportSeen || i.categorySeen <==> exists f :: f in files && LooksExported(f))
  }

  lemma AllPassSplits(files: seq<ZipEntry>, includeData: bool)
    requires files != []
    ensures AllPass(files, includeData) <==>
      AllPass(files[..|files| - 1], includeData) && Passes(files, |files| - 1, includeData)
  {
    var n := |files| - 1;
    forall i | 0 <= i < n ensures Passes(files, i, includeData) == Passes(files[..n], i, includeData) {
      assert files[..n][..i] == files[..i];
    }
    hide Passes;
    if AllPass(files[..n], includeData) && Passes(files, n, includeData) {
      forall i | 0 <= i < |files| ensures Passes(files, i, includeData) {
        assert i < n ==> Passes(files[..n], i, includeData);
      }
    }
    if AllPass(files, includeData) {
      forall i | 0 <= i < n ensures Passes(files[..n], i, includeData) { assert Passes(files, i, includeData); }
    }
  }

  lemma InspectOneLists(soFar: Inspection, f: ZipEntry, includeData: bool)
    requires soFar.Inspected? && InspectOne(soFar, f, includeData).Inspected?
    ensures var next := InspectOne(soFar, f, includeData);
      && next.entries == soFar.entries + Listed(f, includeData)
      && TotalBytes(next.entries) == TotalBytes(soFar.entries) + if Kept(f) then f.size else 0
  {
    if Kept(f) {
      TotalBytesGrows(soFar.entries, EntryFor(f, includeData));
    } else {
      assert soFar.entries + [] == soFar.entries;
    }
    hide CleanName, TotalBytes, TargetOf, CategoryOf;
  }

  lemma ListedOneMore(front: seq<ZipEntry>, f: ZipEntry, includeData: bool)
    ensures EntriesFor(front + [f], includeData) == EntriesFor(front, includeData) + Listed(f, includeData)
    ensures KeptBytes(front + [f]) == KeptBytes(front) + if Kept(f) then f.size else 0
  {
    hide Kept, Listed;
    var files := front + [f];
    assert files[..|files| - 1] == front && files[|files| - 1] == f;
  }

  lemma ListsOneMore(front: seq<ZipEntry>, f: ZipEntry, includeData: bool, soFar: Inspection)
    requires soFar.Inspected? && Lists(front, includeData, soFar) && InspectOne(soFar, f, includeData).Inspected?
    ensures Lists(front + [f], includeData, InspectOne(soFar, f, includeData))
  {
    hide InspectOne, TotalBytes, Kept, Listed, EntriesFor, KeptBytes;
    InspectOneLists(soFar, f, includeData);
    ListedOneMore(front, f, includeData);
  }

  lemma NoticesOneMore(front: seq<ZipEntry>, f: ZipEntry, includeData: bool, soFar: Inspection)
    requires soFar.Inspected? && Notices(front, soFar) && InspectOne(soFar, f, includeData).Inspected?
    ensures Notices(front + [f], InspectOne(soFar, f, includeData))
  {
    hide InspectOne, IsUnsafe, LooksExported, UnsafeFiles;
    var files := front + [f];
    NoticesOne(soFar, f, includeData);
    UnsafeOneMore(front, f);
    assert forall g :: g in files <==> g in front || g == f;
    assert f in files;
  }

  lemma NoticesOne(soFar: Inspection, f: ZipEntry, includeData: bool)
    requires soFar.Inspected? && InspectOne(soFar, f, includeData).Inspected?
    ensures var next := InspectOne(soFar, f, includeData);
      && next.unsafePaths == soFar.unsafePaths + (if IsUnsafe(f) then 1 else 0)
      && (next.exportSeen || next.categorySeen <==> soFar.exportSeen || soFar.categorySeen || LooksExported(f))
  {
  }

  lemma UnsafeOneMore(front: seq<ZipEntry>, f: ZipEntry)
    ensures UnsafeFiles(front + [f]) == UnsafeFiles(front) + if IsUnsafe(f) then 1 else 0
  {
    hide IsUnsafe;
    assert (front + [f])[..|front|] == front;
  }

  lemma AcceptsOneMore(files: seq<ZipEntry>, includeData: bool, soFar: Inspection)
    requires files != [] && soFar.Inspected? && Accepts(files[..|files| - 1], includeData, soFar)
    ensures InspectOne(soFar, files[|files| - 1], includeData).Inspected? <==> Passes(files, |files| - 1, includeData)
    ensures var next := InspectOne(soFar, files[|files| - 1], includeData);
      next.Inspected? ==> Accepts(files, includeData, next)
  {
    var front, f := files[..|files| - 1], files[|files| - 1];
    assert files == front + [f];
    if InspectOne(soFar, f, includeData).Inspected? {
      ListsOneMore(front, f, includeData, soFar);
      NoticesOneMore(front, f, includeData, soFar);
    }
    hide CleanName, TotalBytes, KeptBytes, EntryFor;
  }

  /**
   * Inspection succeeds exactly when every file is within the limits at its turn (and readable, where data is
   * wanted), and then lists the usable files in order, notices every unsafe name and recognizes an export.
   */
  lemma {:induction false} InspectionMeans(files: seq<ZipEntry>, includeData: bool)
    ensures Inspect(files, includeData).Inspected? <==> AllPass(files, includeData)
    ensures Inspect(files, includeData).Inspected? ==> Accepts(files, includeData, Inspect(files, includeData))
  {
    if files != [] {
      var front := files[..|files| - 1];
      InspectionMeans(front, includeData);
      AllPassSplits(files, includeData);
      var soFar := Inspect(front, includeData);
      hide Accepts, AllPass, Passes, InspectOne;
      if soFar.Inspected? { AcceptsOneMore(files, includeData, soFar); }
    }
  }

  /** An archive is recognized exactly when it passes and one of its files is usable and below "export" or in a category. */
  lemma RecognizedIff(files: seq<ZipEntry>, includeData: bool)
    ensures Recognized(Inspect(files, includeData)) <==>
      AllPass(files, includeData) && exists f :: f in files && LooksExported(f)
  {
    InspectionMeans(files, includeData);
    if f :| f in files && LooksExported(f) { KeptIsListed(files, f, includeData); }
    hide AllPass, Inspect, LooksExported, EntriesFor, TotalBytes, KeptBytes, UnsafeFiles;
    if Inspect(files, includeData).Inspected? { assert Lists(files, includeData, Inspect(files, includeData)); }
  }

  lemma {:induction false} KeptIsListed(files: seq<ZipEntry>, f: ZipEntry, includeData: bool)
    requires f in files && Kept(f)
    ensures EntryFor(f, includeData) in EntriesFor(files, includeData)
  {
    var front, last := files[..|files| - 1], files[|files| - 1];
    if f in front {
      KeptIsListed(front, f, includeData);
    } else {
      assert files == front + [last];
    }
  }

  /** A file with a plain name gives one entry, with that name, its place, and its data where that is wanted. */
  lemma PlainFileIsListed(f: ZipEntry, p: Path, includeData: bool)
    requires p != [] && (forall s :: s in p ==> BareSegment(s) && '\\' !in s) && f.name == Join(["export"] + p, '/')
    ensures Kept(f) <==> !f.isDir
    ensures !f.isDir ==>
      Listed(f, includeData) ==
        [Entry(f.name, p, TargetOf(p), CategoryOf(p), f.size, if includeData && f.data.Some? then f.data.value else "")]
  {
    PlainNamesAreKept(p);
  }

  // ---- The preview ----

  datatype Row = Row(category: Category, files: nat, bytes: nat)
  datatype Preview = Preview(recognized: bool, unsafePaths: nat, totalFiles: nat, totalBytes: nat, rows: seq<Row>, unknownFiles: nat)

  /** All categories, in the order of their identifiers. */
  const CATEGORIES := [Identity, Inbox, MemoryProfile, Projects, Roles, Scratch, Skills, Unknown, Vault]

  function FilesIn(entries: seq<Entry>, c: Category): nat {
    if entries == [] then 0
    else FilesIn(entries[..|entries| - 1], c) + if entries[|entries| - 1].category == c then 1 else 0
  }

  function BytesIn(entries: seq<Entry>, c: Category): nat {
    if entries == [] then 0
    else BytesIn(entries[..|entries| - 1], c) + if entries[|entries| - 1].category == c then entries[|entries| - 1].bytes else 0
  }

  function Rows(entries: seq<Entry>, cats: seq<Category>): seq<Row> {
    if cats == [] then []
    else
      var c := cats[|cats| - 1];
      Rows(entries, cats[..|cats| - 1]) + if FilesIn(entries, c) > 0 then [Row(c, FilesIn(entries, c), BytesIn(entries, c))] else []
  }

  function SumFiles(rows: seq<Row>): nat {
    if rows == [] then 0 else SumFiles(rows[..|rows| - 1]) + rows[|rows| - 1].files
  }

  function SumBytes(rows: seq<Row>): nat {
    if rows == [] then 0 else SumBytes(rows[..|rows| - 1]) + rows[|rows| - 1].bytes
  }

  lemma CountsGrow(entries: seq<Entry>, i: nat, c: Category)
    requires i < |entries|
    ensures FilesIn(entries[..i + 1], c) == FilesIn(entries[..i], c) + if entries[i].category == c then 1 else 0
    ensures BytesIn(entries[..i + 1], c) == BytesIn(entries[..i], c) + if entries[i].category == c then entries[i].bytes else 0
  {
    assert entries[..i + 1][..i] == entries[..i];
  }

  ghost predicate Tallied(entries: seq<Entry>, categories: map<Category, Row>) {
    forall c :: (c in categories <==> FilesIn(entries, c) > 0) && BytesIn(entries, c) == (if c in categories then categories[c].bytes else 0) &&
      (c in categories ==> categories[c].category == c && categories[c].files == FilesIn(entries, c))
  }

  method CountByCategory(entries: seq<Entry>) returns (categories: map<Category, Row>)
    ensures Tallied(entries, categories)
  {
    categories := map[];
    for i := 0 to |entries|
      invariant Tallied(entries[..i], categories)
    {
      var entry := entries[i];
      forall c ensures FilesIn(entries[..i + 1], c) == FilesIn(entries[..i], c) + if entry.category == c then 1 else 0
      {
        CountsGrow(entries, i, c);
      }
      forall c ensures BytesIn(entries[..i + 1], c) == BytesIn(entries[..i], c) + if entry.category == c then entry.bytes else 0
      {
        CountsGrow(entries, i, c);
      }
      hide FilesIn, BytesIn;
      var row := if entry.category in categories then categories[entry.category] else Row(entry.category, 0, 0);
      categories := categories[entry.category := Row(entry.category, row.files + 1, row.bytes + entry.bytes)];
    }
    assert entries[..|entries|] == entries;
  }

  method BuildPreview(files: seq<ZipEntry>) returns (preview: Option<Preview>)
    requires forall f :: f in files ==> f.size < TWO_TO_64
    ensures preview.Some? == Inspect(files, false).Inspected?
    ensures preview.Some? ==>
      var i := Inspect(files, false);
      preview.value == Preview(Recognized(i), i.unsafePaths, |i.entries|, TotalBytes(i.entries), Rows(i.entries, CATEGORIES), FilesIn(i.entries, Unknown))
  {
    var inspection := InspectEntries(files, false);
    hide Inspect, FilesIn, BytesIn;
    if !inspection.Inspected? {
      return None;
    }
    AcceptedWithinLimit(files, false);
    var entries := inspection.entries;
    var categories := CountByCategory(entries);
    var totalBytes := SumOfBytes(entries);
    var rows: seq<Row> := [];
    for i := 0 to |CATEGORIES|
      invariant rows == Rows(entries, CATEGORIES[..i])
    {
      assert CATEGORIES[..i + 1][..i] == CATEGORIES[..i];
      if CATEGORIES[i] in categories {
        rows := rows + [categories[CATEGORIES[i]]];
      }
    }
    assert CATEGORIES[..|CATEGORIES|] == CATEGORIES;
    var unknownFiles := if Unknown in categories then categories[Unknown].files else 0;
    return Some(Preview(Recognized(inspection), inspection.unsafePaths, |entries|, totalBytes, rows, unknownFiles));
  }

  lemma {:induction false} RowsWithoutFiles(cats: seq<Category>)
    ensures Rows([], cats) == []
  {
    if cats != [] { RowsWithoutFiles(cats[..|cats| - 1]); }
  }

  lemma SumsGrow(rows: seq<Row>, row: Row)
    ensures SumFiles(rows + [row]) == SumFiles(rows) + row.files && SumBytes(rows + [row]) == SumBytes(rows) + row.bytes
  {
    assert (rows + [row])[..|rows|] == rows;
  }

  lemma {:induction false} NoFilesNoBytes(entries: seq<Entry>, c: Category)
    requires FilesIn(entries, c) == 0
    ensures BytesIn(entries, c) == 0
  {
    if entries != [] { NoFilesNoBytes(entries[..|entries| - 1], c); }
  }

  lemma RowsGrowByOne(entries: seq<Entry>, rest: seq<Category>, c: Category)
    ensures SumFiles(Rows(entries, rest + [c])) == SumFiles(Rows(entries, rest)) + FilesIn(entries, c)
    ensures SumBytes(Rows(entries, rest + [c])) == SumBytes(Rows(entries, rest)) + BytesIn(entries, c)
  {
    assert (rest + [c])[..|rest|] == rest;
    if FilesIn(entries, c) == 0 {
      NoFilesNoBytes(entries, c);
      assert Rows(entries, rest + [c]) == Rows(entries, rest);
    } else {
      SumsGrow(Rows(entries, rest), Row(c, FilesIn(entries, c), BytesIn(entries, c)));
    }
  }

  ghost predicate Distinct(cats: seq<Category>) {
    forall i, j :: 0 <= i < j < |cats| ==> cats[i] != cats[j]
  }

  /** One more entry adds one file to the row of its category. */
  lemma {:induction false} RowsGrow(entries: seq<Entry>, cats: seq<Category>)
    requires entries != [] && Distinct(cats)
    ensures var front, e := entries[..|entries| - 1], entries[|entries| - 1];
      && SumFiles(Rows(entries, cats)) == SumFiles(Rows(front, cats)) + (if e.category in cats then 1 else 0)
      && SumBytes(Rows(entries, cats)) == SumBytes(Rows(front, cats)) + (if e.category in cats then e.bytes else 0)
  {
    if cats != [] {
      var front, e := entries[..|entries| - 1], entries[|entries| - 1];
      var c, rest := cats[|cats| - 1], cats[..|cats| - 1];
      RowsGrow(entries, rest);
      assert cats == rest + [c];
      RowsGrowByOne(entries, rest, c);
      RowsGrowByOne(front, rest, c);
      assert FilesIn(entries, c) == FilesIn(front, c) + if c == e.category then 1 else 0;
      assert BytesIn(entries, c) == BytesIn(front, c) + if c == e.category then e.bytes else 0;
      hide Rows, SumFiles, SumBytes, FilesIn, BytesIn;
      assert e.category in cats <==> e.category in rest || e.category == c;
      assert c !in rest;
    }
  }

  lemma {:induction false} RowsAddUpOver(entries: seq<Entry>, cats: seq<Category>)
    requires Distinct(cats) && forall c: Category :: c in cats
    ensures SumFiles(Rows(entries, cats)) == |entries|
    ensures SumBytes(Rows(entries, cats)) == TotalBytes(entries)
  {
    if entries == [] {
      RowsWithoutFiles(cats);
    } else {
      RowsAddUpOver(entries[..|entries| - 1], cats);
      RowsGrow(entries, cats);
      hide Rows, SumFiles, SumBytes;
    }
  }

  /** The rows of a preview account for every file and every byte of its totals. */
  lemma RowsAddUp(entries: seq<Entry>)
    ensures SumFiles(Rows(entries, CATEGORIES)) == |entries|
    ensures SumBytes(Rows(entries, CATEGORIES)) == TotalBytes(entries)
  {
    CategoriesComplete();
    hide *;
    RowsAddUpOver(entries, CATEGORIES);
  }

  lemma CategoriesComplete()
    ensures Distinct(CATEGORIES) && forall c: Category :: c in CATEGORIES
  {
    forall c: Category ensures c in CATEGORIES {
      var i := match c
        case Identity => 0
        case Inbox => 1
        case MemoryProfile => 2
        case Projects => 3
        case Roles => 4
        case Scratch => 5
        case Skills => 6
        case Unknown => 7
        case Vault => 8;
      assert CATEGORIES[i] == c;
    }
  }

  /** What the preview lists is what a restore works on: the same entries, but for the data. */
  lemma PreviewPredictsApply(files: seq<ZipEntry>)
    ensures Inspect(files, true).Inspected? <==>
      Inspect(files, false).Inspected? && forall f :: f in files && Kept(f) ==> f.data.Some?
    ensures Inspect(files, true).Inspected? ==>
      var shown, used := Inspect(files, false), Inspect(files, true);
      && |shown.entries| == |used.entries| && Recognized(shown) == Recognized(used)
      && shown.unsafePaths == used.unsafePaths
      && forall k :: 0 <= k < |used.entries| ==> shown.entries[k] == used.entries[k].(data := "")
  {
    InspectionMeans(files, false);
    InspectionMeans(files, true);
    if AllPass(files, true) {
      PassedBoth(files);
      SameEntries(files);
    }
    if AllPass(files, false) && forall f :: f in files && Kept(f) ==> f.data.Some? {
      hide Inspect, Accepts, Kept, Recognized;
      forall i | 0 <= i < |files| ensures Passes(files, i, true) { assert Passes(files, i, false) && files[i] in files; }
    }
    hide Inspect, Kept, AllPass, EntriesFor, TotalBytes, KeptBytes;
  }

  lemma PassedBoth(files: seq<ZipEntry>)
    requires AllPass(files, true)
    ensures AllPass(files, false) && forall f :: f in files && Kept(f) ==> f.data.Some?
  {
    hide Kept;
    forall i | 0 <= i < |files| ensures Passes(files, i, false) && (Kept(files[i]) ==> files[i].data.Some?) {
      assert Passes(files, i, true);
      if Kept(files[i]) { KeptIsFile(files[i]); }
    }
  }

  lemma KeptIsFile(f: ZipEntry)
    requires Kept(f)
    ensures !f.isDir
  {
  }

  lemma {:induction false} SameEntries(files: seq<ZipEntry>)
    ensures |EntriesFor(files, false)| == |EntriesFor(files, true)|
    ensures forall k :: 0 <= k < |EntriesFor(files, true)| ==> EntriesFor(files, false)[k] == EntriesFor(files, true)[k].(data := "")
  {
    if files != [] {
      SameEntries(files[..|files| - 1]);
      hide Kept;
    }
  }
}
