/** Planning and applying the copy of assigned Hub skills into a local directory tree. */
module LocalSkillSync {
  import opened Text
  import opened Paths
  import opened RelPaths
  import opened LocalDisk

  const MARKER_FILE := ".vola-managed.json"

  datatype Scope = Personal | Team(id: string)

  /**
    * One agent with its skill root and scope. `place` is the directory a skill gets below the root, and `local` the path a
    * Hub file gets below that directory, if any; the source's choice for `local` is RelPaths.LocalRel, and what follows
    * holds for every choice.
    */
  datatype Target = Target(agentId: string, supported: bool, root: Path, scope: Scope, place: Path -> Path, local: Path -> Option<LocalPath>)

  datatype HubFile = HubFile(rel: Path, data: Content)

  /** The readable skills of the Hub. */
  type Hub = map<Path, seq<HubFile>>

  datatype Action = Add | Update | Unchanged | Missing | Conflict | Removable
  datatype Change = Change(action: Action, skill: Path, path: Path)

  /** A queued write: a skill file, or the marker of a skill directory. */
  datatype Op = Put(dir: Path, name: string, data: Content) | Stamp(skill: Path, dir: Path)

  // ---- Markers and destinations ----

  function Dest(t: Target, skill: Path): Path {
    t.root + t.place(skill)
  }

  function ScopeName(scope: Scope): string {
    if scope.Team? then "team" else "personal"
  }

  predicate MatchesScope(m: Marker, t: Target) {
    && m.managedBy == "vola"
    && m.agentId == t.agentId
    && (if TrimSpace(m.scope) == "" then "personal" else TrimSpace(m.scope)) == ScopeName(t.scope)
    && (t.scope.Team? ==> TrimSpace(m.teamId) != "" && m.teamId == t.scope.id)
  }

  predicate Matches(m: Marker, t: Target, skill: Path) {
    MatchesScope(m, t) && m.skillPath == skill
  }

  function NewMarker(t: Target, skill: Path, rest: string): Marker {
    Marker("vola", t.agentId, skill, ScopeName(t.scope), if t.scope.Team? then t.scope.id else "", rest)
  }

  datatype MarkerRead = NoMarker | BadMarker | Found(marker: Marker)

  function ReadMarker(fs: FS, dir: Path): MarkerRead {
    match ReadFile(fs, dir + [MARKER_FILE])
    case NotExist => NoMarker
    case Failed => BadMarker
    case Read(Opaque(_)) => BadMarker
    case Read(Encoded(m)) => Found(m)
  }

  // ---- The plan ----

  datatype Outcome = Outcome(changes: seq<Change>, ops: seq<Op>, errors: nat) {
    function Then(next: Outcome): Outcome {
      Outcome(changes + next.changes, ops + next.ops, errors + next.errors)
    }
  }

  const NOTHING := Outcome([], [], 0)

  function FileOutcome(fs: FS, t: Target, skill: Path, managed: bool, file: HubFile): Outcome {
    match t.local(file.rel)
    case None => Outcome([], [], 1)
    case Some(rel) =>
      var path := Dest(t, skill) + rel;
      var put := [Put(Parent(path), path[|path| - 1], file.data)];
      match ReadFile(fs, path)
      case NotExist => Outcome([Change(Add, skill, path)], put, 0)
      case Failed => Outcome([Change(Conflict, skill, path)], [], 0)
      case Read(existing) =>
        if existing == file.data then Outcome([Change(Unchanged, skill, path)], [], 0)
        else if managed then Outcome([Change(Update, skill, path)], put, 0)
        else Outcome([Change(Conflict, skill, path)], [], 0)
  }

  function FilesOutcome(fs: FS, t: Target, skill: Path, managed: bool, files: seq<HubFile>): Outcome {
    if files == [] then NOTHING
    else FilesOutcome(fs, t, skill, managed, files[..|files| - 1]).Then(FileOutcome(fs, t, skill, managed, files[|files| - 1]))
  }

  /** The local files of a managed skill that the Hub does not have, in walk order. */
  function MissingChanges(skill: Path, dir: Path, files: seq<HubFile>, walk: seq<Path>): seq<Change> {
    if walk == [] then []
    else
      var p := walk[|walk| - 1];
      MissingChanges(skill, dir, files, walk[..|walk| - 1]) +
      if dir < p && p != dir + [MARKER_FILE] && !(exists i :: 0 <= i < |files| && dir + files[i].rel == p)
      then [Change(Missing, skill, p)] else []
  }

  datatype SkillState = Unavailable | StatFailed | Occupied | Fresh | Managed

  function SkillStateOf(fs: FS, hub: Hub, t: Target, skill: Path): SkillState {
    if skill !in hub then Unavailable
    else
      match Stat(fs, Dest(t, skill))
      case Unreachable => StatFailed
      case RegularFile => Occupied
      case Absent => Fresh
      case Directory =>
        match ReadMarker(fs, Dest(t, skill))
        case Found(m) => if Matches(m, t, skill) then Managed else Occupied
        case _ => Occupied
  }

  ghost function SkillOutcome(fs: FS, hub: Hub, t: Target, skill: Path): Outcome {
    var dir := Dest(t, skill);
    match SkillStateOf(fs, hub, t, skill)
    case Unavailable => Outcome([], [], 1)
    case StatFailed => Outcome([], [], 1)
    case Occupied =>
      Outcome([Change(Conflict, skill, dir)], [], if Stat(fs, dir) == Directory && ReadMarker(fs, dir) == BadMarker then 1 else 0)
    case Fresh => FilesOutcome(fs, t, skill, false, hub[skill])
    case Managed =>
      var files := FilesOutcome(fs, t, skill, true, hub[skill]);
      Outcome(files.changes + MissingChanges(skill, dir, hub[skill], Listing(fs.files.Keys)), files.ops, files.errors)
  }

  lemma SkillOutcomeCases(fs: FS, hub: Hub, t: Target, skill: Path)
    ensures var dir, out := Dest(t, skill), SkillOutcome(fs, hub, t, skill);
            match SkillStateOf(fs, hub, t, skill)
            case Unavailable | StatFailed => out == Outcome([], [], 1)
            case Occupied =>
              out == Outcome([Change(Conflict, skill, dir)], [], if Stat(fs, dir) == Directory && ReadMarker(fs, dir) == BadMarker then 1 else 0)
            case Fresh => skill in hub && out == FilesOutcome(fs, t, skill, false, hub[skill])
            case Managed =>
              && skill in hub
              && var files := FilesOutcome(fs, t, skill, true, hub[skill]);
                 out == Outcome(files.changes + MissingChanges(skill, dir, hub[skill], Listing(fs.files.Keys)), files.ops, files.errors)
  {
    assert SkillStateOf(fs, hub, t, skill) == Unavailable || skill in hub;
    hide FilesOutcome, MissingChanges, Listing, SkillStateOf, Stat, ReadMarker;
  }

  ghost function PlanOutcome(fs: FS, hub: Hub, t: Target, skills: seq<Path>): Outcome {
    if skills == [] then NOTHING
    else PlanOutcome(fs, hub, t, skills[..|skills| - 1]).Then(SkillOutcome(fs, hub, t, skills[|skills| - 1]))
  }

  lemma FilesOutcomeStep(fs: FS, t: Target, skill: Path, managed: bool, files: seq<HubFile>, i: nat)
    requires i < |files|
    ensures FilesOutcome(fs, t, skill, managed, files[..i + 1])
         == FilesOutcome(fs, t, skill, managed, files[..i]).Then(FileOutcome(fs, t, skill, managed, files[i]))
  {
    assert files[..i + 1][..i] == files[..i];
  }

  lemma PlanOutcomeStep(fs: FS, hub: Hub, t: Target, skills: seq<Path>, i: nat)
    requires i < |skills|
    ensures PlanOutcome(fs, hub, t, skills[..i + 1]) == PlanOutcome(fs, hub, t, skills[..i]).Then(SkillOutcome(fs, hub, t, skills[i]))
  {
    assert skills[..i + 1][..i] == skills[..i];
  }

  /** One marker write for every assigned skill found in the Hub, in any order (the source ranges over a map). */
  ghost predicate MarkerOps(ops: seq<Op>, hub: Hub, t: Target, skills: seq<Path>) {
    && (forall op :: op in ops ==> op.Stamp? && op.skill in skills && op.skill in hub && op.dir == Dest(t, op.skill))
    && (forall skill :: skill in skills && skill in hub ==> Stamp(skill, Dest(t, skill)) in ops)
    && (forall i, j :: 0 <= i < j < |ops| ==> ops[i] != ops[j])
  }

  function Count(changes: seq<Change>, action: Action): nat {
    if changes == [] then 0
    else Count(changes[..|changes| - 1], action) + if changes[|changes| - 1].action == action then 1 else 0
  }

  // ---- Applying ----

  function OpPath(op: Op): Path {
    op.dir + [if op.Put? then op.name else MARKER_FILE]
  }

  /** `rest` gives the time-dependent part of the marker written for a skill. */
  function OpData(op: Op, t: Target, rest: Path -> string): Content {
    match op
    case Put(_, _, data) => data
    case Stamp(skill, _) => Encoded(NewMarker(t, skill, rest(skill)))
  }

  datatype Applied = Applied(fs: FS, written: nat, errors: nat)

  function ApplyOp(fs: FS, t: Target, op: Op, rest: Path -> string): Applied {
    if op.Put? && !(t.root <= OpPath(op)) then Applied(fs, 0, 1)
    else
      var (made, ok) := MkdirAll(fs, op.dir);
      if !ok then Applied(made, 0, 1)
      else
        var (next, wrote) := WriteFile(made, OpPath(op), OpData(op, t, rest));
        if !wrote then Applied(next, 0, 1)
        else Applied(next, if op.Put? then 1 else 0, 0)
  }

  function ApplyOps(fs: FS, t: Target, ops: seq<Op>, rest: Path -> string): Applied {
    if ops == [] then Applied(fs, 0, 0)
    else
      var before := ApplyOps(fs, t, ops[..|ops| - 1], rest);
      var last := ApplyOp(before.fs, t, ops[|ops| - 1], rest);
      Applied(last.fs, before.written + last.written, before.errors + last.errors)
  }

  // ---- The imperative form ----

  class Disk {
    var fs: FS

    constructor (fs: FS)
      ensures this.fs == fs
    {
      this.fs := fs;
    }
  }

  class AgentPlan {
    var changes: seq<Change>
    var add: nat
    var update: nat
    var same: nat
    var missing: nat
    var conflict: nat
    var removable: nat
    var written: nat
    var deleted: nat
    var blocked: nat
    var manual: nat
    var errors: nat

    constructor ()
      ensures Valid() && changes == [] && written == 0 && deleted == 0 && blocked == 0 && manual == 0 && errors == 0
    {
      changes := [];
      add, update, same, missing, conflict, removable := 0, 0, 0, 0, 0, 0;
      written, deleted, blocked, manual, errors := 0, 0, 0, 0, 0;
    }

    /** The summary counts the change list. */
    ghost predicate Valid()
      reads `changes, `add, `update, `same, `missing, `conflict, `removable
    {
      && add == Count(changes, Add)
      && update == Count(changes, Update)
      && same == Count(changes, Unchanged)
      && missing == Count(changes, Missing)
      && conflict == Count(changes, Conflict)
      && removable == Count(changes, Removable)
    }

    method AddChange(change: Change)
      requires Valid()
      modifies this
      ensures Valid() && changes == old(changes) + [change]
      ensures add == old(add) + (if change.action == Add then 1 else 0) && update == old(update) + (if change.action == Update then 1 else 0)
      ensures same == old(same) + (if change.action == Unchanged then 1 else 0)
      ensures missing == old(missing) + (if change.action == Missing then 1 else 0)
      ensures conflict == old(conflict) + (if change.action == Conflict then 1 else 0)
      ensures removable == old(removable) + (if change.action == Removable then 1 else 0)
      ensures unchanged(`errors, `written, `deleted, `blocked, `manual)
    {
      changes := changes + [change];
      match change.action {
        case Add => add := add + 1;
        case Update => update := update + 1;
        case Unchanged => same := same + 1;
        case Missing => missing := missing + 1;
        case Conflict => conflict := conflict + 1;
        case Removable => removable := removable + 1;
      }
    }

    /** Compares one Hub file with its local path. */
    method PlanFile(fs: FS, t: Target, skill: Path, managed: bool, file: HubFile) returns (ops: seq<Op>)
      requires Valid()
      modifies this
      ensures Valid()
      ensures var out := FileOutcome(fs, t, skill, managed, file);
              changes == old(changes) + out.changes && ops == out.ops && errors == old(errors) + out.errors
      ensures unchanged(`written, `deleted, `blocked, `manual)
    {
      ops := [];
      match t.local(file.rel) {
        case None =>
          errors := errors + 1;
        case Some(rel) =>
          var path := Dest(t, skill) + rel;
          var put := Put(Parent(path), path[|path| - 1], file.data);
          match ReadFile(fs, path) {
            case NotExist =>
              AddChange(Change(Add, skill, path));
              ops := [put];
            case Failed =>
              AddChange(Change(Conflict, skill, path));
            case Read(existing) =>
              if existing == file.data {
                AddChange(Change(Unchanged, skill, path));
              } else if managed {
                AddChange(Change(Update, skill, path));
                ops := [put];
              } else {
                AddChange(Change(Conflict, skill, path));
              }
          }
      }
    }

    /** One pass over the files of a skill whose directory is absent or managed. */
    method PlanFiles(fs: FS, t: Target, skill: Path, managed: bool, files: seq<HubFile>) returns (ops: seq<Op>)
      requires Valid()
      modifies this
      ensures Valid()
      ensures var out := FilesOutcome(fs, t, skill, managed, files);
              changes == old(changes) + out.changes && ops == out.ops && errors == old(errors) + out.errors
      ensures unchanged(`written, `deleted, `blocked, `manual)
    {
      hide Valid, FileOutcome, Count;
      ops := [];
      for i := 0 to |files|
        invariant Valid()
        invariant var out := FilesOutcome(fs, t, skill, managed, files[..i]);
                  changes == old(changes) + out.changes && ops == out.ops && errors == old(errors) + out.errors
        invariant unchanged(`written, `deleted, `blocked, `manual)
      {
        ghost var before := FilesOutcome(fs, t, skill, managed, files[..i]);
        ghost var one := FileOutcome(fs, t, skill, managed, files[i]);
        FilesOutcomeStep(fs, t, skill, managed, files, i);
        var puts := PlanFile(fs, t, skill, managed, files[i]);
        ops := ops + puts;
        assert changes == old(changes) + (before.changes + one.changes);
      }
      assert files[..|files|] == files;
    }

    /** Reports the local files of a managed skill that the Hub does not have; `walk` is the order of filepath.WalkDir. */
    method AddMissing(skill: Path, dir: Path, files: seq<HubFile>, walk: seq<Path>)
      requires Valid()
      modifies this
      ensures Valid() && changes == old(changes) + MissingChanges(skill, dir, files, walk)
      ensures unchanged(`errors, `written, `deleted, `blocked, `manual)
    {
      hide Valid, Count;
      for i := 0 to |walk|
        invariant Valid() && changes == old(changes) + MissingChanges(skill, dir, files, walk[..i])
        invariant unchanged(`errors, `written, `deleted, `blocked, `manual)
      {
        assert walk[..i + 1][..i] == walk[..i];
        var p := walk[i];
        if dir < p && p != dir + [MARKER_FILE] && !(exists j :: 0 <= j < |files| && dir + files[j].rel == p) {
          AddChange(Change(Missing, skill, p));
        }
      }
      assert walk[..|walk|] == walk;
    }

    method PlanManaged(fs: FS, t: Target, skill: Path, files: seq<HubFile>, walk: seq<Path>) returns (ops: seq<Op>)
      requires Valid()
      modifies this
      ensures Valid()
      ensures var out := FilesOutcome(fs, t, skill, true, files);
              && changes == old(changes) + (out.changes + MissingChanges(skill, Dest(t, skill), files, walk))
              && ops == out.ops && errors == old(errors) + out.errors
      ensures unchanged(`written, `deleted, `blocked, `manual)
    {
      hide Valid, FilesOutcome, MissingChanges, Count;
      ops := PlanFiles(fs, t, skill, true, files);
      AddMissing(skill, Dest(t, skill), files, walk);
    }

    /** Plans one assigned skill; `walk` is the order in which the directory walk meets the files. */
    method PlanSkill(fs: FS, hub: Hub, t: Target, skill: Path, walk: seq<Path>) returns (ops: seq<Op>)
      requires Valid() && walk == Listing(fs.files.Keys)
      modifies this
      ensures Valid()
      ensures var out := SkillOutcome(fs, hub, t, skill);
              changes == old(changes) + out.changes && ops == out.ops && errors == old(errors) + out.errors
      ensures unchanged(`written, `deleted, `blocked, `manual)
    {
      SkillOutcomeCases(fs, hub, t, skill);
      hide *;
      ops := [];
      var path := Dest(t, skill);
      match SkillStateOf(fs, hub, t, skill) {
        case Unavailable | StatFailed =>
          errors := errors + 1;
        case Occupied =>
          if Stat(fs, path) == Directory && ReadMarker(fs, path) == BadMarker {
            errors := errors + 1;
          }
          AddChange(Change(Conflict, skill, path));
        case Fresh =>
          ops := PlanFiles(fs, t, skill, false, hub[skill]);
        case Managed =>
          ops := PlanManaged(fs, t, skill, hub[skill], walk);
      }
    }

    /** Plans every assigned skill and queues one marker write for each that the Hub has. */
    method Build(fs: FS, hub: Hub, t: Target, skills: seq<Path>, walk: seq<Path>) returns (ops: seq<Op>, markers: seq<Op>)
      requires Valid() && walk == Listing(fs.files.Keys)
      modifies this
      ensures Valid()
      ensures var plan := PlanOutcome(fs, hub, t, skills);
              changes == old(changes) + plan.changes && ops == plan.ops + markers && errors == old(errors) + plan.errors
      ensures MarkerOps(markers, hub, t, skills)
      ensures unchanged(`written, `deleted, `blocked, `manual)
    {
      hide Valid, SkillOutcome, Count;
      ops := [];
      var markerDirs: map<Path, Path> := map[];
      for i := 0 to |skills|
        invariant Valid()
        invariant var plan := PlanOutcome(fs, hub, t, skills[..i]);
                  changes == old(changes) + plan.changes && ops == plan.ops && errors == old(errors) + plan.errors
        invariant forall s :: s in markerDirs <==> s in skills[..i] && s in hub
        invariant forall s :: s in markerDirs ==> markerDirs[s] == Dest(t, s)
        invariant unchanged(`written, `deleted, `blocked, `manual)
      {
        ghost var before := PlanOutcome(fs, hub, t, skills[..i]);
        ghost var one := SkillOutcome(fs, hub, t, skills[i]);
        PlanOutcomeStep(fs, hub, t, skills, i);
        assert skills[..i + 1] == skills[..i] + [skills[i]];
        var puts := PlanSkill(fs, hub, t, skills[i], walk);
        ops := ops + puts;
        assert changes == old(changes) + (before.changes + one.changes);
        if skills[i] in hub {
          markerDirs := markerDirs[skills[i] := Dest(t, skills[i])];
        }
      }
      assert skills[..|skills|] == skills;
      markers := QueueMarkers(markerDirs);
      ops := ops + markers;
    }

    /** The source ranges over a map, so the order is left open. */
    static method QueueMarkers(markerDirs: map<Path, Path>) returns (markers: seq<Op>)
      ensures forall op :: op in markers <==> op.Stamp? && op.skill in markerDirs && op.dir == markerDirs[op.skill]
      ensures forall i, j :: 0 <= i < j < |markers| ==> markers[i] != markers[j]
    {
      markers := [];
      var pending := markerDirs.Keys;
      while pending != {}
        invariant pending <= markerDirs.Keys
        invariant forall op :: op in markers <==> op.Stamp? && op.skill in markerDirs.Keys - pending && op.dir == markerDirs[op.skill]
        invariant forall i, j :: 0 <= i < j < |markers| ==> markers[i] != markers[j]
        decreases pending
      {
        var skill :| skill in pending;
        var stamp := Stamp(skill, markerDirs[skill]);
        assert stamp !in markers;
        markers := markers + [stamp];
        pending := pending - {skill};
      }
    }

    method ApplyOne(disk: Disk, t: Target, op: Op, rest: Path -> string)
      modifies `written, `errors, disk
      ensures var applied := ApplyOp(old(disk.fs), t, op, rest);
              disk.fs == applied.fs && written == old(written) + applied.written && errors == old(errors) + applied.errors
    {
      if op.Put? && !(t.root <= OpPath(op)) {
        errors := errors + 1;
        return;
      }
      var (made, ok) := MkdirAll(disk.fs, op.dir);
      disk.fs := made;
      if !ok {
        errors := errors + 1;
        return;
      }
      var (next, wrote) := WriteFile(disk.fs, OpPath(op), OpData(op, t, rest));
      disk.fs := next;
      if !wrote {
        errors := errors + 1;
      } else if op.Put? {
        written := written + 1;
      }
    }

    /** Carries out the queued writes unless the plan has a conflict, a blocked finding or an unacknowledged manual one. */
    method ApplyWrites(disk: Disk, t: Target, ops: seq<Op>, rest: Path -> string, ack: bool)
      requires Valid()
      modifies this, disk
      ensures Valid() && changes == old(changes) && blocked == old(blocked) && manual == old(manual) && deleted == old(deleted)
      ensures if t.supported && conflict == 0 && blocked == 0 && (manual == 0 || ack) then
                var applied := ApplyOps(old(disk.fs), t, ops, rest);
                disk.fs == applied.fs && written == old(written) + applied.written && errors == old(errors) + applied.errors
              else
                disk.fs == old(disk.fs) && written == old(written) && errors == old(errors) + if t.supported then 1 else 0
    {
      if !t.supported {
        return;
      }
      if conflict > 0 || blocked > 0 || (manual > 0 && !ack) {
        errors := errors + 1;
        return;
      }
      hide Valid, Count, ApplyOp;
      for i := 0 to |ops|
        invariant Valid() && changes == old(changes)
        invariant unchanged(`blocked, `manual, `deleted)
        invariant var applied := ApplyOps(old(disk.fs), t, ops[..i], rest);
                  disk.fs == applied.fs && written == old(written) + applied.written && errors == old(errors) + applied.errors
      {
        assert ops[..i + 1][..i] == ops[..i];
        ApplyOne(disk, t, ops[i], rest);
      }
      assert ops[..|ops|] == ops;
    }
  }
}
