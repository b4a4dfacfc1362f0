/** Ownership and convergence of local skill sync. */
module LocalSkillSyncTheorems {
  import opened Text
  import opened Paths
  import opened RelPaths
  import opened LocalDisk
  import opened LocalSkillSync

  type Stamps = Path -> string

  // ---- Markers and destinations on the disk ----

  /** The marker names this agent and scope: a blank scope is personal, and a team is known by its identifier. */
  predicate Names(m: Marker, t: Target) {
    && m.managedBy == "vola" && m.agentId == t.agentId
    && match t.scope
       case Personal => TrimSpace(m.scope) == "" || TrimSpace(m.scope) == "personal"
       case Team(id) => TrimSpace(m.scope) == "team" && TrimSpace(id) != "" && m.teamId == id
  }

  lemma MatchesScopeIff(m: Marker, t: Target)
    ensures MatchesScope(m, t) <==> Names(m, t)
  {
    assert "team" != "personal";
    hide TrimSpace;
  }

  /** A marker is found exactly where its bytes stand in the marker file, and unreadable where anything else does. */
  lemma ReadMarkerIff(fs: FS, dir: Path, m: Marker)
    ensures var p := dir + [MARKER_FILE];
      && (ReadMarker(fs, dir) == Found(m) <==> p !in fs.dirs && p in fs.files && fs.files[p] == Encoded(m))
      && (ReadMarker(fs, dir) == NoMarker <==> p !in fs.dirs && p !in fs.files && !fs.Blocked(p))
  {
    hide FS.Blocked;
  }

  /** The directory carries a marker that names this agent and scope. */
  predicate MarkedFor(fs: FS, t: Target, dir: Path) {
    match ReadMarker(fs, dir) case Found(m) => Names(m, t) case _ => false
  }

  /** The directory of a skill carries the marker of that skill for this agent and scope. */
  predicate HasMarker(fs: FS, t: Target, skill: Path) {
    match ReadMarker(fs, Dest(t, skill)) case Found(m) => Names(m, t) && m.skillPath == skill case _ => false
  }

  /** What a plan takes the directory of a skill for, on the disk. */
  lemma SkillStateIff(fs: FS, hub: Hub, t: Target, skill: Path)
    ensures var state, kind := SkillStateOf(fs, hub, t, skill), Stat(fs, Dest(t, skill));
      && (state == Unavailable <==> skill !in hub)
      && (state == StatFailed <==> skill in hub && kind == Unreachable)
      && (state == Fresh <==> skill in hub && kind == Absent)
      && (state == Managed <==> skill in hub && kind == Directory && HasMarker(fs, t, skill))
      && (state == Occupied <==> skill in hub && (kind == RegularFile || (kind == Directory && !HasMarker(fs, t, skill))))
  {
    if ReadMarker(fs, Dest(t, skill)).Found? { MatchesScopeIff(ReadMarker(fs, Dest(t, skill)).marker, t); }
    hide ReadMarker, MatchesScope, Names, Stat;
  }

  // ---- What a list of writes does ----

  /** No regular file stands where the directory of `op` would go. */
  predicate Open(fs: FS, op: Op) {
    op.dir !in fs.files && !fs.Blocked(op.dir)
  }

  ghost predicate Grows(before: FS, after: FS) {
    && before.files.Keys <= after.files.Keys
    && before.dirs <= after.dirs
    && (before.WellFormed() ==> after.WellFormed())
  }

  /** `p` holds what it held before or what one of `ops`, whose directory was open, writes there. */
  ghost predicate Explained(before: FS, after: FS, t: Target, ops: seq<Op>, rest: Stamps, p: Path)
    requires p in after.files
  {
    || (p in before.files && after.files[p] == before.files[p])
    || exists i :: 0 <= i < |ops| && WritesHere(before, after, t, ops[i], rest, p)
  }

  ghost predicate WritesHere(before: FS, after: FS, t: Target, op: Op, rest: Stamps, p: Path)
    requires p in after.files
  {
    OpPath(op) == p && OpData(op, t, rest) == after.files[p] && Open(before, op)
  }

  lemma ApplyOneGrows(fs: FS, t: Target, op: Op, rest: Stamps)
    ensures Grows(fs, ApplyOp(fs, t, op, rest).fs)
  {
  }

  /** A file outside the root is refused; any other operation counts an error exactly when its directory or its file fails. */
  lemma ApplyOpMeans(fs: FS, t: Target, op: Op, rest: Stamps)
    ensures var applied, made := ApplyOp(fs, t, op, rest), MkdirAll(fs, op.dir);
            && (op.Put? && !(t.root <= OpPath(op)) ==> applied == Applied(fs, 0, 1))
            && (op.Stamp? || t.root <= OpPath(op) ==>
                  && (applied.errors == 0 <==> made.1 && WriteFile(made.0, OpPath(op), OpData(op, t, rest)).1)
                  && applied.errors <= 1 && applied.written == (if op.Put? && applied.errors == 0 then 1 else 0))
  {
  }

  /** What is planned for a skill lies inside the root, and is never refused. */
  lemma PlannedInside(t: Target, skill: Path, f: HubFile, op: Op)
    requires Delivers(t, skill, f, op)
    ensures t.root <= OpPath(op)
  {
    FileBelowDest(t, skill, f);
    assert t.root <= Dest(t, skill);
  }

  lemma {:induction false} ApplyGrows(fs: FS, t: Target, ops: seq<Op>, rest: Stamps)
    ensures Grows(fs, ApplyOps(fs, t, ops, rest).fs)
  {
    if ops != [] {
      ApplyGrows(fs, t, ops[..|ops| - 1], rest);
      ApplyOneGrows(ApplyOps(fs, t, ops[..|ops| - 1], rest).fs, t, ops[|ops| - 1], rest);
    }
  }

  /** A write list changes nothing but the paths its operations name. */
  lemma {:induction false} ApplyExplained(fs: FS, t: Target, ops: seq<Op>, rest: Stamps, p: Path)
    requires p in ApplyOps(fs, t, ops, rest).fs.files
    ensures Explained(fs, ApplyOps(fs, t, ops, rest).fs, t, ops, rest, p)
  {
    if ops != [] {
      var front, last := ops[..|ops| - 1], ops[|ops| - 1];
      var mid := ApplyOps(fs, t, front, rest).fs;
      var after := ApplyOps(fs, t, ops, rest).fs;
      ApplyGrows(fs, t, front, rest);
      if p in mid.files && after.files[p] == mid.files[p] {
        ApplyExplained(fs, t, front, rest, p);
        if !(p in fs.files && mid.files[p] == fs.files[p]) {
          var i :| 0 <= i < |front| && WritesHere(fs, mid, t, front[i], rest, p);
          assert WritesHere(fs, after, t, ops[i], rest, p);
        }
      } else {
        assert Open(mid, last);
        assert Open(fs, last);
        assert WritesHere(fs, after, t, ops[|ops| - 1], rest, p);
      }
    }
  }

  /** When no operation failed, every one of them left a file in a directory. */
  lemma {:induction false} ApplyComplete(fs: FS, t: Target, ops: seq<Op>, rest: Stamps)
    requires ApplyOps(fs, t, ops, rest).errors == 0
    ensures var after := ApplyOps(fs, t, ops, rest).fs;
            forall op :: op in ops ==> op.dir in after.dirs && OpPath(op) in after.files
    ensures ApplyOps(fs, t, ops, rest).written == Puts(ops)
  {
    if ops != [] {
      var front, last := ops[..|ops| - 1], ops[|ops| - 1];
      ApplyComplete(fs, t, front, rest);
      var mid := ApplyOps(fs, t, front, rest).fs;
      ApplyOneGrows(mid, t, last, rest);
      assert ops == front + [last];
    }
  }

  function Puts(ops: seq<Op>): nat {
    if ops == [] then 0 else Puts(ops[..|ops| - 1]) + if ops[|ops| - 1].Put? then 1 else 0
  }

  /** A path on which all of `ops` agree, and which one of them writes or which held that content before, ends up with it. */
  lemma ApplySettles(fs: FS, t: Target, ops: seq<Op>, rest: Stamps, p: Path, content: Content)
    requires ApplyOps(fs, t, ops, rest).errors == 0
    requires forall op :: op in ops && OpPath(op) == p ==> OpData(op, t, rest) == content
    requires (p in fs.files && fs.files[p] == content) || exists op :: op in ops && OpPath(op) == p
    ensures var after := ApplyOps(fs, t, ops, rest).fs; p in after.files && after.files[p] == content
  {
    var after := ApplyOps(fs, t, ops, rest).fs;
    ApplyComplete(fs, t, ops, rest);
    ApplyGrows(fs, t, ops, rest);
    ApplyExplained(fs, t, ops, rest, p);
    if exists op :: op in ops && OpPath(op) == p {
      var op :| op in ops && OpPath(op) == p;
      UntouchedOrWritten(fs, t, ops, rest, p, content);
    }
  }

  lemma {:induction false} UntouchedOrWritten(fs: FS, t: Target, ops: seq<Op>, rest: Stamps, p: Path, content: Content)
    requires ApplyOps(fs, t, ops, rest).errors == 0
    requires forall op :: op in ops && OpPath(op) == p ==> OpData(op, t, rest) == content
    requires exists op :: op in ops && OpPath(op) == p
    ensures var after := ApplyOps(fs, t, ops, rest).fs; p in after.files && after.files[p] == content
  {
    var front, last := ops[..|ops| - 1], ops[|ops| - 1];
    assert ops == front + [last];
    if OpPath(last) != p {
      UntouchedOrWritten(fs, t, front, rest, p, content);
    }
  }

  // ---- What a plan holds ----

  predicate NoConflict(changes: seq<Change>) {
    forall c :: c in changes ==> c.action != Conflict
  }

  lemma {:induction false} CountsItsAction(changes: seq<Change>, action: Action)
    ensures Count(changes, action) == 0 <==> forall c :: c in changes ==> c.action != action
  {
    if changes != [] {
      CountsItsAction(changes[..|changes| - 1], action);
      assert changes == changes[..|changes| - 1] + [changes[|changes| - 1]];
    }
  }

  /** The local path of a Hub file. */
  function FilePath(t: Target, skill: Path, file: HubFile): Path
    requires t.local(file.rel).Some?
  {
    Dest(t, skill) + t.local(file.rel).value
  }

  ghost predicate Delivers(t: Target, skill: Path, file: HubFile, op: Op) {
    op.Put? && t.local(file.rel).Some? && OpPath(op) == FilePath(t, skill, file) && op.data == file.data
  }

  predicate Writable(fs: FS, hub: Hub, t: Target, skill: Path) {
    SkillStateOf(fs, hub, t, skill) in {Fresh, Managed}
  }

  /** One Hub file gives at most one write, to its local path; without one (and without a conflict) it is already there. */
  lemma FileOutcomeCases(fs: FS, t: Target, skill: Path, managed: bool, file: HubFile)
    ensures var one := FileOutcome(fs, t, skill, managed, file);
            && (forall op :: op in one.ops ==> Delivers(t, skill, file, op))
            && (t.local(file.rel).Some? && NoConflict(one.changes) ==> Covered(fs, one.ops, FilePath(t, skill, file), file.data))
  {
    var rel := t.local(file.rel);
    if rel.Some? {
      var one := FileOutcome(fs, t, skill, managed, file);
      var path := Dest(t, skill) + rel.value;
      assert path == Parent(path) + [path[|path| - 1]];
      if one.ops == [] {
        assert one.changes[0].action != Conflict ==> path in fs.files && fs.files[path] == file.data;
      } else {
        assert one.ops[0] in one.ops && OpPath(one.ops[0]) == path;
      }
    }
  }

  lemma {:induction false} FilesOpsDeliver(fs: FS, t: Target, skill: Path, managed: bool, files: seq<HubFile>, op: Op)
    requires op in FilesOutcome(fs, t, skill, managed, files).ops
    ensures exists f :: f in files && Delivers(t, skill, f, op)
  {
    var front, last := files[..|files| - 1], files[|files| - 1];
    assert files == front + [last];
    if op in FilesOutcome(fs, t, skill, managed, front).ops {
      FilesOpsDeliver(fs, t, skill, managed, front, op);
    } else {
      FileOutcomeCases(fs, t, skill, managed, last);
      assert Delivers(t, skill, last, op);
    }
  }

  /** Every planned file write carries a Hub file of a skill whose directory is fresh or managed. */
  lemma {:induction false} PlanOpsDeliver(fs: FS, hub: Hub, t: Target, skills: seq<Path>, op: Op)
    requires op in PlanOutcome(fs, hub, t, skills).ops
    ensures exists skill, f :: skill in skills && skill in hub && Writable(fs, hub, t, skill) && f in hub[skill] && Delivers(t, skill, f, op)
  {
    var front, last := skills[..|skills| - 1], skills[|skills| - 1];
    assert skills == front + [last];
    if op in PlanOutcome(fs, hub, t, front).ops {
      PlanOpsDeliver(fs, hub, t, front, op);
    } else {
      FilesOpsDeliver(fs, t, last, SkillStateOf(fs, hub, t, last) == Managed, hub[last], op);
    }
  }

  /** `path` already holds `data`, or `ops` brings it there. */
  ghost predicate Covered(fs: FS, ops: seq<Op>, path: Path, data: Content) {
    || (path in fs.files && fs.files[path] == data)
    || exists op :: op in ops && op.Put? && OpPath(op) == path && op.data == data
  }

  lemma {:induction false} FilesCovered(fs: FS, t: Target, skill: Path, managed: bool, files: seq<HubFile>, file: HubFile)
    requires file in files && t.local(file.rel).Some?
    requires NoConflict(FilesOutcome(fs, t, skill, managed, files).changes)
    ensures Covered(fs, FilesOutcome(fs, t, skill, managed, files).ops, FilePath(t, skill, file), file.data)
  {
    var front, last := files[..|files| - 1], files[|files| - 1];
    assert files == front + [last];
    var all := FilesOutcome(fs, t, skill, managed, files);
    var first := FilesOutcome(fs, t, skill, managed, front);
    if file in front {
      FilesCovered(fs, t, skill, managed, front, file);
    } else {
      var one := FileOutcome(fs, t, skill, managed, last);
      forall c | c in one.changes ensures c.action != Conflict { assert c in all.changes; }
      FileOutcomeCases(fs, t, skill, managed, last);
    }
  }

  lemma {:induction false} PlanCovered(fs: FS, hub: Hub, t: Target, skills: seq<Path>, skill: Path)
    requires skill in skills && skill in hub
    requires NoConflict(PlanOutcome(fs, hub, t, skills).changes)
    ensures SkillStateOf(fs, hub, t, skill) != Occupied
    ensures Writable(fs, hub, t, skill) ==>
              forall f :: f in hub[skill] && t.local(f.rel).Some? ==>
                Covered(fs, PlanOutcome(fs, hub, t, skills).ops, FilePath(t, skill, f), f.data)
  {
    var front, last := skills[..|skills| - 1], skills[|skills| - 1];
    assert skills == front + [last];
    var all := PlanOutcome(fs, hub, t, skills);
    var mine := SkillOutcome(fs, hub, t, last);
    assert all.changes == PlanOutcome(fs, hub, t, front).changes + mine.changes;
    if skill in front {
      PlanCovered(fs, hub, t, front, skill);
    } else if Writable(fs, hub, t, skill) {
      var files := FilesOutcome(fs, t, skill, SkillStateOf(fs, hub, t, skill) == Managed, hub[skill]);
      forall f | f in hub[skill] && t.local(f.rel).Some?
        ensures Covered(fs, all.ops, FilePath(t, skill, f), f.data)
      {
        forall c | c in files.changes ensures c.action != Conflict { assert c in mine.changes; }
        FilesCovered(fs, t, skill, SkillStateOf(fs, hub, t, skill) == Managed, hub[skill], f);
      }
    } else if mine.changes != [] {
      assert mine.changes[0] in all.changes;
    }
  }

  // ---- When a plan has no conflict ----

  /** Nothing on the disk stands against a file: no directory or file in its way, and other bytes only where they are managed. */
  predicate FileClear(fs: FS, t: Target, skill: Path, f: HubFile, managed: bool) {
    t.local(f.rel).Some? ==>
      var p := FilePath(t, skill, f);
      p !in fs.dirs && if p in fs.files then managed || fs.files[p] == f.data else forall k :: 0 <= k < |p| ==> p[..k] !in fs.files
  }

  ghost predicate FilesClear(fs: FS, t: Target, skill: Path, files: seq<HubFile>, managed: bool) {
    forall f :: f in files ==> FileClear(fs, t, skill, f, managed)
  }

  /** The directory of a skill is not there or carries its marker, and no file of the skill is obstructed in it. */
  ghost predicate SkillClear(fs: FS, t: Target, skill: Path, files: seq<HubFile>) {
    Dest(t, skill) !in fs.files && (Dest(t, skill) in fs.dirs ==> HasMarker(fs, t, skill) && FilesClear(fs, t, skill, files, true))
  }

  /** On this disk nothing obstructs the skills that the Hub has. */
  ghost predicate Unobstructed(fs: FS, hub: Hub, t: Target, skills: seq<Path>) {
    forall skill :: skill in skills && skill in hub ==> SkillClear(fs, t, skill, hub[skill])
  }

  lemma FileConflictIff(fs: FS, t: Target, skill: Path, managed: bool, f: HubFile)
    ensures NoConflict(FileOutcome(fs, t, skill, managed, f).changes) <==> FileClear(fs, t, skill, f, managed)
  {
    var changes := FileOutcome(fs, t, skill, managed, f).changes;
    assert changes != [] ==> changes[0] in changes;
  }

  lemma {:induction false} FilesConflictIff(fs: FS, t: Target, skill: Path, managed: bool, files: seq<HubFile>)
    ensures NoConflict(FilesOutcome(fs, t, skill, managed, files).changes) <==> FilesClear(fs, t, skill, files, managed)
  {
    hide FileOutcome, FileClear;
    if files != [] {
      var front, last := files[..|files| - 1], files[|files| - 1];
      assert files == front + [last];
      FilesConflictIff(fs, t, skill, managed, front);
      FileConflictIff(fs, t, skill, managed, last);
      var all, before := FilesOutcome(fs, t, skill, managed, files).changes, FilesOutcome(fs, t, skill, managed, front).changes;
      assert forall c :: c in all <==> c in before || c in FileOutcome(fs, t, skill, managed, last).changes;
    }
  }

  /** Below a directory that is not there, there is nothing. */
  lemma AbsentIsClear(fs: FS, t: Target, skill: Path, f: HubFile)
    requires fs.WellFormed() && Stat(fs, Dest(t, skill)) == Absent
    ensures FileClear(fs, t, skill, f, false)
  {
    if t.local(f.rel).Some? {
      var dir, p := Dest(t, skill), FilePath(t, skill, f);
      FileBelowDest(t, skill, f);
      assert p[..|dir|] == dir;
      forall k | 0 <= k < |p| ensures p[..k] !in fs.files {
        assert k < |dir| ==> p[..k] == dir[..k];
        assert k > |dir| ==> p[..k][..|dir|] == dir;
      }
    }
  }

  lemma SkillConflictIff(fs: FS, hub: Hub, t: Target, skill: Path)
    requires fs.WellFormed()
    ensures NoConflict(SkillOutcome(fs, hub, t, skill).changes) <==> (skill in hub ==> SkillClear(fs, t, skill, hub[skill]))
  {
    SkillOutcomeCases(fs, hub, t, skill);
    SkillStateIff(fs, hub, t, skill);
    hide SkillOutcome, FilesOutcome, MissingChanges, Listing, SkillStateOf, HasMarker, FileClear;
    var state, dir := SkillStateOf(fs, hub, t, skill), Dest(t, skill);
    ConflictIsLoud(skill, dir);
    if state == Fresh {
      FilesConflictIff(fs, t, skill, false, hub[skill]);
      forall f | f in hub[skill] ensures FileClear(fs, t, skill, f, false) { AbsentIsClear(fs, t, skill, f); }
    } else if state == Managed {
      FilesConflictIff(fs, t, skill, true, hub[skill]);
      MissingIsQuiet(skill, dir, hub[skill], Listing(fs.files.Keys));
    }
  }

  /**
    * A plan has no conflict exactly when, on the disk, the directory of every skill that the Hub has is absent, out of
    * reach or marked for that skill, and no local path of a file in it is a directory or lies behind a regular file.
    */
  lemma {:induction false} NoConflictIff(fs: FS, hub: Hub, t: Target, skills: seq<Path>)
    requires fs.WellFormed()
    ensures NoConflict(PlanOutcome(fs, hub, t, skills).changes) <==> Unobstructed(fs, hub, t, skills)
  {
    hide SkillOutcome, SkillClear;
    if skills != [] {
      var front, last := skills[..|skills| - 1], skills[|skills| - 1];
      assert skills == front + [last];
      NoConflictIff(fs, hub, t, front);
      SkillConflictIff(fs, hub, t, last);
      var all, before := PlanOutcome(fs, hub, t, skills).changes, PlanOutcome(fs, hub, t, front).changes;
      assert forall c :: c in all <==> c in before || c in SkillOutcome(fs, hub, t, last).changes;
    }
  }

  // ---- What is planned for each file ----

  /** The skill directory is absent, or marked for the skill. */
  predicate Plannable(fs: FS, t: Target, skill: Path) {
    Stat(fs, Dest(t, skill)) == Absent || ManagedHere(fs, t, skill)
  }

  predicate ManagedHere(fs: FS, t: Target, skill: Path) {
    Stat(fs, Dest(t, skill)) == Directory && HasMarker(fs, t, skill)
  }

  /** `p` is the local path of a Hub file with these bytes. */
  predicate Sends(t: Target, skill: Path, f: HubFile, p: Path) {
    t.local(f.rel).Some? && FilePath(t, skill, f) == p
  }

  predicate Differs(fs: FS, p: Path, data: Content) {
    Stat(fs, p) == RegularFile && fs.files[p] != data
  }

  predicate Equals(fs: FS, p: Path, data: Content) {
    Stat(fs, p) == RegularFile && fs.files[p] == data
  }

  ghost predicate AnySends(t: Target, skill: Path, files: seq<HubFile>, p: Path, holds: Content -> bool) {
    exists f :: f in files && Sends(t, skill, f, p) && holds(f.data)
  }

  lemma FileActionsIff(fs: FS, t: Target, skill: Path, managed: bool, f: HubFile, p: Path)
    ensures var changes := FileOutcome(fs, t, skill, managed, f).changes;
      && (Change(Add, skill, p) in changes <==> Sends(t, skill, f, p) && Stat(fs, p) == Absent)
      && (Change(Update, skill, p) in changes <==> managed && Sends(t, skill, f, p) && Differs(fs, p, f.data))
      && (Change(Unchanged, skill, p) in changes <==> Sends(t, skill, f, p) && Equals(fs, p, f.data))
      && Change(Missing, skill, p) !in changes
  {
    hide Stat;
  }

  lemma {:induction false} FilesActionsIff(fs: FS, t: Target, skill: Path, managed: bool, files: seq<HubFile>, p: Path)
    ensures var changes := FilesOutcome(fs, t, skill, managed, files).changes;
      && (Change(Add, skill, p) in changes <==> AnySends(t, skill, files, p, _ => Stat(fs, p) == Absent))
      && (Change(Update, skill, p) in changes <==> managed && AnySends(t, skill, files, p, data => Differs(fs, p, data)))
      && (Change(Unchanged, skill, p) in changes <==> AnySends(t, skill, files, p, data => Equals(fs, p, data)))
      && Change(Missing, skill, p) !in changes
  {
    hide FileOutcome, Sends, Differs, Equals, Stat;
    if files != [] {
      var front, last := files[..|files| - 1], files[|files| - 1];
      assert files == front + [last];
      FilesActionsIff(fs, t, skill, managed, front, p);
      FileActionsIff(fs, t, skill, managed, last, p);
    }
  }

  lemma {:induction false} MissingIff(skill: Path, dir: Path, files: seq<HubFile>, walk: seq<Path>, p: Path)
    ensures Change(Missing, skill, p) in MissingChanges(skill, dir, files, walk) <==>
      p in walk && dir < p && p != dir + [MARKER_FILE] && forall f :: f in files ==> dir + f.rel != p
    ensures forall c :: c in MissingChanges(skill, dir, files, walk) ==> c.action == Missing
  {
    if walk != [] {
      MissingIff(skill, dir, files, walk[..|walk| - 1], p);
      assert walk == walk[..|walk| - 1] + [walk[|walk| - 1]];
      assert (forall f :: f in files ==> dir + f.rel != p) <==> !exists i :: 0 <= i < |files| && dir + files[i].rel == p;
    }
  }

  /**
    * What a plan says of a path, by the disk: absent files are added, differing ones of a managed directory updated,
    * equal ones left, and local files that the Hub lacks reported from managed directories.
    */
  lemma SkillActionsIff(fs: FS, hub: Hub, t: Target, skill: Path, p: Path)
    requires skill in hub
    ensures var changes := SkillOutcome(fs, hub, t, skill).changes;
      && (Change(Add, skill, p) in changes <==> Plannable(fs, t, skill) && AnySends(t, skill, hub[skill], p, _ => Stat(fs, p) == Absent))
      && (Change(Update, skill, p) in changes <==>
            ManagedHere(fs, t, skill) && AnySends(t, skill, hub[skill], p, data => Differs(fs, p, data)))
      && (Change(Unchanged, skill, p) in changes <==>
            Plannable(fs, t, skill) && AnySends(t, skill, hub[skill], p, data => Equals(fs, p, data)))
      && (Change(Missing, skill, p) in changes <==>
            ManagedHere(fs, t, skill) && p in fs.files && Dest(t, skill) < p && p != Dest(t, skill) + [MARKER_FILE]
            && forall f :: f in hub[skill] ==> Dest(t, skill) + f.rel != p)
  {
    SkillOutcomeCases(fs, hub, t, skill);
    SkillStateIff(fs, hub, t, skill);
    FilesActionsIff(fs, t, skill, SkillStateOf(fs, hub, t, skill) == Managed, hub[skill], p);
    MissingIff(skill, Dest(t, skill), hub[skill], Listing(fs.files.Keys), p);
    hide SkillOutcome, FilesOutcome, MissingChanges, Listing, SkillStateOf, HasMarker, Stat, AnySends;
  }

  /** `op` writes the file with the bytes of the Hub, where it is absent or, if managed, differs. */
  ghost predicate Queues(fs: FS, t: Target, skill: Path, managed: bool, f: HubFile, op: Op) {
    Delivers(t, skill, f, op) && (Stat(fs, OpPath(op)) == Absent || (managed && Differs(fs, OpPath(op), f.data)))
  }

  ghost predicate AnyQueues(fs: FS, t: Target, skill: Path, managed: bool, files: seq<HubFile>, op: Op) {
    exists f :: f in files && Queues(fs, t, skill, managed, f, op)
  }

  lemma FileOpsIff(fs: FS, t: Target, skill: Path, managed: bool, f: HubFile, op: Op)
    ensures op in FileOutcome(fs, t, skill, managed, f).ops <==> Queues(fs, t, skill, managed, f, op)
  {
    if t.local(f.rel).Some? {
      var path := FilePath(t, skill, f);
      assert path == Parent(path) + [path[|path| - 1]];
      assert op.Put? && OpPath(op) == path ==> op.dir == Parent(path) && op.name == path[|path| - 1];
    }
    hide Stat;
  }

  /** Exactly the added and the updated files are queued, with the bytes of the Hub. */
  lemma {:induction false} FilesOpsIff(fs: FS, t: Target, skill: Path, managed: bool, files: seq<HubFile>, op: Op)
    ensures op in FilesOutcome(fs, t, skill, managed, files).ops <==> AnyQueues(fs, t, skill, managed, files, op)
  {
    hide FileOutcome, Queues;
    if files != [] {
      var front, last := files[..|files| - 1], files[|files| - 1];
      assert files == front + [last];
      FilesOpsIff(fs, t, skill, managed, front, op);
      FileOpsIff(fs, t, skill, managed, last, op);
    }
  }

  lemma SkillOpsIff(fs: FS, hub: Hub, t: Target, skill: Path, op: Op)
    requires skill in hub
    ensures op in SkillOutcome(fs, hub, t, skill).ops <==>
      Plannable(fs, t, skill) && AnyQueues(fs, t, skill, ManagedHere(fs, t, skill), hub[skill], op)
  {
    SkillOutcomeCases(fs, hub, t, skill);
    SkillStateIff(fs, hub, t, skill);
    FilesOpsIff(fs, t, skill, SkillStateOf(fs, hub, t, skill) == Managed, hub[skill], op);
    hide SkillOutcome, FilesOutcome, MissingChanges, Listing, SkillStateOf, HasMarker, Stat, AnyQueues;
  }

  // ---- Ownership ----

  /** The gate in front of every write of an agent. */
  predicate MayWrite(t: Target, changes: seq<Change>, blocked: nat, manual: nat, ack: bool) {
    t.supported && Count(changes, Conflict) == 0 && blocked == 0 && (manual == 0 || ack)
  }

  /** The disk after one sync of one agent. */
  ghost function SyncedDisk(fs: FS, hub: Hub, t: Target, skills: seq<Path>, markers: seq<Op>, rest: Stamps, blocked: nat, manual: nat, ack: bool): FS {
    var plan := PlanOutcome(fs, hub, t, skills);
    if MayWrite(t, plan.changes, blocked, manual, ack) then ApplyOps(fs, t, plan.ops + markers, rest).fs else fs
  }

  /** The directory of an assigned skill was absent or carried its marker when the plan was made. */
  predicate Owned(fs: FS, t: Target, skill: Path) {
    || Stat(fs, Dest(t, skill)) == Absent
    || (Stat(fs, Dest(t, skill)) == Directory && HasMarker(fs, t, skill))
  }

  ghost predicate OwnedBy(fs: FS, hub: Hub, t: Target, skills: seq<Path>, p: Path) {
    exists skill :: skill in skills && skill in hub && Owned(fs, t, skill) && Dest(t, skill) < p
  }

  /** Every queued operation that can take effect lands in an owned directory. */
  lemma OpLandsInOwned(fs: FS, hub: Hub, t: Target, skills: seq<Path>, markers: seq<Op>, op: Op)
    requires MarkerOps(markers, hub, t, skills)
    requires NoConflict(PlanOutcome(fs, hub, t, skills).changes)
    requires op in PlanOutcome(fs, hub, t, skills).ops + markers && Open(fs, op)
    ensures OwnedBy(fs, hub, t, skills, OpPath(op))
  {
    if op in markers {
      PlanCovered(fs, hub, t, skills, op.skill);
      SkillStateIff(fs, hub, t, op.skill);
      assert Owned(fs, t, op.skill) && Dest(t, op.skill) < OpPath(op);
    } else {
      PlanOpsDeliver(fs, hub, t, skills, op);
      var skill, f :| skill in skills && skill in hub && Writable(fs, hub, t, skill) && f in hub[skill] && Delivers(t, skill, f, op);
      SkillStateIff(fs, hub, t, skill);
      FileBelowDest(t, skill, f);
    }
  }

  lemma FileBelowDest(t: Target, skill: Path, f: HubFile)
    requires t.local(f.rel).Some?
    ensures Dest(t, skill) < FilePath(t, skill, f)
  {
    assert t.local(f.rel).value != [];
  }

  /**
    * A sync deletes nothing and changes a file only under an owned assigned directory. It carries out its writes exactly
    * when the agent is supported, the plan has no conflict, no finding blocks it and manual ones are acknowledged;
    * otherwise it changes nothing at all.
    */
  lemma SyncOwnership(fs: FS, hub: Hub, t: Target, skills: seq<Path>, markers: seq<Op>, rest: Stamps, blocked: nat, manual: nat, ack: bool)
    requires MarkerOps(markers, hub, t, skills)
    ensures var after := SyncedDisk(fs, hub, t, skills, markers, rest, blocked, manual, ack);
            && Grows(fs, after)
            && (forall p :: p in after.files && !(p in fs.files && after.files[p] == fs.files[p]) ==> OwnedBy(fs, hub, t, skills, p))
            && after == if t.supported && NoConflict(PlanOutcome(fs, hub, t, skills).changes) && blocked == 0 && (manual > 0 ==> ack)
                        then ApplyOps(fs, t, PlanOutcome(fs, hub, t, skills).ops + markers, rest).fs else fs
  {
    var plan := PlanOutcome(fs, hub, t, skills);
    var ops := plan.ops + markers;
    var after := SyncedDisk(fs, hub, t, skills, markers, rest, blocked, manual, ack);
    CountsItsAction(plan.changes, Conflict);
    ApplyGrows(fs, t, ops, rest);
    forall p | p in after.files && !(p in fs.files && after.files[p] == fs.files[p])
      ensures OwnedBy(fs, hub, t, skills, p)
    {
      ApplyExplained(fs, t, ops, rest, p);
      var i :| 0 <= i < |ops| && WritesHere(fs, after, t, ops[i], rest, p);
      OpLandsInOwned(fs, hub, t, skills, markers, ops[i]);
    }
  }

  // ---- Convergence ----

  /** Assigned destination directories are distinct and none lies under another. */
  ghost predicate Separate(t: Target, skills: seq<Path>) {
    forall a, b :: a in skills && b in skills && a != b ==> Apart(Dest(t, a), Dest(t, b))
  }

  /** The local directory of a skill carries its marker and exactly the Hub's bytes at the local path of every Hub file. */
  ghost predicate InSync(fs: FS, t: Target, skill: Path, files: seq<HubFile>) {
    && Stat(fs, Dest(t, skill)) == Directory
    && HasMarker(fs, t, skill)
    && Delivered(fs, t, skill, files)
  }

  ghost predicate Delivered(fs: FS, t: Target, skill: Path, files: seq<HubFile>) {
    forall f :: f in files ==> t.local(f.rel).Some? && ReadFile(fs, FilePath(t, skill, f)) == Read(f.data)
  }

  /** Every Hub file has a local path, and files with the same local path have the same bytes. */
  predicate Agreeing(t: Target, files: seq<HubFile>) {
    && (forall f :: f in files ==> t.local(f.rel).Some?)
    && (forall f, g :: f in files && g in files && t.local(f.rel) == t.local(g.rel) ==> f.data == g.data)
  }

  /** Nothing about a skill stands against a sync that lasts: its files agree among themselves and with its marker. */
  predicate Keepable(t: Target, files: seq<HubFile>, marker: Content) {
    && (t.scope.Team? ==> TrimSpace(t.scope.id) != "")
    && Agreeing(t, files)
    && (forall f :: f in files && t.local(f.rel) == Some([MARKER_FILE]) ==> f.data == marker)
  }

  /** Planning the skill finds nothing to write and nothing to complain about. */
  ghost predicate Settled(fs: FS, hub: Hub, t: Target, skill: Path) {
    var out := SkillOutcome(fs, hub, t, skill);
    out.ops == [] && out.errors == 0 && Quiet(out.changes)
  }

  predicate Quiet(changes: seq<Change>) {
    forall c :: c in changes ==> c.action == Unchanged || c.action == Missing
  }

  lemma PrefixesComparable(a: Path, b: Path, p: Path)
    requires a <= p && b <= p
    ensures !Apart(a, b)
  {
    assert a == p[..|a|] && b == p[..|b|];
  }

  lemma AppendCancels(a: Path, x: Path, y: Path)
    requires a + x == a + y
    ensures x == y
  {
    assert (a + x)[|a|..] == x && (a + y)[|a|..] == y;
  }

  lemma SameOwner(t: Target, skills: seq<Path>, a: Path, b: Path, x: Path, y: Path)
    requires Separate(t, skills) && a in skills && b in skills
    requires Dest(t, a) + x == Dest(t, b) + y
    ensures a == b && x == y
  {
    PrefixesComparable(Dest(t, a), Dest(t, b), Dest(t, a) + x);
    AppendCancels(Dest(t, a), x, y);
  }

  /** All operations that name a path inside the directory of `skill` belong to that skill. */
  lemma OpsInsideDest(fs: FS, hub: Hub, t: Target, skills: seq<Path>, markers: seq<Op>, skill: Path, rel: Path, op: Op)
    requires MarkerOps(markers, hub, t, skills) && Separate(t, skills)
    requires skill in skills && skill in hub
    requires op in PlanOutcome(fs, hub, t, skills).ops + markers && OpPath(op) == Dest(t, skill) + rel
    ensures op.Stamp? ==> op.skill == skill && rel == [MARKER_FILE]
    ensures op.Put? ==> exists f :: f in hub[skill] && t.local(f.rel).Some? && t.local(f.rel).value == rel && f.data == op.data
  {
    if op in markers {
      SameOwner(t, skills, op.skill, skill, [MARKER_FILE], rel);
    } else {
      PlanOpsDeliver(fs, hub, t, skills, op);
      var owner, f :| owner in skills && owner in hub && Writable(fs, hub, t, owner) && f in hub[owner] && Delivers(t, owner, f, op);
      SameOwner(t, skills, owner, skill, t.local(f.rel).value, rel);
    }
  }

  /** When every write succeeds, no assigned skill in the Hub had an unusable directory. */
  lemma AllWritable(fs: FS, hub: Hub, t: Target, skills: seq<Path>, markers: seq<Op>, rest: Stamps, skill: Path)
    requires fs.WellFormed() && MarkerOps(markers, hub, t, skills)
    requires NoConflict(PlanOutcome(fs, hub, t, skills).changes)
    requires ApplyOps(fs, t, PlanOutcome(fs, hub, t, skills).ops + markers, rest).errors == 0
    requires skill in skills && skill in hub
    ensures Writable(fs, hub, t, skill)
  {
    var ops := PlanOutcome(fs, hub, t, skills).ops + markers;
    var after := ApplyOps(fs, t, ops, rest).fs;
    PlanCovered(fs, hub, t, skills, skill);
    ApplyGrows(fs, t, ops, rest);
    ApplyComplete(fs, t, ops, rest);
    var dir := Dest(t, skill);
    assert Stamp(skill, dir) in ops && dir in after.dirs;
  }

  lemma {:induction false} ApplyJoins(fs: FS, t: Target, a: seq<Op>, b: seq<Op>, rest: Stamps)
    ensures var first := ApplyOps(fs, t, a, rest);
            var second := ApplyOps(first.fs, t, b, rest);
            var both := ApplyOps(fs, t, a + b, rest);
            both.fs == second.fs && both.errors == first.errors + second.errors
  {
    hide ApplyOp;
    if b == [] {
      assert a + b == a;
    } else {
      ApplyJoins(fs, t, a, b[..|b| - 1], rest);
      assert (a + b)[..|a + b| - 1] == a + b[..|b| - 1];
    }
  }

  /** Markers are written last, so that of an applied skill is the one written for it. */
  lemma MarkerConverges(fs: FS, hub: Hub, t: Target, skills: seq<Path>, markers: seq<Op>, rest: Stamps, skill: Path)
    requires fs.WellFormed() && MarkerOps(markers, hub, t, skills) && Separate(t, skills)
    requires ApplyOps(fs, t, PlanOutcome(fs, hub, t, skills).ops + markers, rest).errors == 0
    requires skill in skills && skill in hub
    ensures var after := ApplyOps(fs, t, PlanOutcome(fs, hub, t, skills).ops + markers, rest).fs;
            Stat(after, Dest(t, skill)) == Directory && ReadMarker(after, Dest(t, skill)) == Found(NewMarker(t, skill, rest(skill)))
  {
    hide ApplyOps, PlanOutcome, Separate;
    var ops := PlanOutcome(fs, hub, t, skills).ops;
    var mid := ApplyOps(fs, t, ops, rest).fs;
    var path := Dest(t, skill) + [MARKER_FILE];
    ApplyGrows(fs, t, ops + markers, rest);
    ApplyJoins(fs, t, ops, markers, rest);
    ApplyComplete(mid, t, markers, rest);
    var stamp := Stamp(skill, Dest(t, skill));
    assert stamp in markers && OpPath(stamp) == path;
    forall op | op in markers && OpPath(op) == path ensures OpData(op, t, rest) == OpData(stamp, t, rest) {
      SameOwner(t, skills, op.skill, skill, [MARKER_FILE], [MARKER_FILE]);
    }
    ApplySettles(mid, t, markers, rest, path, OpData(stamp, t, rest));
  }

  lemma FileConverges(fs: FS, hub: Hub, t: Target, skills: seq<Path>, markers: seq<Op>, rest: Stamps, skill: Path, f: HubFile)
    requires fs.WellFormed() && MarkerOps(markers, hub, t, skills) && Separate(t, skills)
    requires NoConflict(PlanOutcome(fs, hub, t, skills).changes)
    requires ApplyOps(fs, t, PlanOutcome(fs, hub, t, skills).ops + markers, rest).errors == 0
    requires skill in skills && skill in hub && f in hub[skill] && Keepable(t, hub[skill], Encoded(NewMarker(t, skill, rest(skill))))
    ensures ReadFile(ApplyOps(fs, t, PlanOutcome(fs, hub, t, skills).ops + markers, rest).fs, FilePath(t, skill, f)) == Read(f.data)
  {
    var plan := PlanOutcome(fs, hub, t, skills);
    var ops := plan.ops + markers;
    var path := FilePath(t, skill, f);
    ApplyGrows(fs, t, ops, rest);
    AllWritable(fs, hub, t, skills, markers, rest, skill);
    PlanCovered(fs, hub, t, skills, skill);
    hide ApplyOps, PlanOutcome, Separate;
    forall op | op in ops && OpPath(op) == path ensures OpData(op, t, rest) == f.data {
      OpsInsideDest(fs, hub, t, skills, markers, skill, t.local(f.rel).value, op);
    }
    assert Covered(fs, plan.ops, path, f.data);
    ApplySettles(fs, t, ops, rest, path, f.data);
  }

  /** A delivered set of files agrees, and agrees with the marker on disk. */
  lemma DeliveredAgree(fs: FS, t: Target, skill: Path, files: seq<HubFile>, marker: Marker)
    requires Delivered(fs, t, skill, files) && ReadMarker(fs, Dest(t, skill)) == Found(marker)
    ensures Agreeing(t, files) && forall f :: f in files && t.local(f.rel) == Some([MARKER_FILE]) ==> f.data == Encoded(marker)
  {
    forall f | f in files && t.local(f.rel) == Some([MARKER_FILE]) ensures f.data == Encoded(marker) {
      assert FilePath(t, skill, f) == Dest(t, skill) + [MARKER_FILE];
    }
    hide ReadFile, ReadMarker;
    forall f, g | f in files && g in files && t.local(f.rel) == t.local(g.rel) ensures f.data == g.data {
      assert FilePath(t, skill, f) == FilePath(t, skill, g);
    }
  }

  /**
    * After a sync in which every write succeeded a skill is in sync exactly when each of its files has a local path,
    * files with the same local path agree, none contradicts the marker, and a team skill names its team.
    */
  lemma SkillConvergesIff(fs: FS, hub: Hub, t: Target, skills: seq<Path>, markers: seq<Op>, rest: Stamps, skill: Path)
    requires fs.WellFormed() && MarkerOps(markers, hub, t, skills) && Separate(t, skills)
    requires NoConflict(PlanOutcome(fs, hub, t, skills).changes)
    requires ApplyOps(fs, t, PlanOutcome(fs, hub, t, skills).ops + markers, rest).errors == 0
    requires skill in skills && skill in hub
    ensures InSync(ApplyOps(fs, t, PlanOutcome(fs, hub, t, skills).ops + markers, rest).fs, t, skill, hub[skill])
      <==> Keepable(t, hub[skill], Encoded(NewMarker(t, skill, rest(skill))))
  {
    hide ApplyOps, PlanOutcome, Separate, Stat, ReadMarker, ReadFile, Agreeing;
    var after := ApplyOps(fs, t, PlanOutcome(fs, hub, t, skills).ops + markers, rest).fs;
    var marker := NewMarker(t, skill, rest(skill));
    MarkerConverges(fs, hub, t, skills, markers, rest, skill);
    NewMarkerMatchesIff(t, skill, rest(skill));
    if Keepable(t, hub[skill], Encoded(marker)) {
      KeepableHasPaths(t, hub[skill], Encoded(marker));
      forall f | f in hub[skill] ensures ReadFile(after, FilePath(t, skill, f)) == Read(f.data) {
        FileConverges(fs, hub, t, skills, markers, rest, skill, f);
      }
    } else if Delivered(after, t, skill, hub[skill]) {
      DeliveredAgree(after, t, skill, hub[skill], marker);
    }
  }

  lemma KeepableHasPaths(t: Target, files: seq<HubFile>, marker: Content)
    requires Keepable(t, files, marker)
    ensures forall f :: f in files ==> t.local(f.rel).Some?
  {
  }

  lemma NewMarkerMatchesIff(t: Target, skill: Path, rest: string)
    ensures Names(NewMarker(t, skill, rest), t) <==> (t.scope.Team? ==> TrimSpace(t.scope.id) != "")
    ensures var m := NewMarker(t, skill, rest);
            && m.managedBy == "vola" && m.agentId == t.agentId && m.skillPath == skill && m.rest == rest
            && match t.scope
               case Personal => m.scope == "personal" && m.teamId == ""
               case Team(id) => m.scope == "team" && m.teamId == id
  {
    var name := ScopeName(t.scope);
    TrimmedIsFixed(name);
  }

  lemma QuietJoins(a: seq<Change>, b: seq<Change>)
    ensures Quiet(a + b) <==> Quiet(a) && Quiet(b)
  {
    assert forall c :: c in a + b <==> c in a || c in b;
  }

  lemma DeliveredOneMore(fs: FS, t: Target, skill: Path, front: seq<HubFile>, last: HubFile)
    ensures Delivered(fs, t, skill, front + [last]) <==>
      Delivered(fs, t, skill, front) && t.local(last.rel).Some? && ReadFile(fs, FilePath(t, skill, last)) == Read(last.data)
  {
    hide ReadFile;
    assert forall f :: f in front + [last] <==> f in front || f == last;
  }

  lemma FilesOutcomeUnfolds(fs: FS, t: Target, skill: Path, managed: bool, front: seq<HubFile>, last: HubFile)
    ensures FilesOutcome(fs, t, skill, managed, front + [last])
         == FilesOutcome(fs, t, skill, managed, front).Then(FileOutcome(fs, t, skill, managed, last))
  {
    hide *;
    FilesOutcomeStep(fs, t, skill, managed, front + [last], |front|);
    assert (front + [last])[..|front| + 1] == front + [last] && (front + [last])[..|front|] == front;
  }

  lemma NoFilesAreQuiet(fs: FS, t: Target, skill: Path, managed: bool)
    ensures FilesOutcome(fs, t, skill, managed, []) == Outcome([], [], 0) && Quiet([]) && Delivered(fs, t, skill, [])
  {
  }

  lemma ThenIs(a: Outcome, b: Outcome)
    ensures a.Then(b) == Outcome(a.changes + b.changes, a.ops + b.ops, a.errors + b.errors)
  {
  }

  lemma {:induction false} QuietFilesIff(fs: FS, t: Target, skill: Path, managed: bool, files: seq<HubFile>)
    ensures var out := FilesOutcome(fs, t, skill, managed, files);
            (out.ops == [] && out.errors == 0 && Quiet(out.changes)) <==> Delivered(fs, t, skill, files)
  {
    hide *;
    if files == [] {
      NoFilesAreQuiet(fs, t, skill, managed);
    } else {
      var front, last := files[..|files| - 1], files[|files| - 1];
      var before, one := FilesOutcome(fs, t, skill, managed, front), FileOutcome(fs, t, skill, managed, last);
      QuietFilesIff(fs, t, skill, managed, front);
      QuietFileIff(fs, t, skill, managed, last);
      assert files == front + [last];
      FilesOutcomeUnfolds(fs, t, skill, managed, front, last);
      ThenIs(before, one);
      QuietJoins(before.changes, one.changes);
      DeliveredOneMore(fs, t, skill, front, last);
    }
  }

  lemma QuietFileIff(fs: FS, t: Target, skill: Path, managed: bool, file: HubFile)
    ensures var out := FileOutcome(fs, t, skill, managed, file);
            (out.ops == [] && out.errors == 0 && Quiet(out.changes)) <==>
            t.local(file.rel).Some? && ReadFile(fs, FilePath(t, skill, file)) == Read(file.data)
  {
    var out := FileOutcome(fs, t, skill, managed, file);
    assert out.changes != [] ==> out.changes[0] in out.changes;
    hide ReadFile;
  }

  lemma {:induction false} MissingIsQuiet(skill: Path, dir: Path, files: seq<HubFile>, walk: seq<Path>)
    ensures Quiet(MissingChanges(skill, dir, files, walk))
  {
    if walk != [] { MissingIsQuiet(skill, dir, files, walk[..|walk| - 1]); }
  }

  lemma ConflictIsLoud(skill: Path, path: Path)
    ensures !Quiet([Change(Conflict, skill, path)])
  {
    var changes := [Change(Conflict, skill, path)];
    assert changes[0] in changes;
  }

  /** Only a directory with the files delivered plans quietly. */
  lemma SettledMeans(fs: FS, hub: Hub, t: Target, skill: Path)
    requires skill in hub && Settled(fs, hub, t, skill)
    ensures Delivered(fs, t, skill, hub[skill]) && SkillStateOf(fs, hub, t, skill) in {Fresh, Managed}
  {
    SkillOutcomeCases(fs, hub, t, skill);
    hide SkillOutcome, FilesOutcome, MissingChanges, Delivered, SkillStateOf;
    var state, out := SkillStateOf(fs, hub, t, skill), SkillOutcome(fs, hub, t, skill);
    QuietFilesIff(fs, t, skill, state == Managed, hub[skill]);
    if state == Occupied { ConflictIsLoud(skill, Dest(t, skill)); }
    assert state == Managed ==> Quiet(FilesOutcome(fs, t, skill, true, hub[skill]).changes);
  }

  /** An existing skill directory plans quietly exactly when it is in sync. */
  lemma SettledIff(fs: FS, hub: Hub, t: Target, skill: Path)
    requires skill in hub && Stat(fs, Dest(t, skill)) == Directory
    ensures Settled(fs, hub, t, skill) <==> InSync(fs, t, skill, hub[skill])
  {
    if Settled(fs, hub, t, skill) { SettledMeans(fs, hub, t, skill); }
    SkillStateIff(fs, hub, t, skill);
    SkillOutcomeCases(fs, hub, t, skill);
    QuietFilesIff(fs, t, skill, true, hub[skill]);
    MissingIsQuiet(skill, Dest(t, skill), hub[skill], Listing(fs.files.Keys));
    hide SkillOutcome, FilesOutcome, MissingChanges, Delivered, Listing, ReadFile;
  }

  /** Files without a local path, or with one local path and different bytes, leave no disk on which the skill settles. */
  lemma NeverSettles(fs: FS, hub: Hub, t: Target, skill: Path)
    requires skill in hub && !Agreeing(t, hub[skill])
    ensures !Settled(fs, hub, t, skill)
  {
    hide Settled, ReadFile;
    if Settled(fs, hub, t, skill) {
      SettledMeans(fs, hub, t, skill);
      forall f, g | f in hub[skill] && g in hub[skill] && t.local(f.rel) == t.local(g.rel) ensures f.data == g.data {
        assert FilePath(t, skill, f) == FilePath(t, skill, g);
      }
    }
  }

  /** Two Hub files whose names differ in a leading space share a local path. */
  lemma TrimmedNamesCollide(fs: FS, hub: Hub, t: Target, skill: Path, x: Content, y: Content)
    requires t.local == LocalRel && skill in hub && hub[skill] == [HubFile([" b"], x), HubFile(["b"], y)] && x != y
    ensures !Settled(fs, hub, t, skill)
  {
    assert TrimSpace(" b") == "b" by { TrimAround(" ", "b", ""); }
    TrimmedIsFixed("b");
    CleanKeepsPlainPaths(["b"]);
    assert TrimRel([" b"]) == TrimRel(["b"]) == ["b"];
    var files := hub[skill];
    assert files[0] in files && files[1] in files && t.local(files[0].rel) == t.local(files[1].rel);
    NeverSettles(fs, hub, t, skill);
  }

  /** A Hub file whose name begins with two dots has no local path, although it lies in the skill. */
  lemma DottedNameIsRefused(fs: FS, hub: Hub, t: Target, skill: Path, x: Content)
    requires t.local == LocalRel && skill in hub && hub[skill] == [HubFile(["..b"], x)]
    ensures !Settled(fs, hub, t, skill)
  {
    TrimmedIsFixed("..b");
    CleanKeepsPlainPaths(["..b"]);
    assert TrimRel(["..b"]) == ["..b"] && HasPrefix("..b", "..");
    var files := hub[skill];
    assert files[0] in files && t.local(files[0].rel).None?;
    NeverSettles(fs, hub, t, skill);
  }

  /** Skills that are in sync or not in the Hub plan no write and nothing but unchanged and missing files. */
  lemma {:induction false} InSyncPlanIsQuiet(fs: FS, hub: Hub, t: Target, skills: seq<Path>)
    requires forall skill :: skill in skills && skill in hub ==> InSync(fs, t, skill, hub[skill])
    ensures var plan := PlanOutcome(fs, hub, t, skills); plan.ops == [] && Quiet(plan.changes)
  {
    hide SkillOutcome, InSync;
    if skills != [] {
      var front, last := skills[..|skills| - 1], skills[|skills| - 1];
      assert skills == front + [last];
      InSyncPlanIsQuiet(fs, hub, t, front);
      SkillOutcomeCases(fs, hub, t, last);
      if last in hub {
        InSyncIsDirectory(fs, t, last, hub[last]);
        SettledIff(fs, hub, t, last);
      } else {
        UnavailableIsQuiet(fs, hub, t, last);
      }
    }
  }

  lemma InSyncIsDirectory(fs: FS, t: Target, skill: Path, files: seq<HubFile>)
    requires InSync(fs, t, skill, files)
    ensures Stat(fs, Dest(t, skill)) == Directory
  {
  }

  lemma UnavailableIsQuiet(fs: FS, hub: Hub, t: Target, skill: Path)
    requires skill !in hub
    ensures SkillOutcome(fs, hub, t, skill) == Outcome([], [], 1)
  {
  }

  /** A path that a sync may set: the local path of a Hub file, or the marker, of an assigned skill. */
  ghost predicate SyncPath(hub: Hub, t: Target, skills: seq<Path>, p: Path) {
    exists skill :: skill in skills && skill in hub && (p == Dest(t, skill) + [MARKER_FILE] || FileAt(t, skill, hub[skill], p))
  }

  ghost predicate FileAt(t: Target, skill: Path, files: seq<HubFile>, p: Path) {
    exists f :: f in files && t.local(f.rel).Some? && p == FilePath(t, skill, f)
  }

  ghost predicate AllKeepable(hub: Hub, t: Target, skills: seq<Path>, rest: Stamps) {
    forall skill :: skill in skills && skill in hub ==> Keepable(t, hub[skill], Encoded(NewMarker(t, skill, rest(skill))))
  }

  /**
    * After a sync of an unobstructed disk in which every write succeeded, no other file has changed, and every assigned skill
    * of the Hub is in sync, and settled for the next plan, exactly when it is keepable. When all are, planning again
    * finds nothing to add, update or resolve.
    */
  lemma SyncConvergesIff(fs: FS, hub: Hub, t: Target, skills: seq<Path>, markers: seq<Op>, rest: Stamps)
    requires fs.WellFormed() && MarkerOps(markers, hub, t, skills) && Separate(t, skills)
    requires Unobstructed(fs, hub, t, skills)
    requires ApplyOps(fs, t, PlanOutcome(fs, hub, t, skills).ops + markers, rest).errors == 0
    ensures var after := ApplyOps(fs, t, PlanOutcome(fs, hub, t, skills).ops + markers, rest).fs;
            && Grows(fs, after)
            && (forall p :: p in after.files && !SyncPath(hub, t, skills, p) ==> p in fs.files && after.files[p] == fs.files[p])
            && (forall skill :: skill in skills && skill in hub ==>
                  var keepable := Keepable(t, hub[skill], Encoded(NewMarker(t, skill, rest(skill))));
                  (InSync(after, t, skill, hub[skill]) <==> keepable) && (Settled(after, hub, t, skill) <==> keepable))
            && (AllKeepable(hub, t, skills, rest) ==>
                  PlanOutcome(after, hub, t, skills).ops == [] && Quiet(PlanOutcome(after, hub, t, skills).changes))
  {
    hide PlanOutcome, ApplyOps, Separate, SkillOutcome, InSync, Settled, Keepable, Stat, Quiet, Unobstructed, NoConflict;
    var ops := PlanOutcome(fs, hub, t, skills).ops + markers;
    var after := ApplyOps(fs, t, ops, rest).fs;
    NoConflictIff(fs, hub, t, skills);
    ApplyGrows(fs, t, ops, rest);
    forall skill | skill in skills && skill in hub
      ensures var keepable := Keepable(t, hub[skill], Encoded(NewMarker(t, skill, rest(skill))));
              (InSync(after, t, skill, hub[skill]) <==> keepable) && (Settled(after, hub, t, skill) <==> keepable)
    {
      SkillConvergesIff(fs, hub, t, skills, markers, rest, skill);
      MarkerConverges(fs, hub, t, skills, markers, rest, skill);
      SettledIff(after, hub, t, skill);
    }
    forall p | p in after.files && !SyncPath(hub, t, skills, p) ensures p in fs.files && after.files[p] == fs.files[p] {
      ApplyExplained(fs, t, ops, rest, p);
      if i :| 0 <= i < |ops| && WritesHere(fs, after, t, ops[i], rest, p) {
        OpSyncPath(fs, hub, t, skills, markers, ops[i]);
      }
    }
    if AllKeepable(hub, t, skills, rest) { InSyncPlanIsQuiet(after, hub, t, skills); }
  }

  lemma OpSyncPath(fs: FS, hub: Hub, t: Target, skills: seq<Path>, markers: seq<Op>, op: Op)
    requires MarkerOps(markers, hub, t, skills)
    requires op in PlanOutcome(fs, hub, t, skills).ops + markers
    ensures SyncPath(hub, t, skills, OpPath(op))
  {
    if op !in markers {
      PlanOpsDeliver(fs, hub, t, skills, op);
      var skill, f :| skill in skills && skill in hub && Writable(fs, hub, t, skill) && f in hub[skill] && Delivers(t, skill, f, op);
      assert FileAt(t, skill, hub[skill], OpPath(op));
    }
  }
}
