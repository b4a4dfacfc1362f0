/** Removing managed directories whose skill is no longer assigned, and what whole runs of syncs and cleanups keep. */
module LocalSkillCleanup {
  import opened Paths
  import opened LocalDisk
  import opened LocalSkillSync
  import opened LocalSkillSyncTheorems

  // ---- Which directories a cleanup walk selects ----

  /** The walk does not descend into a directory whose marker names this agent and scope. */
  predicate Stops(fs: FS, t: Target, d: Path) {
    match ReadMarker(fs, d) case Found(m) => MatchesScope(m, t) case _ => false
  }

  /** The walk comes to `d` unless it is aborted first. */
  ghost predicate Reached(fs: FS, t: Target, d: Path) {
    d in fs.dirs && t.root < d && forall a :: t.root < a < d ==> !Stops(fs, t, a)
  }

  /** A marker that cannot be read or decoded ends the walk with an error. */
  ghost predicate Aborts(fs: FS, t: Target, d: Path) {
    Reached(fs, t, d) && ReadMarker(fs, d) == BadMarker
  }

  ghost predicate Selected(fs: FS, t: Target, skills: set<Path>, d: Path) {
    && Reached(fs, t, d)
    && Stops(fs, t, d)
    && ReadMarker(fs, d).marker.skillPath !in skills
    && !exists b :: b in fs.dirs && Aborts(fs, t, b) && PathLess(b, d)
  }

  /** The directory carries a marker that names this agent and scope, for a skill that is not assigned. */
  predicate MarkedUnassigned(fs: FS, t: Target, skills: set<Path>, d: Path) {
    match ReadMarker(fs, d) case Found(m) => Names(m, t) && m.skillPath !in skills case _ => false
  }

  lemma StopsIff(fs: FS, t: Target, d: Path)
    ensures Stops(fs, t, d) <==> MarkedFor(fs, t, d)
  {
    if ReadMarker(fs, d).Found? { MatchesScopeIff(ReadMarker(fs, d).marker, t); }
    hide ReadMarker, MatchesScope, Names;
  }

  ghost function Deletes(fs: FS, t: Target, skills: set<Path>): set<Path> {
    set d | d in fs.dirs && Selected(fs, t, skills, d)
  }

  /** The disk after one cleanup, when the paths in `stuck` cannot be removed. */
  ghost function CleanedDisk(fs: FS, t: Target, skills: set<Path>, stuck: set<Path>): FS {
    if t.supported && Stat(fs, t.root) == Directory then RemoveAll(fs, Deletes(fs, t, skills), stuck) else fs
  }

  // ---- Theorems about one cleanup ----

  lemma SameDisk(a: FS, b: FS)
    requires a.denied == b.denied && a.dirs == b.dirs
    requires a.files.Keys == b.files.Keys && forall p :: p in a.files ==> a.files[p] == b.files[p]
    ensures a == b
  {
    assert a.files == b.files;
  }

  lemma RemoveNothing(fs: FS, stuck: set<Path>)
    ensures RemoveAll(fs, {}, stuck) == fs
  {
    SameDisk(RemoveAll(fs, {}, stuck), fs);
  }

  lemma AncestorInDirs(fs: FS, a: Path, d: Path)
    requires fs.WellFormed() && d in fs.files.Keys + fs.dirs && a < d
    ensures a in fs.dirs
  {
    assert a == d[..|a|];
  }

  lemma PrefixTransitive(a: Path, b: Path, c: Path)
    requires a <= b <= c
    ensures a <= c
  {
    assert a == b[..|a|] == c[..|a|];
  }

  lemma ReachedAbove(fs: FS, t: Target, a: Path, d: Path)
    requires fs.WellFormed() && Reached(fs, t, d) && t.root < a < d
    ensures Reached(fs, t, a)
  {
    AncestorInDirs(fs, a, d);
    forall c | t.root < c < a ensures !Stops(fs, t, c) { PrefixTransitive(c, a, d); }
  }

  /** A marker path that is itself a deleted directory would have aborted the walk before its deletion. */
  lemma MarkerPathSurvives(fs: FS, t: Target, skills: set<Path>, d: Path, r: Path)
    requires fs.WellFormed() && t.root < d && d in RemoveAll(fs, Deletes(fs, t, skills), {}).dirs
    requires r in Deletes(fs, t, skills)
    ensures !(r <= d + [MARKER_FILE])
  {
    var p := d + [MARKER_FILE];
    if r <= p {
      if |r| > |d| {
        assert r == p;
        MarkerDirectoryAborts(fs, t, d);
      }
    }
  }

  lemma MarkerDirectoryAborts(fs: FS, t: Target, d: Path)
    requires fs.WellFormed() && t.root < d && Reached(fs, t, d + [MARKER_FILE])
    ensures d in fs.dirs && Aborts(fs, t, d) && PathLess(d, d + [MARKER_FILE])
  {
    ReachedAbove(fs, t, d, d + [MARKER_FILE]);
    AncestorsFirst(d, d + [MARKER_FILE]);
  }

  lemma OpenMarkerPath(fs: FS, d: Path)
    requires fs.WellFormed() && d in fs.dirs
    ensures !fs.Blocked(d + [MARKER_FILE])
  {
    var p := d + [MARKER_FILE];
    forall k | 0 <= k < |p| ensures p[..k] !in fs.files {
      assert p[..k] == d[..k];
      assert k == |d| ==> d[..k] == d;
    }
  }

  /** Directories that stay have the marker they had. */
  lemma MarkersSurvive(fs: FS, t: Target, skills: set<Path>, d: Path)
    requires fs.WellFormed() && t.root < d && d in RemoveAll(fs, Deletes(fs, t, skills), {}).dirs
    ensures ReadMarker(RemoveAll(fs, Deletes(fs, t, skills), {}), d) == ReadMarker(fs, d)
    ensures Stops(RemoveAll(fs, Deletes(fs, t, skills), {}), t, d) == Stops(fs, t, d)
  {
    hide Deletes, MatchesScope;
    var after := RemoveAll(fs, Deletes(fs, t, skills), {});
    var p := d + [MARKER_FILE];
    forall r | r in Deletes(fs, t, skills) ensures !(r <= p) {
      MarkerPathSurvives(fs, t, skills, d, r);
    }
    OpenMarkerPath(fs, d);
    assert !after.Blocked(p);
    assert p in after.files <==> p in fs.files;
    assert p in after.dirs <==> p in fs.dirs;
  }

  lemma SurvivorsAncestor(fs: FS, roots: set<Path>, a: Path, d: Path)
    requires fs.WellFormed() && d in RemoveAll(fs, roots, {}).dirs && a < d
    ensures a in RemoveAll(fs, roots, {}).dirs
  {
    AncestorInDirs(fs, a, d);
    forall r | r in roots && r <= a ensures false { PrefixTransitive(r, a, d); }
  }

  lemma ReachedStays(fs: FS, t: Target, skills: set<Path>, d: Path)
    requires Reached(fs, t, d) && d !in Deletes(fs, t, skills)
    ensures d in RemoveAll(fs, Deletes(fs, t, skills), {}).dirs
  {
    forall r | r in Deletes(fs, t, skills) ensures !(r <= d) {
      assert Selected(fs, t, skills, r);
      assert r <= d && |r| == |d| ==> r == d;
    }
  }

  /** A reached directory that is not itself deleted is reached again. */
  lemma ReachedAgain(fs: FS, t: Target, skills: set<Path>, d: Path)
    requires fs.WellFormed() && Reached(fs, t, d) && d !in Deletes(fs, t, skills)
    ensures Reached(RemoveAll(fs, Deletes(fs, t, skills), {}), t, d)
  {
    ReachedStays(fs, t, skills, d);
    hide Deletes, Stops, PathLess;
    forall a | t.root < a < d ensures !Stops(RemoveAll(fs, Deletes(fs, t, skills), {}), t, a) {
      SurvivorsAncestor(fs, Deletes(fs, t, skills), a, d);
      MarkersSurvive(fs, t, skills, a);
    }
  }

  lemma ReachedBefore(fs: FS, t: Target, skills: set<Path>, d: Path)
    requires fs.WellFormed() && Reached(RemoveAll(fs, Deletes(fs, t, skills), {}), t, d)
    ensures Reached(fs, t, d)
  {
    hide Deletes, Stops, PathLess;
    forall a | t.root < a < d ensures !Stops(fs, t, a) {
      SurvivorsAncestor(fs, Deletes(fs, t, skills), a, d);
      MarkersSurvive(fs, t, skills, a);
    }
  }

  lemma DeletesApart(fs: FS, t: Target, skills: set<Path>, d: Path, e: Path)
    requires d in Deletes(fs, t, skills) && e in Deletes(fs, t, skills) && d != e
    ensures Apart(d, e)
  {
    assert Selected(fs, t, skills, d) && Selected(fs, t, skills, e);
  }

  lemma NothingLeftToDelete(fs: FS, t: Target, skills: set<Path>)
    requires fs.WellFormed()
    ensures Deletes(RemoveAll(fs, Deletes(fs, t, skills), {}), t, skills) == {}
  {
    forall d | d in RemoveAll(fs, Deletes(fs, t, skills), {}).dirs
      ensures !Selected(RemoveAll(fs, Deletes(fs, t, skills), {}), t, skills, d)
    {
      NotSelectedAgain(fs, t, skills, d);
    }
  }

  lemma DeletesAreMarked(fs: FS, t: Target, skills: set<Path>, d: Path)
    requires d in Deletes(fs, t, skills)
    ensures t.root < d && MarkedUnassigned(fs, t, skills, d)
  {
    StopsIff(fs, t, d);
    hide MatchesScope, Names, ReadMarker;
  }

  /**
    * The deleted directories lie below the root, are marked for this agent and scope with an unassigned skill and are
    * pairwise apart; once they are removed, a second cleanup finds nothing to delete.
    */
  lemma CleanupIsFixpoint(fs: FS, t: Target, skills: set<Path>)
    requires fs.WellFormed()
    ensures forall d :: d in Deletes(fs, t, skills) ==> t.root < d && MarkedUnassigned(fs, t, skills, d)
    ensures forall d, e :: d in Deletes(fs, t, skills) && e in Deletes(fs, t, skills) && d != e ==> Apart(d, e)
    ensures t.supported && Stat(fs, t.root) == Directory ==> Deletes(CleanedDisk(fs, t, skills, {}), t, skills) == {}
    ensures CleanedDisk(CleanedDisk(fs, t, skills, {}), t, skills, {}) == CleanedDisk(fs, t, skills, {})
  {
    hide Deletes, Stat, Apart, MarkedUnassigned;
    forall d | d in Deletes(fs, t, skills) ensures t.root < d && MarkedUnassigned(fs, t, skills, d) {
      DeletesAreMarked(fs, t, skills, d);
    }
    forall d, e | d in Deletes(fs, t, skills) && e in Deletes(fs, t, skills) && d != e ensures Apart(d, e) {
      DeletesApart(fs, t, skills, d, e);
    }
    NothingLeftToDelete(fs, t, skills);
    RemoveNothing(CleanedDisk(fs, t, skills, {}), {});
  }

  lemma NotSelectedAgain(fs: FS, t: Target, skills: set<Path>, d: Path)
    requires fs.WellFormed() && d in RemoveAll(fs, Deletes(fs, t, skills), {}).dirs
    ensures !Selected(RemoveAll(fs, Deletes(fs, t, skills), {}), t, skills, d)
  {
    var after := RemoveAll(fs, Deletes(fs, t, skills), {});
    if Reached(after, t, d) && Stops(after, t, d) && ReadMarker(after, d).marker.skillPath !in skills {
      ReachedBefore(fs, t, skills, d);
      MarkersSurvive(fs, t, skills, d);
      assert d !in Deletes(fs, t, skills) by { assert d <= d; }
      var b :| b in fs.dirs && Aborts(fs, t, b) && PathLess(b, d);
      AbortsAgain(fs, t, skills, b);
    }
  }

  lemma AbortsAgain(fs: FS, t: Target, skills: set<Path>, b: Path)
    requires fs.WellFormed() && Aborts(fs, t, b)
    ensures var after := RemoveAll(fs, Deletes(fs, t, skills), {}); b in after.dirs && Aborts(after, t, b)
  {
    ReachedAgain(fs, t, skills, b);
    MarkersSurvive(fs, t, skills, b);
  }

  /** No directory with an unreadable marker stops the walk before it comes to `d`. */
  ghost predicate ClearWay(fs: FS, t: Target, d: Path) {
    forall b :: b in fs.dirs && t.root < b && ReadMarker(fs, b) == BadMarker && PathLess(b, d) ==>
      exists c :: t.root < c < b && MarkedFor(fs, t, c)
  }

  /**
    * `d` is marked for a skill that is not assigned, no directory above it is marked, and every unreadable marker
    * before it in the walk lies inside another marked directory.
    */
  ghost predicate OutermostUnassigned(fs: FS, t: Target, skills: set<Path>, d: Path) {
    MarkedUnassigned(fs, t, skills, d) && (forall b :: t.root < b < d ==> !MarkedFor(fs, t, b)) && ClearWay(fs, t, d)
  }

  ghost predicate InsideUnassigned(fs: FS, t: Target, skills: set<Path>, dir: Path) {
    exists a :: t.root < a < dir && OutermostUnassigned(fs, t, skills, a)
  }

  lemma DeletedIff(fs: FS, t: Target, skills: set<Path>, d: Path)
    requires d in fs.dirs && t.root < d
    ensures d in Deletes(fs, t, skills) <==> OutermostUnassigned(fs, t, skills, d)
  {
    hide PathLess, MatchesScope, Names, ReadMarker;
    forall b ensures Stops(fs, t, b) <==> MarkedFor(fs, t, b) { StopsIff(fs, t, b); }
    hide Stops;
    assert forall b :: b in fs.dirs ==> (Aborts(fs, t, b) <==>
      t.root < b && ReadMarker(fs, b) == BadMarker && !exists c :: t.root < c < b && MarkedFor(fs, t, c));
    assert MarkedFor(fs, t, d) ==> (MarkedUnassigned(fs, t, skills, d) <==> ReadMarker(fs, d).marker.skillPath !in skills);
  }

  lemma DeletedAboveIff(fs: FS, t: Target, skills: set<Path>, dir: Path)
    requires fs.WellFormed() && dir in fs.dirs
    ensures (exists d :: d in Deletes(fs, t, skills) && d < dir) <==> InsideUnassigned(fs, t, skills, dir)
  {
    hide OutermostUnassigned, Deletes;
    if d :| d in Deletes(fs, t, skills) && d < dir {
      DeletesAreMarked(fs, t, skills, d);
      AncestorInDirs(fs, d, dir);
      DeletedIff(fs, t, skills, d);
    }
    forall a | t.root < a < dir && OutermostUnassigned(fs, t, skills, a) ensures a in Deletes(fs, t, skills) {
      AncestorInDirs(fs, a, dir);
      DeletedIff(fs, t, skills, a);
    }
  }

  /** The directory of an assigned skill, which carries its marker. */
  predicate KeptHere(fs: FS, t: Target, skills: set<Path>, skill: Path) {
    skill in skills && t.root < Dest(t, skill) && Dest(t, skill) in fs.dirs && HasMarker(fs, t, skill)
  }

  lemma NotDeletedItself(fs: FS, t: Target, skills: set<Path>, skill: Path, d: Path)
    requires KeptHere(fs, t, skills, skill) && d in Deletes(fs, t, skills)
    ensures !(Dest(t, skill) <= d)
  {
    var dir := Dest(t, skill);
    StopsIff(fs, t, dir);
    assert Stops(fs, t, dir);
    assert Selected(fs, t, skills, d) && d != dir;
    assert dir <= d && |d| == |dir| ==> d == dir;
    assert dir < d ==> !(t.root < dir);
  }

  /** Whatever lies in the directory of an assigned skill is deleted with a directory above it, or not at all. */
  lemma UnderDeletedIff(fs: FS, t: Target, skills: set<Path>, skill: Path, p: Path)
    requires KeptHere(fs, t, skills, skill) && Dest(t, skill) <= p
    ensures (exists d :: d in Deletes(fs, t, skills) && d <= p) <==> (exists d :: d in Deletes(fs, t, skills) && d < Dest(t, skill))
  {
    hide Deletes, KeptHere;
    var dir := Dest(t, skill);
    if d :| d in Deletes(fs, t, skills) && d <= p {
      NotDeletedItself(fs, t, skills, skill, d);
      PrefixesComparable(d, dir, p);
      assert d < dir;
    }
    if d :| d in Deletes(fs, t, skills) && d < dir { PrefixTransitive(d, dir, p); }
  }

  lemma MarkerIsFile(fs: FS, t: Target, skills: set<Path>, skill: Path) returns (m: Path)
    requires KeptHere(fs, t, skills, skill)
    ensures m in fs.files && Dest(t, skill) <= m
  {
    m := Dest(t, skill) + [MARKER_FILE];
  }

  lemma NothingHeld(fs: FS, p: Path)
    ensures !Held(fs, {}, p)
  {
  }

  lemma CleanedIs(fs: FS, t: Target, skills: set<Path>, stuck: set<Path>)
    requires t.supported && Stat(fs, t.root) == Directory
    ensures CleanedDisk(fs, t, skills, stuck) == RemoveAll(fs, Deletes(fs, t, skills), stuck)
  {
  }

  lemma LosesFileUnder(fs: FS, t: Target, skills: set<Path>, skill: Path)
    requires fs.WellFormed() && t.supported && Stat(fs, t.root) == Directory && KeptHere(fs, t, skills, skill)
    ensures (exists p :: p in fs.files && Dest(t, skill) <= p && p !in CleanedDisk(fs, t, skills, {}).files)
       <==> (exists d :: d in Deletes(fs, t, skills) && d < Dest(t, skill))
    ensures (exists d :: d in Deletes(fs, t, skills) && d < Dest(t, skill))
        ==> forall p :: p in CleanedDisk(fs, t, skills, {}).files ==> !(Dest(t, skill) <= p)
  {
    hide *;
    var m := MarkerIsFile(fs, t, skills, skill);
    CleanedIs(fs, t, skills, {});
    forall p | p in fs.files && Dest(t, skill) <= p
      ensures p !in CleanedDisk(fs, t, skills, {}).files <==> exists d :: d in Deletes(fs, t, skills) && d < Dest(t, skill)
    {
      UnderDeletedIff(fs, t, skills, skill, p);
      NothingHeld(fs, p);
    }
  }

  /**
    * The directory of an assigned skill that carries its marker loses a file exactly when the outermost marked
    * directory above it belongs to an unassigned skill and the walk comes that far; then it is lost as a whole.
    */
  lemma AssignedSkillLosesFileIff(fs: FS, t: Target, skills: set<Path>, skill: Path)
    requires fs.WellFormed() && t.supported && Stat(fs, t.root) == Directory && KeptHere(fs, t, skills, skill)
    ensures (exists p :: p in fs.files && Dest(t, skill) <= p && p !in CleanedDisk(fs, t, skills, {}).files)
       <==> InsideUnassigned(fs, t, skills, Dest(t, skill))
    ensures InsideUnassigned(fs, t, skills, Dest(t, skill))
        ==> forall p :: p in CleanedDisk(fs, t, skills, {}).files ==> !(Dest(t, skill) <= p)
  {
    hide CleanedDisk, Deletes, InsideUnassigned;
    LosesFileUnder(fs, t, skills, skill);
    DeletedAboveIff(fs, t, skills, Dest(t, skill));
  }

  /** Without managed directories inside one another no assigned skill loses a file, whatever cannot be removed. */
  lemma FlatCleanupKeepsAssigned(fs: FS, t: Target, skills: set<Path>, skill: Path, stuck: set<Path>)
    requires fs.WellFormed() && t.supported && Stat(fs, t.root) == Directory && KeptHere(fs, t, skills, skill)
    requires forall a :: t.root < a < Dest(t, skill) ==> !MarkedFor(fs, t, a)
    ensures forall p :: p in fs.files && Dest(t, skill) <= p ==>
              p in CleanedDisk(fs, t, skills, stuck).files && CleanedDisk(fs, t, skills, stuck).files[p] == fs.files[p]
  {
    NoStopNoUnassigned(fs, t, skills, Dest(t, skill));
    DeletedAboveIff(fs, t, skills, Dest(t, skill));
    CleanedIs(fs, t, skills, stuck);
    hide *;
    forall p | p in fs.files && Dest(t, skill) <= p ensures p in CleanedDisk(fs, t, skills, stuck).files {
      UnderDeletedIff(fs, t, skills, skill, p);
    }
  }

  lemma NoStopNoUnassigned(fs: FS, t: Target, skills: set<Path>, dir: Path)
    requires forall a :: t.root < a < dir ==> !MarkedFor(fs, t, a)
    ensures !InsideUnassigned(fs, t, skills, dir)
  {
    forall a | t.root < a < dir ensures !MarkedUnassigned(fs, t, skills, a) { assert !MarkedFor(fs, t, a); }
  }

  // With nesting it can: unassigning the skill "a" deletes the assigned skill "a/b" kept inside its directory.

  const A: Path := ["root", "a"]
  const B: Path := ["root", "a", "b"]

  function NestedDisk(t: Target): FS {
    FS(map[A + [MARKER_FILE] := Encoded(NewMarker(t, ["a"], "")), B + [MARKER_FILE] := Encoded(NewMarker(t, ["a", "b"], ""))],
       {[], ["root"], A, B}, {})
  }

  lemma NestedDiskWellFormed(t: Target)
    ensures NestedDisk(t).WellFormed()
  {
    var fs := NestedDisk(t);
    assert |MARKER_FILE| == 18 && (A + [MARKER_FILE])[2] == MARKER_FILE && B[2] == "b";
    assert |B + [MARKER_FILE]| == 4 && |A + [MARKER_FILE]| == 3;
    assert fs.files.Keys !! fs.dirs;
    forall p, k | p in fs.files.Keys + fs.dirs && 0 <= k < |p| ensures p[..k] in fs.dirs {
      assert p[..k] == if k == 0 then [] else if k == 1 then ["root"] else if k == 2 then A else B;
    }
  }

  lemma NestedDiskMarkers(t: Target)
    ensures ReadMarker(NestedDisk(t), A) == Found(NewMarker(t, ["a"], ""))
    ensures ReadMarker(NestedDisk(t), B) == Found(NewMarker(t, ["a", "b"], ""))
  {
    var fs := NestedDisk(t);
    NestedDiskWellFormed(t);
    assert A + [MARKER_FILE] != B + [MARKER_FILE] by { assert |A + [MARKER_FILE]| == 3 && |B + [MARKER_FILE]| == 4; }
    assert A + [MARKER_FILE] in fs.files && B + [MARKER_FILE] in fs.files;
  }

  lemma NestedAssignedSkillIsLost(t: Target)
    requires t.supported && t.root == ["root"] && t.scope == Personal && Dest(t, ["a", "b"]) == B
    ensures var fs := NestedDisk(t);
            && fs.WellFormed()
            && Owned(fs, t, ["a", "b"])
            && (exists p :: p in fs.files && B <= p)
            && forall p :: p in CleanedDisk(fs, t, {["a", "b"]}, {}).files ==> !(B <= p)
  {
    var fs := NestedDisk(t);
    NestedDiskWellFormed(t);
    NestedDiskMarkers(t);
    NewMarkerMatchesIff(t, ["a"], "");
    NewMarkerMatchesIff(t, ["a", "b"], "");
    assert B + [MARKER_FILE] in fs.files && B <= B + [MARKER_FILE];
    assert A in Deletes(fs, t, {["a", "b"]}) by {
      assert forall d :: d in fs.dirs && t.root < d ==> d == A || d == B;
    }
    assert A < B;
    LosesFileUnder(fs, t, {["a", "b"]}, ["a", "b"]);
  }

  // ---- The imperative form ----

  ghost predicate ListsDeletes(fs: FS, t: Target, skills: set<Path>, deletes: seq<Path>) {
    && (forall d :: d in deletes <==> d in Deletes(fs, t, skills))
    && Sorted(deletes)
  }

  function RemovalChanges(fs: FS, deletes: seq<Path>): seq<Change> {
    if deletes == [] then []
    else
      var d := deletes[|deletes| - 1];
      RemovalChanges(fs, deletes[..|deletes| - 1]) +
      match ReadMarker(fs, d) case Found(m) => [Change(Removable, m.skillPath, d)] case _ => []
  }

  /** The walk has passed the directories `seen` without an abort and stopped descending at `stopped`. */
  ghost predicate WalkState(fs: FS, t: Target, skills: set<Path>, seen: seq<Path>, stopped: set<Path>, deletes: seq<Path>) {
    && (forall d :: d in seen ==> !Aborts(fs, t, d))
    && (forall d :: d in stopped <==> d in seen && Reached(fs, t, d) && Stops(fs, t, d))
    && (forall d :: d in deletes <==> d in stopped && ReadMarker(fs, d).marker.skillPath !in skills)
    && Sorted(deletes)
  }

  datatype Visit = Pass | Abort | Keep | Delete(skill: Path)

  /** What the walk does at a directory, knowing where it has stopped descending. */
  function VisitOf(fs: FS, t: Target, skills: set<Path>, stopped: set<Path>, d: Path): Visit {
    if !(t.root < d) || exists s :: s in stopped && s < d then Pass
    else
      match ReadMarker(fs, d)
      case BadMarker => Abort
      case NoMarker => Pass
      case Found(marker) =>
        if !MatchesScope(marker, t) then Pass
        else if marker.skillPath in skills then Keep
        else Delete(marker.skillPath)
  }

  /** A directory is cut off exactly when one of the directories where the walk stopped lies above it. */
  lemma {:induction false} StopAbove(fs: FS, t: Target, d: Path, a: Path)
    requires fs.WellFormed() && d in fs.dirs && t.root < a < d && Stops(fs, t, a)
    ensures exists b :: t.root < b < d && Reached(fs, t, b) && Stops(fs, t, b)
    decreases |a|
  {
    AncestorInDirs(fs, a, d);
    if !Reached(fs, t, a) {
      var c :| t.root < c < a && Stops(fs, t, c);
      PrefixTransitive(c, a, d);
      StopAbove(fs, t, d, c);
    }
  }

  lemma SplitWalk(fs: FS, walk: seq<Path>, i: nat)
    requires walk == Listing(fs.dirs) && i < |walk|
    ensures walk[..i + 1] == walk[..i] + [walk[i]]
    ensures forall d :: d in walk[..i] ==> PathLess(d, walk[i]) && !PathLess(walk[i], d)
    ensures forall d :: d in fs.dirs && PathLess(d, walk[i]) ==> d in walk[..i]
  {
    PathLessIsStrictOrder();
    forall d | d in fs.dirs && PathLess(d, walk[i]) ensures d in walk[..i] {
      var j :| 0 <= j < |walk| && walk[j] == d;
      assert !PathLess(walk[i], walk[j]);
      assert walk[..i][j] == d;
    }
  }

  lemma ReachedIffNotCut(fs: FS, t: Target, skills: set<Path>, walk: seq<Path>, i: nat, stopped: set<Path>, deletes: seq<Path>)
    requires fs.WellFormed() && walk == Listing(fs.dirs) && i < |walk| && WalkState(fs, t, skills, walk[..i], stopped, deletes)
    ensures Reached(fs, t, walk[i]) <==> t.root < walk[i] && !exists s :: s in stopped && s < walk[i]
  {
    var d := walk[i];
    SplitWalk(fs, walk, i);
    if t.root < d && !Reached(fs, t, d) {
      var a :| t.root < a < d && Stops(fs, t, a);
      StopAbove(fs, t, d, a);
      var b :| t.root < b < d && Reached(fs, t, b) && Stops(fs, t, b);
      AncestorsFirst(b, d);
    }
  }

  lemma WalkStarts(fs: FS, t: Target, skills: set<Path>, walk: seq<Path>)
    ensures WalkState(fs, t, skills, walk[..0], {}, []) && RemovalChanges(fs, []) == []
  {
  }

  lemma VisitMeans(fs: FS, t: Target, skills: set<Path>, walk: seq<Path>, i: nat, stopped: set<Path>, deletes: seq<Path>)
    requires fs.WellFormed() && walk == Listing(fs.dirs) && i < |walk| && WalkState(fs, t, skills, walk[..i], stopped, deletes)
    ensures var d, visit := walk[i], VisitOf(fs, t, skills, stopped, walk[i]);
            && (visit.Abort? <==> Aborts(fs, t, d))
            && (visit.Keep? || visit.Delete? <==> Reached(fs, t, d) && Stops(fs, t, d))
            && (visit.Keep? ==> ReadMarker(fs, d).marker.skillPath in skills)
            && (visit.Delete? ==> ReadMarker(fs, d).marker.skillPath == visit.skill && visit.skill !in skills)
  {
    ReachedIffNotCut(fs, t, skills, walk, i, stopped, deletes);
    hide Reached, WalkState, ReadMarker, MatchesScope, Listing;
  }

  lemma VisitStep(fs: FS, t: Target, skills: set<Path>, walk: seq<Path>, i: nat, stopped: set<Path>, deletes: seq<Path>)
    requires fs.WellFormed() && walk == Listing(fs.dirs) && i < |walk| && WalkState(fs, t, skills, walk[..i], stopped, deletes)
    ensures var d, visit := walk[i], VisitOf(fs, t, skills, stopped, walk[i]);
            && (visit.Pass? ==> WalkState(fs, t, skills, walk[..i + 1], stopped, deletes))
            && (visit.Abort? ==> Aborts(fs, t, d))
            && (visit.Keep? ==> WalkState(fs, t, skills, walk[..i + 1], stopped + {d}, deletes))
            && (visit.Delete? ==> WalkState(fs, t, skills, walk[..i + 1], stopped + {d}, deletes + [d]))
  {
    SplitWalk(fs, walk, i);
    VisitMeans(fs, t, skills, walk, i, stopped, deletes);
    hide *;
    match VisitOf(fs, t, skills, stopped, walk[i])
    case Pass => PassOver(fs, t, skills, walk[..i], stopped, deletes, walk[i]);
    case Abort =>
    case Keep => StopAt(fs, t, skills, walk[..i], stopped, deletes, walk[i]);
    case Delete(_) => StopAt(fs, t, skills, walk[..i], stopped, deletes, walk[i]);
  }

  lemma PassOver(fs: FS, t: Target, skills: set<Path>, seen: seq<Path>, stopped: set<Path>, deletes: seq<Path>, d: Path)
    requires WalkState(fs, t, skills, seen, stopped, deletes)
    requires !Aborts(fs, t, d) && !(Reached(fs, t, d) && Stops(fs, t, d))
    ensures WalkState(fs, t, skills, seen + [d], stopped, deletes)
  {
    hide Aborts, Reached, Stops, ReadMarker;
  }

  lemma StopAt(fs: FS, t: Target, skills: set<Path>, seen: seq<Path>, stopped: set<Path>, deletes: seq<Path>, d: Path)
    requires WalkState(fs, t, skills, seen, stopped, deletes)
    requires forall e :: e in seen ==> PathLess(e, d)
    requires !Aborts(fs, t, d) && Reached(fs, t, d) && Stops(fs, t, d)
    ensures ReadMarker(fs, d).Found?
    ensures ReadMarker(fs, d).marker.skillPath in skills ==> WalkState(fs, t, skills, seen + [d], stopped + {d}, deletes)
    ensures ReadMarker(fs, d).marker.skillPath !in skills ==> WalkState(fs, t, skills, seen + [d], stopped + {d}, deletes + [d])
  {
    assert ReadMarker(fs, d).Found?;
    hide Aborts, Reached, Stops, ReadMarker, PathLess;
    forall j | 0 <= j < |deletes| ensures PathLess(deletes[j], d) {
      assert deletes[j] in deletes;
    }
    PathLessIrreflexive(d);
    assert d !in seen;
    assert d !in deletes;
  }

  lemma PathLessIrreflexive(d: Path)
    ensures !PathLess(d, d)
  {
    PathLessIsStrictOrder();
  }

  lemma RemovalChangesStep(fs: FS, t: Target, skills: set<Path>, stopped: set<Path>, deletes: seq<Path>, d: Path)
    requires VisitOf(fs, t, skills, stopped, d).Delete?
    ensures RemovalChanges(fs, deletes + [d]) == RemovalChanges(fs, deletes) + [Change(Removable, VisitOf(fs, t, skills, stopped, d).skill, d)]
  {
    assert (deletes + [d])[..|deletes|] == deletes;
  }

  /** Where the walk aborts, the collected directories are the selected ones. */
  lemma WalkAborted(fs: FS, t: Target, skills: set<Path>, walk: seq<Path>, i: nat, stopped: set<Path>, deletes: seq<Path>)
    requires walk == Listing(fs.dirs) && i < |walk| && WalkState(fs, t, skills, walk[..i], stopped, deletes) && Aborts(fs, t, walk[i])
    ensures ListsDeletes(fs, t, skills, deletes)
  {
    var d := walk[i];
    SplitWalk(fs, walk, i);
    PathLessIsStrictOrder();
    forall e | Selected(fs, t, skills, e) ensures e in deletes {
      assert !PathLess(d, e) && e != d;
    }
    forall e | e in deletes ensures Selected(fs, t, skills, e) {
      forall b | b in fs.dirs && PathLess(b, e) ensures !Aborts(fs, t, b) {
        assert PathLess(b, d);
      }
    }
  }

  lemma WalkFinished(fs: FS, t: Target, skills: set<Path>, walk: seq<Path>, stopped: set<Path>, deletes: seq<Path>)
    requires walk == Listing(fs.dirs) && WalkState(fs, t, skills, walk, stopped, deletes)
    ensures ListsDeletes(fs, t, skills, deletes)
  {
  }

  /** Walks the directories under the root and queues those whose skill is no longer assigned. */
  method CollectDeletes(plan: AgentPlan, fs: FS, t: Target, skills: set<Path>, walk: seq<Path>) returns (deletes: seq<Path>)
    requires plan.Valid() && fs.WellFormed() && walk == Listing(fs.dirs)
    modifies plan
    ensures plan.Valid() && plan.changes == old(plan.changes) + RemovalChanges(fs, deletes)
    ensures if Stat(fs, t.root) == Directory then Sorted(deletes) && forall d :: d in deletes <==> d in Deletes(fs, t, skills) else deletes == []
  {
    hide *;
    deletes := [];
    WalkStarts(fs, t, skills, walk);
    var kind := Stat(fs, t.root);
    if kind == Absent {
      return;
    }
    if kind != Directory {
      plan.errors := plan.errors + 1;
      return;
    }
    var stopped: set<Path> := {};
    for i := 0 to |walk|
      invariant plan.Valid() && plan.changes == old(plan.changes) + RemovalChanges(fs, deletes)
      invariant WalkState(fs, t, skills, walk[..i], stopped, deletes)
    {
      var d := walk[i];
      VisitStep(fs, t, skills, walk, i, stopped, deletes);
      match VisitOf(fs, t, skills, stopped, d) {
        case Pass =>
        case Abort =>
          plan.errors := plan.errors + 1;
          WalkAborted(fs, t, skills, walk, i, stopped, deletes);
          return;
        case Keep =>
          stopped := stopped + {d};
        case Delete(skill) =>
          plan.AddChange(Change(Removable, skill, d));
          RemovalChangesStep(fs, t, skills, stopped, deletes, d);
          deletes := deletes + [d];
          stopped := stopped + {d};
      }
    }
    assert walk[..|walk|] == walk;
    WalkFinished(fs, t, skills, walk, stopped, deletes);
  }

  function ToSet(s: seq<Path>): set<Path> {
    set p | p in s
  }

  /** How many of the directories are removed without an error. */
  function Removals(fs: FS, stuck: set<Path>, deletes: seq<Path>): (n: nat)
    ensures n <= |deletes|
  {
    if deletes == [] then 0
    else Removals(fs, stuck, deletes[..|deletes| - 1]) + if Held(fs, stuck, deletes[|deletes| - 1]) then 0 else 1
  }

  /** The positions of the directories that nothing holds. */
  function FreeAt(fs: FS, stuck: set<Path>, deletes: seq<Path>): set<nat> {
    set i: nat | i < |deletes| && !exists q :: q in stuck && (q in fs.files || q in fs.dirs) && deletes[i] <= q
  }

  lemma {:induction false} RemovalsMean(fs: FS, stuck: set<Path>, deletes: seq<Path>)
    ensures Removals(fs, stuck, deletes) == |FreeAt(fs, stuck, deletes)|
  {
    if deletes == [] {
      assert FreeAt(fs, stuck, deletes) == {};
    } else {
      RemovalsMean(fs, stuck, deletes[..|deletes| - 1]);
      FreeStep(fs, stuck, deletes);
      hide FreeAt, Held;
    }
  }

  lemma FreeStep(fs: FS, stuck: set<Path>, deletes: seq<Path>)
    requires deletes != []
    ensures var front, n := deletes[..|deletes| - 1], |deletes| - 1;
            FreeAt(fs, stuck, deletes) == FreeAt(fs, stuck, front) + (if Held(fs, stuck, deletes[n]) then {} else {n}) && n !in FreeAt(fs, stuck, front)
  {
  }

  /** Removes the queued directories as far as they can be; the resulting disk does not depend on their order. */
  method ApplyDeletes(plan: AgentPlan, disk: Disk, t: Target, deletes: seq<Path>, stuck: set<Path>)
    requires plan.Valid()
    requires forall d :: d in deletes ==> t.root <= d
    modifies plan, disk
    ensures plan.Valid() && plan.changes == old(plan.changes)
    ensures t.supported ==>
              var removed := Removals(old(disk.fs), stuck, deletes);
              && disk.fs == RemoveAll(old(disk.fs), ToSet(deletes), stuck)
              && plan.deleted == old(plan.deleted) + removed && plan.errors == old(plan.errors) + (|deletes| - removed)
    ensures !t.supported ==> disk.fs == old(disk.fs) && plan.deleted == old(plan.deleted) && plan.errors == old(plan.errors)
  {
    if !t.supported {
      return;
    }
    RemoveNothing(disk.fs, stuck);
    hide RemoveAll, Held, Count;
    ghost var fs := disk.fs;
    for i := 0 to |deletes|
      invariant plan.Valid() && plan.changes == old(plan.changes)
      invariant disk.fs == RemoveAll(fs, ToSet(deletes[..i]), stuck)
      invariant var removed := Removals(fs, stuck, deletes[..i]);
                plan.deleted == old(plan.deleted) + removed && plan.errors == old(plan.errors) + (i - removed)
    {
      RemoveTwice(fs, ToSet(deletes[..i]), {deletes[i]}, stuck);
      HeldAgain(fs, ToSet(deletes[..i]), stuck, deletes[i]);
      assert ToSet(deletes[..i + 1]) == ToSet(deletes[..i]) + {deletes[i]};
      assert deletes[..i + 1][..i] == deletes[..i];
      var failed := Held(disk.fs, stuck, deletes[i]);
      disk.fs := RemoveAll(disk.fs, {deletes[i]}, stuck);
      if failed {
        plan.errors := plan.errors + 1;
      } else {
        plan.deleted := plan.deleted + 1;
      }
    }
    assert deletes[..|deletes|] == deletes;
  }

  lemma HeldAgain(fs: FS, roots: set<Path>, stuck: set<Path>, p: Path)
    ensures Held(RemoveAll(fs, roots, stuck), stuck, p) <==> Held(fs, stuck, p)
  {
    var next := RemoveAll(fs, roots, stuck);
    if q :| q in stuck && (q in fs.files || q in fs.dirs) && p <= q {
      assert Held(fs, stuck, q);
      assert q in next.files || q in next.dirs;
    }
  }

  lemma RemoveTwice(fs: FS, xs: set<Path>, ys: set<Path>, stuck: set<Path>)
    ensures RemoveAll(RemoveAll(fs, xs, stuck), ys, stuck) == RemoveAll(fs, xs + ys, stuck)
  {
    var mid := RemoveAll(fs, xs, stuck);
    var two, one := RemoveAll(mid, ys, stuck), RemoveAll(fs, xs + ys, stuck);
    forall p ensures Held(mid, stuck, p) <==> Held(fs, stuck, p) { HeldAgain(fs, xs, stuck, p); }
    hide Held, RemoveAll;
    assert forall p :: p in two.files <==> p in one.files;
    assert forall p :: p in two.dirs <==> p in one.dirs;
    SameDisk(two, one);
  }

  lemma {:induction false} CountAppend(a: seq<Change>, b: seq<Change>, action: Action)
    ensures Count(a + b, action) == Count(a, action) + Count(b, action)
  {
    if b == [] {
      assert a + b == a;
    } else {
      assert (a + b)[..|a + b| - 1] == a + b[..|b| - 1];
      CountAppend(a, b[..|b| - 1], action);
    }
  }

  lemma {:induction false} RemovalsAreNoConflict(fs: FS, deletes: seq<Path>)
    ensures Count(RemovalChanges(fs, deletes), Conflict) == 0
  {
    CountsItsAction(RemovalChanges(fs, deletes), Conflict);
    if deletes != [] {
      RemovalsAreNoConflict(fs, deletes[..|deletes| - 1]);
      CountsItsAction(RemovalChanges(fs, deletes[..|deletes| - 1]), Conflict);
    }
  }

  /**
    * One sync request of one agent. `blocked` and `manual` are the quality findings on the planned changes; the walks are
    * the orders in which the operating system lists the files and the directories.
    */
  method SyncAgent(disk: Disk, hub: Hub, t: Target, skills: seq<Path>, rest: Stamps, blocked: nat, manual: nat, ack: bool,
                   fileWalk: seq<Path>, dirWalk: seq<Path>)
    returns (plan: AgentPlan, markers: seq<Op>)
    requires disk.fs.WellFormed() && fileWalk == Listing(disk.fs.files.Keys) && dirWalk == Listing(disk.fs.dirs)
    modifies disk
    ensures MarkerOps(markers, hub, t, skills)
    ensures disk.fs == SyncedDisk(old(disk.fs), hub, t, skills, markers, rest, blocked, manual, ack)
  {
    hide PlanOutcome, ApplyOps, Count, RemovalChanges, Listing, MarkerOps, ListsDeletes, Stat;
    plan := new AgentPlan();
    var ops;
    ops, markers := plan.Build(disk.fs, hub, t, skills, fileWalk);
    ghost var planned := PlanOutcome(disk.fs, hub, t, skills);
    var deletes := CollectDeletes(plan, disk.fs, t, ToSet(skills), dirWalk);
    plan.blocked, plan.manual := blocked, manual;
    CountAppend(planned.changes, RemovalChanges(disk.fs, deletes), Conflict);
    RemovalsAreNoConflict(disk.fs, deletes);
    assert plan.changes == planned.changes + RemovalChanges(disk.fs, deletes);
    assert plan.conflict == Count(planned.changes, Conflict);
    plan.ApplyWrites(disk, t, ops, rest, ack);
  }

  /** One cleanup request of one agent. */
  method CleanupAgent(disk: Disk, t: Target, skills: seq<Path>, dirWalk: seq<Path>, stuck: set<Path>) returns (plan: AgentPlan)
    requires disk.fs.WellFormed() && dirWalk == Listing(disk.fs.dirs)
    modifies disk
    ensures disk.fs == CleanedDisk(old(disk.fs), t, ToSet(skills), stuck)
  {
    plan := new AgentPlan();
    var deletes := CollectDeletes(plan, disk.fs, t, ToSet(skills), dirWalk);
    RemoveNothing(disk.fs, stuck);
    assert ToSet([]) == {};
    assert Stat(disk.fs, t.root) == Directory ==> ToSet(deletes) == Deletes(disk.fs, t, ToSet(skills));
    ApplyDeletes(plan, disk, t, deletes, stuck);
  }

  // ---- Whole runs ----

  /** One request: a sync (with the Hub as it is then) or a cleanup, of any agent in any scope. */
  datatype Step =
    | Sync(t: Target, hub: Hub, skills: seq<Path>, markers: seq<Op>, rest: Stamps, blocked: nat, manual: nat, ack: bool)
    | Cleanup(t: Target, kept: set<Path>, stuck: set<Path>)

  ghost predicate Runnable(step: Step) {
    step.Sync? ==> MarkerOps(step.markers, step.hub, step.t, step.skills)
  }

  ghost function After(fs: FS, step: Step): FS {
    match step
    case Sync(t, hub, skills, markers, rest, blocked, manual, ack) => SyncedDisk(fs, hub, t, skills, markers, rest, blocked, manual, ack)
    case Cleanup(t, kept, stuck) => CleanedDisk(fs, t, kept, stuck)
  }

  ghost function Run(fs: FS, steps: seq<Step>): FS {
    if steps == [] then fs else After(Run(fs, steps[..|steps| - 1]), steps[|steps| - 1])
  }

  /** A file with no marker file in any directory above it. */
  ghost predicate UserFile(fs: FS, f: Path) {
    f in fs.files && forall a :: a < f ==> a + [MARKER_FILE] !in fs.files
  }

  /** A file with no marker above it that names this agent and scope: it may be another agent's, another team's or the user's. */
  ghost predicate OthersFile(fs: FS, t: Target, f: Path) {
    f in fs.files && forall a :: a < f ==> !MarkedFor(fs, t, a)
  }

  lemma UserFileIsOthers(fs: FS, t: Target, f: Path)
    requires UserFile(fs, f)
    ensures OthersFile(fs, t, f)
  {
    forall a | a < f ensures !MarkedFor(fs, t, a) { assert a + [MARKER_FILE] !in fs.files; }
  }

  /** Neither such a file nor, in a directory above it, a marker file lies in an owned directory. */
  lemma NotOwnedAbove(fs: FS, hub: Hub, t: Target, skills: seq<Path>, f: Path, p: Path)
    requires fs.WellFormed() && OthersFile(fs, t, f)
    requires p == f || (p != [] && Parent(p) < f && p == Parent(p) + [MARKER_FILE])
    ensures !OwnedBy(fs, hub, t, skills, p)
  {
    hide Names;
    forall skill | skill in skills && skill in hub && Dest(t, skill) < p ensures !Owned(fs, t, skill) {
      var dir := Dest(t, skill);
      assert dir < f by {
        if p != f { PrefixTransitive(dir, Parent(p), f); }
      }
      AncestorInDirs(fs, dir, f);
      assert !MarkedFor(fs, t, dir);
    }
  }

  lemma SyncKeepsOthers(fs: FS, step: Step, f: Path)
    requires fs.WellFormed() && Runnable(step) && step.Sync? && OthersFile(fs, step.t, f)
    ensures After(fs, step).WellFormed() && SameAbove(fs, After(fs, step), f)
  {
    var Sync(t, hub, skills, markers, rest, blocked, manual, ack) := step;
    SyncOwnership(fs, hub, t, skills, markers, rest, blocked, manual, ack);
    var after := After(fs, step);
    hide OwnedBy, SyncedDisk, OthersFile;
    NotOwnedAbove(fs, hub, t, skills, f, f);
    FileIsThere(fs, t, f);
    forall a | a < f ensures SameMarkerFile(fs, after, a) {
      var m := a + [MARKER_FILE];
      assert Parent(m) == a;
      NotOwnedAbove(fs, hub, t, skills, f, m);
    }
  }

  lemma FileIsThere(fs: FS, t: Target, f: Path)
    requires OthersFile(fs, t, f)
    ensures f in fs.files
  {
  }

  predicate SameMarkerFile(before: FS, after: FS, a: Path) {
    var m := a + [MARKER_FILE];
    (m in after.files ==> m in before.files && after.files[m] == before.files[m])
  }

  /** The file has its bytes, and no marker above it is new or changed. */
  ghost predicate SameAbove(before: FS, after: FS, f: Path) {
    && f in before.files && f in after.files && after.files[f] == before.files[f]
    && forall a :: a < f ==> SameMarkerFile(before, after, a)
  }

  /** Without new markers above it, a file stays another's for every agent and scope. */
  lemma StaysOthers(before: FS, after: FS, t: Target, f: Path)
    requires before.WellFormed() && after.WellFormed() && OthersFile(before, t, f) && SameAbove(before, after, f)
    ensures OthersFile(after, t, f)
  {
    hide Names;
    forall a | a < f ensures !MarkedFor(after, t, a) {
      assert SameMarkerFile(before, after, a) && !MarkedFor(before, t, a);
      if ReadMarker(after, a).Found? {
        ReadMarkerIff(after, a, ReadMarker(after, a).marker);
        ReadMarkerIff(before, a, ReadMarker(after, a).marker);
      }
    }
  }

  lemma CleanupKeepsOthers(fs: FS, t: Target, kept: set<Path>, stuck: set<Path>, f: Path)
    requires fs.WellFormed() && OthersFile(fs, t, f)
    ensures CleanedDisk(fs, t, kept, stuck).WellFormed() && SameAbove(fs, CleanedDisk(fs, t, kept, stuck), f)
  {
    hide Deletes, Names, Stat;
    if t.supported && Stat(fs, t.root) == Directory {
      forall d | d in Deletes(fs, t, kept) ensures d != [] && !(d <= f) {
        DeletesAreMarked(fs, t, kept, d);
        NotAFile(fs, t, kept, d);
        assert MarkedFor(fs, t, d);
        assert d <= f && |d| == |f| ==> d == f;
      }
      RemovalKeepsWellFormed(fs, Deletes(fs, t, kept), stuck);
    }
  }

  lemma NotAFile(fs: FS, t: Target, kept: set<Path>, d: Path)
    requires fs.WellFormed() && d in Deletes(fs, t, kept)
    ensures d in fs.dirs && d !in fs.files
  {
  }

  lemma StepKeepsOthers(fs: FS, step: Step, f: Path)
    requires fs.WellFormed() && Runnable(step) && OthersFile(fs, step.t, f)
    ensures After(fs, step).WellFormed() && SameAbove(fs, After(fs, step), f)
  {
    hide OthersFile, SameAbove;
    match step
    case Sync(_, _, _, _, _, _, _, _) => SyncKeepsOthers(fs, step, f);
    case Cleanup(t, kept, stuck) => CleanupKeepsOthers(fs, t, kept, stuck, f);
  }

  lemma RemovalKeepsWellFormed(fs: FS, roots: set<Path>, stuck: set<Path>)
    requires fs.WellFormed() && [] !in roots
    ensures RemoveAll(fs, roots, stuck).WellFormed()
  {
    var after := RemoveAll(fs, roots, stuck);
    forall p, k | p in after.files.Keys + after.dirs && 0 <= k < |p| ensures p[..k] in after.dirs {
      var above := p[..k];
      forall r | r in roots && r <= above ensures r <= p { PrefixTransitive(r, above, p); }
      if Held(fs, stuck, p) { HeldAbove(fs, stuck, p[..k], p); }
    }
  }

  lemma HeldAbove(fs: FS, stuck: set<Path>, a: Path, p: Path)
    requires a <= p && Held(fs, stuck, p)
    ensures Held(fs, stuck, a)
  {
    var q :| q in stuck && (q in fs.files || q in fs.dirs) && p <= q;
    PrefixTransitive(a, p, q);
  }

  /**
    * Over any run of syncs and cleanups, with any Hub contents, a file is neither changed nor removed as long as no
    * directory above it carries a marker that names the agent and scope of one of the steps. So one agent or scope
    * never touches what another one manages.
    */
  lemma {:induction false} OthersFilesAreSafe(fs: FS, steps: seq<Step>, f: Path)
    requires fs.WellFormed() && f in fs.files
    requires forall step :: step in steps ==> Runnable(step) && OthersFile(fs, step.t, f)
    ensures Run(fs, steps).WellFormed() && f in Run(fs, steps).files && Run(fs, steps).files[f] == fs.files[f]
    ensures forall t :: OthersFile(fs, t, f) ==> OthersFile(Run(fs, steps), t, f)
  {
    hide OthersFile, After, Runnable;
    if steps != [] {
      var front, last := steps[..|steps| - 1], steps[|steps| - 1];
      OthersFilesAreSafe(fs, front, f);
      assert last in steps;
      var before := Run(fs, front);
      StepKeepsOthers(before, last, f);
      forall t | OthersFile(fs, t, f) ensures OthersFile(Run(fs, steps), t, f) {
        StaysOthers(before, After(before, last), t, f);
      }
    }
  }

  /** In particular no run changes or removes a file with no marker in any directory above it. */
  lemma UserFilesAreSafe(fs: FS, steps: seq<Step>, f: Path)
    requires fs.WellFormed() && UserFile(fs, f)
    requires forall step :: step in steps ==> Runnable(step)
    ensures f in Run(fs, steps).files && Run(fs, steps).files[f] == fs.files[f]
  {
    hide OthersFile, Runnable;
    forall step | step in steps ensures OthersFile(fs, step.t, f) { UserFileIsOthers(fs, step.t, f); }
    OthersFilesAreSafe(fs, steps, f);
  }

  /**
    * A directory whose marker names another agent, another scope or another team is never deleted, and planning a skill
    * there is one conflict without a write.
    */
  lemma ForeignDirectoryIsRefused(fs: FS, hub: Hub, t: Target, skills: set<Path>, skill: Path, m: Marker)
    requires Stat(fs, Dest(t, skill)) == Directory && ReadMarker(fs, Dest(t, skill)) == Found(m) && skill in hub
    ensures Dest(t, skill) in Deletes(fs, t, skills) ==> Names(m, t) && m.skillPath !in skills
    ensures SkillOutcome(fs, hub, t, skill) == Outcome([Change(Conflict, skill, Dest(t, skill))], [], 0) <==>
      !(Names(m, t) && m.skillPath == skill)
  {
    if Dest(t, skill) in Deletes(fs, t, skills) { DeletesAreMarked(fs, t, skills, Dest(t, skill)); }
    SkillStateIff(fs, hub, t, skill);
    SkillOutcomeCases(fs, hub, t, skill);
    if SkillOutcome(fs, hub, t, skill) == Outcome([Change(Conflict, skill, Dest(t, skill))], [], 0) && SkillStateOf(fs, hub, t, skill) == Managed {
      SkillDirIsNoFile(fs, hub, t, skill);
    }
    hide Deletes, Names, SkillOutcome, FilesOutcome, MissingChanges, Listing, SkillStateOf, Stat, ReadMarker;
  }

  /** The plan of a managed directory says nothing of the directory itself. */
  lemma SkillDirIsNoFile(fs: FS, hub: Hub, t: Target, skill: Path)
    requires SkillStateOf(fs, hub, t, skill) == Managed
    ensures Change(Conflict, skill, Dest(t, skill)) !in SkillOutcome(fs, hub, t, skill).changes
  {
    SkillOutcomeCases(fs, hub, t, skill);
    hide SkillOutcome, FilesOutcome, MissingChanges, Listing, SkillStateOf, Stat;
    ChangesBelow(fs, t, skill, true, hub[skill]);
    MissingIff(skill, Dest(t, skill), hub[skill], Listing(fs.files.Keys), []);
  }

  lemma {:induction false} ChangesBelow(fs: FS, t: Target, skill: Path, managed: bool, files: seq<HubFile>)
    ensures forall c :: c in FilesOutcome(fs, t, skill, managed, files).changes ==> c.path != Dest(t, skill)
  {
    if files != [] {
      var last := files[|files| - 1];
      ChangesBelow(fs, t, skill, managed, files[..|files| - 1]);
      if t.local(last.rel).Some? { FileBelowDest(t, skill, last); }
    }
  }
}
