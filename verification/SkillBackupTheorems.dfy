/** Backups survive pruning, and a rollback undoes an overwrite. */
module SkillBackupTheorems {
  import opened Text
  import opened Paths
  import opened RelPaths
  import opened Stamps
  import opened SkillBackups
  import opened Sets

  // ---- Pruning ----

  /** A backup just written survives the pruning that follows exactly when fewer than five backups are later than it. */
  lemma BackupSurvivesIff(tree: Tree, skill: string, stamp: string, archive: Content, faults: Faults)
    ensures var backup := BackupPath(skill, stamp);
      var written := tree[backup := archive];
      var pruned := Pruned(written, BackupDir(skill), faults);
      && (backup in pruned <==> |Later(Backups(written, BackupDir(skill)), backup)| < 5 || faults.delete(backup))
      && (backup in pruned ==> pruned[backup] == archive)
  {
    var backup, dir := BackupPath(skill, stamp), BackupDir(skill);
    var written := tree[backup := archive];
    SuffixEnds(stamp, BACKUP_SUFFIX);
    assert IsBackup(written, dir, backup);
    forall p | p in Outdated(Backups(written, dir)) && p <= backup ensures p == backup {
      assert dir < p;
      assert |p| == |backup|;
    }
  }

  lemma SuffixEnds(a: string, b: string)
    ensures HasSuffix(a + b, b)
  {
  }

  /** Pruning takes only what is called a backup below that directory, with what lies under it, and leaves the rest as it is. */
  lemma OnlyBackupsArePruned(tree: Tree, dir: Path, faults: Faults, p: Path)
    ensures var pruned := Pruned(tree, dir, faults);
      && (p in pruned ==> p in tree && pruned[p] == tree[p])
      && (p in tree && p !in pruned ==> exists b :: b in tree && dir < b <= p && EndsAsBackup(b) && !faults.delete(b))
  {
    hide Outdated, Later, PathBefore;
    assert BACKUP_SUFFIX == "-backup.zip";
    if p in tree && p !in Pruned(tree, dir, faults) {
      var b :| b in Outdated(Backups(tree, dir)) && b <= p && !faults.delete(b);
      OutdatedIsBackup(Backups(tree, dir), b);
      assert b in tree && dir < b <= p && EndsAsBackup(b);
    }
  }

  lemma OutdatedIsBackup(backups: set<Path>, b: Path)
    requires b in Outdated(backups)
    ensures b in backups
  {
  }

  predicate EndsAsBackup(p: Path) {
    p != [] && |p[|p| - 1]| >= 11 && p[|p| - 1][|p[|p| - 1]| - 11..] == "-backup.zip"
  }

  /** At most five backups remain, and none is lost while there are no more than five. */
  lemma PruningKeepsFive(tree: Tree, dir: Path, faults: Faults)
    requires Segmented(tree) && forall p :: !faults.delete(p)
    ensures |Backups(Pruned(tree, dir, faults), dir)| <= 5
    ensures |Backups(tree, dir)| <= 5 ==> Pruned(tree, dir, faults) == tree
  {
    var all := Backups(tree, dir);
    var kept := all - Outdated(all);
    FewAreCurrent(all);
    forall p | p in Backups(Pruned(tree, dir, faults), dir) ensures p in kept {
      assert p in Pruned(tree, dir, faults) && IsBackup(tree, dir, p);
      assert p in Outdated(all) ==> faults.delete(p) by { assert p <= p; }
    }
    SubsetIsSmaller(Backups(Pruned(tree, dir, faults), dir), kept);
    if |all| <= KEPT_BACKUPS {
      forall p | p in all ensures p !in Outdated(all) {
        StringLessIsStrictOrder();
        assert p !in Later(all, p);
        SubsetIsSmaller(Later(all, p), all - {p});
      }
      assert Outdated(all) == {};
    }
  }

  lemma FewAreCurrent(all: set<Path>)
    requires forall p :: p in all ==> p != [] && forall s :: s in p ==> '/' !in s
    ensures |all - Outdated(all)| <= KEPT_BACKUPS
  {
    var kept := all - Outdated(all);
    if |kept| > KEPT_BACKUPS {
      EarliestExists(kept);
      var first :| first in kept && forall q :: q in kept ==> q == first || PathBefore(first, q);
      EarliestIsOutdated(all, kept, first);
    }
  }

  /** Backups of one skill sort by their stamps. */
  lemma BackupsSortByStamp(skill: string, s1: string, s2: string)
    requires |s1| == |s2|
    ensures PathBefore(BackupPath(skill, s1), BackupPath(skill, s2)) == StringLess(s1, s2)
  {
    var front := Join(BackupDir(skill), '/') + "/";
    JoinSnoc(BackupDir(skill), s1 + BACKUP_SUFFIX, '/');
    JoinSnoc(BackupDir(skill), s2 + BACKUP_SUFFIX, '/');
    LessCancelsPrefix(front, s1 + BACKUP_SUFFIX, s2 + BACKUP_SUFFIX);
    LessSplits(s1, s2, BACKUP_SUFFIX, BACKUP_SUFFIX);
    NotLessThanItself(BACKUP_SUFFIX);
  }

  lemma StampWidth(t: Instant)
    ensures |Stamp(t)| == 16
  {
    DigitsWidth(t.year, 4);
    DigitsWidth(t.month, 2);
    DigitsWidth(t.day, 2);
    DigitsWidth(t.hour, 2);
    DigitsWidth(t.minute, 2);
    DigitsWidth(t.second, 2);
    hide Digits;
  }

  /** `p` is a backup of the skill taken at some instant that is not after `now`. */
  ghost predicate TakenBy(p: Path, skill: string, now: Instant) {
    exists t: Instant :: t.Valid() && !Before(now, t) && p == BackupPath(skill, Stamp(t))
  }

  ghost predicate AllTakenBy(backups: set<Path>, skill: string, now: Instant) {
    forall p :: p in backups ==> TakenBy(p, skill, now)
  }

  /** With a clock that does not run backwards, no backup is later than the one being taken. */
  lemma NewestIsLast(backups: set<Path>, skill: string, now: Instant)
    requires now.Valid() && AllTakenBy(backups - {BackupPath(skill, Stamp(now))}, skill, now)
    ensures Later(backups, BackupPath(skill, Stamp(now))) == {}
  {
    var backup := BackupPath(skill, Stamp(now));
    forall p | p in backups ensures !PathBefore(backup, p) {
      if p == backup {
        NotLessThanItself(Join(backup, '/'));
      } else {
        assert TakenBy(p, skill, now);
        var t: Instant :| t.Valid() && !Before(now, t) && p == BackupPath(skill, Stamp(t));
        StampWidth(now);
        StampWidth(t);
        BackupsSortByStamp(skill, Stamp(now), Stamp(t));
        StampOrder(now, t);
      }
    }
  }

  // ---- Copying touches the target alone ----

  ghost predicate Same(a: Tree, b: Tree, p: Path) {
    (p in a <==> p in b) && (p in a ==> a[p] == b[p])
  }

  lemma {:induction false} CopyStaysInside(tree: Tree, target: Path, files: seq<SkillFile>, faults: Faults, p: Path)
    requires (forall f :: f in files ==> f.rel != []) && !(target < p)
    ensures Same(CopyOver(tree, target, files, faults), tree, p)
  {
    if files != [] {
      CopyStaysInside(tree, target, files[..|files| - 1], faults, p);
      assert files[|files| - 1] in files;
      assert target < target + files[|files| - 1].rel;
    }
  }

  /** `out` is `tree` with exactly the bytes of `files` put below `target`. */
  ghost predicate Delivered(out: Tree, tree: Tree, target: Path, files: seq<SkillFile>) {
    && (forall f :: f in files ==> target + f.rel in out && out[target + f.rel] == f.data)
    && (forall p :: (forall f :: f in files ==> p != target + f.rel) ==> Same(out, tree, p))
  }

  lemma DeliverOneMore(before: Tree, tree: Tree, target: Path, front: seq<SkillFile>, last: SkillFile)
    requires Delivered(before, tree, target, front) && forall f :: f in front ==> f.rel != last.rel
    ensures Delivered(before[target + last.rel := last.data], tree, target, front + [last])
  {
    var files, out := front + [last], before[target + last.rel := last.data];
    assert forall f :: f in files <==> f in front || f == last;
    forall f | f in files ensures target + f.rel in out && out[target + f.rel] == f.data {
      if f in front { assert (target + f.rel)[|target|..] == f.rel && (target + last.rel)[|target|..] == last.rel; }
    }
    forall p | (forall f :: f in files ==> p != target + f.rel) ensures Same(out, tree, p) {
      assert last in files && p != target + last.rel;
      assert forall f :: f in front ==> p != target + f.rel;
      assert Same(before, tree, p);
    }
  }

  ghost predicate DistinctRels(files: seq<SkillFile>) {
    forall i, j :: 0 <= i < j < |files| ==> files[i].rel != files[j].rel
  }

  lemma LastIsNew(files: seq<SkillFile>)
    requires files != [] && DistinctRels(files)
    ensures files == files[..|files| - 1] + [files[|files| - 1]] && DistinctRels(files[..|files| - 1])
    ensures forall f :: f in files[..|files| - 1] ==> f in files && f.rel != files[|files| - 1].rel
  {
  }

  /** A completed copy leaves every source file's bytes at the target, and no other stored file changes. */
  lemma {:induction false} CopyDelivers(tree: Tree, target: Path, files: seq<SkillFile>, faults: Faults)
    requires !CopyFails(target, files, faults) && DistinctRels(files)
    ensures Delivered(CopyOver(tree, target, files, faults), tree, target, files)
  {
    if files != [] {
      LastIsNew(files);
      CopyDelivers(tree, target, files[..|files| - 1], faults);
      DeliverOneMore(CopyOver(tree, target, files[..|files| - 1], faults), tree, target, files[..|files| - 1], files[|files| - 1]);
      hide Delivered;
    }
  }

  // ---- Unpacking a backup ----

  /** Whatever an archive calls its files, what is restored lies below the target under plain names. */
  lemma RestoreRelStaysInside(name: Path)
    ensures RestoreRel(name).Some? ==> RestoreRel(name).value != [] && forall s :: s in RestoreRel(name).value ==> PlainSegment(s)
    ensures |name| > 1 && name[0] == "" ==> RestoreRel(name) == None
  {
    var clean := CleanRel(name);
    if RestoreRel(name).Some? {
      forall j | 0 <= j < |clean| ensures PlainSegment(clean[j]) {
        CleanHasNoDots(name, clean[j]);
        if clean[j] == ".." { CleanDotDotsLead(name, 0, j); }
      }
    }
  }

  /** The number of files restored is that of the archive's files that can be. */
  function RestoredAt(target: Path, files: seq<ZipFile>, faults: Faults): set<nat> {
    set i: nat | i < |files| && !IsDir(files[i]) && RestoreRel(files[i].name).Some? && files[i].data.Some?
      && !faults.write(target + RestoreRel(files[i].name).value)
  }

  lemma {:induction false} CountRestoredMeans(target: Path, files: seq<ZipFile>, faults: Faults)
    ensures CountRestored(target, files, faults) == |RestoredAt(target, files, faults)|
  {
    if files == [] {
      assert RestoredAt(target, files, faults) == {};
    } else {
      CountRestoredMeans(target, files[..|files| - 1], faults);
      RestoredStep(target, files, faults);
      hide RestoredAt, Restores;
    }
  }

  lemma RestoredStep(target: Path, files: seq<ZipFile>, faults: Faults)
    requires files != []
    ensures var front, n := files[..|files| - 1], |files| - 1;
      RestoredAt(target, files, faults) == RestoredAt(target, front, faults) + (if Restores(target, files[n], faults) then {n} else {})
      && n !in RestoredAt(target, front, faults)
  {
    hide RestoreRel, IsDir;
  }

  ghost predicate PlainFiles(saved: seq<SkillFile>) {
    forall i :: 0 <= i < |saved| ==> saved[i].rel != [] && forall s :: s in saved[i].rel ==> PlainSegment(s)
  }

  /** The names that the scan before a rollback refuses, although a skill may hold files called so. */
  predicate RefusedName(rel: Path) {
    rel != [] && (HasPrefix(rel[0], "..") || exists i :: 0 <= i < |rel| - 1 && HasSuffix(rel[i], ".."))
  }

  function SavedBytes(saved: seq<SkillFile>): nat {
    if saved == [] then 0 else SavedBytes(saved[..|saved| - 1]) + Size(saved[|saved| - 1].data)
  }

  lemma PlainNameRestores(f: SkillFile)
    requires f.rel != [] && forall s :: s in f.rel ==> PlainSegment(s)
    ensures var z := ZipFile(f.rel, Size(f.data), Some(f.data));
      !IsDir(z) && RestoreRel(f.rel) == (if RefusedName(f.rel) then None else Some(f.rel))
  {
    CleanKeepsPlainPaths(f.rel);
    assert PlainSegment(f.rel[0]) && PlainSegment(f.rel[|f.rel| - 1]);
  }

  lemma {:induction false} ArchiveSize(saved: seq<SkillFile>)
    requires PlainFiles(saved)
    ensures TotalSize(ArchiveOf(saved)) == SavedBytes(saved)
  {
    if saved != [] {
      var front := saved[..|saved| - 1];
      ArchiveSize(front);
      PlainNameRestores(saved[|saved| - 1]);
      assert ArchiveOf(saved)[..|saved| - 1] == ArchiveOf(front);
    }
  }

  /** A skill that was backed up can be rolled back to exactly when its names and sizes pass these limits. */
  lemma RollbackPossibleIff(saved: seq<SkillFile>)
    requires PlainFiles(saved)
    ensures ScanPasses(ArchiveOf(saved)) <==>
      && (forall f :: f in saved ==> !RefusedName(f.rel) && Size(f.data) <= 20 * 1024 * 1024)
      && SavedBytes(saved) <= 100 * 1024 * 1024
  {
    ArchiveSize(saved);
    var archive := ArchiveOf(saved);
    forall i | 0 <= i < |saved|
      ensures Restorable(archive[i]) == (!RefusedName(saved[i].rel) && Size(saved[i].data) <= MAX_FILE_BYTES)
    {
      PlainNameRestores(saved[i]);
    }
    hide Restorable, RefusedName, TotalSize, SavedBytes;
    forall f | f in saved && ScanPasses(archive) ensures !RefusedName(f.rel) && Size(f.data) <= MAX_FILE_BYTES {
      var i :| 0 <= i < |saved| && saved[i] == f;
      assert archive[i] in archive;
    }
    if forall f :: f in saved ==> !RefusedName(f.rel) && Size(f.data) <= MAX_FILE_BYTES {
      forall z | z in archive ensures Restorable(z) {
        var i :| 0 <= i < |archive| && archive[i] == z;
        assert saved[i] in saved;
      }
    }
  }

  /** Unpacking yields the saved files and changes nothing else. */
  lemma {:induction false} UnpackDelivers(tree: Tree, target: Path, saved: seq<SkillFile>, faults: Faults)
    requires PlainFiles(saved) && (forall f :: f in saved ==> !RefusedName(f.rel)) && DistinctRels(saved)
    requires forall p :: target < p ==> !faults.write(p)
    ensures Delivered(Unpacked(tree, target, ArchiveOf(saved), faults), tree, target, saved)
  {
    if saved != [] {
      var front, last := saved[..|saved| - 1], saved[|saved| - 1];
      LastIsNew(saved);
      assert last in saved;
      UnpackDelivers(tree, target, front, faults);
      UnpackLast(tree, target, saved, faults);
      DeliverOneMore(Unpacked(tree, target, ArchiveOf(front), faults), tree, target, front, last);
    }
  }

  lemma UnpackLast(tree: Tree, target: Path, saved: seq<SkillFile>, faults: Faults)
    requires saved != [] && PlainFiles(saved) && !RefusedName(saved[|saved| - 1].rel)
    requires forall p :: target < p ==> !faults.write(p)
    ensures var last := saved[|saved| - 1];
      Unpacked(tree, target, ArchiveOf(saved), faults) == Unpacked(tree, target, ArchiveOf(saved[..|saved| - 1]), faults)[target + last.rel := last.data]
  {
    var last := saved[|saved| - 1];
    assert ArchiveOf(saved)[..|saved| - 1] == ArchiveOf(saved[..|saved| - 1]);
    PlainNameRestores(last);
    assert target < target + last.rel;
    hide RestoreRel, RefusedName, IsDir;
  }

  lemma ClearedBelow(tree: Tree, target: Path, faults: Faults, p: Path)
    requires forall q :: target < q ==> !faults.delete(q)
    ensures target < p ==> p !in Cleared(tree, target, faults)
    ensures !(target < p) ==> Same(Cleared(tree, target, faults), tree, p)
  {
    if target < p { assert p <= p; }
  }

  // ---- The round trip ----

  /** The tree that a rollback to the backup of `saved` leaves after the copy. */
  function TreeAfterRollback(tree: Tree, target: Path, saved: seq<SkillFile>, faults: Faults): Tree {
    Unpacked(Cleared(tree, target, faults), target, ArchiveOf(saved), faults)
  }

  lemma CopyKeepsBackup(tree: Tree, target: Path, files: seq<SkillFile>, stamp: string, archive: Content, faults: Faults)
    requires target != [] && target[0] != "settings" && !faults.write(BackupPath(Base(target), stamp))
    requires forall f :: f in files ==> f.rel != []
    requires var backup, dir := BackupPath(Base(target), stamp), BackupDir(Base(target));
      |Later(Backups(tree[backup := archive], dir), backup)| < KEPT_BACKUPS
    ensures var backup := BackupPath(Base(target), stamp);
      var copied := TreeAfterCopy(tree, target, files, stamp, Some(archive), faults);
      backup in copied && copied[backup] == archive
  {
    var skill := Base(target);
    var backup := BackupPath(skill, stamp);
    BackupSurvivesIff(tree, skill, stamp, archive, faults);
    assert !(target < backup) by { assert backup[0] == "settings"; }
    CopyStaysInside(Pruned(tree[backup := archive], BackupDir(skill), faults), target, files, faults, backup);
  }

  lemma CopyLeavesTheRest(tree: Tree, target: Path, files: seq<SkillFile>, stamp: string, archive: Content, faults: Faults, p: Path)
    requires target != [] && (forall f :: f in files ==> f.rel != []) && !(target < p) && !(BackupDir(Base(target)) < p)
    ensures Same(TreeAfterCopy(tree, target, files, stamp, Some(archive), faults), tree, p)
  {
    var skill := Base(target);
    var written := Written(tree, BackupPath(skill, stamp), archive, faults);
    var pruned := Pruned(written, BackupDir(skill), faults);
    assert Same(pruned, tree, p) by {
      forall q | q in Outdated(Backups(written, BackupDir(skill))) ensures !(q <= p) { assert BackupDir(skill) < q; }
    }
    CopyStaysInside(pruned, target, files, faults, p);
  }

  /**
   * An overwrite followed by a rollback to the backup it took restores exactly the old files of the target, whatever
   * was copied over them; outside the target and the skill's backups nothing changes.
   */
  lemma RollbackUndoesOverwrite(tree: Tree, target: Path, files: seq<SkillFile>, saved: seq<SkillFile>, now: Instant, zipSize: nat, faults: Faults)
    requires target != [] && target[0] != "settings" && (forall f :: f in files ==> f.rel != [])
    requires Collects(saved, tree, target) && saved != [] && PlainFiles(saved) && ScanPasses(ArchiveOf(saved))
    requires now.Valid() && AllTakenBy(Backups(tree, BackupDir(Base(target))), Base(target), now)
    requires (forall p :: target < p ==> !faults.write(p) && !faults.delete(p)) && !faults.write(BackupPath(Base(target), Stamp(now)))
    ensures var skill := Base(target);
      var archive := Archive(ArchiveOf(saved), zipSize);
      var copied := TreeAfterCopy(tree, target, files, Stamp(now), Some(archive), faults);
      var back := TreeAfterRollback(copied, target, saved, faults);
      && BackupPath(skill, Stamp(now)) in copied && copied[BackupPath(skill, Stamp(now))] == archive
      && ValidBackupPath(target, BackupPath(skill, Stamp(now)))
      && forall p :: target < p || !(BackupDir(skill) < p) ==> Same(back, tree, p)
  {
    var skill := Base(target);
    var backup, archive := BackupPath(skill, Stamp(now)), Archive(ArchiveOf(saved), zipSize);
    NewBackupIsLast(tree, skill, now, archive);
    CopyKeepsBackup(tree, target, files, Stamp(now), archive, faults);
    SuffixEnds(Stamp(now), BACKUP_SUFFIX);
    RollbackPossibleIff(saved);
    var copied := TreeAfterCopy(tree, target, files, Stamp(now), Some(archive), faults);
    RestoresSaved(copied, tree, target, saved, faults);
    hide TreeAfterCopy, TreeAfterRollback, Backups, Stamp, Same, Collects, PlainFiles, ScanPasses, AllTakenBy;
    forall p | !(target < p) && !(BackupDir(skill) < p) ensures Same(TreeAfterRollback(copied, target, saved, faults), tree, p) {
      CopyLeavesTheRest(tree, target, files, Stamp(now), archive, faults, p);
      SameThrough(TreeAfterRollback(copied, target, saved, faults), copied, tree, p);
    }
  }

  lemma NewBackupIsLast(tree: Tree, skill: string, now: Instant, archive: Content)
    requires now.Valid() && AllTakenBy(Backups(tree, BackupDir(skill)), skill, now)
    ensures var backup := BackupPath(skill, Stamp(now));
      Later(Backups(tree[backup := archive], BackupDir(skill)), backup) == {}
  {
    var backup, dir := BackupPath(skill, Stamp(now)), BackupDir(skill);
    var all := Backups(tree[backup := archive], dir);
    hide TakenBy, Stamp;
    forall p | p in all - {backup} ensures TakenBy(p, skill, now) { assert p in Backups(tree, dir); }
    NewestIsLast(all, skill, now);
  }

  lemma SameThrough(a: Tree, b: Tree, c: Tree, p: Path)
    requires Same(a, b, p) && Same(b, c, p)
    ensures Same(a, c, p)
  {
  }

  lemma RestoresSaved(copied: Tree, tree: Tree, target: Path, saved: seq<SkillFile>, faults: Faults)
    requires Collects(saved, tree, target) && PlainFiles(saved) && (forall f :: f in saved ==> !RefusedName(f.rel))
    requires forall p :: target < p ==> !faults.write(p) && !faults.delete(p)
    ensures var back := TreeAfterRollback(copied, target, saved, faults);
      && (forall p :: target < p ==> Same(back, tree, p))
      && (forall p :: !(target < p) ==> Same(back, copied, p))
  {
    var cleared := Cleared(copied, target, faults);
    UnpackDelivers(cleared, target, saved, faults);
    var back := TreeAfterRollback(copied, target, saved, faults);
    assert back == Unpacked(cleared, target, ArchiveOf(saved), faults);
    hide Unpacked, Cleared, PlainFiles, RefusedName;
    forall p | target < p ensures Same(back, tree, p) {
      ClearedBelow(copied, target, faults, p);
      if p in tree {
        assert Below(tree, target, p);
        var i :| 0 <= i < |saved| && target + saved[i].rel == p;
        assert saved[i] in saved;
        assert back[p] == saved[i].data;
      } else {
        forall f | f in saved ensures p != target + f.rel {
          var i :| 0 <= i < |saved| && saved[i] == f;
          assert Below(tree, target, target + saved[i].rel);
        }
        assert Same(back, cleared, p);
      }
    }
    forall p | !(target < p) ensures Same(back, copied, p) {
      ClearedBelow(copied, target, faults, p);
      forall f | f in saved ensures p != target + f.rel {
        var i :| 0 <= i < |saved| && saved[i] == f;
        assert Below(tree, target, target + saved[i].rel);
      }
      assert Same(back, cleared, p);
    }
  }

  function NoFaults(): Faults {
    Faults(_ => false, _ => false)
  }

  /** For instance: a skill of one file, overwritten with another one, and rolled back. */
  lemma RollbackExample(now: Instant)
    requires now.Valid()
    ensures var tree: Tree := map[["skills", "a", "f"] := Plain("x")];
      var saved := [SkillFile(["f"], Plain("x"))];
      var copied := TreeAfterCopy(tree, ["skills", "a"], [SkillFile(["g"], Plain("y"))], Stamp(now), Some(Archive(ArchiveOf(saved), 1)), NoFaults());
      var back := TreeAfterRollback(copied, ["skills", "a"], saved, NoFaults());
      ["skills", "a", "f"] in back && back[["skills", "a", "f"]] == Plain("x") && ["skills", "a", "g"] !in back
  {
    hide Stamp, TreeAfterCopy, TreeAfterRollback, ScanPasses, PlainFiles;
    var tree: Tree := map[["skills", "a", "f"] := Plain("x")];
    var target: Path := ["skills", "a"];
    var saved := [SkillFile(["f"], Plain("x"))];
    var files := [SkillFile(["g"], Plain("y"))];
    OneFile(tree, target, saved);
    NoBackups(tree, target, now);
    RollbackUndoesOverwrite(tree, target, files, saved, now, 1, NoFaults());
    var copied := TreeAfterCopy(tree, target, files, Stamp(now), Some(Archive(ArchiveOf(saved), 1)), NoFaults());
    var back := TreeAfterRollback(copied, target, saved, NoFaults());
    var f: Path, g: Path := ["skills", "a", "f"], ["skills", "a", "g"];
    assert target < f && target < g && f[2] != g[2];
    assert Same(back, tree, f) && Same(back, tree, g);
  }

  lemma OneFile(tree: Tree, target: Path, saved: seq<SkillFile>)
    requires tree == map[["skills", "a", "f"] := Plain("x")] && target == ["skills", "a"] && saved == [SkillFile(["f"], Plain("x"))]
    ensures Collects(saved, tree, target) && PlainFiles(saved) && ScanPasses(ArchiveOf(saved))
  {
    assert target + ["f"] == ["skills", "a", "f"];
    assert PlainSegment("f");
    assert saved[..0] == [];
    assert SavedBytes(saved) == SavedBytes(saved[..0]) + 1 == 1;
    RollbackPossibleIff(saved);
  }

  /** A skill whose file has a name that begins with two dots: its backup is taken but cannot be rolled back to. */
  lemma DottedNameBlocksRollback(tree: Tree, saved: seq<SkillFile>)
    requires tree == map[["skills", "a", "..f"] := Plain("x")] && saved == [SkillFile(["..f"], Plain("x"))]
    ensures Collects(saved, tree, ["skills", "a"]) && PlainFiles(saved) && !ScanPasses(ArchiveOf(saved))
  {
    assert ["skills", "a"] + ["..f"] == ["skills", "a", "..f"];
    assert PlainSegment("..f") && HasPrefix("..f", "..");
    assert saved[0] in saved && RefusedName(saved[0].rel);
    RollbackPossibleIff(saved);
  }

  lemma NoBackups(tree: Tree, target: Path, now: Instant)
    requires tree == map[["skills", "a", "f"] := Plain("x")] && target == ["skills", "a"]
    ensures AllTakenBy(Backups(tree, BackupDir(Base(target))), Base(target), now)
  {
    var p: Path := ["skills", "a", "f"];
    assert p[0] == "skills" && BackupDir(Base(target))[0] == "settings";
    assert !(BackupDir(Base(target)) < p);
    assert Backups(tree, BackupDir(Base(target))) == {};
  }
}
