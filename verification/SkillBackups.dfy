/** Copying a team skill over a personal one: the backup it takes, pruning old backups, and rolling back to one. */
module SkillBackups {
  import opened Text
  import opened Paths
  import opened RelPaths
  import opened Sets

  const MAX_FILE_BYTES := 20 * 1024 * 1024
  const MAX_TOTAL_BYTES := 100 * 1024 * 1024
  const KEPT_BACKUPS := 5

  /** What a stored file holds: plain bytes, or a zip archive of `size` bytes. */
  datatype Content = Plain(bytes: string) | Archive(files: seq<ZipFile>, size: nat)

  /** A file of an archive; `data` is None when it cannot be read, `size` is the declared uncompressed size. */
  datatype ZipFile = ZipFile(name: Path, size: nat, data: Option<Content>)

  /** A file of a skill, by its path below the skill directory. */
  datatype SkillFile = SkillFile(rel: Path, data: Content)

  type Tree = map<Path, Content>

  /** Writes to, and deletions of, these paths fail. */
  datatype Faults = Faults(write: Path -> bool, delete: Path -> bool)

  function Size(c: Content): nat {
    match c
    case Plain(bytes) => |bytes|
    case Archive(_, size) => size
  }

  function HasSuffix(s: string, suffix: string): bool {
    |suffix| <= |s| && s[|s| - |suffix|..] == suffix
  }

  /** A name that ends in a slash is a directory. */
  predicate IsDir(f: ZipFile) {
    f.name != [] && f.name[|f.name| - 1] == ""
  }

  /** path.Base. */
  function Base(p: Path): string
    requires p != []
  {
    p[|p| - 1]
  }

  // ---- The store ----

  function Deleted(tree: Tree, p: Path, faults: Faults): Tree {
    if faults.delete(p) then tree else map q | q in tree && !(p <= q) :: tree[q]
  }

  function Written(tree: Tree, p: Path, c: Content, faults: Faults): Tree {
    if faults.write(p) then tree else tree[p := c]
  }

  predicate Below(tree: Tree, dir: Path, p: Path) {
    p in tree && dir < p
  }

  /** `files` lists what is stored below `dir`, each file once. */
  ghost predicate Collects(files: seq<SkillFile>, tree: Tree, dir: Path) {
    && (forall i :: 0 <= i < |files| ==> files[i].rel != [] && Below(tree, dir, dir + files[i].rel) && files[i].data == tree[dir + files[i].rel])
    && (forall i, j :: 0 <= i < j < |files| ==> files[i].rel != files[j].rel)
    && (forall p :: Below(tree, dir, p) ==> exists i :: 0 <= i < |files| && dir + files[i].rel == p)
  }

  // ---- Pruning ----

  const BACKUP_SUFFIX := "-backup.zip"

  function BackupDir(skill: string): Path {
    ["settings", "team-skill-backups", skill]
  }

  function BackupPath(skill: string, stamp: string): Path {
    BackupDir(skill) + [stamp + BACKUP_SUFFIX]
  }

  predicate IsBackup(tree: Tree, dir: Path, p: Path) {
    Below(tree, dir, p) && HasSuffix(p[|p| - 1], BACKUP_SUFFIX)
  }

  function Backups(tree: Tree, dir: Path): set<Path> {
    set p | p in tree && IsBackup(tree, dir, p)
  }

  /** Paths in the order of the strings they are written as. */
  predicate PathBefore(p: Path, q: Path) {
    StringLess(Join(p, '/'), Join(q, '/'))
  }

  function Later(backups: set<Path>, p: Path): set<Path> {
    set q | q in backups && PathBefore(p, q)
  }

  /** The backups with five or more later ones. */
  function Outdated(backups: set<Path>): set<Path> {
    set p | p in backups && |Later(backups, p)| >= KEPT_BACKUPS
  }

  function Pruned(tree: Tree, dir: Path, faults: Faults): Tree {
    map q | q in tree && forall p :: p in Outdated(Backups(tree, dir)) && p <= q ==> faults.delete(p) :: tree[q]
  }

  /** Segments contain no slash, so that distinct paths are distinct strings. */
  ghost predicate Segmented(tree: Tree) {
    forall p :: p in tree ==> p != [] && forall s :: s in p ==> '/' !in s
  }

  lemma OrderIsTotal(p: Path, q: Path)
    requires p != [] && q != [] && (forall s :: s in p ==> '/' !in s) && (forall s :: s in q ==> '/' !in s)
    ensures p == q || PathBefore(p, q) || PathBefore(q, p)
  {
    StringLessIsStrictOrder();
    SplitUndoesJoin(p, '/');
    SplitUndoesJoin(q, '/');
  }

  lemma {:induction false} EarliestExists(backups: set<Path>)
    requires backups != {} && forall p :: p in backups ==> p != [] && forall s :: s in p ==> '/' !in s
    ensures exists p :: p in backups && forall q :: q in backups ==> q == p || PathBefore(p, q)
  {
    StringLessIsStrictOrder();
    var p :| p in backups;
    if backups == {p} {
      assert forall q :: q in backups ==> q == p;
    } else {
      var rest := backups - {p};
      EarliestExists(rest);
      var first :| first in rest && forall q :: q in rest ==> q == first || PathBefore(first, q);
      OrderIsTotal(p, first);
      var least := if PathBefore(p, first) then p else first;
      forall q | q in backups ensures q == least || PathBefore(least, q) {
        if q != p { assert q in rest; }
      }
    }
  }

  // ---- Copying and rolling back, as functions ----

  function CopyOver(tree: Tree, target: Path, files: seq<SkillFile>, faults: Faults): Tree {
    if files == [] then tree
    else
      var last := files[|files| - 1];
      if CopyFails(target, files, faults) then CopyOver(tree, target, files[..|files| - 1], faults)
      else CopyOver(tree, target, files[..|files| - 1], faults)[target + last.rel := last.data]
  }

  /** A write that fails ends the copy. */
  predicate CopyFails(target: Path, files: seq<SkillFile>, faults: Faults) {
    exists f :: f in files && faults.write(target + f.rel)
  }

  function ArchiveOf(files: seq<SkillFile>): seq<ZipFile> {
    seq(|files|, i requires 0 <= i < |files| => ZipFile(files[i].rel, Size(files[i].data), Some(files[i].data)))
  }

  /** Where below the target an archived name goes, if it may go anywhere. */
  function RestoreRel(name: Path): Option<Path> {
    var clean := CleanRel(name);
    if |name| > 1 && name[0] == "" then None
    else if clean == [] || HasPrefix(clean[0], "..") then None
    else if exists i :: 0 <= i < |clean| - 1 && HasSuffix(clean[i], "..") then None
    else Some(clean)
  }

  function TotalSize(files: seq<ZipFile>): nat {
    if files == [] then 0
    else TotalSize(files[..|files| - 1]) + if IsDir(files[|files| - 1]) then 0 else files[|files| - 1].size
  }

  predicate Restorable(f: ZipFile) {
    IsDir(f) || (RestoreRel(f.name).Some? && f.size <= MAX_FILE_BYTES)
  }

  /** What the scan before a rollback lets through. */
  predicate ScanPasses(files: seq<ZipFile>) {
    (forall f :: f in files ==> Restorable(f)) && TotalSize(files) <= MAX_TOTAL_BYTES
  }

  /** The tree without the files below `target`, as far as they can be deleted. */
  function Cleared(tree: Tree, target: Path, faults: Faults): Tree {
    map q | q in tree && forall p :: p in tree && target < p <= q ==> faults.delete(p) :: tree[q]
  }

  predicate Restores(target: Path, f: ZipFile, faults: Faults) {
    !IsDir(f) && RestoreRel(f.name).Some? && f.data.Some? && !faults.write(target + RestoreRel(f.name).value)
  }

  function Unpacked(tree: Tree, target: Path, files: seq<ZipFile>, faults: Faults): Tree {
    if files == [] then tree
    else
      var before, last := Unpacked(tree, target, files[..|files| - 1], faults), files[|files| - 1];
      if Restores(target, last, faults) then before[target + RestoreRel(last.name).value := last.data.value] else before
  }

  function CountRestored(target: Path, files: seq<ZipFile>, faults: Faults): nat {
    if files == [] then 0
    else CountRestored(target, files[..|files| - 1], faults) + if Restores(target, files[|files| - 1], faults) then 1 else 0
  }

  predicate ValidBackupPath(target: Path, p: Path)
    requires target != []
  {
    BackupDir(Base(target)) < p && HasSuffix(p[|p| - 1], BACKUP_SUFFIX)
  }

  /** By its segments: below the backups of the skill that the target is named after, with the ending of a backup. */
  lemma ValidBackupPathIff(target: Path, p: Path)
    requires target != []
    ensures ValidBackupPath(target, p) <==>
      && |p| > 3 && p[0] == "settings" && p[1] == "team-skill-backups" && p[2] == target[|target| - 1]
      && |p[|p| - 1]| >= 11 && p[|p| - 1][|p[|p| - 1]| - 11..] == "-backup.zip"
  {
    var dir := BackupDir(Base(target));
    assert |BACKUP_SUFFIX| == 11;
    assert |p| > 3 && p[0] == "settings" && p[1] == "team-skill-backups" && p[2] == Base(target) ==> p[..3] == dir;
    assert dir < p ==> p[0] == dir[0] && p[1] == dir[1] && p[2] == dir[2];
  }

  /** The backups of a skill are not those of a target with another name. */
  lemma OtherBackupIsRefused(target: Path, other: Path, stamp: string)
    requires target != [] && other != [] && target[|target| - 1] != other[|other| - 1]
    ensures !ValidBackupPath(target, BackupPath(Base(other), stamp))
  {
    assert BackupPath(Base(other), stamp)[2] == Base(other);
    ValidBackupPathIff(target, BackupPath(Base(other), stamp));
  }

  datatype CopyResult = ReadFailed | Conflict | CopyFailed(backup: Option<Content>) | Copied(backup: Option<Content>)
  datatype RollbackResult = BadPath | NoBackup | NotAnArchive | Refused | RolledBack(restored: nat)

  /** The tree after the backup (if there was anything to back up), the pruning and the copy. */
  function TreeAfterCopy(tree: Tree, target: Path, files: seq<SkillFile>, stamp: string, backup: Option<Content>, faults: Faults): Tree
    requires target != []
  {
    var skill := Base(target);
    var kept := match backup
      case None => tree
      case Some(archive) => Pruned(Written(tree, BackupPath(skill, stamp), archive, faults), BackupDir(skill), faults);
    CopyOver(kept, target, files, faults)
  }

  // ---- The store in place ----

  class Store {
    var tree: Tree

    constructor (initial: Tree)
      ensures tree == initial
    {
      tree := initial;
    }

    method Delete(p: Path, faults: Faults)
      modifies this
      ensures tree == Deleted(old(tree), p, faults)
    {
      if !faults.delete(p) {
        tree := map q | q in tree && !(p <= q) :: tree[q];
      }
    }

    method Collect(dir: Path) returns (files: seq<SkillFile>)
      ensures Collects(files, tree, dir)
    {
      files := [];
      var pending := set p | p in tree && dir < p;
      while pending != {}
        invariant forall p :: p in pending ==> Below(tree, dir, p)
        invariant forall i :: 0 <= i < |files| ==>
          files[i].rel != [] && Below(tree, dir, dir + files[i].rel) && files[i].data == tree[dir + files[i].rel] && dir + files[i].rel !in pending
        invariant forall i, j :: 0 <= i < j < |files| ==> files[i].rel != files[j].rel
        invariant forall p :: Below(tree, dir, p) ==> p in pending || exists i :: 0 <= i < |files| && dir + files[i].rel == p
        decreases pending
      {
        var p :| p in pending;
        assert dir + p[|dir|..] == p;
        ghost var before := files;
        files := files + [SkillFile(p[|dir|..], tree[p])];
        pending := pending - {p};
        assert files[|before|].rel == p[|dir|..];
        assert forall i :: 0 <= i < |before| ==> files[i] == before[i];
      }
    }

    /** Deletes all but the five latest backups below `dir`. */
    method Prune(dir: Path, faults: Faults)
      requires Segmented(tree)
      modifies this
      ensures tree == Pruned(old(tree), dir, faults)
    {
      ghost var before := tree;
      ghost var all := Backups(before, dir);
      hide Join, StringLess, HasSuffix, Outdated;
      var pending := Backups(tree, dir);
      while |pending| > KEPT_BACKUPS
        invariant pending <= all
        invariant forall p, q :: p in all - pending && q in pending ==> PathBefore(p, q)
        invariant all - pending <= Outdated(all)
        invariant tree == map q | q in before && forall p :: p in all - pending && p <= q ==> faults.delete(p) :: before[q]
        decreases pending
      {
        ghost var was := pending;
        EarliestExists(pending);
        var first :| first in pending && forall q :: q in pending ==> q == first || PathBefore(first, q);
        EarliestIsOutdated(all, pending, first);
        pending := pending - {first};
        Delete(first, faults);
        assert all - pending == all - was + {first};
      }
      OnlyOutdatedDeleted(all, pending);
    }

    /** `unreadable` paths cannot be looked up; `lists` when the files of the target can be listed for a backup. */
    method Copy(target: Path, files: seq<SkillFile>, overwrite: bool, stamp: string, zipSize: nat, unreadable: set<Path>, lists: bool, faults: Faults)
      returns (result: CopyResult)
      requires target != [] && Segmented(tree) && '/' !in Base(target) && '/' !in stamp
      modifies this
      ensures result.ReadFailed? <==> !overwrite && exists f :: f in files && target + f.rel in unreadable
      ensures result.Conflict? <==> !overwrite && !result.ReadFailed? && exists f :: f in files && target + f.rel in old(tree)
      ensures result.ReadFailed? || result.Conflict? ==> tree == old(tree)
      ensures result.Copied? || result.CopyFailed? ==>
        && tree == TreeAfterCopy(old(tree), target, files, stamp, result.backup, faults)
        && (result.CopyFailed? <==> exists f :: f in files && faults.write(target + f.rel))
        && (result.backup.Some? <==> overwrite && lists && exists p :: Below(old(tree), target, p))
        && (result.backup.Some? ==> exists saved :: Collects(saved, old(tree), target) && result.backup == Some(Archive(ArchiveOf(saved), zipSize)))
    {
      if !overwrite {
        var conflicts := 0;
        for i := 0 to |files|
          invariant forall k :: 0 <= k < i ==> target + files[k].rel !in unreadable
          invariant conflicts == 0 <==> forall k :: 0 <= k < i ==> target + files[k].rel !in tree
        {
          if target + files[i].rel in unreadable {
            return ReadFailed;
          }
          if target + files[i].rel in tree {
            conflicts := conflicts + 1;
          }
        }
        if conflicts > 0 {
          return Conflict;
        }
      }
      var backup := None;
      if overwrite && lists {
        var saved := Collect(target);
        if saved != [] {
          assert Below(tree, target, target + saved[0].rel);
          backup := Some(Archive(ArchiveOf(saved), zipSize));
          var skill := Base(target);
          if !faults.write(BackupPath(skill, stamp)) {
            tree := tree[BackupPath(skill, stamp) := backup.value];
          }
          BackupPathSegmented(skill, stamp);
          Prune(BackupDir(skill), faults);
        }
      }
      var ok := CopyFiles(target, files, faults);
      return if ok then Copied(backup) else CopyFailed(backup);
    }

    method CopyFiles(target: Path, files: seq<SkillFile>, faults: Faults) returns (ok: bool)
      modifies this
      ensures tree == CopyOver(old(tree), target, files, faults) && ok == !CopyFails(target, files, faults)
    {
      for i := 0 to |files|
        invariant tree == CopyOver(old(tree), target, files[..i], faults)
        invariant !CopyFails(target, files[..i], faults)
      {
        assert files[..i + 1][..i] == files[..i];
        if faults.write(target + files[i].rel) {
          assert files[i] in files;
          CopyStops(old(tree), target, files, i, faults);
          return false;
        }
        tree := tree[target + files[i].rel := files[i].data];
      }
      assert files[..|files|] == files;
      return true;
    }

    method Scan(files: seq<ZipFile>) returns (ok: bool)
      ensures ok == ScanPasses(files)
    {
      var total := 0;
      for i := 0 to |files|
        invariant total == TotalSize(files[..i]) <= MAX_TOTAL_BYTES
        invariant forall k :: 0 <= k < i ==> Restorable(files[k])
      {
        assert files[..i + 1][..i] == files[..i];
        if !IsDir(files[i]) {
          if RestoreRel(files[i].name) == None || files[i].size > MAX_FILE_BYTES {
            assert files[i] in files && !Restorable(files[i]);
            return false;
          }
          total := total + files[i].size;
          if total > MAX_TOTAL_BYTES {
            PrefixIsSmaller(files, i + 1);
            return false;
          }
        }
      }
      assert files[..|files|] == files;
      return true;
    }

    method Clear(target: Path, faults: Faults)
      modifies this
      ensures tree == Cleared(old(tree), target, faults)
    {
      var all := set p | p in tree && target < p;
      var pending := all;
      while pending != {}
        invariant pending <= all
        invariant tree == map q | q in old(tree) && forall p :: p in all - pending && p <= q ==> faults.delete(p) :: old(tree)[q]
        decreases pending
      {
        ghost var was := pending;
        var p :| p in pending;
        pending := pending - {p};
        Delete(p, faults);
        assert all - pending == all - was + {p};
      }
      assert all - pending == all;
    }

    method Rollback(target: Path, backupPath: Path, faults: Faults) returns (result: RollbackResult)
      requires target != []
      modifies this
      ensures !result.RolledBack? ==> tree == old(tree)
      ensures !result.BadPath? <==>
        && |backupPath| > 3 && backupPath[0] == "settings" && backupPath[1] == "team-skill-backups" && backupPath[2] == target[|target| - 1]
        && |backupPath[|backupPath| - 1]| >= 11 && backupPath[|backupPath| - 1][|backupPath[|backupPath| - 1]| - 11..] == "-backup.zip"
      ensures result.RolledBack? <==>
        !result.BadPath? && backupPath in old(tree) && old(tree)[backupPath].Archive? && ScanPasses(old(tree)[backupPath].files)
      ensures result.RolledBack? ==>
        var files := old(tree)[backupPath].files;
        tree == Unpacked(Cleared(old(tree), target, faults), target, files, faults) && result.restored == CountRestored(target, files, faults)
    {
      ValidBackupPathIff(target, backupPath);
      if !ValidBackupPath(target, backupPath) {
        return BadPath;
      }
      if backupPath !in tree {
        return NoBackup;
      }
      var content := tree[backupPath];
      if !content.Archive? {
        return NotAnArchive;
      }
      var files := content.files;
      var ok := Scan(files);
      if !ok {
        return Refused;
      }
      Clear(target, faults);
      ghost var cleared := tree;
      var restored := 0;
      for i := 0 to |files|
        invariant tree == Unpacked(cleared, target, files[..i], faults)
        invariant restored == CountRestored(target, files[..i], faults)
      {
        assert files[..i + 1][..i] == files[..i];
        var rel := RestoreRel(files[i].name);
        if !IsDir(files[i]) && rel.Some? && files[i].data.Some? && !faults.write(target + rel.value) {
          tree := tree[target + rel.value := files[i].data.value];
          restored := restored + 1;
        }
      }
      assert files[..|files|] == files;
      return RolledBack(restored);
    }
  }

  /** A backup taken when one skill is overwritten cannot be rolled back to for a skill with another name. */
  method RollbackOther(store: Store, target: Path, files: seq<SkillFile>, stamp: string, zipSize: nat, other: Path, faults: Faults)
    returns (result: RollbackResult)
    requires target != [] && other != [] && target[|target| - 1] != other[|other| - 1]
    requires Segmented(store.tree) && '/' !in Base(target) && '/' !in stamp
    modifies store
    ensures result == BadPath
    ensures exists backup: Option<Content> :: store.tree == TreeAfterCopy(old(store.tree), target, files, stamp, backup, faults)
  {
    var copied := store.Copy(target, files, true, stamp, zipSize, {}, true, faults);
    OtherBackupIsRefused(other, target, stamp);
    ValidBackupPathIff(other, BackupPath(Base(target), stamp));
    hide TreeAfterCopy, ScanPasses, ValidBackupPath, BackupPath;
    result := store.Rollback(other, BackupPath(Base(target), stamp), faults);
  }

  // ---- Lemmas for the loops ----

  lemma {:induction false} PrefixIsSmaller(files: seq<ZipFile>, n: nat)
    requires n <= |files|
    ensures TotalSize(files[..n]) <= TotalSize(files)
  {
    if n == |files| {
      assert files[..n] == files;
    } else {
      PrefixIsSmaller(files[..|files| - 1], n);
      assert files[..|files| - 1][..n] == files[..n];
    }
  }

  lemma {:induction false} CopyStops(tree: Tree, target: Path, files: seq<SkillFile>, i: nat, faults: Faults)
    requires i < |files| && faults.write(target + files[i].rel)
    ensures CopyOver(tree, target, files, faults) == CopyOver(tree, target, files[..i], faults)
  {
    assert files[i] in files;
    assert files[..i + 1][..i] == files[..i];
    if i < |files| - 1 {
      CopyStops(tree, target, files[..|files| - 1], i, faults);
      assert files[..|files| - 1][..i] == files[..i];
    } else {
      assert files[..|files| - 1] == files[..i];
    }
  }

  lemma BackupPathSegmented(skill: string, stamp: string)
    requires '/' !in skill && '/' !in stamp
    ensures forall s :: s in BackupPath(skill, stamp) ==> '/' !in s
  {
  }

  lemma EarliestIsOutdated(all: set<Path>, pending: set<Path>, first: Path)
    requires pending <= all && first in pending && |pending| > KEPT_BACKUPS
    requires forall q :: q in pending ==> q == first || PathBefore(first, q)
    ensures first in Outdated(all)
  {
    SubsetIsSmaller(pending - {first}, Later(all, first));
  }

  lemma OnlyOutdatedDeleted(all: set<Path>, pending: set<Path>)
    requires pending <= all && |pending| <= KEPT_BACKUPS && all - pending <= Outdated(all)
    requires forall p, q :: p in all - pending && q in pending ==> PathBefore(p, q)
    ensures all - pending == Outdated(all)
  {
    StringLessIsStrictOrder();
    forall p | p in pending ensures p !in Outdated(all) {
      forall q | q in Later(all, p) ensures q in pending - {p} {
        assert q in all - pending ==> PathBefore(q, p);
      }
      SubsetIsSmaller(Later(all, p), pending - {p});
    }
  }
}
