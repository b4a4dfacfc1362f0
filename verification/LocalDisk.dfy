/** The local file system under a skill root, as the calls of the Go os package see it. */
module LocalDisk {
  import opened Paths

  /** What json.Unmarshal makes of a marker file; `rest` is everything else in it (version, slug, time, layout). */
  datatype Marker = Marker(managedBy: string, agentId: string, skillPath: Path, scope: string, teamId: string, rest: string)

  /** The bytes of a file: either a text that decodes as a marker or one that does not. */
  datatype Content = Opaque(bytes: seq<bv8>) | Encoded(marker: Marker)

  /** `denied` holds the paths the process may not create or write. */
  datatype FS = FS(files: map<Path, Content>, dirs: set<Path>, denied: set<Path>) {

    /** Every file and directory lies in a directory, and nothing is both. */
    ghost predicate WellFormed() {
      && [] in dirs
      && files.Keys !! dirs
      && (forall p, k {:trigger p[..k], p in dirs} {:trigger p[..k], p in files} ::
            p in files.Keys + dirs && 0 <= k < |p| ==> p[..k] in dirs)
    }

    /** A component of `p` before the last is a regular file (ENOTDIR). */
    predicate Blocked(p: Path) {
      exists k :: 0 <= k < |p| && p[..k] in files
    }

    /** Components `0..k` of `p` exist or may be made. */
    predicate Passable(p: Path, k: nat)
      requires k <= |p|
    {
      forall j :: 0 <= j <= k ==> p[..j] in dirs || p[..j] !in denied
    }
  }

  datatype Kind = Absent | RegularFile | Directory | Unreachable

  /** os.Stat. */
  function Stat(fs: FS, p: Path): Kind {
    if p in fs.dirs then Directory
    else if p in fs.files then RegularFile
    else if fs.Blocked(p) then Unreachable
    else Absent
  }

  datatype ReadResult = NotExist | Failed | Read(content: Content)

  /** os.ReadFile. */
  function ReadFile(fs: FS, p: Path): ReadResult {
    match Stat(fs, p)
    case RegularFile => Read(fs.files[p])
    case Absent => NotExist
    case Directory | Unreachable => Failed
  }

  /** os.MkdirAll: the new state, which keeps the directories made before a failure, and whether it succeeded. */
  function MkdirAll(fs: FS, p: Path): (r: (FS, bool))
    ensures r.0.files == fs.files && r.0.denied == fs.denied && fs.dirs <= r.0.dirs
    ensures forall d :: d in r.0.dirs ==> d in fs.dirs || d <= p
    ensures r.1 ==> forall k :: 0 <= k <= |p| ==> p[..k] in r.0.dirs
    ensures r.1 ==> p !in fs.files && !fs.Blocked(p)
    ensures fs.WellFormed() ==> r.0.WellFormed()
  {
    if p in fs.files || fs.Blocked(p) then (fs, false)
    else
      var made := set k | 0 <= k <= |p| && fs.Passable(p, k) :: p[..k];
      var next := fs.(dirs := fs.dirs + made);
      assert fs.Passable(p, |p|) ==> forall k :: 0 <= k <= |p| ==> fs.Passable(p, k);
      assert fs.WellFormed() ==> next.WellFormed() by {
        if fs.WellFormed() {
          forall q | q in made ensures q !in fs.files {
            var k :| 0 <= k <= |p| && fs.Passable(p, k) && q == p[..k];
            assert k == |p| ==> q == p;
          }
          forall q, k | q in next.files.Keys + next.dirs && 0 <= k < |q| ensures q[..k] in next.dirs {
            if q !in fs.files.Keys + fs.dirs {
              var j :| 0 <= j <= |p| && fs.Passable(p, j) && q == p[..j];
              assert fs.Passable(p, k) && q[..k] == p[..k];
            }
          }
        }
      }
      (next, fs.Passable(p, |p|))
  }

  /** os.WriteFile. */
  function WriteFile(fs: FS, p: Path, content: Content): (r: (FS, bool))
    requires p != []
    ensures r.1 ==> r.0 == fs.(files := fs.files[p := content]) && Parent(p) in fs.dirs && p !in fs.dirs
    ensures !r.1 ==> r.0 == fs
    ensures fs.WellFormed() ==> r.0.WellFormed()
  {
    if Parent(p) in fs.dirs && p !in fs.dirs && p !in fs.denied then
      var next := fs.(files := fs.files[p := content]);
      assert fs.WellFormed() ==> next.WellFormed() by {
        if fs.WellFormed() {
          forall q, k | q in next.files.Keys + next.dirs && 0 <= k < |q| ensures q[..k] in next.dirs {
            if q == p {
              var parent := Parent(p);
              assert k == |parent| ==> p[..k] == parent;
              assert k < |parent| ==> p[..k] == parent[..k];
            }
          }
        }
      }
      (next, true)
    else
      (fs, false)
  }

  predicate Makeable(fs: FS, p: Path, k: nat)
    requires k <= |p|
  {
    p[..k] !in fs.files && (p[..k] in fs.dirs || p[..k] !in fs.denied)
  }

  /** A directory can be made exactly when no path on the way is a file, and none that is missing is denied. */
  lemma MkdirIff(fs: FS, p: Path)
    ensures MkdirAll(fs, p).1 <==> forall k :: 0 <= k <= |p| ==> Makeable(fs, p, k)
    ensures MkdirAll(fs, p).1 ==> MkdirAll(fs, p).0.dirs == fs.dirs + set k | 0 <= k <= |p| :: p[..k]
  {
    assert p[..|p|] == p;
    if forall k :: 0 <= k <= |p| ==> Makeable(fs, p, k) {
      forall k | 0 <= k <= |p| ensures p[..k] !in fs.files && (p[..k] in fs.dirs || p[..k] !in fs.denied) {
        assert Makeable(fs, p, k);
      }
    }
    if MkdirAll(fs, p).1 {
      forall k | 0 <= k <= |p| ensures Makeable(fs, p, k) { assert fs.Passable(p, |p|) && !fs.Blocked(p); }
      forall k | 0 <= k <= |p| ensures p[..k] in MkdirAll(fs, p).0.dirs && fs.Passable(p, k) {}
    }
  }

  /**
   * A file can be put on the disk, its directory made first, exactly when its directory can be made and the file's own
   * path is no directory and not denied. Nothing else that is a file changes.
   */
  lemma PutIff(fs: FS, p: Path, content: Content)
    requires p != []
    ensures var made := MkdirAll(fs, Parent(p));
      var put := WriteFile(made.0, p, content);
      && (made.1 && put.1 <==> (forall k :: 0 <= k < |p| ==> Makeable(fs, p, k)) && p !in fs.dirs && p !in fs.denied)
      && (made.1 && put.1 ==> put.0.files == fs.files[p := content])
      && (!put.1 ==> put.0.files == fs.files)
  {
    MkdirIff(fs, Parent(p));
    assert forall k :: 0 <= k < |p| ==> Parent(p)[..k] == p[..k];
    assert forall k :: 0 <= k < |p| ==> Makeable(fs, Parent(p), k) == Makeable(fs, p, k);
    assert Parent(p)[..|p| - 1] == Parent(p);
    assert !(p <= Parent(p));
    hide Makeable;
  }

  /** `p` leads to something that cannot be removed. */
  predicate Held(fs: FS, stuck: set<Path>, p: Path) {
    exists q :: q in stuck && (q in fs.files || q in fs.dirs) && p <= q
  }

  /** os.RemoveAll of every directory in `roots`: everything in them goes but what is `stuck` and the directories above it. */
  function RemoveAll(fs: FS, roots: set<Path>, stuck: set<Path>): (r: FS)
    ensures r.denied == fs.denied
    ensures forall p :: p in r.files <==> p in fs.files && !((exists d :: d in roots && d <= p) && !Held(fs, stuck, p))
    ensures forall p :: p in r.files ==> r.files[p] == fs.files[p]
    ensures forall p :: p in r.dirs <==> p in fs.dirs && !((exists d :: d in roots && d <= p) && !Held(fs, stuck, p))
  {
    fs.(files := map p | p in fs.files && !((exists d :: d in roots && d <= p) && !Held(fs, stuck, p)) :: fs.files[p],
        dirs := set p | p in fs.dirs && !((exists d :: d in roots && d <= p) && !Held(fs, stuck, p)))
  }
}
