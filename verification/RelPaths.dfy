/** Relative paths: path.Clean, and what becomes of a Hub file's relative path on the local disk. */
module RelPaths {
  import opened Text
  import opened Paths

  predicate HasPrefix(s: string, prefix: string) {
    prefix <= s
  }

  /** path.Clean on the segments of a relative path: "" stands for ".", and ".." survives only in front. */
  function CleanRel(segments: Path): Path {
    if segments == [] then []
    else
      var front := CleanRel(segments[..|segments| - 1]);
      var last := segments[|segments| - 1];
      if last == "" || last == "." then front
      else if last == ".." && front != [] && front[|front| - 1] != ".." then front[..|front| - 1]
      else front + [last]
  }

  predicate PlainSegment(s: string) {
    s != "" && s != "." && s != ".."
  }

  lemma {:induction false} CleanKeepsPlainPaths(p: Path)
    requires forall s :: s in p ==> PlainSegment(s)
    ensures CleanRel(p) == p
  {
    if p != [] {
      CleanKeepsPlainPaths(p[..|p| - 1]);
      assert PlainSegment(p[|p| - 1]);
      assert p[..|p| - 1] + [p[|p| - 1]] == p;
    }
  }

  /** A blank or dotted segment adds nothing, a plain one goes to the end, and ".." takes it away again. */
  lemma CleanRelMeans(p: Path, s: string)
    requires PlainSegment(s)
    ensures CleanRel(p + [""]) == CleanRel(p + ["."]) == CleanRel(p)
    ensures CleanRel(p + [s]) == CleanRel(p) + [s]
    ensures CleanRel(p + [s] + [".."]) == CleanRel(p)
  {
    assert (p + [""])[..|p|] == p && (p + ["."])[..|p|] == p && (p + [s])[..|p|] == p;
    assert (p + [s] + [".."])[..|p| + 1] == p + [s];
  }

  /** Above its own start a relative path keeps climbing. */
  lemma {:induction false} ClimbingStays(p: Path)
    requires forall s :: s in p ==> s == ".."
    ensures CleanRel(p) == p
  {
    if p != [] {
      var front := p[..|p| - 1];
      forall s | s in front ensures s == ".." { assert s in p; }
      ClimbingStays(front);
      assert p[|p| - 1] in p && p == front + [p[|p| - 1]];
      assert front != [] ==> front[|front| - 1] in p;
    }
  }

  /** A relative path trimmed as one string: only its two ends can lose white space. */
  function TrimRel(rel: Path): Path {
    if rel == [] then []
    else if |rel| == 1 then [TrimSpace(rel[0])]
    else [TrimLeft(rel[0])] + rel[1..|rel| - 1] + [TrimRight(rel[|rel| - 1])]
  }

  lemma {:induction false} TrimLeftOfTwo(a: string, b: string)
    ensures TrimLeft(a + "/" + b) == TrimLeft(a) + "/" + b
  {
    if a != "" && IsSpace(a[0]) {
      TrimLeftOfTwo(a[1..], b);
      assert (a + "/" + b)[1..] == a[1..] + "/" + b;
    } else if a == "" {
      assert a + "/" + b == "/" + b && !IsSpace('/');
    }
  }

  lemma {:induction false} TrimRightOfTwo(a: string, b: string)
    ensures TrimRight(a + "/" + b) == a + "/" + TrimRight(b)
  {
    if b != "" && IsSpace(b[|b| - 1]) {
      var front := b[..|b| - 1];
      TrimRightOfTwo(a, front);
      assert (a + "/" + b)[..|a + "/" + b| - 1] == a + "/" + front;
    } else if b == "" {
      assert a + "/" + b == a + "/" && !IsSpace('/');
    }
  }

  /** It is strings.TrimSpace of the path as it is written. */
  lemma TrimRelIsTrimSpace(rel: Path)
    requires rel != []
    ensures Join(TrimRel(rel), '/') == TrimSpace(Join(rel, '/'))
  {
    if |rel| > 1 {
      hide *;
      var first, rest, last := rel[0], rel[1..|rel| - 1], rel[|rel| - 1];
      var front := Join([first] + rest, '/');
      assert rel == [first] + rest + [last];
      TrimRelOfMany(rel);
      JoinSnoc([first] + rest, last, '/');
      JoinSnoc([TrimLeft(first)] + rest, TrimRight(last), '/');
      TrimLeftOfJoin(first, rest);
      TrimLeftOfTwo(front, last);
      TrimRightOfTwo(TrimLeft(front), last);
      TrimSpaceUnfolds(front + "/" + last);
    }
  }

  lemma TrimRelOfMany(rel: Path)
    requires |rel| > 1
    ensures TrimRel(rel) == [TrimLeft(rel[0])] + rel[1..|rel| - 1] + [TrimRight(rel[|rel| - 1])]
  {
  }

  lemma TrimLeftOfJoin(first: string, rest: Path)
    ensures TrimLeft(Join([first] + rest, '/')) == Join([TrimLeft(first)] + rest, '/')
  {
    TrimLeftOfTwo(first, Join(rest, '/'));
    assert ([first] + rest)[1..] == rest && ([TrimLeft(first)] + rest)[1..] == rest;
    hide TrimLeft;
  }

  lemma TrimSpaceUnfolds(s: string)
    ensures TrimSpace(s) == TrimRight(TrimLeft(s))
  {
  }

  type LocalPath = p: Path | p != [] witness [""]

  /** Where below its skill directory a Hub file goes, if it may go anywhere. */
  function LocalRel(rel: Path): Option<LocalPath> {
    var trimmed := TrimRel(rel);
    var clean := CleanRel(trimmed);
    if |trimmed| > 1 && trimmed[0] == "" then None
    else if clean == [] || HasPrefix(clean[0], "..") then None
    else Some(clean)
  }

  /** In a cleaned path ".." stands only in front of everything else. */
  lemma {:induction false} CleanDotDotsLead(p: Path, i: nat, j: nat)
    requires i <= j < |CleanRel(p)| && CleanRel(p)[j] == ".."
    ensures CleanRel(p)[i] == ".."
  {
    var front := CleanRel(p[..|p| - 1]);
    if j < |front| {
      CleanDotDotsLead(p[..|p| - 1], i, j);
    } else if i < j {
      CleanDotDotsLead(p[..|p| - 1], i, j - 1);
    }
  }

  lemma {:induction false} CleanHasNoDots(p: Path, s: string)
    requires s in CleanRel(p)
    ensures s != "" && s != "."
  {
    if s in CleanRel(p[..|p| - 1]) {
      CleanHasNoDots(p[..|p| - 1], s);
    }
  }

  /** No relative path leaves the skill directory: every segment of the local path is a plain name. */
  lemma LocalRelStaysInside(rel: Path)
    ensures LocalRel(rel).Some? ==> forall s :: s in LocalRel(rel).value ==> PlainSegment(s)
  {
    var clean := CleanRel(TrimRel(rel));
    if LocalRel(rel).Some? {
      forall j | 0 <= j < |clean| ensures PlainSegment(clean[j]) {
        CleanHasNoDots(TrimRel(rel), clean[j]);
        if clean[j] == ".." { CleanDotDotsLead(TrimRel(rel), 0, j); }
      }
    }
  }

  /** What has no place on the disk: an absolute path, nothing at all, and what climbs or only looks as if it climbs. */
  lemma NoPlaceIff(rel: Path)
    ensures LocalRel(rel) == None <==>
      var trimmed := TrimRel(rel);
      || (|trimmed| > 1 && trimmed[0] == "")
      || CleanRel(trimmed) == []
      || (|CleanRel(trimmed)[0]| >= 2 && CleanRel(trimmed)[0][..2] == "..")
  {
    var clean := CleanRel(TrimRel(rel));
    if clean != [] && |clean[0]| >= 2 { assert HasPrefix(clean[0], "..") <==> clean[0][..2] == ".."; }
  }

  /** The relative paths that reach the disk as they are. */
  predicate PlainRel(rel: Path) {
    && rel != []
    && (forall s :: s in rel ==> PlainSegment(s))
    && !HasPrefix(rel[0], "..")
    && TrimLeft(rel[0]) == rel[0]
    && TrimRight(rel[|rel| - 1]) == rel[|rel| - 1]
  }

  lemma PlainRelIsLocal(rel: Path)
    requires PlainRel(rel)
    ensures LocalRel(rel) == Some(rel)
  {
    assert TrimRel(rel) == rel;
    CleanKeepsPlainPaths(rel);
    assert PlainSegment(rel[0]);
  }
}
