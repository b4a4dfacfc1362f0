/** Planning a platform conversion of a skill and writing it: conflicts with existing files, and what a failure leaves. */
module SkillConversionPlan {
  import opened Paths

  type Tree = map<Path, string>

  /** A converted file, by its path below the target; `generated` for the manifest. */
  datatype Entry = Entry(rel: Path, data: string, generated: bool)

  datatype Action = Convert | Copy | Generate | Conflict
  datatype Change = Change(action: Action, target: Path)

  /** Paths that cannot be read, or written. */
  datatype Faults = Faults(readFails: Path -> bool, writeFails: Path -> bool)

  datatype Outcome =
    | Unreadable
    | Planned(changes: seq<Change>, conflicts: nat)
    | WriteFailed
    | Applied(changes: seq<Change>)

  function ActionFor(e: Entry): Action {
    if e.generated then Generate else if e.rel == ["SKILL.md"] then Convert else Copy
  }

  function ChangeFor(tree: Tree, target: Path, e: Entry, overwrite: bool): Change {
    Change(if target + e.rel in tree && !overwrite then Conflict else ActionFor(e), target + e.rel)
  }

  function Plan(tree: Tree, target: Path, entries: seq<Entry>, overwrite: bool): seq<Change> {
    seq(|entries|, i requires 0 <= i < |entries| => ChangeFor(tree, target, entries[i], overwrite))
  }

  /**
   * What is planned for each file: a conflict when it exists and may not be overwritten, otherwise the manifest is
   * generated, the skill file converted and everything else copied.
   */
  lemma PlanMeans(tree: Tree, target: Path, entries: seq<Entry>, overwrite: bool, i: nat)
    requires i < |entries|
    ensures var plan, e := Plan(tree, target, entries, overwrite), entries[i];
      && |plan| == |entries| && plan[i].target == target + e.rel
      && (plan[i].action == Conflict <==> target + e.rel in tree && !overwrite)
      && (plan[i].action == Generate <==> plan[i].action != Conflict && e.generated)
      && (plan[i].action == Convert <==> plan[i].action != Conflict && !e.generated && e.rel == ["SKILL.md"])
      && (plan[i].action == Copy <==> plan[i].action != Conflict && !e.generated && e.rel != ["SKILL.md"])
  {
  }

  function Count(changes: seq<Change>, a: Action): nat {
    if changes == [] then 0 else Count(changes[..|changes| - 1], a) + if changes[|changes| - 1].action == a then 1 else 0
  }

  lemma {:induction false} CountIsZero(changes: seq<Change>, a: Action)
    ensures Count(changes, a) == 0 <==> forall i :: 0 <= i < |changes| ==> changes[i].action != a
  {
    if changes != [] { CountIsZero(changes[..|changes| - 1], a); }
  }

  /** The counters of a plan account for every file. */
  lemma {:induction false} CountersAddUp(changes: seq<Change>)
    ensures Count(changes, Convert) + Count(changes, Copy) + Count(changes, Generate) + Count(changes, Conflict) == |changes|
  {
    if changes != [] { CountersAddUp(changes[..|changes| - 1]); }
  }

  /** A plan has a conflict exactly when an existing file may not be overwritten. */
  lemma ConflictIff(tree: Tree, target: Path, entries: seq<Entry>, overwrite: bool)
    ensures Count(Plan(tree, target, entries, overwrite), Conflict) > 0 <==> !overwrite && exists e :: e in entries && target + e.rel in tree
  {
    var plan := Plan(tree, target, entries, overwrite);
    CountIsZero(plan, Conflict);
    forall i | 0 <= i < |plan| ensures plan[i].action == Conflict <==> !overwrite && target + entries[i].rel in tree {}
    hide Count, Plan;
    if e :| e in entries && !overwrite && target + e.rel in tree {
      var i :| 0 <= i < |entries| && entries[i] == e;
      assert plan[i].action == Conflict;
    }
  }

  /** Nothing outside the converted files has changed, and without overwriting no file that was there. */
  ghost predicate Respects(before: Tree, after: Tree, target: Path, entries: seq<Entry>, overwrite: bool) {
    && (forall p :: p in before ==> p in after)
    && (forall p :: p in before && (!overwrite || forall e :: e in entries ==> p != target + e.rel) ==> after[p] == before[p])
    && (forall p :: p in after && p !in before ==> exists e :: e in entries && p == target + e.rel)
  }

  ghost predicate Delivered(after: Tree, target: Path, entries: seq<Entry>) {
    forall e :: e in entries ==> target + e.rel in after && after[target + e.rel] == e.data
  }

  class Hub {
    var tree: Tree

    constructor (initial: Tree)
      ensures tree == initial
    {
      tree := initial;
    }

    /** The preview, and the first half of an apply. */
    method BuildPlan(target: Path, entries: seq<Entry>, overwrite: bool, faults: Faults) returns (plan: Outcome)
      ensures plan.Unreadable? || plan.Planned?
      ensures plan.Unreadable? <==> exists e :: e in entries && faults.readFails(target + e.rel)
      ensures plan.Planned? ==> plan.changes == Plan(tree, target, entries, overwrite) && plan.conflicts == Count(plan.changes, Conflict)
    {
      var changes: seq<Change> := [];
      var conflicts := 0;
      for i := 0 to |entries|
        invariant |changes| == i && forall k :: 0 <= k < i ==> changes[k] == ChangeFor(tree, target, entries[k], overwrite)
        invariant conflicts == Count(changes, Conflict)
        invariant forall k :: 0 <= k < i ==> !faults.readFails(target + entries[k].rel)
      {
        var e := entries[i];
        if faults.readFails(target + e.rel) {
          assert e in entries;
          return Unreadable;
        }
        var change := Change(ActionFor(e), target + e.rel);
        if target + e.rel in tree && !overwrite {
          change := change.(action := Conflict);
          conflicts := conflicts + 1;
        }
        assert (changes + [change])[..i] == changes;
        changes := changes + [change];
      }
      return Planned(changes, conflicts);
    }

    /**
     * The whole conversion. It writes nothing when it only previews, when a file cannot be read, or when there is a
     * conflict; whatever fails, files that may not be overwritten keep their content; and when it succeeds, every
     * converted file is in place.
     */
    method BuildConversion(target: Path, entries: seq<Entry>, overwrite: bool, apply: bool, faults: Faults) returns (outcome: Outcome)
      requires forall i, j :: 0 <= i < j < |entries| ==> entries[i].rel != entries[j].rel
      modifies this
      ensures outcome.Unreadable? <==> exists e :: e in entries && faults.readFails(target + e.rel)
      ensures outcome.Unreadable? || outcome.Planned? ==> tree == old(tree)
      ensures outcome.Planned? ==> outcome.changes == Plan(old(tree), target, entries, overwrite)
      ensures !outcome.Unreadable? ==> (outcome.Planned? <==> !apply || Count(Plan(old(tree), target, entries, overwrite), Conflict) > 0)
      ensures Respects(old(tree), tree, target, entries, overwrite)
      ensures outcome.Applied? ==> outcome.changes == Plan(old(tree), target, entries, overwrite) && Delivered(tree, target, entries)
    {
      var plan := BuildPlan(target, entries, overwrite, faults);
      if plan.Unreadable? || !apply || (plan.conflicts > 0 && !overwrite) {
        ConflictIff(tree, target, entries, overwrite);
        return plan;
      }
      ConflictIff(tree, target, entries, overwrite);
      hide Plan, Count;
      var ok := WriteEntries(target, entries, overwrite, faults);
      return if ok then Applied(plan.changes) else WriteFailed;
    }

    method WriteEntries(target: Path, entries: seq<Entry>, overwrite: bool, faults: Faults) returns (ok: bool)
      requires forall i, j :: 0 <= i < j < |entries| ==> entries[i].rel != entries[j].rel
      requires (forall e :: e in entries ==> !faults.readFails(target + e.rel)) && (!overwrite ==> forall e :: e in entries ==> target + e.rel !in tree)
      modifies this
      ensures Respects(old(tree), tree, target, entries, overwrite) && (ok ==> Delivered(tree, target, entries))
    {
      for i := 0 to |entries|
        invariant Respects(old(tree), tree, target, entries[..i], overwrite) && Delivered(tree, target, entries[..i])
      {
        var e := entries[i];
        assert e in entries;
        NotYetWritten(old(tree), tree, target, entries, i, overwrite);
        if !overwrite && target + e.rel in tree {
          continue;
        }
        if faults.writeFails(target + e.rel) {
          RespectsMore(old(tree), tree, target, entries[..i], entries, overwrite);
          return false;
        }
        OneMore(old(tree), tree, target, entries, i, overwrite);
        tree := tree[target + e.rel := e.data];
      }
      assert entries[..|entries|] == entries;
      return true;
    }
  }

  lemma RespectsMore(before: Tree, after: Tree, target: Path, some: seq<Entry>, all: seq<Entry>, overwrite: bool)
    requires Respects(before, after, target, some, overwrite) && forall e :: e in some ==> e in all
    ensures Respects(before, after, target, all, overwrite)
  {
  }

  lemma NotYetWritten(before: Tree, now: Tree, target: Path, entries: seq<Entry>, i: nat, overwrite: bool)
    requires i < |entries| && Respects(before, now, target, entries[..i], overwrite)
    requires forall j, k :: 0 <= j < k < |entries| ==> entries[j].rel != entries[k].rel
    requires !overwrite ==> forall e :: e in entries ==> target + e.rel !in before
    ensures !overwrite ==> target + entries[i].rel !in now
  {
    var p := target + entries[i].rel;
    assert entries[i] in entries;
    forall e | e in entries[..i] ensures p != target + e.rel {
      var k :| 0 <= k < i && entries[k] == e;
      assert p[|target|..] == entries[i].rel && (target + e.rel)[|target|..] == e.rel;
    }
  }

  lemma OneMore(before: Tree, now: Tree, target: Path, entries: seq<Entry>, i: nat, overwrite: bool)
    requires i < |entries| && Respects(before, now, target, entries[..i], overwrite) && Delivered(now, target, entries[..i])
    requires forall j, k :: 0 <= j < k < |entries| ==> entries[j].rel != entries[k].rel
    requires !overwrite ==> target + entries[i].rel !in before
    ensures var next := now[target + entries[i].rel := entries[i].data];
      Respects(before, next, target, entries[..i + 1], overwrite) && Delivered(next, target, entries[..i + 1])
  {
    hide Respects, Delivered;
    assert entries[..i + 1] == entries[..i] + [entries[i]];
    forall e | e in entries[..i] ensures target + e.rel != target + entries[i].rel {
      var k :| 0 <= k < i && entries[k] == e;
      assert (target + entries[i].rel)[|target|..] == entries[i].rel && (target + e.rel)[|target|..] == e.rel;
    }
    RespectsNext(before, now, target, entries[..i], entries[i], overwrite);
    DeliveredNext(now, target, entries[..i], entries[i]);
  }

  lemma RespectsNext(before: Tree, now: Tree, target: Path, front: seq<Entry>, e: Entry, overwrite: bool)
    requires Respects(before, now, target, front, overwrite) && (!overwrite ==> target + e.rel !in before)
    ensures Respects(before, now[target + e.rel := e.data], target, front + [e], overwrite)
  {
    var next, all, p := now[target + e.rel := e.data], front + [e], target + e.rel;
    assert e in all && forall f :: f in front ==> f in all;
    forall q | q in before && (!overwrite || forall f :: f in all ==> q != target + f.rel) ensures next[q] == before[q] {
      assert q != p;
    }
    forall q | q in next && q !in before ensures exists f :: f in all && q == target + f.rel {
      if q != p { var f :| f in front && q == target + f.rel; }
    }
  }

  lemma DeliveredNext(now: Tree, target: Path, front: seq<Entry>, e: Entry)
    requires Delivered(now, target, front) && forall f :: f in front ==> target + f.rel != target + e.rel
    ensures Delivered(now[target + e.rel := e.data], target, front + [e])
  {
  }
}
