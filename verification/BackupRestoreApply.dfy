/** Writing the entries of an inspected backup into the store, where any read or write may fail. */
module BackupRestoreApply {
  import opened Text
  import opened Paths
  import opened BackupRestore

  type Tree = map<Path, string>

  datatype Action = Created | Overwritten | Skipped | Failed

  /** Which of the store's operations fail, by the index of the entry they serve. */
  datatype Faults = Faults(readFails: nat -> bool, writeFails: nat -> bool)

  predicate Overwrites(mode: string) {
    Lower(TrimSpace(mode)) == "overwrite"
  }

  /** Only the word itself asks for overwriting, in any case and with white space around it. */
  lemma OverwritesIff(mode: string)
    ensures Overwrites(mode) <==>
      exists i: nat, j: nat :: i <= j <= |mode| && Lower(mode[i..j]) == "overwrite" && AllSpace(mode[..i]) && AllSpace(mode[j..])
  {
    var i, j := TrimSpaceCuts(mode);
    assert AllSpace(mode[..i]) && AllSpace(mode[j..]);
    forall k: nat, l: nat | k <= l <= |mode| && Lower(mode[k..l]) == "overwrite" && AllSpace(mode[..k]) && AllSpace(mode[l..])
      ensures Overwrites(mode)
    {
      var word := mode[k..l];
      assert |Lower(word)| == |word|;
      LowerIsNoSpace(word);
      TrimAround(mode[..k], word, mode[l..]);
      assert mode == mode[..k] + word + mode[l..];
    }
  }

  lemma LowerIsNoSpace(word: string)
    requires Lower(word) == "overwrite"
    ensures word != "" && Trimmed(word)
  {
    assert |Lower(word)| == |word| == 9;
    assert LowerChar(word[0]) == Lower(word)[0] == 'o' && LowerChar(word[8]) == Lower(word)[8] == 'e';
  }

  /** So the blank mode and "skip" skip, and shouting overwrites. */
  lemma ModeExamples()
    ensures !Overwrites("") && !Overwrites("skip") && Overwrites(" OverWrite\n")
  {
    TrimmedIsFixed("skip");
    assert Lower("skip")[0] == 's';
    TrimAround(" ", "OverWrite", "\n");
    assert " " + "OverWrite" + "\n" == " OverWrite\n";
    assert Lower("OverWrite") == "overwrite";
  }

  // ---- What one entry does ----

  predicate Restorable(e: Entry) {
    e.target != [] && e.category != Unknown
  }

  function ActionFor(tree: Tree, entries: seq<Entry>, i: nat, overwrite: bool, faults: Faults): Action
    requires i < |entries|
  {
    var e := entries[i];
    if !Restorable(e) then Skipped
    else if faults.readFails(i) then Failed
    else if e.target in tree && !overwrite then Skipped
    else if faults.writeFails(i) then Failed
    else if e.target in tree then Overwritten
    else Created
  }

  predicate Writes(a: Action) {
    a == Created || a == Overwritten
  }

  /** What happens to an entry at its turn: what exists then decides between creating, overwriting and skipping. */
  lemma ActionMeans(tree: Tree, entries: seq<Entry>, i: nat, overwrite: bool, faults: Faults)
    requires i < |entries|
    ensures var e, a := entries[i], ActionFor(tree, entries, i, overwrite, faults);
      var named, present := e.target != [] && e.category != Unknown, e.target in tree;
      && (a == Skipped <==> !named || (!faults.readFails(i) && present && !overwrite))
      && (a == Failed <==> named && (faults.readFails(i) || ((!present || overwrite) && faults.writeFails(i))))
      && (a == Overwritten <==> named && !faults.readFails(i) && present && overwrite && !faults.writeFails(i))
      && (a == Created <==> named && !faults.readFails(i) && !present && !faults.writeFails(i))
  {
  }

  function TreeAfter(tree: Tree, entries: seq<Entry>, n: nat, overwrite: bool, faults: Faults): Tree
    requires n <= |entries|
  {
    if n == 0 then tree
    else
      var before := TreeAfter(tree, entries, n - 1, overwrite, faults);
      var e := entries[n - 1];
      if Writes(ActionFor(before, entries, n - 1, overwrite, faults)) then before[e.target := e.data] else before
  }

  function ActionAt(tree: Tree, entries: seq<Entry>, i: nat, overwrite: bool, faults: Faults): Action
    requires i < |entries|
  {
    ActionFor(TreeAfter(tree, entries, i, overwrite, faults), entries, i, overwrite, faults)
  }

  function Count(actions: seq<Action>, a: Action): nat {
    if actions == [] then 0 else Count(actions[..|actions| - 1], a) + if actions[|actions| - 1] == a then 1 else 0
  }

  lemma CountGrows(actions: seq<Action>, last: Action, a: Action)
    ensures Count(actions + [last], a) == Count(actions, a) + if last == a then 1 else 0
  {
    assert (actions + [last])[..|actions|] == actions;
  }

  // ---- The result, without the order of the steps ----

  /** Entry `i` names a target and neither its read nor its write fails. */
  predicate Succeeds(entries: seq<Entry>, i: nat, faults: Faults)
    requires i < |entries|
  {
    Restorable(entries[i]) && !faults.readFails(i) && !faults.writeFails(i)
  }

  predicate Hits(entries: seq<Entry>, i: nat, p: Path, faults: Faults) {
    i < |entries| && Succeeds(entries, i, faults) && entries[i].target == p
  }

  ghost predicate Same(a: Tree, b: Tree, p: Path) {
    (p in a <==> p in b) && (p in a ==> a[p] == b[p])
  }

  ghost predicate Holds(tree: Tree, p: Path, data: string) {
    p in tree && tree[p] == data
  }

  ghost predicate IsLast(entries: seq<Entry>, n: nat, i: nat, p: Path, faults: Faults) {
    i < n && Hits(entries, i, p, faults) && forall j :: i < j < n ==> !Hits(entries, j, p, faults)
  }

  ghost predicate IsFirst(entries: seq<Entry>, n: nat, i: nat, p: Path, faults: Faults) {
    i < n && Hits(entries, i, p, faults) && forall j :: 0 <= j < i ==> !Hits(entries, j, p, faults)
  }

  ghost predicate NoneHits(entries: seq<Entry>, n: nat, p: Path, faults: Faults) {
    forall i :: 0 <= i < n ==> !Hits(entries, i, p, faults)
  }

  /** Overwriting leaves each path with the last entry that reaches it, and every other path as it was. */
  lemma {:induction false} LastWins(tree: Tree, entries: seq<Entry>, n: nat, p: Path, faults: Faults)
    requires n <= |entries|
    ensures forall i: nat :: IsLast(entries, n, i, p, faults) ==> Holds(TreeAfter(tree, entries, n, true, faults), p, entries[i].data)
    ensures NoneHits(entries, n, p, faults) ==> Same(TreeAfter(tree, entries, n, true, faults), tree, p)
  {
    if n > 0 {
      LastWins(tree, entries, n - 1, p, faults);
      WriteStep(tree, entries, n, p, true, faults);
      hide TreeAfter, Hits, Holds;
      forall i: nat | IsLast(entries, n, i, p, faults) ensures Holds(TreeAfter(tree, entries, n, true, faults), p, entries[i].data) {
        if i < n - 1 { assert IsLast(entries, n - 1, i, p, faults) && !Hits(entries, n - 1, p, faults); }
      }
    }
  }

  lemma WriteStep(tree: Tree, entries: seq<Entry>, n: nat, p: Path, overwrite: bool, faults: Faults)
    requires 0 < n <= |entries|
    ensures var before, end := TreeAfter(tree, entries, n - 1, overwrite, faults), TreeAfter(tree, entries, n, overwrite, faults);
      if Hits(entries, n - 1, p, faults) && (overwrite || p !in before) then Holds(end, p, entries[n - 1].data)
      else Same(end, before, p) && forall data :: Holds(before, p, data) ==> Holds(end, p, data)
  {
  }

  /** Skipping keeps every path that was there, and otherwise the first entry that reaches a path stays. */
  lemma {:induction false} FirstWins(tree: Tree, entries: seq<Entry>, n: nat, p: Path, faults: Faults)
    requires n <= |entries|
    ensures p in tree || NoneHits(entries, n, p, faults) ==> Same(TreeAfter(tree, entries, n, false, faults), tree, p)
    ensures p !in tree ==> forall i: nat :: IsFirst(entries, n, i, p, faults) ==>
      Holds(TreeAfter(tree, entries, n, false, faults), p, entries[i].data)
  {
    if n > 0 {
      FirstWins(tree, entries, n - 1, p, faults);
      WriteStep(tree, entries, n, p, false, faults);
      hide TreeAfter, Hits;
      if p !in tree {
        forall i: nat | IsFirst(entries, n, i, p, faults) ensures Holds(TreeAfter(tree, entries, n, false, faults), p, entries[i].data) {
          if i < n - 1 {
            assert IsFirst(entries, n - 1, i, p, faults);
          } else {
            assert NoneHits(entries, n - 1, p, faults);
          }
        }
      }
    }
  }

  /** The path holds the last entry that reaches it, or what it held. */
  ghost predicate LastAt(before: Tree, after: Tree, entries: seq<Entry>, p: Path, faults: Faults) {
    && (NoneHits(entries, |entries|, p, faults) ==> Same(after, before, p))
    && forall i: nat :: IsLast(entries, |entries|, i, p, faults) ==> Holds(after, p, entries[i].data)
  }

  /** The path holds what it held, or else the first entry that reaches it. */
  ghost predicate FirstAt(before: Tree, after: Tree, entries: seq<Entry>, p: Path, faults: Faults) {
    && (p in before || NoneHits(entries, |entries|, p, faults) ==> Same(after, before, p))
    && (p !in before ==> forall i: nat :: IsFirst(entries, |entries|, i, p, faults) ==> Holds(after, p, entries[i].data))
  }

  ghost predicate LastStays(before: Tree, after: Tree, entries: seq<Entry>, faults: Faults) {
    forall p: Path :: LastAt(before, after, entries, p, faults)
  }

  ghost predicate FirstStays(before: Tree, after: Tree, entries: seq<Entry>, faults: Faults) {
    forall p: Path :: FirstAt(before, after, entries, p, faults)
  }

  lemma WhatStays(tree: Tree, entries: seq<Entry>, faults: Faults)
    ensures LastStays(tree, TreeAfter(tree, entries, |entries|, true, faults), entries, faults)
    ensures FirstStays(tree, TreeAfter(tree, entries, |entries|, false, faults), entries, faults)
  {
    hide TreeAfter, Same, Holds, NoneHits, IsLast, IsFirst;
    forall p: Path
      ensures LastAt(tree, TreeAfter(tree, entries, |entries|, true, faults), entries, p, faults)
      ensures FirstAt(tree, TreeAfter(tree, entries, |entries|, false, faults), entries, p, faults)
    {
      LastWins(tree, entries, |entries|, p, faults);
      FirstWins(tree, entries, |entries|, p, faults);
    }
  }

  /** An entry is created, overwritten, skipped or failed exactly as the counters say. */
  ghost predicate CountedRight(actions: seq<Action>, applied: nat, skipped: nat, overwritten: nat, failed: nat) {
    && applied == Count(actions, Created) + Count(actions, Overwritten)
    && skipped == Count(actions, Skipped)
    && overwritten == Count(actions, Overwritten)
    && failed == Count(actions, Failed)
  }

  lemma {:induction false} CountsAddUp(actions: seq<Action>)
    ensures |actions| == Count(actions, Created) + Count(actions, Overwritten) + Count(actions, Skipped) + Count(actions, Failed)
  {
    if actions != [] { CountsAddUp(actions[..|actions| - 1]); }
  }

  /** The positions of the entries with this action. */
  function TakenAt(actions: seq<Action>, a: Action): set<nat> {
    set i: nat | i < |actions| && actions[i] == a
  }

  lemma TakenStep(actions: seq<Action>, a: Action)
    requires actions != []
    ensures var front, n := actions[..|actions| - 1], |actions| - 1;
      TakenAt(actions, a) == TakenAt(front, a) + (if actions[n] == a then {n} else {}) && n !in TakenAt(front, a)
  {
  }

  lemma {:induction false} CountMeans(actions: seq<Action>, a: Action)
    ensures Count(actions, a) == |TakenAt(actions, a)|
  {
    if actions == [] {
      assert TakenAt(actions, a) == {};
    } else {
      CountMeans(actions[..|actions| - 1], a);
      TakenStep(actions, a);
      hide TakenAt;
    }
  }

  lemma CountedMeans(actions: seq<Action>, applied: nat, skipped: nat, overwritten: nat, failed: nat)
    requires CountedRight(actions, applied, skipped, overwritten, failed)
    ensures applied == |TakenAt(actions, Created)| + |TakenAt(actions, Overwritten)| && overwritten == |TakenAt(actions, Overwritten)|
    ensures skipped == |TakenAt(actions, Skipped)| && failed == |TakenAt(actions, Failed)|
  {
    hide Count, TakenAt;
    CountMeans(actions, Created);
    CountMeans(actions, Overwritten);
    CountMeans(actions, Skipped);
    CountMeans(actions, Failed);
  }

  // ---- The store ----

  datatype Outcome =
    | Rejected(inspection: Inspection)
    | NotAnExport
    | UnsafePaths
    | Restored(actions: seq<Action>, applied: nat, skipped: nat, overwritten: nat, failed: nat)

  class Store {
    var tree: Tree

    constructor (initial: Tree)
      ensures tree == initial
    {
      tree := initial;
    }

    method WriteEntries(entries: seq<Entry>, overwrite: bool, faults: Faults)
      returns (actions: seq<Action>, applied: nat, skipped: nat, overwritten: nat, failed: nat)
      modifies this
      ensures tree == TreeAfter(old(tree), entries, |entries|, overwrite, faults)
      ensures |actions| == |entries| && forall i :: 0 <= i < |entries| ==> actions[i] == ActionAt(old(tree), entries, i, overwrite, faults)
      ensures |entries| == applied + skipped + failed && overwritten <= applied
      ensures CountedRight(actions, applied, skipped, overwritten, failed)
    {
      actions, applied, skipped, overwritten, failed := [], 0, 0, 0, 0;
      for i := 0 to |entries|
        invariant tree == TreeAfter(old(tree), entries, i, overwrite, faults)
        invariant |actions| == i && forall k :: 0 <= k < i ==> actions[k] == ActionAt(old(tree), entries, k, overwrite, faults)
        invariant CountedRight(actions, applied, skipped, overwritten, failed)
      {
        var action := WriteEntry(entries, i, overwrite, faults);
        EveryCountGrows(actions);
        hide Count, ActionFor;
        match action {
          case Created => applied := applied + 1;
          case Overwritten => applied, overwritten := applied + 1, overwritten + 1;
          case Skipped => skipped := skipped + 1;
          case Failed => failed := failed + 1;
        }
        actions := actions + [action];
      }
      CountsAddUp(actions);
    }

    method WriteEntry(entries: seq<Entry>, i: nat, overwrite: bool, faults: Faults) returns (action: Action)
      requires i < |entries|
      modifies this
      ensures action == ActionFor(old(tree), entries, i, overwrite, faults)
      ensures tree == if Writes(action) then old(tree)[entries[i].target := entries[i].data] else old(tree)
    {
      var entry := entries[i];
      if entry.target == [] || entry.category == Unknown {
        return Skipped;
      }
      if faults.readFails(i) {
        return Failed;
      }
      var present := entry.target in tree;
      if present && !overwrite {
        return Skipped;
      }
      if faults.writeFails(i) {
        return Failed;
      }
      tree := tree[entry.target := entry.data];
      return if present then Overwritten else Created;
    }

    method Restore(files: seq<ZipEntry>, mode: string, faults: Faults) returns (outcome: Outcome)
      requires forall f :: f in files ==> f.size < TWO_TO_64
      modifies this
      ensures outcome.Restored? <==>
        Recognized(Inspect(files, true)) && forall f :: f in files ==> !IsUnsafe(f)
      ensures !outcome.Restored? ==> tree == old(tree)
      ensures outcome.Restored? && Lower(TrimSpace(mode)) == "overwrite" ==> LastStays(old(tree), tree, Inspect(files, true).entries, faults)
      ensures outcome.Restored? && Lower(TrimSpace(mode)) != "overwrite" ==> FirstStays(old(tree), tree, Inspect(files, true).entries, faults)
      ensures outcome.Restored? ==>
        var entries := Inspect(files, true).entries;
        && tree == TreeAfter(old(tree), entries, |entries|, Overwrites(mode), faults)
        && |outcome.actions| == |entries| == outcome.applied + outcome.skipped + outcome.failed
        && outcome.overwritten <= outcome.applied
        && outcome.applied == |TakenAt(outcome.actions, Created)| + |TakenAt(outcome.actions, Overwritten)|
        && outcome.overwritten == |TakenAt(outcome.actions, Overwritten)|
        && outcome.skipped == |TakenAt(outcome.actions, Skipped)| && outcome.failed == |TakenAt(outcome.actions, Failed)|
        && forall i :: 0 <= i < |entries| ==> outcome.actions[i] == ActionAt(old(tree), entries, i, Overwrites(mode), faults)
    {
      var inspection := InspectEntries(files, true);
      InspectionMeans(files, true);
      NoneIsUnsafe(files);
      hide Inspect, AllPass, LastStays, FirstStays, Lower, TrimSpace, TakenAt, Count;
      if !inspection.Inspected? {
        return Rejected(inspection);
      }
      if !Recognized(inspection) {
        return NotAnExport;
      }
      if inspection.unsafePaths > 0 {
        return UnsafePaths;
      }
      WhatStays(tree, inspection.entries, faults);
      var actions, applied, skipped, overwritten, failed := WriteEntries(inspection.entries, Overwrites(mode), faults);
      CountedMeans(actions, applied, skipped, overwritten, failed);
      return Restored(actions, applied, skipped, overwritten, failed);
    }
  }

  lemma EveryCountGrows(actions: seq<Action>)
    ensures forall last, a :: Count(actions + [last], a) == Count(actions, a) + if last == a then 1 else 0
  {
    forall last, a ensures Count(actions + [last], a) == Count(actions, a) + if last == a then 1 else 0 {
      CountGrows(actions, last, a);
    }
  }

  // ---- Restoring twice ----

  lemma {:induction false} TargetsPresent(tree: Tree, entries: seq<Entry>, n: nat, overwrite: bool, faults: Faults, i: nat)
    requires i < n <= |entries| && Restorable(entries[i])
    requires forall k :: !faults.readFails(k) && !faults.writeFails(k)
    ensures entries[i].target in TreeAfter(tree, entries, n, overwrite, faults)
  {
    if i < n - 1 { TargetsPresent(tree, entries, n - 1, overwrite, faults, i); }
  }

  lemma {:induction false} AllSkipped(tree: Tree, entries: seq<Entry>, n: nat, faults: Faults)
    requires n <= |entries|
    requires forall i :: 0 <= i < |entries| && Restorable(entries[i]) ==> entries[i].target in tree
    ensures TreeAfter(tree, entries, n, false, faults) == tree
  {
    if n > 0 { AllSkipped(tree, entries, n - 1, faults); }
  }

  /** After a restore without faults, in either mode, restoring the same backup in skip mode changes nothing. */
  lemma SkipAfterRestore(tree: Tree, entries: seq<Entry>, overwrite: bool, faults: Faults, later: Faults)
    requires forall k :: !faults.readFails(k) && !faults.writeFails(k)
    ensures var restored := TreeAfter(tree, entries, |entries|, overwrite, faults);
      TreeAfter(restored, entries, |entries|, false, later) == restored
  {
    forall i | 0 <= i < |entries| && Restorable(entries[i])
      ensures entries[i].target in TreeAfter(tree, entries, |entries|, overwrite, faults)
    {
      TargetsPresent(tree, entries, |entries|, overwrite, faults, i);
    }
    AllSkipped(TreeAfter(tree, entries, |entries|, overwrite, faults), entries, |entries|, later);
  }
}
