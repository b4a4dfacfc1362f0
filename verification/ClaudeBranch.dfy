/** The current branch of a Claude conversation: from the current leaf up its chain of parents. */
module ClaudeBranch {
  import opened Sets

  /** A message; an empty parent means that it has none. */
  datatype Message = Message(id: string, parent: string)

  type Index = map<string, Message>

  /** The messages by identifier; of several with one identifier, the last. */
  function IndexOf(messages: seq<Message>): Index {
    if messages == [] then map[]
    else
      var last := messages[|messages| - 1];
      IndexOf(messages[..|messages| - 1])[last.id := last]
  }

  lemma {:induction false} IndexMeans(messages: seq<Message>)
    ensures |IndexOf(messages)| <= |messages|
    ensures forall m :: m in messages ==> m.id in IndexOf(messages)
    ensures forall id :: id in IndexOf(messages) ==> IndexOf(messages)[id] in messages && IndexOf(messages)[id].id == id
  {
    if messages != [] {
      var front, last := messages[..|messages| - 1], messages[|messages| - 1];
      IndexMeans(front);
      var index := IndexOf(messages);
      assert index.Keys == IndexOf(front).Keys + {last.id};
      assert messages == front + [last];
    }
  }

  /** Of several messages with one identifier, the last is found. */
  lemma {:induction false} LastIsIndexed(messages: seq<Message>, k: nat)
    requires k < |messages| && forall l :: k < l < |messages| ==> messages[l].id != messages[k].id
    ensures messages[k].id in IndexOf(messages) && IndexOf(messages)[messages[k].id] == messages[k]
  {
    if k < |messages| - 1 { LastIsIndexed(messages[..|messages| - 1], k); }
  }

  // ---- Chains of parents ----

  /** The `n`-th message on the way up from `leaf`, when there is one. */
  predicate Climbs(index: Index, leaf: string, n: nat) {
    if n == 0 then leaf != "" && leaf in index
    else Climbs(index, leaf, n - 1) && Ancestor(index, leaf, n) != "" && Ancestor(index, leaf, n) in index
  }

  function Ancestor(index: Index, leaf: string, n: nat): string
    decreases n
  {
    if n == 0 then leaf
    else
      var below := Ancestor(index, leaf, n - 1);
      if below in index then index[below].parent else ""
  }

  lemma {:induction false} ClimbsDown(index: Index, leaf: string, n: nat, k: nat)
    requires Climbs(index, leaf, n) && k <= n
    ensures Climbs(index, leaf, k) && Ancestor(index, leaf, k) in index && Ancestor(index, leaf, k) != ""
  {
    if k < n { ClimbsDown(index, leaf, n - 1, k); }
  }

  /** On the way up from the leaf no message is met twice. */
  ghost predicate Acyclic(index: Index, leaf: string) {
    forall i, j :: 0 <= i < j && Climbs(index, leaf, j) ==> Ancestor(index, leaf, i) != Ancestor(index, leaf, j)
  }

  /** From the root of the branch down to the leaf: parents before children, with nothing further up. */
  ghost predicate IsBranch(branch: seq<Message>, index: Index, leaf: string) {
    if leaf == "" || leaf !in index then branch == []
    else
      && branch != []
      && branch[|branch| - 1] == index[leaf]
      && (forall i :: 0 <= i < |branch| ==> branch[i].id in index && index[branch[i].id] == branch[i] && branch[i].id != "")
      && (forall i :: 0 < i < |branch| ==> branch[i].parent == branch[i - 1].id)
      && (branch[0].parent == "" || branch[0].parent !in index)
  }

  /** There is only one such chain. */
  lemma {:induction false} BranchIsUnique(a: seq<Message>, b: seq<Message>, index: Index, leaf: string)
    requires IsBranch(a, index, leaf) && IsBranch(b, index, leaf)
    ensures a == b
    decreases |a|
  {
    if leaf != "" && leaf in index {
      assert |a| > 1 ==> a[|a| - 1].parent == a[|a| - 2].id;
      assert |b| > 1 ==> b[|b| - 1].parent == b[|b| - 2].id;
      if |a| > 1 && |b| > 1 {
        var parent := index[leaf].parent;
        ShorterBranch(a, index, leaf);
        ShorterBranch(b, index, leaf);
        BranchIsUnique(a[..|a| - 1], b[..|b| - 1], index, parent);
        assert a == a[..|a| - 1] + [a[|a| - 1]] && b == b[..|b| - 1] + [b[|b| - 1]];
      }
    }
  }

  lemma ShorterBranch(a: seq<Message>, index: Index, leaf: string)
    requires IsBranch(a, index, leaf) && |a| > 1
    ensures IsBranch(a[..|a| - 1], index, index[leaf].parent)
  {
    var front := a[..|a| - 1];
    assert a[|a| - 1].parent == a[|a| - 2].id;
    assert forall i :: 0 <= i < |front| ==> front[i] == a[i];
  }

  // ---- Distinct identifiers ----

  ghost predicate Distinct(messages: seq<Message>) {
    forall j, k :: 0 <= j < k < |messages| ==> messages[j].id != messages[k].id
  }

  predicate HasId(messages: seq<Message>, id: string) {
    exists m :: m in messages && m.id == id
  }

  /** The chain of parents in the messages themselves, from one without a parent among them down to the leaf. */
  ghost predicate ChainOf(branch: seq<Message>, messages: seq<Message>, leaf: string) {
    if leaf == "" || !HasId(messages, leaf) then branch == []
    else
      && branch != []
      && branch[|branch| - 1].id == leaf
      && (forall i :: 0 <= i < |branch| ==> branch[i] in messages && branch[i].id != "")
      && (forall i :: 0 < i < |branch| ==> branch[i].parent == branch[i - 1].id)
      && (branch[0].parent == "" || !HasId(messages, branch[0].parent))
  }

  lemma IndexHas(messages: seq<Message>, id: string)
    ensures id in IndexOf(messages) <==> HasId(messages, id)
  {
    IndexMeans(messages);
  }

  lemma IndexOfDistinct(messages: seq<Message>, m: Message)
    requires Distinct(messages)
    ensures m in messages <==> m.id in IndexOf(messages) && IndexOf(messages)[m.id] == m
  {
    IndexMeans(messages);
  }

  /** With distinct identifiers the branch is the maximal chain of parents among the messages. */
  lemma BranchOfDistinctIff(branch: seq<Message>, messages: seq<Message>, leaf: string)
    requires Distinct(messages)
    ensures IsBranch(branch, IndexOf(messages), leaf) <==> ChainOf(branch, messages, leaf)
  {
    IndexMeans(messages);
    IndexHas(messages, leaf);
    if branch != [] {
      IndexHas(messages, branch[0].parent);
      forall i | 0 <= i < |branch|
        ensures branch[i] in messages <==> branch[i].id in IndexOf(messages) && IndexOf(messages)[branch[i].id] == branch[i]
      {
        IndexOfDistinct(messages, branch[i]);
      }
    }
    hide Distinct, HasId, IndexOf;
  }

  // ---- The walk ----

  /**
   * The walk up from the leaf. It ends because the chain meets no message twice, within as many steps as there are
   * messages, and yields the one maximal chain from a root to the leaf.
   */
  method CurrentBranch(messages: seq<Message>, leaf: string) returns (branch: seq<Message>)
    requires Acyclic(IndexOf(messages), leaf)
    ensures IsBranch(branch, IndexOf(messages), leaf)
    ensures |branch| <= |messages|
  {
    branch := [];
    if messages == [] || leaf == "" {
      return;
    }
    var index := IndexOf(messages);
    IndexMeans(messages);
    hide *;
    var current := leaf;
    ghost var met: set<string> := {};
    StartOfWalk(index, leaf);
    while current != "" && current in index
      invariant Walked(branch, index, leaf, current, met)
      invariant met <= index.Keys && |met| == |branch|
      decreases |index.Keys| - |branch|
    {
      WalkOn(branch, index, leaf, current, met);
      met := met + {current};
      SubsetIsSmaller(met, index.Keys);
      var message := index[current];
      branch := [message] + branch;
      current := message.parent;
      if current == "" || current !in index {
        break;
      }
    }
    SubsetIsSmaller(met, index.Keys);
    WalkEnds(branch, index, leaf, current, met);
  }

  ghost predicate Walked(branch: seq<Message>, index: Index, leaf: string, current: string, met: set<string>) {
    && current == Ancestor(index, leaf, |branch|)
    && (|branch| > 0 ==> Climbs(index, leaf, |branch| - 1))
    && MetBelow(index, leaf, |branch|, met)
    && Partial(branch, index, leaf, current)
  }

  ghost predicate MetBelow(index: Index, leaf: string, n: nat, met: set<string>) {
    forall id :: id in met ==> exists k :: 0 <= k < n && id == Ancestor(index, leaf, k)
  }

  lemma StartOfWalk(index: Index, leaf: string)
    ensures Walked([], index, leaf, leaf, {})
  {
  }

  lemma WalkOn(branch: seq<Message>, index: Index, leaf: string, current: string, met: set<string>)
    requires Acyclic(index, leaf) && Walked(branch, index, leaf, current, met) && current != "" && current in index
    requires forall id :: id in index ==> index[id].id == id
    ensures current !in met && Walked([index[current]] + branch, index, leaf, index[current].parent, met + {current})
  {
    hide Partial;
    NotMetBefore(index, leaf, |branch|, met);
    PartialMore(branch, index, leaf, current);
    assert MetBelow(index, leaf, |branch| + 1, met + {current});
  }

  lemma PartialMore(branch: seq<Message>, index: Index, leaf: string, current: string)
    requires Partial(branch, index, leaf, current) && current != "" && current in index
    requires forall id :: id in index ==> index[id].id == id
    ensures Partial([index[current]] + branch, index, leaf, index[current].parent)
  {
  }

  lemma WalkEnds(branch: seq<Message>, index: Index, leaf: string, current: string, met: set<string>)
    requires Walked(branch, index, leaf, current, met) && (current == "" || current !in index)
    ensures IsBranch(branch, index, leaf)
  {
    hide Ancestor, Climbs, MetBelow;
  }

  /** A branch under construction: it hangs from `current`. */
  ghost predicate Partial(branch: seq<Message>, index: Index, leaf: string, current: string) {
    if branch == [] then current == leaf
    else
      && leaf != "" && leaf in index
      && branch[|branch| - 1] == index[leaf]
      && (forall i :: 0 <= i < |branch| ==> branch[i].id in index && index[branch[i].id] == branch[i] && branch[i].id != "")
      && (forall i :: 0 < i < |branch| ==> branch[i].parent == branch[i - 1].id)
      && branch[0].parent == current
  }

  lemma NotMetBefore(index: Index, leaf: string, n: nat, met: set<string>)
    requires Acyclic(index, leaf) && (n > 0 ==> Climbs(index, leaf, n - 1))
    requires Ancestor(index, leaf, n) != "" && Ancestor(index, leaf, n) in index
    requires MetBelow(index, leaf, n, met)
    ensures Climbs(index, leaf, n) && Ancestor(index, leaf, n) !in met
  {
  }

  // ---- When the walk ends ----

  /** The walk ends exactly when the chain meets no message twice: otherwise it can climb as far as you like. */
  lemma EndsIff(index: Index, leaf: string)
    ensures Acyclic(index, leaf) <==> exists n: nat :: !Climbs(index, leaf, n)
  {
    hide *;
    if Acyclic(index, leaf) {
      var n: nat := |index|;
      TooManyAncestors(index, leaf, n);
      assert !Climbs(index, leaf, n);
    } else {
      var i, j := CycleOf(index, leaf);
      forall n: nat ensures Climbs(index, leaf, n) { CycleGoesOn(index, leaf, i, j, n); }
    }
  }

  lemma {:induction false} BranchIsClimbed(branch: seq<Message>, index: Index, leaf: string, k: nat)
    requires IsBranch(branch, index, leaf) && k < |branch| && forall id :: id in index ==> index[id].id == id
    ensures Climbs(index, leaf, k) && Ancestor(index, leaf, k) == branch[|branch| - 1 - k].id
    ensures index[Ancestor(index, leaf, k)] == branch[|branch| - 1 - k]
  {
    if k > 0 {
      BranchIsClimbed(branch, index, leaf, k - 1);
      assert branch[|branch| - k].parent == branch[|branch| - 1 - k].id;
    } else {
      assert branch[|branch| - 1] == index[leaf];
    }
  }

  lemma {:induction false} BranchSoFar(index: Index, leaf: string, n: nat) returns (branch: seq<Message>)
    requires (forall id :: id in index ==> index[id].id == id) && (n > 0 ==> Climbs(index, leaf, n - 1))
    ensures Partial(branch, index, leaf, Ancestor(index, leaf, n))
  {
    if n == 0 {
      branch := [];
    } else {
      ClimbsDown(index, leaf, n - 1, n - 1);
      if n > 1 { ClimbsDown(index, leaf, n - 1, n - 2); }
      var below := BranchSoFar(index, leaf, n - 1);
      var current := Ancestor(index, leaf, n - 1);
      PartialMore(below, index, leaf, current);
      branch := [index[current]] + below;
    }
  }

  lemma {:induction false} FirstStop(index: Index, leaf: string, n: nat) returns (first: nat)
    requires !Climbs(index, leaf, n)
    ensures !Climbs(index, leaf, first) && (first > 0 ==> Climbs(index, leaf, first - 1))
  {
    if n > 0 && !Climbs(index, leaf, n - 1) { first := FirstStop(index, leaf, n - 1); } else { first := n; }
  }

  /** There is a branch to find exactly when the chain of parents meets no message twice. */
  lemma BranchExistsIff(messages: seq<Message>, leaf: string)
    ensures (exists branch :: IsBranch(branch, IndexOf(messages), leaf)) <==> Acyclic(IndexOf(messages), leaf)
  {
    var index := IndexOf(messages);
    IndexMeans(messages);
    EndsIff(index, leaf);
    hide Acyclic, IndexOf;
    if branch :| IsBranch(branch, index, leaf) { BranchStops(branch, index, leaf); }
    if n: nat :| !Climbs(index, leaf, n) {
      var first := FirstStop(index, leaf, n);
      var branch := BranchSoFar(index, leaf, first);
      assert IsBranch(branch, index, leaf);
    }
  }

  lemma BranchStops(branch: seq<Message>, index: Index, leaf: string)
    requires IsBranch(branch, index, leaf) && forall id :: id in index ==> index[id].id == id
    ensures !Climbs(index, leaf, |branch|)
  {
    if branch != [] { BranchIsClimbed(branch, index, leaf, |branch| - 1); }
  }

  /** A message that is its own parent: the walk from it never ends. */
  lemma OwnParentNeverEnds()
    ensures var index := IndexOf([Message("m", "m")]); !Acyclic(index, "m") && forall n: nat :: Climbs(index, "m", n)
  {
    var messages := [Message("m", "m")];
    var index := IndexOf(messages);
    IndexMeans(messages);
    assert messages[0] in messages && index["m"] == messages[0];
    assert Ancestor(index, "m", 0) == "m";
    assert Ancestor(index, "m", 1) == "m" && Climbs(index, "m", 0);
    assert Climbs(index, "m", 1);
    forall n: nat ensures Climbs(index, "m", n) { CycleGoesOn(index, "m", 0, 1, n); }
  }

  lemma CycleOf(index: Index, leaf: string) returns (i: nat, j: nat)
    requires !Acyclic(index, leaf)
    ensures i < j && Climbs(index, leaf, j) && Ancestor(index, leaf, i) == Ancestor(index, leaf, j)
  {
    i, j :| i < j && Climbs(index, leaf, j) && Ancestor(index, leaf, i) == Ancestor(index, leaf, j);
  }

  lemma TooManyAncestors(index: Index, leaf: string, n: nat)
    requires Acyclic(index, leaf)
    ensures Climbs(index, leaf, n) ==> n < |index|
  {
    if Climbs(index, leaf, n) {
      var met := AncestorsUpTo(index, leaf, n);
      SubsetIsSmaller(met, index.Keys);
    }
  }

  lemma {:induction false} AncestorsUpTo(index: Index, leaf: string, n: nat) returns (met: set<string>)
    requires Acyclic(index, leaf) && Climbs(index, leaf, n)
    ensures met <= index.Keys && |met| == n + 1 && MetBelow(index, leaf, n + 1, met)
  {
    ClimbsDown(index, leaf, n, n);
    var top := Ancestor(index, leaf, n);
    var below: set<string> := {};
    if n > 0 { below := AncestorsUpTo(index, leaf, n - 1); }
    NotMetBefore(index, leaf, n, below);
    met := below + {top};
    assert MetBelow(index, leaf, n + 1, met) by {
      forall id | id in met ensures exists k :: 0 <= k < n + 1 && id == Ancestor(index, leaf, k) {
        if id in below { var k :| 0 <= k < n && id == Ancestor(index, leaf, k); } else { assert id == Ancestor(index, leaf, n); }
      }
    }
  }

  lemma {:induction false} CycleGoesOn(index: Index, leaf: string, i: nat, j: nat, n: nat)
    requires i < j && Climbs(index, leaf, j) && Ancestor(index, leaf, i) == Ancestor(index, leaf, j)
    ensures Climbs(index, leaf, n)
    decreases n
  {
    if n <= j {
      ClimbsDown(index, leaf, j, n);
    } else {
      CycleGoesOn(index, leaf, i, j, n - 1);
      SameAncestors(index, leaf, i, j, n - j);
      CycleGoesOn(index, leaf, i, j, i + (n - j));
      ClimbsDown(index, leaf, i + (n - j), i + (n - j));
    }
  }

  lemma {:induction false} SameAncestors(index: Index, leaf: string, i: nat, j: nat, d: nat)
    requires Ancestor(index, leaf, i) == Ancestor(index, leaf, j)
    ensures Ancestor(index, leaf, i + d) == Ancestor(index, leaf, j + d)
    decreases d
  {
    if d > 0 { SameAncestors(index, leaf, i, j, d - 1); }
  }
}
