/** Preview jobs: one registry of running jobs, stored status records, and the starters, workers and readers that share them. */
module PreviewJobs {
  import opened Text

  datatype State = Running | Succeeded | Failed
  datatype Record = Record(job: string, state: State)

  /**
   * A request or worker, at the point it has reached. One that is announcing, releasing, working, finishing or
   * comparing has stored its job id in the registry and has not deleted it yet.
   */
  datatype Thread =
    | Reading(key: string, starting: bool)
    | Loaded(key: string, starting: bool, seen: Option<Record>)
    | Repairing(key: string, starting: bool, stale: Record)
    | Claiming(key: string, current: Option<Record>)
    | Answered(key: string, answer: Option<Record>)
    | Announcing(key: string, job: string)
    | Releasing(key: string, job: string)
    | Working(key: string, job: string)
    | Finishing(key: string, job: string)
    | Comparing(key: string, job: string, loaded: Option<string>)
  {
    predicate Owns() {
      Announcing? || Releasing? || Working? || Finishing? || Comparing?
    }
  }

  /** `minted` holds the job ids handed out so far, and those of the records found at start. */
  datatype World = World(registry: map<string, string>, records: map<string, Record>, threads: map<nat, Thread>, minted: set<string>)

  /** One atomic step: a registry operation, a load or write of a status record, or a restart of the process. */
  datatype Action =
    | Begin(tid: nat, key: string, starting: bool)
    | Load(tid: nat)
    | Check(tid: nat)
    | Repair(tid: nat, written: bool)
    | Claim(tid: nat, newId: string)
    | Announce(tid: nat, written: bool)
    | Release(tid: nat)
    | Finish(tid: nat, succeeded: bool, written: bool)
    | Peek(tid: nat)
    | Compare(tid: nat)
    | Restart

  predicate Blank(job: string) {
    TrimSpace(job) == ""
  }

  function Lookup<T>(m: map<string, T>, key: string): Option<T> {
    if key in m then Some(m[key]) else None
  }

  predicate IsRunning(registry: map<string, string>, key: string, job: string) {
    key in registry && if Blank(job) then registry[key] != "" else registry[key] == job
  }

  predicate Interrupted(registry: map<string, string>, key: string, seen: Option<Record>) {
    seen.Some? && seen.value.state == Running && !IsRunning(registry, key, seen.value.job)
  }

  function AfterRead(key: string, starting: bool, seen: Option<Record>): Thread {
    if starting then Claiming(key, seen) else Answered(key, seen)
  }

  function Stored(records: map<string, Record>, key: string, r: Record, written: bool): map<string, Record> {
    if written then records[key := r] else records
  }

  function Advance(w: World, tid: nat, next: Thread): World {
    w.(threads := w.threads[tid := next])
  }

  /** What a claim does: the job id is stored unless the key is taken. */
  function Claimed(w: World, tid: nat, newId: string): World
    requires tid in w.threads && w.threads[tid].Claiming?
  {
    var key, current := w.threads[tid].key, w.threads[tid].current;
    if key in w.registry then
      Advance(w, tid, Answered(key, if current.Some? then current else Some(Record(w.registry[key], Running))))
    else
      Advance(w.(registry := w.registry[key := newId], minted := w.minted + {newId}), tid, Announcing(key, newId))
  }

  /** The thread of an action is at the point where that action comes next. */
  predicate Enabled(w: World, a: Action) {
    match a
    case Begin(tid, _, _) => tid !in w.threads
    case Load(tid) => tid in w.threads && w.threads[tid].Reading?
    case Check(tid) => tid in w.threads && w.threads[tid].Loaded?
    case Repair(tid, _) => tid in w.threads && w.threads[tid].Repairing?
    case Claim(tid, newId) => tid in w.threads && w.threads[tid].Claiming? && newId !in w.minted && !Blank(newId)
    case Announce(tid, _) => tid in w.threads && w.threads[tid].Announcing?
    case Release(tid) => tid in w.threads && w.threads[tid].Releasing?
    case Finish(tid, _, _) => tid in w.threads && w.threads[tid].Working?
    case Peek(tid) => tid in w.threads && w.threads[tid].Finishing?
    case Compare(tid) => tid in w.threads && w.threads[tid].Comparing?
    case Restart => true
  }

  function Apply(w: World, a: Action): World
    requires Enabled(w, a)
  {
    match a
    case Begin(tid, key, starting) => Advance(w, tid, Reading(key, starting))
    case Load(tid) =>
      var t := w.threads[tid];
      Advance(w, tid, Loaded(t.key, t.starting, Lookup(w.records, t.key)))
    case Check(tid) =>
      var t := w.threads[tid];
      Advance(w, tid, if Interrupted(w.registry, t.key, t.seen) then Repairing(t.key, t.starting, t.seen.value)
                      else AfterRead(t.key, t.starting, t.seen))
    case Repair(tid, written) =>
      var t := w.threads[tid];
      var repaired := t.stale.(state := Failed);
      Advance(w.(records := Stored(w.records, t.key, repaired, written)), tid, AfterRead(t.key, t.starting, Some(repaired)))
    case Claim(tid, newId) => Claimed(w, tid, newId)
    case Announce(tid, written) =>
      var t := w.threads[tid];
      Advance(w.(records := Stored(w.records, t.key, Record(t.job, Running), written)), tid,
              if written then Working(t.key, t.job) else Releasing(t.key, t.job))
    case Release(tid) =>
      w.(registry := w.registry - {w.threads[tid].key}, threads := w.threads - {tid})
    case Finish(tid, succeeded, written) =>
      var t := w.threads[tid];
      var final := Record(t.job, if succeeded then Succeeded else Failed);
      Advance(w.(records := Stored(w.records, t.key, final, written)), tid, Finishing(t.key, t.job))
    case Peek(tid) =>
      var t := w.threads[tid];
      Advance(w, tid, Comparing(t.key, t.job, Lookup(w.registry, t.key)))
    case Compare(tid) =>
      var t := w.threads[tid];
      var deletes := t.loaded.Some? && (Blank(t.job) || t.loaded.value == t.job);
      w.(registry := if deletes then w.registry - {t.key} else w.registry, threads := w.threads - {tid})
    case Restart => w.(registry := map[], threads := map[])
  }

  /** An action that cannot come next changes nothing, so a run is any list of actions. */
  function Step(w: World, a: Action): World {
    if Enabled(w, a) then Apply(w, a) else w
  }

  function Run(w: World, actions: seq<Action>): World {
    if actions == [] then w else Step(Run(w, actions[..|actions| - 1]), actions[|actions| - 1])
  }

  lemma {:induction false} RunJoins(w: World, first: seq<Action>, rest: seq<Action>)
    ensures Run(w, first + rest) == Run(Run(w, first), rest)
  {
    if rest == [] {
      assert first + rest == first;
    } else {
      RunJoins(w, first, rest[..|rest| - 1]);
      assert (first + rest)[..|first + rest| - 1] == first + rest[..|rest| - 1];
    }
  }

  lemma RunFour(w: World, a: seq<Action>)
    requires |a| == 4
    ensures Run(w, a) == Step(Step(Step(Step(w, a[0]), a[1]), a[2]), a[3])
  {
    assert a[..3][..2] == a[..2] && a[..2][..1] == a[..1];
    assert Run(w, a[..1]) == Step(w, a[0]);
    assert Run(w, a[..2]) == Step(Run(w, a[..1]), a[1]);
    assert Run(w, a[..3]) == Step(Run(w, a[..2]), a[2]);
  }

  /** A freshly started process over whatever records an earlier one has left. */
  predicate Started(w: World) {
    w.registry == map[] && w.threads == map[]
  }

  // ---- Mutual exclusion ----

  ghost predicate OwnersRegistered(w: World) {
    forall t :: (t in w.threads && w.threads[t].Owns()) ==>
      var key := w.threads[t].key;
      key in w.registry && w.registry[key] == w.threads[t].job && !Blank(w.threads[t].job) && w.threads[t].job in w.minted
  }

  ghost predicate OneOwner(w: World) {
    forall t, u :: t in w.threads && u in w.threads && Rivals(w.threads[t], w.threads[u]) ==> t == u
  }

  predicate Rivals(a: Thread, b: Thread) {
    a.Owns() && b.Owns() && a.key == b.key
  }

  ghost predicate RegistryOwned(w: World) {
    forall k :: k in w.registry ==> exists t :: t in w.threads && w.threads[t].Owns() && w.threads[t].key == k
  }

  ghost predicate PeeksTrue(w: World) {
    forall t :: t in w.threads && w.threads[t].Comparing? ==> w.threads[t].loaded == Some(w.threads[t].job)
  }

  /** A key is in the registry exactly while one thread owns it, and then under that thread's job id. */
  ghost predicate Exclusive(w: World) {
    OwnersRegistered(w) && OneOwner(w) && RegistryOwned(w) && PeeksTrue(w)
  }

  lemma KeepsRegistryOwned(w: World, a: Action)
    requires Exclusive(w) && Enabled(w, a)
    ensures RegistryOwned(Apply(w, a))
  {
    var next := Apply(w, a);
    forall k | k in next.registry
      ensures exists t :: t in next.threads && next.threads[t].Owns() && next.threads[t].key == k
    {
      if k in w.registry {
        var t :| t in w.threads && w.threads[t].Owns() && w.threads[t].key == k;
        hide RegistryOwned, OneOwner, Blank;
        OwnerStays(w, a, t);
        hide Apply;
        assert t in next.threads && next.threads[t].Owns() && next.threads[t].key == k;
      } else {
        hide RegistryOwned, OneOwner, OwnersRegistered, PeeksTrue, Blank;
        assert a.tid in next.threads && next.threads[a.tid].Owns();
      }
    }
  }

  /** An owner keeps owning its key for as long as the key is in the registry. */
  lemma OwnerStays(w: World, a: Action, t: nat)
    requires OwnersRegistered(w) && PeeksTrue(w) && Enabled(w, a) && t in w.threads && w.threads[t].Owns()
    requires w.threads[t].key in Apply(w, a).registry
    ensures var next := Apply(w, a); t in next.threads && next.threads[t].Owns() && next.threads[t].key == w.threads[t].key
  {
    hide Blank;
  }

  lemma KeepsOneOwner(w: World, a: Action)
    requires Exclusive(w) && Enabled(w, a)
    ensures OneOwner(Apply(w, a))
  {
    hide RegistryOwned, PeeksTrue, Blank, Interrupted, Lookup, Stored;
    var next := Apply(w, a);
    forall t, u | t in next.threads && u in next.threads && Rivals(next.threads[t], next.threads[u])
      ensures t == u
    {
      if a.Claim? && (t == a.tid || u == a.tid) {
      } else {
        assert t in w.threads && u in w.threads && Rivals(w.threads[t], w.threads[u]);
      }
    }
  }

  lemma KeepsOwnersRegistered(w: World, a: Action)
    requires Exclusive(w) && Enabled(w, a)
    ensures OwnersRegistered(Apply(w, a))
  {
    hide RegistryOwned, PeeksTrue, Blank;
  }

  lemma KeepsPeeksTrue(w: World, a: Action)
    requires Exclusive(w) && Enabled(w, a)
    ensures PeeksTrue(Apply(w, a))
  {
    hide RegistryOwned, OneOwner, Blank;
  }

  lemma StepKeepsExclusive(w: World, a: Action)
    requires Exclusive(w)
    ensures Exclusive(Step(w, a))
  {
    if Enabled(w, a) {
      KeepsRegistryOwned(w, a);
      KeepsOneOwner(w, a);
      KeepsOwnersRegistered(w, a);
      KeepsPeeksTrue(w, a);
      hide Apply, RegistryOwned, OneOwner, OwnersRegistered, PeeksTrue;
    }
  }

  /** Under every interleaving, with writes that may fail and restarts at any time, each key has at most one owner. */
  lemma {:induction false} JobsAreExclusive(w: World, actions: seq<Action>)
    requires Started(w)
    ensures Exclusive(Run(w, actions))
  {
    if actions != [] {
      JobsAreExclusive(w, actions[..|actions| - 1]);
      StepKeepsExclusive(Run(w, actions[..|actions| - 1]), actions[|actions| - 1]);
    }
  }

  // ---- Running records are honest ----

  /** A stored running record belongs to a worker that is still at work. */
  ghost predicate Honest(w: World, key: string) {
    key in w.records && w.records[key].state == Running ==>
      exists t :: t in w.threads && w.threads[t] == Working(key, w.records[key].job)
  }

  /** The steps that can break it: a restart, and a final status write that fails. */
  predicate Breaks(a: Action) {
    a.Restart? || (a.Finish? && !a.written)
  }

  lemma StepKeepsHonest(w: World, a: Action, key: string)
    requires Honest(w, key) && !Breaks(a)
    ensures Honest(Step(w, a), key)
  {
    hide Blank, Lookup, Interrupted;
    var next := Step(w, a);
    if Enabled(w, a) && key in next.records && next.records[key].state == Running {
      if a.Announce? && a.written && w.threads[a.tid].key == key {
        assert next.threads[a.tid] == Working(key, next.records[key].job);
      } else {
        var t :| t in w.threads && w.threads[t] == Working(key, w.records[key].job);
        assert t in next.threads && next.threads[t] == Working(key, next.records[key].job);
      }
    }
  }

  /** A step that breaks the honesty of `key`: a restart or a failed final write while its record says running. */
  predicate BreaksHere(w: World, a: Action, key: string) {
    && Enabled(w, a) && Breaks(a)
    && key in w.records && w.records[key].state == Running
    && (a.Restart? || w.threads[a.tid].key == key)
  }

  lemma BreakingStepBreaks(w: World, a: Action, key: string)
    requires Exclusive(w) && Honest(w, key) && BreaksHere(w, a, key)
    ensures !Honest(Step(w, a), key)
  {
    hide Blank, Lookup, Interrupted, RegistryOwned, OwnersRegistered, PeeksTrue;
    if a.Finish? {
      var t :| t in w.threads && w.threads[t] == Working(key, w.records[key].job);
      assert Rivals(w.threads[t], w.threads[a.tid]);
      forall u | u in w.threads && u != t ensures w.threads[u] != Working(key, w.records[key].job) {
        assert !Rivals(w.threads[t], w.threads[u]);
      }
    }
  }

  lemma OtherBreaksKeep(w: World, a: Action, key: string)
    requires Honest(w, key) && Breaks(a) && !BreaksHere(w, a, key)
    ensures Honest(Step(w, a), key)
  {
    hide Blank, Lookup, Interrupted;
    if Enabled(w, a) && a.Finish? && key in w.records && w.records[key].state == Running {
      var t :| t in w.threads && w.threads[t] == Working(key, w.records[key].job);
      assert t in Step(w, a).threads && Step(w, a).threads[t] == Working(key, w.records[key].job);
    }
  }

  /** One step keeps an honest key honest exactly when it is not such a step. */
  lemma StepKeepsHonestIff(w: World, a: Action, key: string)
    requires Exclusive(w) && Honest(w, key)
    ensures Honest(Step(w, a), key) <==> !BreaksHere(w, a, key)
  {
    hide *;
    if BreaksHere(w, a, key) {
      BreakingStepBreaks(w, a, key);
    } else if Breaks(a) {
      OtherBreaksKeep(w, a, key);
    } else {
      StepKeepsHonest(w, a, key);
    }
  }

  /** The world after the first `n` actions. */
  function Prefix(w: World, actions: seq<Action>, n: nat): World
    requires n <= |actions|
  {
    Run(w, actions[..n])
  }

  lemma PrefixStep(w: World, actions: seq<Action>, n: nat)
    requires n < |actions|
    ensures Prefix(w, actions, n + 1) == Step(Prefix(w, actions, n), actions[n])
  {
    assert actions[..n + 1][..n] == actions[..n];
  }

  /** No step before the `n`-th breaks the honesty of `key`. */
  ghost predicate Unbroken(w: World, actions: seq<Action>, key: string, n: nat)
    requires n <= |actions|
  {
    forall i :: 0 <= i < n ==> !BreaksHere(Prefix(w, actions, i), actions[i], key)
  }

  lemma {:induction false} UnbrokenIsHonest(w: World, actions: seq<Action>, key: string, n: nat)
    requires Exclusive(w) && Honest(w, key) && n <= |actions|
    ensures Exclusive(Prefix(w, actions, n)) && (Unbroken(w, actions, key, n) ==> Honest(Prefix(w, actions, n), key))
  {
    hide Honest, Exclusive, BreaksHere, Step;
    if n == 0 {
      assert actions[..0] == [];
    } else {
      UnbrokenIsHonest(w, actions, key, n - 1);
      PrefixStep(w, actions, n - 1);
      StepKeepsExclusive(Prefix(w, actions, n - 1), actions[n - 1]);
      if Unbroken(w, actions, key, n) { StepKeepsHonestIff(Prefix(w, actions, n - 1), actions[n - 1], key); }
    }
  }

  lemma HonestNext(w: World, actions: seq<Action>, key: string, n: nat)
    requires Exclusive(w) && Honest(w, key) && n < |actions| && Honest(Prefix(w, actions, n), key)
    ensures Honest(Prefix(w, actions, n + 1), key) <==> !BreaksHere(Prefix(w, actions, n), actions[n], key)
  {
    hide *;
    UnbrokenIsHonest(w, actions, key, n);
    PrefixStep(w, actions, n);
    StepKeepsHonestIff(Prefix(w, actions, n), actions[n], key);
  }

  ghost predicate HonestThroughout(w: World, actions: seq<Action>, key: string) {
    forall n :: 0 <= n <= |actions| ==> Honest(Prefix(w, actions, n), key)
  }

  /**
   * With the steps of any number of readers, starters and workers interleaved as they come, a key is honest throughout
   * a run exactly when no restart and no failed final write of the key comes while its record says running.
   */
  lemma HonestThroughoutIff(w: World, actions: seq<Action>, key: string)
    requires Exclusive(w) && Honest(w, key)
    ensures HonestThroughout(w, actions, key) <==> Unbroken(w, actions, key, |actions|)
  {
    hide Honest, Exclusive, BreaksHere, Step, Prefix;
    if HonestThroughout(w, actions, key) {
      forall n | 0 <= n < |actions| ensures !BreaksHere(Prefix(w, actions, n), actions[n], key) {
        assert Honest(Prefix(w, actions, n), key) && Honest(Prefix(w, actions, n + 1), key);
        HonestNext(w, actions, key, n);
      }
    }
    if Unbroken(w, actions, key, |actions|) {
      forall n | 0 <= n <= |actions| ensures Honest(Prefix(w, actions, n), key) { UnbrokenIsHonest(w, actions, key, n); }
    }
  }

  /** The first such step of a run is the one that breaks it. */
  lemma FirstBreakBreaks(w: World, actions: seq<Action>, key: string, n: nat)
    requires Exclusive(w) && Honest(w, key) && n < |actions|
    requires Unbroken(w, actions, key, n) && BreaksHere(Prefix(w, actions, n), actions[n], key)
    ensures HonestThroughout(w, actions[..n], key) && !Honest(Prefix(w, actions, n + 1), key)
  {
    hide Honest, Exclusive, BreaksHere, Step;
    forall i | 0 <= i <= n ensures Honest(Prefix(w, actions[..n], i), key) {
      assert actions[..n][..i] == actions[..i];
      UnbrokenIsHonest(w, actions, key, i);
    }
    UnbrokenIsHonest(w, actions, key, n);
    HonestNext(w, actions, key, n);
  }

  lemma HonestMeansRegistered(w: World, key: string)
    requires Exclusive(w) && Honest(w, key)
    ensures (key in w.records && w.records[key].state == Running) ==> IsRunning(w.registry, key, w.records[key].job)
  {
  }

  /**
   * With the read, check and repair steps of any number of readers interleaved as they come, a key whose record
   * is honest stays so, and its running record names the registered job, until a restart or a failed final write.
   */
  lemma {:induction false} RunningRecordsAreHonest(w: World, actions: seq<Action>, key: string)
    requires Exclusive(w) && Honest(w, key)
    requires forall i :: 0 <= i < |actions| ==> !Breaks(actions[i])
    ensures Exclusive(Run(w, actions)) && Honest(Run(w, actions), key)
    ensures var end := Run(w, actions);
      (key in end.records && end.records[key].state == Running) ==> IsRunning(end.registry, key, end.records[key].job)
  {
    if actions != [] {
      RunningRecordsAreHonest(w, actions[..|actions| - 1], key);
      var before, last := Run(w, actions[..|actions| - 1]), actions[|actions| - 1];
      StepKeepsExclusive(before, last);
      StepKeepsHonest(before, last, key);
    }
    HonestMeansRegistered(Run(w, actions), key);
  }

  /** A final write that fails leaves a running record whose job is over. */
  lemma FailedFinishLeavesRunning(key: string, job: string)
    requires !Blank(job)
    ensures var end := Run(World(map[], map[], map[], {}), AbandonedRun(key, job));
      end.records == map[key := Record(job, Running)] && end.registry == map[]
  {
    var w0 := World(map[], map[], map[], {});
    var claim := [Begin(0, key, true), Load(0), Check(0), Claim(0, job)];
    var finish := [Announce(0, true), Finish(0, true, false), Peek(0), Compare(0)];
    RunJoins(w0, claim, finish);
    FirstClaim(key, job);
    LostFinish(key, job);
  }

  lemma FirstClaim(key: string, job: string)
    requires !Blank(job)
    ensures Run(World(map[], map[], map[], {}), [Begin(0, key, true), Load(0), Check(0), Claim(0, job)])
         == World(map[key := job], map[], map[0 := Announcing(key, job)], {job})
  {
    var w0 := World(map[], map[], map[], {});
    RunFour(w0, [Begin(0, key, true), Load(0), Check(0), Claim(0, job)]);
    var w1 := Step(w0, Begin(0, key, true));
    var w2 := Step(w1, Load(0));
    assert w2.threads == map[0 := Loaded(key, true, None)];
    var w3 := Step(w2, Check(0));
    assert w3 == World(map[], map[], map[0 := Claiming(key, None)], {});
  }

  lemma LostFinish(key: string, job: string)
    requires !Blank(job)
    ensures Run(World(map[key := job], map[], map[0 := Announcing(key, job)], {job}),
                [Announce(0, true), Finish(0, true, false), Peek(0), Compare(0)])
         == World(map[], map[key := Record(job, Running)], map[], {job})
  {
    hide *;
    var w0 := World(map[key := job], map[], map[0 := Announcing(key, job)], {job});
    RunFour(w0, [Announce(0, true), Finish(0, true, false), Peek(0), Compare(0)]);
    AnnounceThenLose(key, job);
    PeekThenCompare(key, job);
  }

  lemma AnnounceThenLose(key: string, job: string)
    ensures Step(Step(World(map[key := job], map[], map[0 := Announcing(key, job)], {job}), Announce(0, true)), Finish(0, true, false))
         == World(map[key := job], map[key := Record(job, Running)], map[0 := Finishing(key, job)], {job})
  {
    hide Blank;
    var w1 := Step(World(map[key := job], map[], map[0 := Announcing(key, job)], {job}), Announce(0, true));
    assert w1 == World(map[key := job], map[key := Record(job, Running)], map[0 := Working(key, job)], {job});
  }

  lemma PeekThenCompare(key: string, job: string)
    ensures Step(Step(World(map[key := job], map[key := Record(job, Running)], map[0 := Finishing(key, job)], {job}), Peek(0)), Compare(0))
         == World(map[], map[key := Record(job, Running)], map[], {job})
  {
    hide Blank;
    var w1 := Step(World(map[key := job], map[key := Record(job, Running)], map[0 := Finishing(key, job)], {job}), Peek(0));
    assert w1 == World(map[key := job], map[key := Record(job, Running)], map[0 := Comparing(key, job, Some(job))], {job});
  }

  function AbandonedRun(key: string, job: string): seq<Action> {
    [Begin(0, key, true), Load(0), Check(0), Claim(0, job)] + [Announce(0, true), Finish(0, true, false), Peek(0), Compare(0)]
  }

  // ---- After a restart ----

  /** No job id of `gone` is registered, held by a thread, or reported as running to anyone. */
  ghost predicate Forgotten(w: World, gone: set<string>) {
    && gone <= w.minted
    && (forall k :: k in w.registry ==> w.registry[k] !in gone)
    && (forall t :: t in w.threads ==> KnowsNone(w.threads[t], gone))
  }

  predicate ReportsNone(r: Option<Record>, gone: set<string>) {
    r.Some? && r.value.state == Running ==> r.value.job !in gone
  }

  predicate KnowsNone(t: Thread, gone: set<string>) {
    match t
    case Claiming(_, current) => ReportsNone(current, gone)
    case Answered(_, answer) => ReportsNone(answer, gone)
    case _ => t.Owns() ==> t.job !in gone
  }

  lemma StepKeepsForgotten(w: World, a: Action, gone: set<string>)
    requires Forgotten(w, gone) && forall job :: job in gone ==> !Blank(job)
    ensures Forgotten(Step(w, a), gone)
  {
  }

  /**
   * After a restart, whatever starters, workers and readers do and whichever of their writes fail, no request is
   * ever told that a job from before the restart is running.
   */
  lemma {:induction false} NoGhostJobs(w: World, actions: seq<Action>)
    requires forall job :: job in w.minted ==> !Blank(job)
    ensures Forgotten(Run(Step(w, Restart), actions), w.minted)
  {
    if actions != [] {
      NoGhostJobs(w, actions[..|actions| - 1]);
      StepKeepsForgotten(Run(Step(w, Restart), actions[..|actions| - 1]), actions[|actions| - 1], w.minted);
    }
  }

  // ---- Whole calls, with nothing in between ----

  /** What a read leaves in the store, and what it returns. */
  function ReadOutcome(registry: map<string, string>, records: map<string, Record>, key: string, written: bool): (map<string, Record>, Option<Record>) {
    var seen := Lookup(records, key);
    if Interrupted(registry, key, seen) then
      var repaired := seen.value.(state := Failed);
      (Stored(records, key, repaired, written), Some(repaired))
    else (records, seen)
  }

  /** A read taken as one step is the steps of a reader in a row. */
  lemma ReadIsItsSteps(w: World, tid: nat, key: string, written: bool)
    requires tid !in w.threads
    ensures var end := Run(w, [Begin(tid, key, false), Load(tid), Check(tid), Repair(tid, written)]);
      var read := ReadOutcome(w.registry, w.records, key, written);
      end.registry == w.registry && end.records == read.0 && tid in end.threads && end.threads[tid] == Answered(key, read.1)
  {
    var actions := [Begin(tid, key, false), Load(tid), Check(tid), Repair(tid, written)];
    RunFour(w, actions);
    var w2 := Step(Step(w, actions[0]), actions[1]);
    assert w2.threads[tid] == Loaded(key, false, Lookup(w.records, key)) && w2.records == w.records;
  }

  lemma RunThree(w: World, a: seq<Action>)
    requires |a| == 3
    ensures Run(w, a) == Step(Step(Step(w, a[0]), a[1]), a[2])
  {
    assert a[..2][..1] == a[..1];
    assert Run(w, a[..1]) == Step(w, a[0]);
    assert Run(w, a[..2]) == Step(Run(w, a[..1]), a[1]);
  }

  /** The end of a worker taken as one step: the final record unless its write fails, and the key freed if it still holds the job. */
  lemma FinishIsItsSteps(w: World, tid: nat, succeeded: bool, written: bool)
    requires tid in w.threads && w.threads[tid].Working?
    ensures var key, job := w.threads[tid].key, w.threads[tid].job;
      var end := Run(w, [Finish(tid, succeeded, written), Peek(tid), Compare(tid)]);
      && end.records == (if written then w.records[key := Record(job, if succeeded then Succeeded else Failed)] else w.records)
      && end.registry == (if key in w.registry && (TrimSpace(job) == "" || w.registry[key] == job) then w.registry - {key} else w.registry)
      && end.threads == w.threads - {tid}
  {
    hide TrimSpace;
    var actions := [Finish(tid, succeeded, written), Peek(tid), Compare(tid)];
    RunThree(w, actions);
    var w1 := Step(w, actions[0]);
    assert w1.threads[tid] == Finishing(w.threads[tid].key, w.threads[tid].job);
    var w2 := Step(w1, actions[1]);
    assert w2.threads[tid] == Comparing(w.threads[tid].key, w.threads[tid].job, Lookup(w.registry, w.threads[tid].key));
  }

  /** The read of a starter, up to the point where it claims the key. */
  lemma StarterReads(w: World, tid: nat, key: string, repaired: bool)
    requires tid !in w.threads
    ensures var mid := Run(w, [Begin(tid, key, true), Load(tid), Check(tid), Repair(tid, repaired)]);
      var read := ReadOutcome(w.registry, w.records, key, repaired);
      mid.registry == w.registry && mid.records == read.0 && mid.minted == w.minted && mid.threads == w.threads[tid := Claiming(key, read.1)]
  {
    var actions := [Begin(tid, key, true), Load(tid), Check(tid), Repair(tid, repaired)];
    RunFour(w, actions);
    var w2 := Step(Step(w, actions[0]), actions[1]);
    assert w2.threads[tid] == Loaded(key, true, Lookup(w.records, key)) && w2.records == w.records;
    assert w2.threads == w.threads[tid := w2.threads[tid]];
  }

  lemma ClaimAndAnnounce(w: World, tid: nat, newId: string, written: bool)
    requires tid in w.threads && w.threads[tid].Claiming? && newId !in w.minted && !Blank(newId)
    ensures var key, current := w.threads[tid].key, w.threads[tid].current;
      var end := Run(w, [Claim(tid, newId), Announce(tid, written), Release(tid)]);
      if key in w.registry then
        end.registry == w.registry && end.records == w.records && tid in end.threads
        && end.threads[tid] == Answered(key, if current.Some? then current else Some(Record(w.registry[key], Running)))
      else if written then
        end.registry == w.registry[key := newId] && end.records == w.records[key := Record(newId, Running)]
        && tid in end.threads && end.threads[tid] == Working(key, newId)
      else end.registry == w.registry && end.records == w.records && tid !in end.threads
  {
    hide Blank;
    var key := w.threads[tid].key;
    var actions := [Claim(tid, newId), Announce(tid, written), Release(tid)];
    RunThree(w, actions);
    var w1 := Step(w, actions[0]);
    assert w1 == Claimed(w, tid, newId);
    assert key !in w.registry ==> w.registry[key := newId] - {key} == w.registry;
  }

  /** A start taken as one step is its read, its claim and its announcement in a row, as `Server.StartTask` has it. */
  lemma StartIsItsSteps(w: World, tid: nat, key: string, newId: string, repaired: bool, written: bool)
    requires tid !in w.threads && newId !in w.minted && !Blank(newId)
    ensures var steps := [Begin(tid, key, true), Load(tid), Check(tid), Repair(tid, repaired)] + [Claim(tid, newId), Announce(tid, written), Release(tid)];
      var end, read := Run(w, steps), ReadOutcome(w.registry, w.records, key, repaired);
      if key in w.registry then
        end.registry == w.registry && end.records == read.0 && tid in end.threads
        && end.threads[tid] == Answered(key, if read.1.Some? then read.1 else Some(Record(w.registry[key], Running)))
      else if written then
        end.registry == w.registry[key := newId] && end.records == w.records[key := Record(newId, Running)]
        && tid in end.threads && end.threads[tid] == Working(key, newId)
      else end.registry == w.registry && end.records == read.0 && tid !in end.threads
  {
    hide Run, Step, Blank;
    var front := [Begin(tid, key, true), Load(tid), Check(tid), Repair(tid, repaired)];
    RunJoins(w, front, [Claim(tid, newId), Announce(tid, written), Release(tid)]);
    StarterReads(w, tid, key, repaired);
    ClaimAndAnnounce(Run(w, front), tid, newId, written);
    var read := ReadOutcome(w.registry, w.records, key, repaired);
    assert read.0[key := Record(newId, Running)] == w.records[key := Record(newId, Running)];
  }

  /**
   * Taken as one step, a read reports running only for a registered job; right after a restart it turns a leftover
   * running record into a failed one, after which the key is honest and stays so.
   */
  lemma FirstReadRepairs(w: World, key: string)
    ensures var read := ReadOutcome(w.registry, w.records, key, true);
      && (read.1.Some? && read.1.value.state == Running ==> IsRunning(w.registry, key, read.1.value.job))
      && (Started(w) && key in w.records ==>
            read.0 == w.records[key := if w.records[key].state == Running then w.records[key].(state := Failed) else w.records[key]])
      && (Started(w) ==> Honest(w.(records := read.0), key) && Exclusive(w.(records := read.0)))
  {
    if key in w.records { assert w.records[key := w.records[key]] == w.records; }
  }

  /**
   * What a request is shown: the stored record, as failed when it says running without a registered job; without a
   * record, a succeeded one made up from the cached preview, if there is one.
   */
  function Shown(registry: map<string, string>, records: map<string, Record>, previews: set<string>, key: string): Option<Record> {
    if key in records then ReadOutcome(registry, records, key, false).1
    else if key in previews then Some(Record("", Succeeded))
    else None
  }

  /**
   * A stored record is shown as it is, unless it says running and its job is not registered, whatever the cached
   * previews; a key without one is shown as succeeded exactly when its preview is cached, and never as running or failed.
   */
  lemma ShownIff(registry: map<string, string>, records: map<string, Record>, previews: set<string>, key: string)
    ensures var shown := Shown(registry, records, previews, key);
      && (shown == None <==> key !in records && key !in previews)
      && (key !in records && shown.Some? ==> shown.value.state == Succeeded && shown.value.job == "")
      && (key in records ==>
            shown.Some? && shown.value.job == records[key].job
            && (records[key].state != Running ==> shown.value.state == records[key].state)
            && (records[key].state == Running ==>
                  shown.value.state == if key !in registry then Failed
                                       else if TrimSpace(records[key].job) == "" then (if registry[key] != "" then Running else Failed)
                                       else if registry[key] == records[key].job then Running else Failed))
  {
    hide TrimSpace;
  }

  /** The registry, the stored records and the keys with a cached preview, with the calls that use them. */
  class Server {
    var registry: map<string, string>
    var records: map<string, Record>
    var previews: set<string>

    constructor (found: map<string, Record>, cached: set<string>)
      ensures registry == map[] && records == found && previews == cached
    {
      registry := map[];
      records := found;
      previews := cached;
    }

    /** Reads the status of a key; `readable` when the stored status and preview could be read. */
    method ReadTask(key: string, readable: bool, written: bool) returns (status: Option<Record>)
      modifies this`records
      ensures records == if readable then ReadOutcome(registry, old(records), key, written).0 else old(records)
      ensures status == if readable then Shown(registry, old(records), previews, key) else None
    {
      if !readable {
        return None;
      }
      status := if key in records then Some(records[key]) else None;
      if status.Some? && status.value.state == Running && !IsRunning(registry, key, status.value.job) {
        status := Some(status.value.(state := Failed));
        if written {
          records := records[key := status.value];
        }
      }
      if status.None? && key in previews {
        status := Some(Record("", Succeeded));
      }
    }

    /** Stores `job` unless the key is taken; reports what the registry holds and whether it held it before. */
    method LoadOrStore(key: string, job: string) returns (existing: string, loaded: bool)
      modifies this`registry
      ensures loaded == (key in old(registry)) && key in registry && existing == registry[key]
      ensures registry == if loaded then old(registry) else old(registry)[key := job]
    {
      loaded := key in registry;
      if !loaded {
        registry := registry[key := job];
      }
      existing := registry[key];
    }

    method MarkFinished(key: string, job: string)
      modifies this`registry
      ensures registry == if key in old(registry) && (Blank(job) || old(registry)[key] == job) then old(registry) - {key} else old(registry)
    {
      if key in registry && (Blank(job) || registry[key] == job) {
        registry := registry - {key};
      }
    }

    /** Starts a job, or reports the one that is running; fails when the status cannot be read or written. */
    method StartTask(key: string, newId: string, readable: bool, repaired: bool, written: bool)
      returns (status: Option<Record>, started: bool)
      modifies this
      ensures previews == old(previews)
      ensures started == (readable && key !in old(registry) && written)
      ensures registry == if started then old(registry)[key := newId] else old(registry)
      ensures !readable ==> status == None && records == old(records)
      ensures readable ==>
                var kept := ReadOutcome(old(registry), old(records), key, repaired).0;
                var current := Shown(old(registry), old(records), previews, key);
                if key in old(registry) then
                  records == kept && status == if current.Some? then current else Some(Record(old(registry)[key], Running))
                else if written then
                  records == old(records)[key := Record(newId, Running)] && status == Some(Record(newId, Running))
                else
                  records == kept && status == None
    {
      if !readable {
        return None, false;
      }
      var current := ReadTask(key, true, repaired);
      var job, loaded := LoadOrStore(key, newId);
      if loaded {
        return if current.Some? then current else Some(Record(job, Running)), false;
      }
      if !written {
        registry := registry - {key};
        assert registry == old(registry);
        return None, false;
      }
      records := records[key := Record(newId, Running)];
      assert records == old(records)[key := Record(newId, Running)];
      return Some(Record(newId, Running)), true;
    }

    /** The worker's last acts: the preview, if there is one, the final status, then the registry entry. */
    method FinishTask(key: string, job: string, failed: bool, preview: bool, cached: bool, written: bool)
      modifies this
      ensures previews == if preview && cached then old(previews) + {key} else old(previews)
      ensures records == Stored(old(records), key, Record(job, if failed || (preview && !cached) then Failed else Succeeded), written)
      ensures !Blank(job) && IsRunning(old(registry), key, job) ==> registry == old(registry) - {key}
      ensures !Blank(job) && !IsRunning(old(registry), key, job) ==> registry == old(registry)
    {
      var state := if failed then Failed else Succeeded;
      if preview {
        if cached {
          previews := previews + {key};
        } else {
          state := Failed;
        }
      }
      if written {
        records := records[key := Record(job, state)];
      }
      MarkFinished(key, job);
    }
  }
  /** A job that ends well while its final status is lost: a key without a record is shown as succeeded all the same. */
  method FinishThenRead(server: Server, key: string, job: string, repaired: bool) returns (status: Option<Record>)
    requires key !in server.records
    modifies server
    ensures status == Some(Record("", Succeeded)) && server.records == old(server.records)
  {
    server.FinishTask(key, job, false, true, true, false);
    status := server.ReadTask(key, true, repaired);
  }
}
