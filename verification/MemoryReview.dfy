/** Reviewing Codex memory candidates: the review state, syncing candidates into profile memory, and conflicts. */
module MemoryReview {
  import opened Text
  import opened FreshNames

  const MAX_PROFILE_BYTES := 64 * 1024

  datatype Status = Accepted | Ignored | Deferred | Synced

  /** What a review request may ask for. */
  datatype Decision = Keep(status: Status) | RequireReview

  datatype ReviewItem = ReviewItem(id: string, title: string, kind: string, status: Status, note: string,
                                   sourcePath: string, memoryPath: string, reviewedAt: string, syncedAt: string)

  type ReviewState = map<string, ReviewItem>

  /** A candidate with its rendered content, edits included; `blank` when there is nothing left in it. */
  datatype Candidate = Candidate(id: string, title: string, kind: string, sourcePath: string, category: string, content: string, blank: bool)

  datatype Profile = Profile(content: string, source: string)

  /** Profile memory by category; categories are slugs, so looking one up needs no trimming. */
  type Profiles = map<string, Profile>

  datatype Outcome = Done | Skipped | Failed
  datatype SyncResult = SyncResult(id: string, outcome: Outcome, path: string)

  function AgentSource(): string {
    "agent:codex"
  }

  function ParseDecision(status: string): Option<Decision> {
    var s := Lower(TrimSpace(status));
    if s == "review_required" then Some(RequireReview)
    else if s == "accepted" then Some(Keep(Accepted))
    else if s == "ignored" then Some(Keep(Ignored))
    else if s == "deferred" then Some(Keep(Deferred))
    else None
  }

  // ---- The review state ----

  /** Each item is stored under its own identifier, and has a time of syncing exactly when it is synced. */
  ghost predicate WellKept(state: ReviewState) {
    forall id :: id in state ==> state[id].id == id && (state[id].syncedAt != "" <==> state[id].status == Synced)
  }

  function CurrentItem(state: ReviewState, id: string): ReviewItem {
    if id in state then state[id] else ReviewItem("", "", "", Deferred, "", "", "", "", "")
  }

  function ByIdentifier(candidates: seq<Candidate>): map<string, Candidate> {
    if candidates == [] then map[]
    else
      var last := candidates[|candidates| - 1];
      var before := ByIdentifier(candidates[..|candidates| - 1]);
      if TrimSpace(last.id) == "" then before else before[last.id := last]
  }

  function Reviewed(state: ReviewState, known: map<string, Candidate>, rawId: string, decision: Decision, note: string, now: string): ReviewState {
    var id := TrimSpace(rawId);
    if id == "" || id !in known then state
    else match decision
      case RequireReview => state - {id}
      case Keep(status) =>
        var current := CurrentItem(state, id);
        state[id := ReviewItem(id, known[id].title, known[id].kind, status, note, known[id].sourcePath, current.memoryPath, now,
                               if status == Synced then current.syncedAt else "")]
  }

  /** The identifiers asked for, trimmed, without the blank ones. */
  function Named(ids: seq<string>): seq<string> {
    if ids == [] then []
    else
      var id := TrimSpace(ids[|ids| - 1]);
      Named(ids[..|ids| - 1]) + if id == "" then [] else [id]
  }

  /** Those of them that name a candidate. */
  function Known(known: map<string, Candidate>, ids: seq<string>): seq<string> {
    if ids == [] then []
    else
      var id := TrimSpace(ids[|ids| - 1]);
      Known(known, ids[..|ids| - 1]) + if id != "" && id in known then [id] else []
  }

  function ReviewedAll(state: ReviewState, known: map<string, Candidate>, ids: seq<string>, decision: Decision, note: string, now: string): ReviewState {
    if ids == [] then state
    else Reviewed(ReviewedAll(state, known, ids[..|ids| - 1], decision, note, now), known, ids[|ids| - 1], decision, note, now)
  }

  predicate Marks(known: map<string, Candidate>, r: SyncResult) {
    r.outcome == Done && TrimSpace(r.id) != "" && r.id in known
  }

  function Marked(state: ReviewState, known: map<string, Candidate>, results: seq<SyncResult>, now: string): ReviewState {
    if results == [] then state
    else
      var before, r := Marked(state, known, results[..|results| - 1], now), results[|results| - 1];
      if Marks(known, r) then
        before[r.id := ReviewItem(r.id, known[r.id].title, known[r.id].kind, Synced, "", known[r.id].sourcePath, r.path, now, now)]
      else before
  }

  datatype Resolution = KeepExisting | UseCandidate | KeepBoth | Merge

  function Resolved(state: ReviewState, c: Candidate, resolution: Resolution, path: string, note: string, now: string): ReviewState {
    var status := if resolution == KeepExisting then Ignored else Synced;
    state[c.id := ReviewItem(c.id, c.title, c.kind, status, note, c.sourcePath, path, now, if status == Synced then now else "")]
  }

  // ---- Syncing one candidate ----

  predicate SameText(a: string, b: string) {
    TrimSpace(a) == TrimSpace(b)
  }

  /** The profile was not written by this agent. */
  predicate Foreign(p: Profile) {
    TrimSpace(p.source) != AgentSource()
  }

  predicate Syncable(c: Candidate) {
    !c.blank && TrimSpace(c.content) != "" && |c.content| <= MAX_PROFILE_BYTES
  }

  predicate Conflicts(profiles: Profiles, c: Candidate) {
    c.category in profiles && !SameText(profiles[c.category].content, c.content) && Foreign(profiles[c.category])
  }

  /** Failing reads and writes of profile memory, by the index of the candidate they serve. */
  datatype Faults = Faults(readFails: nat -> bool, writeFails: nat -> bool)

  function OutcomeOf(profiles: Profiles, cs: seq<Candidate>, i: nat, faults: Faults): Outcome
    requires i < |cs|
  {
    if !Syncable(cs[i]) then Skipped
    else if faults.readFails(i) then Failed
    else if Conflicts(profiles, cs[i]) then Skipped
    else if faults.writeFails(i) then Failed
    else Done
  }

  function ProfilesAfter(profiles: Profiles, cs: seq<Candidate>, n: nat, faults: Faults): Profiles
    requires n <= |cs|
  {
    if n == 0 then profiles
    else
      var before := ProfilesAfter(profiles, cs, n - 1, faults);
      if OutcomeOf(before, cs, n - 1, faults) == Done then before[cs[n - 1].category := Profile(cs[n - 1].content, AgentSource())] else before
  }

  function ResultAt(profiles: Profiles, cs: seq<Candidate>, i: nat, faults: Faults, path: string -> string): SyncResult
    requires i < |cs|
  {
    SyncResult(cs[i].id, OutcomeOf(ProfilesAfter(profiles, cs, i, faults), cs, i, faults), path(cs[i].category))
  }

  function ResultsUpTo(profiles: Profiles, cs: seq<Candidate>, n: nat, faults: Faults, path: string -> string): seq<SyncResult>
    requires n <= |cs|
  {
    if n == 0 then [] else ResultsUpTo(profiles, cs, n - 1, faults, path) + [ResultAt(profiles, cs, n - 1, faults, path)]
  }

  function CountOf(results: seq<SyncResult>, o: Outcome): nat {
    if results == [] then 0 else CountOf(results[..|results| - 1], o) + if results[|results| - 1].outcome == o then 1 else 0
  }

  /** The counters count the results. */
  ghost predicate Accounted(results: seq<SyncResult>, synced: nat, skipped: nat, failed: nat) {
    synced == CountOf(results, Done) && skipped == CountOf(results, Skipped) && failed == CountOf(results, Failed)
  }

  lemma AccountedMore(results: seq<SyncResult>, r: SyncResult, synced: nat, skipped: nat, failed: nat)
    requires Accounted(results, synced, skipped, failed)
    ensures r.outcome == Done ==> Accounted(results + [r], synced + 1, skipped, failed)
    ensures r.outcome == Skipped ==> Accounted(results + [r], synced, skipped + 1, failed)
    ensures r.outcome == Failed ==> Accounted(results + [r], synced, skipped, failed + 1)
  {
    assert (results + [r])[..|results|] == results;
  }

  /** The positions of the results with this outcome. */
  function WithOutcome(results: seq<SyncResult>, o: Outcome): set<nat> {
    set i: nat | i < |results| && results[i].outcome == o
  }

  lemma OutcomesStep(results: seq<SyncResult>, o: Outcome)
    requires results != []
    ensures var front, n := results[..|results| - 1], |results| - 1;
      WithOutcome(results, o) == WithOutcome(front, o) + (if results[n].outcome == o then {n} else {}) && n !in WithOutcome(front, o)
  {
  }

  lemma {:induction false} CountOfMeans(results: seq<SyncResult>, o: Outcome)
    ensures CountOf(results, o) == |WithOutcome(results, o)|
  {
    if results == [] {
      assert WithOutcome(results, o) == {};
    } else {
      CountOfMeans(results[..|results| - 1], o);
      OutcomesStep(results, o);
      hide WithOutcome;
    }
  }

  lemma AccountedMeans(results: seq<SyncResult>, synced: nat, skipped: nat, failed: nat)
    requires Accounted(results, synced, skipped, failed)
    ensures synced == |WithOutcome(results, Done)| && skipped == |WithOutcome(results, Skipped)| && failed == |WithOutcome(results, Failed)|
  {
    CountOfMeans(results, Done);
    CountOfMeans(results, Skipped);
    CountOfMeans(results, Failed);
  }

  // ---- What is stored ----

  /** Four words ask for a decision, in any case and with white space around them; no other does. */
  lemma ParseDecisionIff(status: string)
    ensures var s, d := Lower(TrimSpace(status)), ParseDecision(status);
      && (d == Some(RequireReview) <==> s == "review_required")
      && (d == Some(Keep(Accepted)) <==> s == "accepted")
      && (d == Some(Keep(Ignored)) <==> s == "ignored")
      && (d == Some(Keep(Deferred)) <==> s == "deferred")
      && d != Some(Keep(Synced))
  {
    assert |"review_required"| == 15 && |"accepted"| == |"deferred"| == 8 && |"ignored"| == 7;
    assert "accepted"[0] == 'a' && "deferred"[0] == 'd';
    hide Lower, TrimSpace;
  }

  predicate IsLastOf(candidates: seq<Candidate>, i: nat, id: string) {
    i < |candidates| && candidates[i].id == id && forall j :: i < j < |candidates| ==> candidates[j].id != id
  }

  /** Of several candidates with one identifier the last is known; a blank identifier is never known. */
  lemma {:induction false} ByIdentifierIff(candidates: seq<Candidate>, id: string)
    ensures var known := ByIdentifier(candidates);
      && (id in known <==> TrimSpace(id) != "" && exists i: nat :: IsLastOf(candidates, i, id))
      && (id in known ==> exists i: nat :: IsLastOf(candidates, i, id) && i < |candidates| && known[id] == candidates[i])
  {
    hide TrimSpace, IsLastOf;
    if candidates == [] {
      forall i: nat ensures !IsLastOf(candidates, i, id) { NoneIsLast(i, id); }
    } else {
      var front, last := candidates[..|candidates| - 1], candidates[|candidates| - 1];
      ByIdentifierIff(front, id);
      forall i: nat ensures IsLastOf(candidates, i, id) <==> if last.id == id then i == |front| else IsLastOf(front, i, id) {
        LastOfMore(candidates, i, id);
      }
      if last.id == id {
        assert IsLastOf(candidates, |front|, id);
      } else if i: nat :| IsLastOf(front, i, id) && i < |front| && id in ByIdentifier(front) && ByIdentifier(front)[id] == front[i] {
        assert IsLastOf(candidates, i, id) && candidates[i] == front[i];
      }
    }
  }

  lemma NoneIsLast(i: nat, id: string)
    ensures !IsLastOf([], i, id)
  {
  }

  lemma LastOfMore(candidates: seq<Candidate>, i: nat, id: string)
    requires candidates != []
    ensures var front, last := candidates[..|candidates| - 1], candidates[|candidates| - 1];
      IsLastOf(candidates, i, id) <==> if last.id == id then i == |front| else IsLastOf(front, i, id)
  {
    var front, n := candidates[..|candidates| - 1], |candidates| - 1;
    assert forall j :: 0 <= j < n ==> front[j] == candidates[j];
  }

  /** The trimmed identifier is among those asked for. */
  ghost predicate Asked(ids: seq<string>, id: string) {
    id != "" && exists raw :: raw in ids && TrimSpace(raw) == id
  }

  lemma {:induction false} NamedIff(ids: seq<string>, known: map<string, Candidate>, id: string)
    ensures id in Named(ids) <==> Asked(ids, id)
    ensures id in Known(known, ids) <==> Asked(ids, id) && id in known
  {
    hide TrimSpace;
    if ids != [] {
      var front, last := ids[..|ids| - 1], ids[|ids| - 1];
      assert ids == front + [last];
      NamedIff(front, known, id);
    }
  }

  /** The positions at which a candidate, or just some identifier, is asked for. */
  function NamedAt(ids: seq<string>): set<nat> {
    set i: nat | i < |ids| && TrimSpace(ids[i]) != ""
  }

  function KnownAt(ids: seq<string>, known: map<string, Candidate>): set<nat> {
    set i: nat | i < |ids| && TrimSpace(ids[i]) != "" && TrimSpace(ids[i]) in known
  }

  lemma PositionsStep(ids: seq<string>, known: map<string, Candidate>)
    requires ids != []
    ensures var front, n, id := ids[..|ids| - 1], |ids| - 1, TrimSpace(ids[|ids| - 1]);
      && NamedAt(ids) == NamedAt(front) + (if id != "" then {n} else {}) && n !in NamedAt(front)
      && KnownAt(ids, known) == KnownAt(front, known) + (if id != "" && id in known then {n} else {}) && n !in KnownAt(front, known)
  {
    hide TrimSpace;
  }

  /** Identifiers that are not blank count once for each time they are asked for, known ones among them likewise. */
  lemma {:induction false} NamedCounts(ids: seq<string>, known: map<string, Candidate>)
    ensures |Named(ids)| == |NamedAt(ids)| && |Known(known, ids)| == |KnownAt(ids, known)|
  {
    hide TrimSpace, NamedAt, KnownAt;
    if ids == [] {
      NoPositions(known);
    } else {
      NamedCounts(ids[..|ids| - 1], known);
      PositionsStep(ids, known);
    }
  }

  lemma NoPositions(known: map<string, Candidate>)
    ensures NamedAt([]) == {} && KnownAt([], known) == {}
  {
  }

  /**
   * A review leaves every item alone that it was not asked about or that no candidate has; of the others it drops
   * those that are to be reviewed again, and stores the decision, the note and what the candidate is now.
   */
  lemma {:induction false} ReviewedAllIff(state: ReviewState, known: map<string, Candidate>, ids: seq<string>, decision: Decision,
                                          note: string, now: string, id: string)
    ensures var after := ReviewedAll(state, known, ids, decision, note, now);
      && (!(Asked(ids, id) && id in known) ==> SameItem(state, after, id))
      && (Asked(ids, id) && id in known && decision.RequireReview? ==> id !in after)
      && (Asked(ids, id) && id in known && decision.Keep? ==>
            && id in after && Stored(after[id], known[id], id, decision.status, note, now)
            && after[id].memoryPath == (if id in state then state[id].memoryPath else "")
            && (decision.status != Synced ==> after[id].syncedAt == ""))
  {
    hide TrimSpace;
    if ids != [] {
      var front, last := ids[..|ids| - 1], ids[|ids| - 1];
      assert ids == front + [last];
      ReviewedAllIff(state, known, front, decision, note, now, id);
      assert Asked(ids, id) <==> Asked(front, id) || (id != "" && TrimSpace(last) == id);
    }
  }

  predicate Stored(item: ReviewItem, c: Candidate, id: string, status: Status, note: string, now: string) {
    && item.id == id && item.title == c.title && item.kind == c.kind && item.sourcePath == c.sourcePath
    && item.status == status && item.note == note && item.reviewedAt == now
  }

  /** The result reports this candidate as synced. */
  predicate Reports(r: SyncResult, id: string) {
    r.outcome == Done && r.id == id
  }

  predicate SameItem(before: ReviewState, after: ReviewState, id: string) {
    (id in after <==> id in before) && (id in after ==> after[id] == before[id])
  }

  /** No result from `i` on reports the candidate as synced. */
  predicate NoneReports(results: seq<SyncResult>, i: nat, id: string) {
    forall j :: i <= j < |results| ==> !Reports(results[j], id)
  }

  lemma MarkStep(state: ReviewState, known: map<string, Candidate>, results: seq<SyncResult>, now: string, id: string)
    requires results != []
    ensures var before, after, r := Marked(state, known, results[..|results| - 1], now), Marked(state, known, results, now), results[|results| - 1];
      if Reports(r, id) && TrimSpace(id) != "" && id in known
      then id in after && Stored(after[id], known[id], id, Synced, "", now) && after[id].memoryPath == r.path && after[id].syncedAt == now
      else SameItem(before, after, id)
  {
    hide TrimSpace;
  }

  /** After a sync every item is as it was that no result reports, or whose candidate is not known. */
  lemma {:induction false} UnreportedStays(state: ReviewState, known: map<string, Candidate>, results: seq<SyncResult>, now: string, id: string)
    requires TrimSpace(id) == "" || id !in known || NoneReports(results, 0, id)
    ensures SameItem(state, Marked(state, known, results, now), id)
  {
    hide TrimSpace, Reports;
    if results != [] {
      UnreportedStays(state, known, results[..|results| - 1], now, id);
      MarkStep(state, known, results, now, id);
    }
  }

  /** The item of a known candidate is synced under the path that was reported last. */
  lemma {:induction false} ReportedIsSynced(state: ReviewState, known: map<string, Candidate>, results: seq<SyncResult>, now: string, i: nat)
    requires i < |results| && results[i].outcome == Done && TrimSpace(results[i].id) != "" && results[i].id in known
    requires NoneReports(results, i + 1, results[i].id)
    ensures var id, after := results[i].id, Marked(state, known, results, now);
      id in after && Stored(after[id], known[id], id, Synced, "", now) && after[id].memoryPath == results[i].path && after[id].syncedAt == now
  {
    hide TrimSpace, Marked;
    MarkStep(state, known, results, now, results[i].id);
    if i < |results| - 1 {
      ReportedIsSynced(state, known, results[..|results| - 1], now, i);
    }
  }

  /** The profile of the candidate's category says something else and was not written by this agent. */
  predicate Clashes(profiles: Profiles, c: Candidate) {
    && c.category in profiles
    && TrimSpace(profiles[c.category].content) != TrimSpace(c.content)
    && TrimSpace(profiles[c.category].source) != "agent:codex"
  }

  /** What becomes of one candidate, and the profile that it leaves in its own category when it is synced. */
  lemma OutcomeIff(profiles: Profiles, cs: seq<Candidate>, i: nat, faults: Faults)
    requires i < |cs|
    ensures var c, outcome := cs[i], OutcomeOf(profiles, cs, i, faults);
      var fits := !c.blank && TrimSpace(c.content) != "" && |c.content| <= 65536;
      && (outcome == Skipped <==> !fits || (!faults.readFails(i) && Clashes(profiles, c)))
      && (outcome == Failed <==> fits && (faults.readFails(i) || (!Clashes(profiles, c) && faults.writeFails(i))))
      && (outcome == Done <==> fits && !faults.readFails(i) && !Clashes(profiles, c) && !faults.writeFails(i))
  {
    assert AgentSource() == "agent:codex";
    hide TrimSpace;
  }

  /** The results name the candidates in turn, with the paths of their categories. */
  lemma {:induction false} ResultsName(profiles: Profiles, cs: seq<Candidate>, n: nat, faults: Faults, path: string -> string)
    requires n <= |cs|
    ensures var results := ResultsUpTo(profiles, cs, n, faults, path);
      |results| == n && forall i :: 0 <= i < n ==>
        results[i] == SyncResult(cs[i].id, OutcomeOf(ProfilesAfter(profiles, cs, i, faults), cs, i, faults), path(cs[i].category))
  {
    hide OutcomeOf;
    if n > 0 { ResultsName(profiles, cs, n - 1, faults, path); }
  }

  // ---- The console ----

  class Console {
    var state: ReviewState
    var profiles: Profiles

    constructor (initial: Profiles)
      ensures state == map[] && profiles == initial && WellKept(state)
    {
      state := map[];
      profiles := initial;
    }

    /**
     * Applies one decision to the candidates named; nothing is kept when loading or saving fails. Every identifier
     * that is not blank counts as updated when its candidate is known, and as failed otherwise.
     */
    method Review(candidates: seq<Candidate>, ids: seq<string>, decision: Decision, note: string, now: string, loads: bool, saves: bool)
      returns (updated: nat, failed: nat)
      modifies this`state
      ensures state == if loads && saves then ReviewedAll(old(state), ByIdentifier(candidates), ids, decision, note, now) else old(state)
      ensures updated == if loads then |Known(ByIdentifier(candidates), ids)| else 0
      ensures updated + failed == if loads then |Named(ids)| else 0
    {
      if !loads {
        return 0, 0;
      }
      var next;
      next, updated, failed := ReviewEach(state, ByIdentifier(candidates), ids, decision, note, now);
      if updated > 0 && saves {
        state := next;
      }
    }

    static method ReviewEach(start: ReviewState, known: map<string, Candidate>, ids: seq<string>, decision: Decision, note: string, now: string)
      returns (next: ReviewState, updated: nat, failed: nat)
      ensures next == ReviewedAll(start, known, ids, decision, note, now)
      ensures updated == |Known(known, ids)| && updated + failed == |Named(ids)| && (updated == 0 ==> next == start)
    {
      next, updated, failed := start, 0, 0;
      for i := 0 to |ids|
        invariant next == ReviewedAll(start, known, ids[..i], decision, note, now)
        invariant updated == 0 ==> next == start
        invariant updated == |Known(known, ids[..i])| && updated + failed == |Named(ids[..i])|
      {
        assert ids[..i + 1][..i] == ids[..i];
        hide Reviewed, TrimSpace;
        next := ReviewOne(next, known, ids[i], decision, note, now);
        var id := TrimSpace(ids[i]);
        if id != "" {
          if id !in known {
            failed := failed + 1;
          } else {
            updated := updated + 1;
          }
        }
      }
      assert ids[..|ids|] == ids;
    }

    static method ReviewOne(before: ReviewState, known: map<string, Candidate>, rawId: string, decision: Decision, note: string, now: string)
      returns (next: ReviewState)
      ensures next == Reviewed(before, known, rawId, decision, note, now)
      ensures TrimSpace(rawId) == "" || TrimSpace(rawId) !in known ==> next == before
    {
      var id := TrimSpace(rawId);
      if id == "" || id !in known {
        return before;
      }
      match decision {
        case RequireReview => next := before - {id};
        case Keep(status) =>
          var current := CurrentItem(before, id);
          var syncedAt := if status == Synced then current.syncedAt else "";
          next := before[id := ReviewItem(id, known[id].title, known[id].kind, status, note, known[id].sourcePath, current.memoryPath, now, syncedAt)];
      }
    }

    method MarkSynced(candidates: seq<Candidate>, results: seq<SyncResult>, now: string, saves: bool)
      modifies this`state
      ensures state == if saves then Marked(old(state), ByIdentifier(candidates), results, now) else old(state)
    {
      var known := ByIdentifier(candidates);
      var next := state;
      for i := 0 to |results|
        invariant next == Marked(state, known, results[..i], now)
      {
        assert results[..i + 1][..i] == results[..i];
        var r := results[i];
        if r.outcome == Done && TrimSpace(r.id) != "" && r.id in known {
          next := next[r.id := ReviewItem(r.id, known[r.id].title, known[r.id].kind, Synced, "", known[r.id].sourcePath, r.path, now, now)];
        }
      }
      assert results[..|results|] == results;
      if saves {
        state := next;
      }
    }

    method SyncCandidate(cs: seq<Candidate>, i: nat, faults: Faults) returns (outcome: Outcome)
      requires i < |cs|
      modifies this`profiles
      ensures outcome == OutcomeOf(old(profiles), cs, i, faults)
      ensures profiles == if outcome == Done then old(profiles)[cs[i].category := Profile(cs[i].content, AgentSource())] else old(profiles)
    {
      var c := cs[i];
      if c.blank || TrimSpace(c.content) == "" {
        return Skipped;
      }
      if |c.content| > MAX_PROFILE_BYTES {
        return Skipped;
      }
      if faults.readFails(i) {
        return Failed;
      }
      if c.category in profiles && TrimSpace(profiles[c.category].content) != TrimSpace(c.content) && TrimSpace(profiles[c.category].source) != AgentSource() {
        return Skipped;
      }
      if faults.writeFails(i) {
        return Failed;
      }
      profiles := profiles[c.category := Profile(c.content, AgentSource())];
      return Done;
    }

    /** Syncs the candidates in turn; identifiers asked for in vain fail. The counters account for every result. */
    method Sync(cs: seq<Candidate>, unknown: set<string>, faults: Faults, path: string -> string)
      returns (results: seq<SyncResult>, synced: nat, skipped: nat, failed: nat)
      modifies this`profiles
      ensures profiles == ProfilesAfter(old(profiles), cs, |cs|, faults)
      ensures |results| == |cs| + |unknown| == synced + skipped + failed
      ensures synced == |WithOutcome(results, Done)| && skipped == |WithOutcome(results, Skipped)| && failed == |WithOutcome(results, Failed)|
      ensures results[..|cs|] == ResultsUpTo(old(profiles), cs, |cs|, faults, path)
      ensures forall i :: |cs| <= i < |results| ==> results[i].outcome == Failed && results[i].id in unknown
    {
      hide OutcomeOf, Accounted, ResultAt, ProfilesAfter, ResultsUpTo;
      results, synced, skipped, failed := SyncKnown(cs, faults, path);
      results, failed := FailUnknown(results, unknown, synced, skipped, failed);
      AccountedMeans(results, synced, skipped, failed);
    }

    method SyncKnown(cs: seq<Candidate>, faults: Faults, path: string -> string)
      returns (results: seq<SyncResult>, synced: nat, skipped: nat, failed: nat)
      modifies this`profiles
      ensures profiles == ProfilesAfter(old(profiles), cs, |cs|, faults)
      ensures |results| == |cs| == synced + skipped + failed && Accounted(results, synced, skipped, failed)
      ensures results == ResultsUpTo(old(profiles), cs, |cs|, faults, path)
    {
      results, synced, skipped, failed := [], 0, 0, 0;
      for i := 0 to |cs|
        invariant profiles == ProfilesAfter(old(profiles), cs, i, faults)
        invariant |results| == i == synced + skipped + failed && Accounted(results, synced, skipped, failed)
        invariant results == ResultsUpTo(old(profiles), cs, i, faults, path)
      {
        var outcome := SyncCandidate(cs, i, faults);
        var r := SyncResult(cs[i].id, outcome, path(cs[i].category));
        AccountedMore(results, r, synced, skipped, failed);
        hide OutcomeOf, Accounted;
        results := results + [r];
        match outcome {
          case Done => synced := synced + 1;
          case Skipped => skipped := skipped + 1;
          case Failed => failed := failed + 1;
        }
      }
    }

    static method FailUnknown(found: seq<SyncResult>, unknown: set<string>, synced: nat, skipped: nat, failedSoFar: nat)
      returns (results: seq<SyncResult>, failed: nat)
      requires Accounted(found, synced, skipped, failedSoFar)
      ensures |results| == |found| + |unknown| && failed == failedSoFar + |unknown| && results[..|found|] == found
      ensures Accounted(results, synced, skipped, failed)
      ensures forall i :: |found| <= i < |results| ==> results[i].outcome == Failed && results[i].id in unknown
    {
      results, failed := found, failedSoFar;
      var rest := unknown;
      while rest != {}
        invariant rest <= unknown && |results| == |found| + |unknown| - |rest| && failed == failedSoFar + |unknown| - |rest|
        invariant |results| >= |found| && results[..|found|] == found && Accounted(results, synced, skipped, failed)
        invariant forall i :: |found| <= i < |results| ==> results[i].outcome == Failed && results[i].id in unknown
        decreases rest
      {
        var id :| id in rest;
        rest := rest - {id};
        var r := SyncResult(id, Failed, "");
        AccountedMore(results, r, synced, skipped, failed);
        hide Accounted;
        results := results + [r];
        failed := failed + 1;
      }
    }

    /**
     * Resolves a conflict between the candidate and the profile of its category. Only `target` changes in profile
     * memory: the category itself, or a free one when both are kept. The review is saved last, and may fail by itself.
     */
    method Resolve(c: Candidate, resolution: Resolution, merged: string, note: string, now: string, path: string -> string,
                   writes: bool, loads: bool, saves: bool) returns (ok: bool, target: string)
      modifies this
      ensures
        var written := |TrimSpace(c.content)| <= 65536 && resolution != KeepExisting && writes
          && (resolution == Merge ==> |merged| <= 65536)
          && (resolution == KeepBoth ==> !TakenBefore(Stem(c.category), 100, old(profiles).Keys));
        && ok == (|TrimSpace(c.content)| <= 65536 && loads && saves && (resolution == KeepExisting || written))
        && profiles == (if written then old(profiles)[target := Profile(if resolution == Merge then merged else TrimSpace(c.content), "agent:codex")]
                        else old(profiles))
        && (if resolution == KeepBoth && written
            then target !in old(profiles) && |target| <= 128
              && exists i :: 0 <= i < 100 && target == Category(Stem(c.category), i) && TakenBefore(Stem(c.category), i, old(profiles).Keys)
            else target == c.category)
      ensures !ok ==> state == old(state)
      ensures ok ==> state == old(state)[c.id := ReviewItem(c.id, c.title, c.kind, if resolution == KeepExisting then Ignored else Synced, note,
        c.sourcePath, path(target), now, if resolution == KeepExisting then "" else now)]
    {
      hide Category, Stem, TakenBefore, TrimSpace;
      var content := TrimSpace(c.content);
      target := c.category;
      if |content| > MAX_PROFILE_BYTES {
        return false, target;
      }
      match resolution {
        case KeepExisting =>
        case UseCandidate =>
          if !writes { return false, target; }
          profiles := profiles[target := Profile(content, AgentSource())];
        case KeepBoth =>
          var category := UniqueCategory(c.category, profiles.Keys);
          if category.None? || !writes { return false, target; }
          target := category.value;
          profiles := profiles[target := Profile(content, AgentSource())];
        case Merge =>
          if |merged| > MAX_PROFILE_BYTES || !writes { return false, target; }
          profiles := profiles[target := Profile(merged, AgentSource())];
      }
      if !loads || !saves { return false, target; }
      state := Resolved(state, c, resolution, path(target), note, now);
      return true, target;
    }
  }

  // ---- The review state over any run ----

  datatype Request =
    | ReviewRequest(candidates: seq<Candidate>, ids: seq<string>, status: string, note: string, now: string)
    | SyncRequest(candidates: seq<Candidate>, results: seq<SyncResult>, now: string)
    | ResolveRequest(candidate: Candidate, resolution: Resolution, path: string, note: string, now: string)

  function Handle(state: ReviewState, r: Request): ReviewState {
    match r
    case ReviewRequest(candidates, ids, status, note, now) =>
      (match ParseDecision(status)
       case None => state
       case Some(decision) => ReviewedAll(state, ByIdentifier(candidates), ids, decision, note, now))
    case SyncRequest(candidates, results, now) => Marked(state, ByIdentifier(candidates), results, now)
    case ResolveRequest(c, resolution, path, note, now) => Resolved(state, c, resolution, path, note, now)
  }

  function HandleAll(state: ReviewState, requests: seq<Request>): ReviewState {
    if requests == [] then state else Handle(HandleAll(state, requests[..|requests| - 1]), requests[|requests| - 1])
  }

  lemma NeverAskedToSync(status: string)
    ensures ParseDecision(status).Some? && ParseDecision(status).value.Keep? ==> ParseDecision(status).value.status != Synced
  {
  }

  lemma {:induction false} ReviewKeeps(state: ReviewState, known: map<string, Candidate>, ids: seq<string>, decision: Decision, note: string, now: string)
    requires WellKept(state) && (decision.Keep? ==> decision.status != Synced)
    ensures WellKept(ReviewedAll(state, known, ids, decision, note, now))
  {
    if ids != [] { ReviewKeeps(state, known, ids[..|ids| - 1], decision, note, now); }
  }

  lemma {:induction false} MarkKeeps(state: ReviewState, known: map<string, Candidate>, results: seq<SyncResult>, now: string)
    requires WellKept(state) && now != ""
    ensures WellKept(Marked(state, known, results, now))
  {
    if results != [] { MarkKeeps(state, known, results[..|results| - 1], now); }
  }

  /** Whatever requests come in whatever order, the review state stays well kept. */
  lemma {:induction false} ReviewStateIsWellKept(requests: seq<Request>)
    requires forall r :: r in requests ==> r.now != ""
    ensures WellKept(HandleAll(map[], requests))
  {
    if requests != [] {
      var last := requests[|requests| - 1];
      ReviewStateIsWellKept(requests[..|requests| - 1]);
      var before := HandleAll(map[], requests[..|requests| - 1]);
      match last {
        case ReviewRequest(candidates, ids, status, note, now) =>
          NeverAskedToSync(status);
          hide ParseDecision;
          if ParseDecision(status).Some? { ReviewKeeps(before, ByIdentifier(candidates), ids, ParseDecision(status).value, note, now); }
        case SyncRequest(candidates, results, now) => MarkKeeps(before, ByIdentifier(candidates), results, now);
        case ResolveRequest(_, _, _, _, _) =>
      }
    }
  }

  // ---- What syncing does to the memory of others ----

  /** One step never changes the text of a profile that this agent has not written. */
  lemma StepRespectsOthers(profiles: Profiles, cs: seq<Candidate>, i: nat, faults: Faults, k: string)
    requires i < |cs| && k in profiles && Foreign(profiles[k])
    ensures var next := if OutcomeOf(profiles, cs, i, faults) == Done then profiles[cs[i].category := Profile(cs[i].content, AgentSource())] else profiles;
      k in next && SameText(next[k].content, profiles[k].content)
  {
  }

  predicate Effective(cs: seq<Candidate>, i: nat, k: string, faults: Faults) {
    i < |cs| && Syncable(cs[i]) && cs[i].category == k && !faults.readFails(i) && !faults.writeFails(i)
  }

  /** Candidate `i` agrees with the text found in its category, and so takes the profile over. */
  predicate TakesOver(cs: seq<Candidate>, i: nat, k: string, text: string, faults: Faults) {
    Effective(cs, i, k, faults) && SameText(cs[i].content, text)
  }

  ghost predicate LastEffective(cs: seq<Candidate>, n: nat, i: nat, k: string, faults: Faults) {
    i < n && Effective(cs, i, k, faults) && forall j :: i < j < n ==> !Effective(cs, j, k, faults)
  }

  ghost predicate NoneTakesOver(cs: seq<Candidate>, n: nat, k: string, text: string, faults: Faults) {
    forall i :: 0 <= i < n ==> !TakesOver(cs, i, k, text, faults)
  }

  /** `p` is what a profile of someone else has become after the first `n` candidates of a request. */
  ghost predicate Became(original: Profile, p: Profile, cs: seq<Candidate>, n: nat, k: string, faults: Faults)
    requires n <= |cs|
  {
    if NoneTakesOver(cs, n, k, original.content, faults) then p == original
    else !Foreign(p) && forall i: nat :: LastEffective(cs, n, i, k, faults) ==> p.content == cs[i].content
  }

  /**
   * What becomes of a profile of someone else over a whole request: it is left alone unless a candidate agrees with
   * its text, and from then on every further candidate of that category replaces it.
   */
  lemma {:induction false} OthersOverARequest(profiles: Profiles, cs: seq<Candidate>, n: nat, k: string, faults: Faults)
    requires n <= |cs| && k in profiles && Foreign(profiles[k])
    ensures k in ProfilesAfter(profiles, cs, n, faults) && Became(profiles[k], ProfilesAfter(profiles, cs, n, faults)[k], cs, n, k, faults)
  {
    if n > 0 {
      OthersOverARequest(profiles, cs, n - 1, k, faults);
      var before, after := ProfilesAfter(profiles, cs, n - 1, faults), ProfilesAfter(profiles, cs, n, faults);
      StepOnCategory(before, cs, n - 1, k, faults);
      assert after == if OutcomeOf(before, cs, n - 1, faults) == Done then before[cs[n - 1].category := Profile(cs[n - 1].content, AgentSource())] else before;
      hide *;
      BecomesMore(profiles[k], before[k], after[k], cs, n, k, faults);
    }
  }

  /** The effect of the next candidate on a profile of its category. */
  ghost predicate Stepped(before: Profile, after: Profile, cs: seq<Candidate>, i: nat, k: string, faults: Faults)
    requires i < |cs|
  {
    if Effective(cs, i, k, faults) && (!Foreign(before) || SameText(cs[i].content, before.content))
    then after == Profile(cs[i].content, AgentSource())
    else after == before
  }

  lemma BecomesMore(original: Profile, before: Profile, after: Profile, cs: seq<Candidate>, n: nat, k: string, faults: Faults)
    requires 0 < n <= |cs| && Foreign(original) && Became(original, before, cs, n - 1, k, faults) && Stepped(before, after, cs, n - 1, k, faults)
    ensures Became(original, after, cs, n, k, faults)
  {
    SourceIsOwn();
    hide Foreign, SameText, Effective, AgentSource;
    if NoneTakesOver(cs, n - 1, k, original.content, faults) {
      if TakesOver(cs, n - 1, k, original.content, faults) {
        assert !NoneTakesOver(cs, n, k, original.content, faults);
        assert forall i: nat :: LastEffective(cs, n, i, k, faults) ==> i == n - 1;
      } else {
        assert NoneTakesOver(cs, n, k, original.content, faults);
      }
    } else {
      assert !NoneTakesOver(cs, n, k, original.content, faults) by {
        var i :| 0 <= i < n - 1 && TakesOver(cs, i, k, original.content, faults);
      }
      forall i: nat | LastEffective(cs, n, i, k, faults) ensures after.content == cs[i].content {
        if i < n - 1 { assert LastEffective(cs, n - 1, i, k, faults) && !Effective(cs, n - 1, k, faults); }
      }
    }
  }

  lemma SourceIsOwn()
    ensures forall text :: !Foreign(Profile(text, AgentSource()))
  {
    assert Trimmed(AgentSource());
    TrimmedIsFixed(AgentSource());
  }

  lemma StepOnCategory(before: Profiles, cs: seq<Candidate>, i: nat, k: string, faults: Faults)
    requires i < |cs| && k in before
    ensures var next := if OutcomeOf(before, cs, i, faults) == Done then before[cs[i].category := Profile(cs[i].content, AgentSource())] else before;
      k in next && Stepped(before[k], next[k], cs, i, k, faults)
  {
  }

  /** With one candidate for each category, a whole request leaves the text of every profile of someone else as it was. */
  lemma DistinctCategoriesRespectOthers(profiles: Profiles, cs: seq<Candidate>, k: string, faults: Faults)
    requires k in profiles && Foreign(profiles[k])
    requires forall i, j :: 0 <= i < j < |cs| ==> cs[i].category != cs[j].category
    ensures k in ProfilesAfter(profiles, cs, |cs|, faults) && SameText(ProfilesAfter(profiles, cs, |cs|, faults)[k].content, profiles[k].content)
  {
    OthersOverARequest(profiles, cs, |cs|, k, faults);
    if !NoneTakesOver(cs, |cs|, k, profiles[k].content, faults) {
      var i :| 0 <= i < |cs| && TakesOver(cs, i, k, profiles[k].content, faults);
      assert LastEffective(cs, |cs|, i, k, faults);
    }
  }

  /** Two candidates of one category can replace someone else's text within one request: the first by agreeing with it. */
  lemma SecondCandidateReplaces(k: string, mine: string, other: string)
    requires TrimSpace(mine) != "" && TrimSpace(other) != "" && |mine| <= MAX_PROFILE_BYTES && |other| <= MAX_PROFILE_BYTES
    ensures var cs := [Candidate("a", "", "", "", k, mine, false), Candidate("b", "", "", "", k, other, false)];
      ProfilesAfter(map[k := Profile(mine, "user")], cs, 2, Faults(_ => false, _ => false))[k] == Profile(other, AgentSource())
  {
    var cs := [Candidate("a", "", "", "", k, mine, false), Candidate("b", "", "", "", k, other, false)];
    var start: Profiles := map[k := Profile(mine, "user")];
    var faults := Faults(_ => false, _ => false);
    SourceIsOwn();
    assert OutcomeOf(start, cs, 0, faults) == Done;
    var first := ProfilesAfter(start, cs, 1, faults);
    assert ProfilesAfter(start, cs, 0, faults) == start;
    assert first[k] == Profile(mine, AgentSource());
    hide AgentSource;
    assert OutcomeOf(first, cs, 1, faults) == Done;
  }
}
