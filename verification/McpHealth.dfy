/** Health probes of MCP servers: a cycle counter, failure counts, and fewer probes for servers that keep failing. */
module McpHealth {

  datatype State = State(cycle: nat, failures: map<string, nat>, cache: map<string, bool>)

  /** A cycle over the configured servers, of which some are online; or a manual refresh, which clears the failure counts. */
  datatype Event = Cycle(configured: set<string>, online: set<string>) | Refresh

  function Fails(s: State, key: string): nat {
    if key in s.failures then s.failures[key] else 0
  }

  /** A server that has failed is probed in every second, fourth or eighth cycle only. */
  predicate Due(cycle: nat, fails: nat) {
    if fails == 0 then true
    else if fails == 1 then cycle % 2 == 0
    else if fails == 2 then cycle % 4 == 0
    else cycle % 8 == 0
  }

  function Targets(s: State, configured: set<string>): set<string> {
    set key | key in configured && Due(s.cycle, Fails(s, key))
  }

  function FailuresAfter(s: State, targets: set<string>, online: set<string>): map<string, nat> {
    map key | key in s.failures.Keys + targets ::
      if key in targets then (if key in online then 0 else Fails(s, key) + 1) else s.failures[key]
  }

  function CacheAfter(s: State, targets: set<string>, online: set<string>): map<string, bool> {
    map key | key in s.cache.Keys + targets :: if key in targets then key in online else s.cache[key]
  }

  /** One cycle: probe what is due, then forget cached servers that are no longer configured. */
  function Checked(s: State, configured: set<string>, online: set<string>): State {
    var targets := Targets(s, configured);
    var failures, cache := FailuresAfter(s, targets, online), CacheAfter(s, targets, online);
    State(s.cycle + 1,
          map key | key in failures && (key in cache ==> key in configured) :: failures[key],
          map key | key in cache && key in configured :: cache[key])
  }

  function Refreshed(s: State): State {
    s.(failures := map key | key in s.failures :: 0)
  }

  function Step(s: State, e: Event): State {
    match e
    case Cycle(configured, online) => Checked(s, configured, online)
    case Refresh => Refreshed(s)
  }

  /**
   * What a cycle makes of one server. A configured one that is due is probed: when it is online its count starts again
   * from zero, otherwise it grows by one, and the cache says which. A configured one that is not due stays as it was.
   * Any other is forgotten, except for a failure count without a cached state.
   */
  lemma CheckedMeans(s: State, configured: set<string>, online: set<string>, key: string)
    ensures var next := Checked(s, configured, online);
      && next.cycle == s.cycle + 1
      && (key in configured && Due(s.cycle, Fails(s, key)) ==>
            && key in next.cache && next.cache[key] == (key in online)
            && Fails(next, key) == if key in online then 0 else Fails(s, key) + 1)
      && (key in configured && !Due(s.cycle, Fails(s, key)) ==> SameServer(s, next, key))
      && (key !in configured ==> key !in next.cache && Fails(next, key) == if key in s.cache then 0 else Fails(s, key))
  {
  }

  predicate SameServer(a: State, b: State, key: string) {
    Fails(a, key) == Fails(b, key) && (key in a.cache <==> key in b.cache) && (key in a.cache ==> a.cache[key] == b.cache[key])
  }

  /** A refresh clears every failure count and nothing else, so that the next cycle probes every configured server. */
  lemma RefreshMeans(s: State, configured: set<string>, key: string)
    ensures var next := Refreshed(s);
      && next.cycle == s.cycle && next.cache == s.cache && Fails(next, key) == 0
      && (key in configured ==> key in Targets(next, configured))
  {
  }

  // ---- A cycle in place ----

  class Checker {
    var cycle: nat
    var failures: map<string, nat>
    var cache: map<string, bool>

    constructor ()
      ensures Now() == State(0, map[], map[])
    {
      cycle, failures, cache := 0, map[], map[];
    }

    function Now(): State
      reads this
    {
      State(cycle, failures, cache)
    }

    method CheckAll(configured: set<string>, online: set<string>) returns (probed: set<string>)
      modifies this
      ensures Now() == Checked(old(Now()), configured, online) && probed == Targets(old(Now()), configured)
    {
      ghost var start := Now();
      var current := cycle;
      cycle := cycle + 1;
      probed := Gather(current, configured);
      Probe(probed, online);
      assert failures == FailuresAfter(start, probed, online) && cache == CacheAfter(start, probed, online);
      hide FailuresAfter, CacheAfter;
      Prune(configured);
    }

    method Gather(current: nat, configured: set<string>) returns (due: set<string>)
      ensures due == Targets(State(current, failures, cache), configured)
    {
      due := {};
      var rest := configured;
      while rest != {}
        invariant rest <= configured
        invariant due == set key | key in configured - rest && Due(current, Fails(State(current, failures, cache), key))
        decreases rest
      {
        var key :| key in rest;
        rest := rest - {key};
        var fails := if key in failures then failures[key] else 0;
        var shouldCheck := true;
        if fails > 0 {
          var skipFactor := 8;
          if fails == 1 {
            skipFactor := 2;
          } else if fails == 2 {
            skipFactor := 4;
          }
          SkipFactorIsDue(current, fails, skipFactor);
          if current % skipFactor != 0 {
            shouldCheck := false;
          }
        }
        hide Due;
        if shouldCheck {
          due := due + {key};
        }
      }
      assert configured - rest == configured;
    }

    static lemma SkipFactorIsDue(cycle: nat, fails: nat, skipFactor: nat)
      requires fails > 0 && skipFactor == if fails == 1 then 2 else if fails == 2 then 4 else 8
      ensures Due(cycle, fails) <==> cycle % skipFactor == 0
    {
    }

    method Probe(targets: set<string>, online: set<string>)
      modifies this`failures, this`cache
      ensures failures == FailuresAfter(old(Now()), targets, online) && cache == CacheAfter(old(Now()), targets, online)
    {
      ghost var start := Now();
      var rest := targets;
      assert failures == FailuresAfter(start, {}, online) && cache == CacheAfter(start, {}, online);
      while rest != {}
        invariant rest <= targets
        invariant failures == FailuresAfter(start, targets - rest, online) && cache == CacheAfter(start, targets - rest, online)
        decreases rest
      {
        ghost var done := targets - rest;
        var key :| key in rest;
        rest := rest - {key};
        assert targets - rest == done + {key};
        ProbeOne(start, done, key, online);
        hide FailuresAfter, CacheAfter;
        var fails := if key in failures then failures[key] else 0;
        cache := cache[key := key in online];
        failures := failures[key := if key in online then 0 else fails + 1];
      }
      assert targets - rest == targets;
    }

    static lemma ProbeOne(start: State, done: set<string>, key: string, online: set<string>)
      requires key !in done
      ensures var failures := FailuresAfter(start, done, online);
        FailuresAfter(start, done + {key}, online) ==
          failures[key := if key in online then 0 else (if key in failures then failures[key] else 0) + 1]
      ensures CacheAfter(start, done + {key}, online) == CacheAfter(start, done, online)[key := key in online]
    {
    }

    method Prune(configured: set<string>)
      modifies this`failures, this`cache
      ensures failures == map key | key in old(failures) && (key in old(cache) ==> key in configured) :: old(failures)[key]
      ensures cache == map key | key in old(cache) && key in configured :: old(cache)[key]
    {
      var rest := cache.Keys;
      while rest != {}
        invariant rest <= old(cache).Keys
        invariant cache == map key | key in old(cache) && (key in rest || key in configured) :: old(cache)[key]
        invariant failures == map key | key in old(failures) && (key in old(cache) ==> key in rest || key in configured) :: old(failures)[key]
        decreases rest
      {
        var key :| key in rest;
        rest := rest - {key};
        if key !in configured {
          cache := cache - {key};
          failures := failures - {key};
        }
      }
    }

    method ManualRefresh()
      modifies this`failures
      ensures Now() == Refreshed(old(Now()))
    {
      failures := map key | key in failures :: 0;
    }
  }

  // ---- Runs ----

  function Run(s: State, events: seq<Event>): State
    decreases |events|
  {
    if events == [] then s else Run(Step(s, events[0]), events[1..])
  }

  predicate Probes(s: State, e: Event, key: string) {
    e.Cycle? && key in Targets(s, e.configured)
  }

  /** How often a server is probed. */
  function CountProbes(s: State, events: seq<Event>, key: string): nat
    decreases |events|
  {
    if events == [] then 0 else (if Probes(s, events[0], key) then 1 else 0) + CountProbes(Step(s, events[0]), events[1..], key)
  }

  function CountCycles(events: seq<Event>): nat {
    if events == [] then 0 else (if events[0].Cycle? then 1 else 0) + CountCycles(events[1..])
  }

  ghost predicate AlwaysConfigured(events: seq<Event>, key: string) {
    forall i :: 0 <= i < |events| && events[i].Cycle? ==> key in events[i].configured
  }

  lemma {:induction false} ProbedByMultiple(s: State, events: seq<Event>, key: string)
    requires AlwaysConfigured(events, key) && CountCycles(events) + s.cycle % 8 >= if s.cycle % 8 == 0 then 1 else 9
    ensures CountProbes(s, events, key) >= 1
    decreases |events|
  {
    var e := events[0];
    if e.Cycle? && s.cycle % 8 == 0 {
      EightDividesAll(s.cycle, Fails(s, key));
    } else {
      assert forall i :: 0 <= i < |events[1..]| ==> events[1..][i] == events[i + 1];
      ProbedByMultiple(Step(s, e), events[1..], key);
    }
  }

  lemma MultipleOf(cycle: nat, a: nat, b: nat)
    requires cycle % 8 == 0 && ((a == 2 && b == 4) || (a == 4 && b == 2))
    ensures cycle % b == 0
  {
    var q := cycle / 8;
    assert cycle == b * (a * q);
    if b == 2 { assert cycle % 2 == 0; } else { assert cycle % 4 == 0; }
  }

  lemma EightDividesAll(cycle: nat, fails: nat)
    requires cycle % 8 == 0
    ensures Due(cycle, fails)
  {
    MultipleOf(cycle, 4, 2);
    MultipleOf(cycle, 2, 4);
  }

  /** Every configured server is probed in any eight consecutive cycles, wherever manual refreshes come in between. */
  lemma ProbedWithinEight(s: State, events: seq<Event>, key: string)
    requires AlwaysConfigured(events, key) && CountCycles(events) >= 8
    ensures CountProbes(s, events, key) >= 1
  {
    ProbedByMultiple(s, events, key);
  }

  // ---- Servers that always fail ----

  ghost predicate AlwaysFails(events: seq<Event>, key: string) {
    forall i :: 0 <= i < |events| ==> events[i].Cycle? && key in events[i].configured && key !in events[i].online
  }

  function Residue(cycle: nat): nat {
    cycle % 8
  }

  function Eighth(cycle: nat): nat {
    if Residue(cycle) == 0 then 1 else 0
  }

  /** How many of the `n` cycles from `cycle` on are multiples of eight. */
  function Eighths(cycle: nat, n: nat): nat
    decreases n
  {
    if n == 0 then 0 else Eighth(cycle) + Eighths(cycle + 1, n - 1)
  }

  /** The probes that the first failures may still cost. */
  function Grace(fails: nat): nat {
    if fails < 3 then 3 - fails else 0
  }

  lemma CycleOfFailing(s: State, e: Event, key: string)
    requires e.Cycle? && key in e.configured && key !in e.online
    ensures Step(s, e).cycle == s.cycle + 1
    ensures Fails(Step(s, e), key) == Fails(s, key) + if Probes(s, e, key) then 1 else 0
    ensures Probes(s, e, key) <==> Due(s.cycle, Fails(s, key))
  {
  }

  lemma {:induction false} FailingWithinGrace(s: State, events: seq<Event>, key: string)
    requires AlwaysFails(events, key)
    ensures CountProbes(s, events, key) <= Grace(Fails(s, key)) + Eighths(s.cycle, |events|)
    decreases |events|
  {
    hide *;
    if events == [] {
      NoProbes(s, events, key);
    } else {
      TailFails(events, key);
      CycleOfFailing(s, events[0], key);
      FailingWithinGrace(Step(s, events[0]), events[1..], key);
      GraceStep(s.cycle, Fails(s, key), |events|);
      OneProbe(s, events, key);
    }
  }

  lemma NoProbes(s: State, events: seq<Event>, key: string)
    requires events == []
    ensures CountProbes(s, events, key) == 0 && Eighths(s.cycle, |events|) == 0 && Expected(s.cycle, Fails(s, key), |events|) == 0
  {
  }

  lemma OneProbe(s: State, events: seq<Event>, key: string)
    requires events != []
    ensures CountProbes(s, events, key) == (if Probes(s, events[0], key) then 1 else 0) + CountProbes(Step(s, events[0]), events[1..], key)
  {
    hide Probes, Step;
  }

  lemma OneExpected(cycle: nat, fails: nat, n: nat)
    requires n > 0
    ensures var due := if Due(cycle, fails) then 1 else 0;
      Expected(cycle, fails, n) == due + Expected(cycle + 1, fails + due, n - 1)
  {
    hide Due;
  }

  lemma TailFails(events: seq<Event>, key: string)
    requires AlwaysFails(events, key) && events != []
    ensures AlwaysFails(events[1..], key) && events[0].Cycle? && key in events[0].configured && key !in events[0].online
  {
    assert forall i :: 0 <= i < |events[1..]| ==> events[1..][i] == events[i + 1];
  }

  lemma GraceStep(cycle: nat, fails: nat, n: nat)
    requires n > 0
    ensures Due(cycle, fails) ==> 1 + Grace(fails + 1) + Eighths(cycle + 1, n - 1) <= Grace(fails) + Eighths(cycle, n)
    ensures !Due(cycle, fails) ==> Grace(fails) + Eighths(cycle + 1, n - 1) <= Grace(fails) + Eighths(cycle, n)
  {
  }

  lemma {:induction false} EighthsBound(cycle: nat, n: nat)
    ensures Eighths(cycle, n) <= (n + 7) / 8
    ensures cycle % 8 == 1 ==> Eighths(cycle, n) == n / 8
    decreases n
  {
    if n >= 8 {
      EighthsBound(cycle + 8, n - 8);
      EightCycles(cycle, n);
    } else {
      EighthsFew(cycle, n);
    }
  }

  lemma EightCycles(cycle: nat, n: nat)
    requires n >= 8
    ensures Eighths(cycle, n) == 1 + Eighths(cycle + 8, n - 8)
  {
    hide *;
    FourCycles(cycle, n);
    FourCycles(cycle + 4, n - 4);
  }

  /** Of four cycles in a row, one is a multiple of eight exactly when they begin at one or are about to reach it. */
  lemma FourCycles(cycle: nat, n: nat)
    requires n >= 4
    ensures Eighths(cycle, n) == (if Residue(cycle) == 0 || Residue(cycle) > 4 then 1 else 0) + Eighths(cycle + 4, n - 4)
    ensures Residue(cycle) < 8 && Residue(cycle + 4) == if Residue(cycle) < 4 then Residue(cycle) + 4 else Residue(cycle) - 4
  {
    hide *;
    OneOfFour(cycle);
    OneCycle(cycle, n);
    OneCycle(cycle + 1, n - 1);
    OneCycle(cycle + 2, n - 2);
    OneCycle(cycle + 3, n - 3);
  }

  lemma OneCycle(cycle: nat, n: nat)
    requires n > 0
    ensures Eighths(cycle, n) == Eighth(cycle) + Eighths(cycle + 1, n - 1)
  {
  }

  lemma NextResidue(cycle: nat)
    ensures Residue(cycle) < 8 && Residue(cycle + 1) == if Residue(cycle) == 7 then 0 else Residue(cycle) + 1
  {
  }

  lemma OneOfFour(cycle: nat)
    ensures Eighth(cycle) + Eighth(cycle + 1) + Eighth(cycle + 2) + Eighth(cycle + 3) ==
      if Residue(cycle) == 0 || Residue(cycle) > 4 then 1 else 0
    ensures Residue(cycle) < 8 && Residue(cycle + 4) == if Residue(cycle) < 4 then Residue(cycle) + 4 else Residue(cycle) - 4
  {
    hide Residue;
    NextResidue(cycle);
    NextResidue(cycle + 1);
    NextResidue(cycle + 2);
    NextResidue(cycle + 3);
  }

  lemma {:induction false} EighthsFew(cycle: nat, n: nat)
    requires n < 8
    ensures Eighths(cycle, n) == if n > 0 && (cycle % 8 == 0 || cycle % 8 + n > 8) then 1 else 0
    decreases n
  {
    if n > 0 { EighthsFew(cycle + 1, n - 1); }
  }

  /** A server that always fails is probed at most 3 + ceil(n / 8) times in n consecutive cycles. */
  lemma FailingBound(s: State, events: seq<Event>, key: string)
    requires AlwaysFails(events, key)
    ensures CountProbes(s, events, key) <= 3 + (|events| + 7) / 8
  {
    FailingWithinGrace(s, events, key);
    EighthsBound(s.cycle, |events|);
  }

  /** The bound is met: 8 * m failing cycles from cycle 1 on cost a fresh server exactly 3 + m probes. */
  lemma FailingBoundIsMet(s: State, events: seq<Event>, key: string)
    requires AlwaysFails(events, key) && s.cycle == 1 && Fails(s, key) == 0 && |events| >= 8 && |events| % 8 == 0
    ensures CountProbes(s, events, key) == 3 + |events| / 8
  {
    ProbesByTime(s, events, key);
    EighthsBound(1, |events|);
  }

  /** Probes still to come for a failing server, when the first ones fall outside the multiples of eight. */
  function Expected(cycle: nat, fails: nat, n: nat): nat
    decreases n
  {
    if n == 0 then 0
    else (if Due(cycle, fails) then 1 else 0) + Expected(cycle + 1, fails + (if Due(cycle, fails) then 1 else 0), n - 1)
  }

  lemma {:induction false} ProbesAsExpected(s: State, events: seq<Event>, key: string)
    requires AlwaysFails(events, key)
    ensures CountProbes(s, events, key) == Expected(s.cycle, Fails(s, key), |events|)
    decreases |events|
  {
    hide *;
    if events == [] {
      NoProbes(s, events, key);
    } else {
      TailFails(events, key);
      CycleOfFailing(s, events[0], key);
      ProbesAsExpected(Step(s, events[0]), events[1..], key);
      OneProbe(s, events, key);
      OneExpected(s.cycle, Fails(s, key), |events|);
    }
  }

  lemma {:induction false} ExpectedAfterGrace(cycle: nat, fails: nat, n: nat)
    requires fails >= 3
    ensures Expected(cycle, fails, n) == Eighths(cycle, n)
    decreases n
  {
    if n > 0 { ExpectedAfterGrace(cycle + 1, fails + (if Due(cycle, fails) then 1 else 0), n - 1); }
  }

  lemma ProbesByTime(s: State, events: seq<Event>, key: string)
    requires AlwaysFails(events, key) && s.cycle == 1 && Fails(s, key) == 0 && |events| >= 8
    ensures CountProbes(s, events, key) == 3 + Eighths(1, |events|)
  {
    ProbesAsExpected(s, events, key);
    hide CountProbes, AlwaysFails;
    FreshFailure(|events|);
  }

  lemma FreshFailure(n: nat)
    requires n >= 4
    ensures Expected(1, 0, n) == 3 + Eighths(1, n)
  {
    assert Due(1, 0) && Due(2, 1) && !Due(3, 2) && Due(4, 2);
    hide Due;
    assert Expected(1, 0, n) == 1 + Expected(2, 1, n - 1);
    assert Expected(2, 1, n - 1) == 1 + Expected(3, 2, n - 2);
    assert Expected(3, 2, n - 2) == Expected(4, 2, n - 3);
    assert Expected(4, 2, n - 3) == 1 + Expected(5, 3, n - 4);
    ExpectedAfterGrace(5, 3, n - 4);
    hide Expected;
    FourCycles(1, n);
  }

  // ---- Forgetting servers ----

  /** Failure counts exist only for cached servers. */
  ghost predicate Tracked(s: State) {
    forall key :: key in s.failures ==> key in s.cache
  }

  lemma StepKeepsTracked(s: State, e: Event)
    requires Tracked(s)
    ensures Tracked(Step(s, e))
    ensures e.Cycle? ==> Step(s, e).cache.Keys <= e.configured && Step(s, e).failures.Keys <= e.configured
  {
  }

  /** After any run that ends with a cycle, nothing is remembered about servers that are not configured. */
  lemma {:induction false} NothingIsLeftBehind(events: seq<Event>, s: State)
    requires Tracked(s) && events != [] && events[|events| - 1].Cycle?
    ensures Tracked(Run(s, events))
    ensures Run(s, events).cache.Keys <= events[|events| - 1].configured && Run(s, events).failures.Keys <= events[|events| - 1].configured
    decreases |events|
  {
    StepKeepsTracked(s, events[0]);
    if |events| == 1 {
      assert events[1..] == [];
    } else {
      NothingIsLeftBehind(events[1..], Step(s, events[0]));
    }
  }

  /** Hence a server that comes back is probed in its first cycle, whatever it did before. */
  lemma ReturningServerIsProbed(events: seq<Event>, s: State, next: Event, key: string)
    requires Tracked(s) && events != [] && events[|events| - 1].Cycle? && key !in events[|events| - 1].configured
    requires next.Cycle? && key in next.configured
    ensures Probes(Run(s, events), next, key)
  {
    NothingIsLeftBehind(events, s);
  }
}
