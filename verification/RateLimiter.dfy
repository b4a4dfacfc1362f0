/** The per-key rate limiter: a bucket of tokens per key, refilled once per window, and a background purge. */
module RateLimiter {

  datatype Limits = Limits(rate: int, window: int)

  datatype Bucket = Bucket(tokens: int, lastReset: int)
  type Buckets = map<string, Bucket>

  datatype Reply = Reply(remaining: int, resetTime: int, ok: bool)

  /** Something that takes the limiter's lock: a request for a key, or a tick of the cleanup loop. */
  datatype Event = Call(key: string, at: int) | Tick(at: int)

  // ---- The limiter as a function of its state ----

  predicate Live(l: Limits, s: Buckets, key: string, now: int) {
    key in s && now - s[key].lastReset < l.window
  }

  function AllowStep(l: Limits, s: Buckets, key: string, now: int): (Buckets, Reply) {
    var b := if Live(l, s, key, now) then s[key] else Bucket(l.rate, now);
    var resetTime := b.lastReset + l.window;
    if b.tokens <= 0 then (s[key := b], Reply(0, resetTime, false))
    else (s[key := b.(tokens := b.tokens - 1)], Reply(b.tokens - 1, resetTime, true))
  }

  /**
   * One call on a key. The first one of a window, which is when none came before or the last reset lies a window back,
   * starts with the full rate and resets now. The reply names the end of the window; a call passes exactly when a token
   * is left, and is told how many remain. Other keys are not touched.
   */
  lemma AllowMeans(l: Limits, s: Buckets, key: string, now: int)
    ensures var (next, reply) := AllowStep(l, s, key, now);
      var starts := key !in s || now - s[key].lastReset >= l.window;
      var tokens, reset := if starts then l.rate else s[key].tokens, if starts then now else s[key].lastReset;
      && reply.resetTime == reset + l.window
      && (reply.ok <==> tokens >= 1)
      && reply.remaining == (if reply.ok then tokens - 1 else 0)
      && key in next && next[key].lastReset == reset && next[key].tokens == (if reply.ok then tokens - 1 else tokens)
      && (forall k :: k != key ==> (k in next <==> k in s) && (k in s ==> next[k] == s[k]))
  {
  }

  /** A tick drops the buckets that were reset more than two windows ago and keeps the others as they are. */
  lemma PurgedMeans(l: Limits, s: Buckets, now: int, key: string)
    ensures var next := Purged(l, s, now);
      && (key in next <==> key in s && now - s[key].lastReset <= 2 * l.window)
      && (key in next ==> next[key] == s[key])
  {
  }

  function Purged(l: Limits, s: Buckets, now: int): Buckets {
    map key | key in s && s[key].lastReset >= now - 2 * l.window :: s[key]
  }

  function Step(l: Limits, s: Buckets, e: Event): Buckets {
    match e
    case Call(key, at) => AllowStep(l, s, key, at).0
    case Tick(at) => Purged(l, s, at)
  }

  /** The replies to the calls of a run, in order. */
  function Replies(l: Limits, s: Buckets, events: seq<Event>): seq<Reply>
    decreases |events|
  {
    if events == [] then []
    else
      var rest := Replies(l, Step(l, s, events[0]), events[1..]);
      match events[0]
      case Call(key, at) => [AllowStep(l, s, key, at).1] + rest
      case Tick(_) => rest
  }

  /** The replies that the calls on one key get. */
  function RepliesTo(l: Limits, s: Buckets, events: seq<Event>, key: string): seq<Reply>
    decreases |events|
  {
    if events == [] then []
    else
      var rest := RepliesTo(l, Step(l, s, events[0]), events[1..], key);
      if events[0].Call? && events[0].key == key then [AllowStep(l, s, key, events[0].at).1] + rest else rest
  }

  function CallsOnly(events: seq<Event>): seq<Event> {
    if events == [] then [] else (if events[0].Call? then [events[0]] else []) + CallsOnly(events[1..])
  }

  function CallsOn(events: seq<Event>, key: string): seq<Event> {
    if events == [] then []
    else (if events[0].Call? && events[0].key == key then [events[0]] else []) + CallsOn(events[1..], key)
  }

  /** The clock does not run backwards, and does not start before `now`. */
  ghost predicate Ordered(events: seq<Event>, now: int) {
    events != [] ==> now <= events[0].at && Ordered(events[1..], events[0].at)
  }

  // ---- The limiter in place ----

  class Limiter {
    var buckets: Buckets
    const limits: Limits

    constructor (rate: int, window: int)
      ensures buckets == map[] && limits == Limits(rate, window)
    {
      buckets := map[];
      limits := Limits(rate, window);
    }

    method Allow(key: string, now: int) returns (reply: Reply)
      modifies this
      ensures (buckets, reply) == AllowStep(limits, old(buckets), key, now)
    {
      if !(key in buckets) || now - buckets[key].lastReset >= limits.window {
        buckets := buckets[key := Bucket(limits.rate, now)];
      }
      var b := buckets[key];
      var resetTime := b.lastReset + limits.window;
      if b.tokens <= 0 {
        assert buckets == AllowStep(limits, old(buckets), key, now).0;
        return Reply(0, resetTime, false);
      }
      buckets := buckets[key := b.(tokens := b.tokens - 1)];
      assert buckets == AllowStep(limits, old(buckets), key, now).0;
      return Reply(b.tokens - 1, resetTime, true);
    }

    /** One tick of the cleanup loop. */
    method Cleanup(now: int)
      modifies this
      ensures buckets == Purged(limits, old(buckets), now)
    {
      var cutoff := now - 2 * limits.window;
      var pending := buckets.Keys;
      while pending != {}
        invariant pending <= old(buckets).Keys
        invariant forall k :: k in buckets <==> k in old(buckets) && (k in pending || old(buckets)[k].lastReset >= cutoff)
        invariant forall k :: k in buckets ==> buckets[k] == old(buckets)[k]
        decreases pending
      {
        var key :| key in pending;
        if buckets[key].lastReset < cutoff {
          buckets := buckets - {key};
        }
        pending := pending - {key};
      }
    }
  }

  // ---- Cleanup is invisible ----

  /** `a` is `b` without some buckets whose window has elapsed by `now`. */
  ghost predicate Forgets(l: Limits, a: Buckets, b: Buckets, now: int) {
    && (forall k :: k in a ==> k in b && a[k] == b[k])
    && (forall k :: k in b && k !in a ==> now - b[k].lastReset >= l.window)
  }

  /** Whatever the cleanup schedule, the limiter answers every call as if it never cleaned up. */
  lemma {:induction false} CleanupIsInvisible(l: Limits, a: Buckets, b: Buckets, events: seq<Event>, now: int)
    requires l.window > 0 && Ordered(events, now) && Forgets(l, a, b, now)
    ensures Replies(l, a, events) == Replies(l, b, CallsOnly(events))
    decreases |events|
  {
    hide *;
    if events == [] {
      NoReplies(l, a, b);
    } else {
      var e, rest := events[0], events[1..];
      FirstReply(l, a, events);
      OrderedRest(events, now);
      match e {
        case Call(key, at) =>
          SameReply(l, a, b, key, at, now);
          FirstReply(l, b, CallsOnly(events));
          CleanupIsInvisible(l, Step(l, a, e), Step(l, b, e), rest, at);
        case Tick(at) =>
          TickForgets(l, a, b, at, now);
          CleanupIsInvisible(l, Step(l, a, e), b, rest, at);
      }
    }
  }

  lemma NoReplies(l: Limits, a: Buckets, b: Buckets)
    ensures Replies(l, a, []) == Replies(l, b, CallsOnly([]))
  {
  }

  lemma FirstReply(l: Limits, s: Buckets, events: seq<Event>)
    ensures events != [] && events[0].Call? ==>
      Replies(l, s, events) == [AllowStep(l, s, events[0].key, events[0].at).1] + Replies(l, Step(l, s, events[0]), events[1..])
    ensures events != [] && events[0].Tick? ==> Replies(l, s, events) == Replies(l, Step(l, s, events[0]), events[1..])
    ensures events != [] && events[0].Call? ==> CallsOnly(events) != [] && CallsOnly(events)[0] == events[0] && CallsOnly(events)[1..] == CallsOnly(events[1..])
    ensures events != [] && events[0].Tick? ==> CallsOnly(events) == CallsOnly(events[1..])
  {
    hide AllowStep, Step;
  }

  lemma OrderedRest(events: seq<Event>, now: int)
    requires Ordered(events, now) && events != []
    ensures now <= events[0].at && Ordered(events[1..], events[0].at)
  {
  }

  /** A call is answered alike by a limiter that forgot elapsed buckets and one that did not. */
  lemma SameReply(l: Limits, a: Buckets, b: Buckets, key: string, at: int, now: int)
    requires l.window > 0 && Forgets(l, a, b, now) && now <= at
    ensures AllowStep(l, a, key, at).1 == AllowStep(l, b, key, at).1
    ensures Forgets(l, Step(l, a, Call(key, at)), Step(l, b, Call(key, at)), at)
  {
  }

  lemma TickForgets(l: Limits, a: Buckets, b: Buckets, at: int, now: int)
    requires l.window > 0 && Forgets(l, a, b, now) && now <= at
    ensures Forgets(l, Step(l, a, Tick(at)), b, at)
  {
  }

  lemma CleanupChangesNoReply(l: Limits, s: Buckets, events: seq<Event>, now: int)
    requires l.window > 0 && Ordered(events, now)
    ensures Replies(l, s, events) == Replies(l, s, CallsOnly(events))
  {
    CleanupIsInvisible(l, s, s, events, now);
  }

  // ---- Keys are independent ----

  ghost predicate ForgetsKey(l: Limits, a: Buckets, b: Buckets, key: string, now: int) {
    if key in a then key in b && a[key] == b[key] else key in b ==> now - b[key].lastReset >= l.window
  }

  /** The replies on one key depend on the calls on that key alone. */
  lemma {:induction false} KeysAreIndependent(l: Limits, a: Buckets, b: Buckets, events: seq<Event>, key: string, now: int)
    requires l.window > 0 && Ordered(events, now) && ForgetsKey(l, a, b, key, now)
    ensures RepliesTo(l, a, events, key) == Replies(l, b, CallsOn(events, key))
    decreases |events|
  {
    hide *;
    if events == [] {
      NoRepliesTo(l, a, b, key);
    } else {
      var e, rest := events[0], events[1..];
      FirstReplyTo(l, a, events, key);
      OrderedRest(events, now);
      if e.Call? && e.key == key {
        SameReplyTo(l, a, b, key, e.at, now);
        FirstReply(l, b, CallsOn(events, key));
        KeysAreIndependent(l, Step(l, a, e), Step(l, b, e), rest, key, e.at);
      } else {
        OtherEvent(l, a, b, e, key, now);
        KeysAreIndependent(l, Step(l, a, e), b, rest, key, e.at);
      }
    }
  }

  lemma NoRepliesTo(l: Limits, a: Buckets, b: Buckets, key: string)
    ensures RepliesTo(l, a, [], key) == Replies(l, b, CallsOn([], key))
  {
  }

  lemma FirstReplyTo(l: Limits, s: Buckets, events: seq<Event>, key: string)
    requires events != []
    ensures events[0].Call? && events[0].key == key ==>
      && RepliesTo(l, s, events, key) == [AllowStep(l, s, key, events[0].at).1] + RepliesTo(l, Step(l, s, events[0]), events[1..], key)
      && CallsOn(events, key) != [] && CallsOn(events, key)[0] == events[0] && CallsOn(events, key)[1..] == CallsOn(events[1..], key)
    ensures !(events[0].Call? && events[0].key == key) ==>
      && RepliesTo(l, s, events, key) == RepliesTo(l, Step(l, s, events[0]), events[1..], key)
      && CallsOn(events, key) == CallsOn(events[1..], key)
  {
    hide AllowStep, Step;
  }

  lemma SameReplyTo(l: Limits, a: Buckets, b: Buckets, key: string, at: int, now: int)
    requires l.window > 0 && ForgetsKey(l, a, b, key, now) && now <= at
    ensures AllowStep(l, a, key, at).1 == AllowStep(l, b, key, at).1
    ensures ForgetsKey(l, Step(l, a, Call(key, at)), Step(l, b, Call(key, at)), key, at)
  {
  }

  lemma OtherEvent(l: Limits, a: Buckets, b: Buckets, e: Event, key: string, now: int)
    requires l.window > 0 && ForgetsKey(l, a, b, key, now) && now <= e.at && !(e.Call? && e.key == key)
    ensures ForgetsKey(l, Step(l, a, e), b, key, e.at)
  {
  }

  // ---- How many calls an interval admits ----

  /** Calls on `key` admitted at times in the closed interval from `lo` to `hi`. */
  function Admitted(l: Limits, s: Buckets, events: seq<Event>, key: string, lo: int, hi: int): nat
    decreases |events|
  {
    if events == [] then 0
    else
      var e := events[0];
      (if e.Call? && e.key == key && lo <= e.at <= hi && AllowStep(l, s, key, e.at).1.ok then 1 else 0) +
      Admitted(l, Step(l, s, e), events[1..], key, lo, hi)
  }

  function AtLeastZero(a: int): nat {
    if a < 0 then 0 else a
  }

  /** What the windows that can start at `from` or later, up to `hi`, are worth: at most `rate` calls each. */
  function Worth(l: Limits, from: int, hi: int): nat
    requires l.window > 0
    decreases hi - from
  {
    if hi < from then 0 else AtLeastZero(l.rate) + Worth(l, from + l.window, hi)
  }

  /** An upper bound on what `key` may still be admitted from `now` to `hi`. */
  function Budget(l: Limits, s: Buckets, key: string, now: int, hi: int): int
    requires l.window > 0
  {
    if Live(l, s, key, now) then AtLeastZero(s[key].tokens) + Worth(l, s[key].lastReset + l.window, hi)
    else Worth(l, now, hi)
  }

  lemma {:induction false} WorthShrinks(l: Limits, from: int, later: int, hi: int)
    requires l.window > 0 && from <= later
    ensures Worth(l, later, hi) <= Worth(l, from, hi)
    decreases hi - from
  {
    if from <= hi && later <= hi { WorthShrinks(l, from + l.window, later + l.window, hi); }
  }

  lemma QuotientIs(d: int, w: int, q: int)
    requires 0 < w && w * q <= d < w * q + w
    ensures d / w == q
  {
    var p := d / w;
    assert w * p <= d < w * p + w;
    if p != q { ScaleMonotone(w, if p < q then p + 1 else q + 1, if p < q then q else p); }
  }

  lemma ScaleMonotone(w: int, a: int, b: int)
    requires 0 < w && a <= b
    ensures w * a <= w * b && w * (a - 1) == w * a - w
  {
  }

  lemma OneWindowLess(d: int, w: int)
    requires 0 < w <= d
    ensures (d - w) / w == d / w - 1
  {
    var q := d / w;
    assert w * q <= d < w * q + w;
    assert w * (q - 1) == w * q - w;
    QuotientIs(d - w, w, q - 1);
  }

  lemma WithinWindow(d: int, w: int)
    requires 0 <= d < w
    ensures d / w == 0
  {
  }

  lemma Distribute(r: int, q: int)
    ensures r * (q + 1) == r * q + r && r * (q + 2) == r * (q + 1) + r
  {
  }

  /** The worth of an interval, in the closed form of the bound. */
  lemma {:induction false} WorthIsQuotient(l: Limits, from: int, hi: int)
    requires l.window > 0 && l.rate >= 0 && from <= hi
    ensures Worth(l, from, hi) == l.rate * ((hi - from) / l.window + 1)
    decreases hi - from
  {
    var d, w := hi - from, l.window;
    if w <= d {
      WorthIsQuotient(l, from + w, hi);
      OneWindowLess(d, w);
      Distribute(l.rate, d / w);
    } else {
      WithinWindow(d, w);
      assert Worth(l, from + w, hi) == 0;
      assert l.rate * 1 == l.rate;
    }
  }

  lemma BudgetShrinks(l: Limits, s: Buckets, key: string, now: int, later: int, hi: int)
    requires l.window > 0 && now <= later
    ensures Budget(l, s, key, later, hi) <= Budget(l, s, key, now, hi)
  {
    if Live(l, s, key, now) {
      if !Live(l, s, key, later) { WorthShrinks(l, s[key].lastReset + l.window, later, hi); }
    } else {
      WorthShrinks(l, now, later, hi);
    }
  }

  lemma BudgetPays(l: Limits, s: Buckets, key: string, at: int, hi: int)
    requires l.window > 0 && at <= hi
    ensures Budget(l, AllowStep(l, s, key, at).0, key, at, hi) + (if AllowStep(l, s, key, at).1.ok then 1 else 0)
         <= Budget(l, s, key, at, hi)
  {
  }

  lemma PurgeKeepsBudget(l: Limits, s: Buckets, key: string, at: int, hi: int)
    requires l.window > 0
    ensures Budget(l, Purged(l, s, at), key, at, hi) == Budget(l, s, key, at, hi)
  {
  }

  lemma {:induction false} NothingAfter(l: Limits, s: Buckets, events: seq<Event>, key: string, lo: int, hi: int, now: int)
    requires Ordered(events, now) && hi < now
    ensures Admitted(l, s, events, key, lo, hi) == 0
    decreases |events|
  {
    if events != [] { NothingAfter(l, Step(l, s, events[0]), events[1..], key, lo, hi, events[0].at); }
  }

  lemma {:induction false} AdmittedWithinBudget(l: Limits, s: Buckets, events: seq<Event>, key: string, lo: int, hi: int, now: int)
    requires l.window > 0 && Ordered(events, now)
    ensures Admitted(l, s, events, key, lo, hi) <= Budget(l, s, key, now, hi)
    decreases |events|
  {
    if events != [] {
      var e := events[0];
      if e.at > hi {
        assert Ordered(events, e.at);
        NothingAfter(l, s, events, key, lo, hi, e.at);
      } else {
        AdmittedWithinBudget(l, Step(l, s, e), events[1..], key, lo, hi, e.at);
        BudgetShrinks(l, s, key, now, e.at, hi);
        match e {
          case Call(k, at) => if k == key { BudgetPays(l, s, key, at, hi); }
          case Tick(at) => PurgeKeepsBudget(l, s, key, at, hi);
        }
      }
    }
  }

  /** What every reachable bucket satisfies: it was reset in the past and has served at least one call since. */
  ghost predicate Sound(l: Limits, s: Buckets, now: int) {
    forall k :: k in s ==> s[k].lastReset <= now && s[k].tokens <= AtLeastZero(l.rate - 1)
  }

  lemma StepKeepsSound(l: Limits, s: Buckets, e: Event, now: int)
    requires Sound(l, s, now) && now <= e.at
    ensures Sound(l, Step(l, s, e), e.at)
  {
  }

  lemma FreshBudget(l: Limits, s: Buckets, key: string, lo: int, now: int, hi: int)
    requires l.window > 0 && lo <= now && lo <= hi && Sound(l, s, now)
    ensures l.rate <= 0 ==> Budget(l, s, key, now, hi) == 0
    ensures l.rate > 0 ==> Budget(l, s, key, now, hi) < l.rate * ((hi - lo) / l.window + 2)
  {
    if l.rate <= 0 {
      WorthOfNothing(l, now, hi);
      if key in s { WorthOfNothing(l, s[key].lastReset + l.window, hi); }
    } else {
      WorthShrinks(l, lo, if Live(l, s, key, now) then s[key].lastReset + l.window else now, hi);
      WorthIsQuotient(l, lo, hi);
      Distribute(l.rate, (hi - lo) / l.window);
    }
  }

  lemma {:induction false} WorthOfNothing(l: Limits, from: int, hi: int)
    requires l.window > 0 && l.rate <= 0
    ensures Worth(l, from, hi) == 0
    decreases hi - from
  {
    if from <= hi { WorthOfNothing(l, from + l.window, hi); }
  }

  lemma {:induction false} BoundedFrom(l: Limits, s: Buckets, events: seq<Event>, key: string, lo: int, hi: int, now: int)
    requires l.window > 0 && Ordered(events, now) && lo <= hi && Sound(l, s, now)
    ensures l.rate <= 0 ==> Admitted(l, s, events, key, lo, hi) == 0
    ensures l.rate > 0 ==> Admitted(l, s, events, key, lo, hi) < l.rate * ((hi - lo) / l.window + 2)
    decreases |events|
  {
    if events != [] && events[0].at < lo {
      StepKeepsSound(l, s, events[0], now);
      BoundedFrom(l, Step(l, s, events[0]), events[1..], key, lo, hi, events[0].at);
    } else {
      var from := if now < lo then lo else now;
      FreshBudget(l, s, key, lo, from, hi);
      AdmittedWithinBudget(l, s, events, key, lo, hi, from);
    }
  }

  /**
   * However calls on all keys and cleanup ticks interleave, a key is admitted fewer than
   * rate * (length / window + 2) times in any closed interval, and never when the rate is not positive.
   */
  lemma RateBound(l: Limits, events: seq<Event>, key: string, lo: int, length: nat, start: int)
    requires l.window > 0 && Ordered(events, start)
    ensures l.rate <= 0 ==> Admitted(l, map[], events, key, lo, lo + length) == 0
    ensures l.rate > 0 ==> Admitted(l, map[], events, key, lo, lo + length) < l.rate * (length / l.window + 2)
  {
    BoundedFrom(l, map[], events, key, lo, lo + length, start);
  }

  // ---- The bound is sharp ----

  function Burst(key: string, at: int, n: nat): seq<Event> {
    if n == 0 then [] else [Call(key, at)] + Burst(key, at, n - 1)
  }

  lemma {:induction false} BurstDrains(l: Limits, s: Buckets, key: string, at: int, n: nat, rest: seq<Event>, lo: int, hi: int)
    requires Live(l, s, key, at) && n <= s[key].tokens && lo <= at <= hi
    ensures Admitted(l, s, Burst(key, at, n) + rest, key, lo, hi)
         == n + Admitted(l, s[key := Bucket(s[key].tokens - n, s[key].lastReset)], rest, key, lo, hi)
    decreases n
  {
    if n == 0 {
      assert Burst(key, at, n) + rest == rest && s == s[key := Bucket(s[key].tokens, s[key].lastReset)];
    } else {
      var next := AllowStep(l, s, key, at).0;
      BurstDrains(l, next, key, at, n - 1, rest, lo, hi);
      assert Burst(key, at, n) + rest == [Call(key, at)] + (Burst(key, at, n - 1) + rest);
      assert next[key := Bucket(s[key].tokens - n, s[key].lastReset)] == s[key := Bucket(s[key].tokens - n, s[key].lastReset)];
    }
  }

  /** One early call, the rest of its window's tokens just before the reset, and a full burst at the reset. */
  function EdgeBursts(l: Limits, key: string): seq<Event>
    requires l.rate > 0
  {
    [Call(key, 0)] + (Burst(key, l.window - 1, l.rate - 1) + (Burst(key, l.window, l.rate) + []))
  }

  lemma SecondBurst(l: Limits, s: Buckets, key: string)
    requires l.rate > 0 && l.window > 1 && key in s && s[key].lastReset == 0
    ensures Admitted(l, s, Burst(key, l.window, l.rate) + [], key, l.window - 1, l.window) == l.rate
  {
    var w := l.window;
    var full := Burst(key, w, l.rate) + [];
    assert full == [Call(key, w)] + (Burst(key, w, l.rate - 1) + []);
    var next := AllowStep(l, s, key, w).0;
    BurstDrains(l, next, key, w, l.rate - 1, [], w - 1, w);
    assert full[1..] == Burst(key, w, l.rate - 1) + [];
  }

  /** Around a reset, 2 * rate - 1 calls pass within one tick of the clock: the most the bound lets through. */
  lemma BoundIsReached(l: Limits, key: string)
    requires l.rate > 0 && l.window > 1
    ensures Admitted(l, map[], EdgeBursts(l, key), key, l.window - 1, l.window) == l.rate * (1 / l.window + 2) - 1
  {
    var w := l.window;
    var full := Burst(key, w, l.rate) + [];
    var s1 := AllowStep(l, map[], key, 0).0;
    assert EdgeBursts(l, key)[1..] == Burst(key, w - 1, l.rate - 1) + full;
    BurstDrains(l, s1, key, w - 1, l.rate - 1, full, w - 1, w);
    SecondBurst(l, s1[key := Bucket(0, 0)], key);
    WithinWindow(1, w);
    assert l.rate * (0 + 2) == l.rate + l.rate;
  }
}
