/** The circuit breaker shared by every call of the compliance API client.

    `Breaker` is the breaker's state as a value and `After` runs it over a
    sequence of stamped events; the class at the end of the file is the mutable
    object, each of whose methods is proved to take one step of that run. */
module CircuitBreakers {

  datatype Mode = Closed | Open | HalfOpen

  /** The three constructor arguments. Nothing constrains them: a threshold below
      one, or a negative window or cooldown, is legal and covered by every lemma. */
  datatype Config = Config(threshold: int, window: real, cooldown: real)

  datatype Breaker = Breaker(failures: seq<real>, mode: Mode, openedAt: real, probing: bool)

  const FRESH := Breaker([], Closed, 0.0, false)

  /** One call on the breaker, stamped with the monotonic clock. */
  datatype Event = Ask(at: real) | Succeed(at: real) | Fail(at: real)

  /** Number of failures it takes to trip: one recorded failure is always needed. */
  function Needed(cfg: Config): (n: nat)
    ensures n >= 1 && n >= cfg.threshold && (n == 1 || n == cfg.threshold)
  {
    if cfg.threshold < 1 then 1 else cfg.threshold
  }

  // ---------------------------------------------------------------------------
  // One step
  // ---------------------------------------------------------------------------

  /** What is left of the queue after popping stale entries off its front. */
  function DropStale(fs: seq<real>, cutoff: real): seq<real> {
    if fs != [] && fs[0] < cutoff then DropStale(fs[1..], cutoff) else fs
  }

  predicate Admits(cfg: Config, b: Breaker, now: real) {
    match b.mode
    case Closed => true
    case Open => now - b.openedAt >= cfg.cooldown
    case HalfOpen => !b.probing
  }

  function OnAsk(cfg: Config, b: Breaker, now: real): Breaker {
    var b := b.(failures := DropStale(b.failures, now - cfg.window));
    if Admits(cfg, b, now) && b.mode != Closed then b.(mode := HalfOpen, probing := true) else b
  }

  function OnSuccess(b: Breaker): Breaker {
    b.(failures := [], mode := Closed, probing := false)
  }

  function OnFailure(cfg: Config, b: Breaker, now: real): Breaker {
    var fs := DropStale(b.failures, now - cfg.window) + [now];
    if b.mode == HalfOpen || (b.mode == Closed && |fs| >= cfg.threshold) then
      Breaker([], Open, now, false)
    else
      b.(failures := fs)
  }

  function Step(cfg: Config, b: Breaker, e: Event): Breaker {
    match e
    case Ask(at) => OnAsk(cfg, b, at)
    case Succeed(_) => OnSuccess(b)
    case Fail(at) => OnFailure(cfg, b, at)
  }

  // ---------------------------------------------------------------------------
  // Runs
  // ---------------------------------------------------------------------------

  function From(cfg: Config, b: Breaker, es: seq<Event>): Breaker {
    if es == [] then b else Step(cfg, From(cfg, b, es[..|es| - 1]), es[|es| - 1])
  }

  function After(cfg: Config, es: seq<Event>): Breaker {
    From(cfg, FRESH, es)
  }

  /** The clock never runs backwards. */
  ghost predicate Timely(es: seq<Event>) {
    forall i, j :: 0 <= i < j < |es| ==> es[i].at <= es[j].at
  }

  ghost predicate NotBefore(es: seq<Event>, t: real) {
    forall i :: 0 <= i < |es| ==> t <= es[i].at
  }

  predicate IsRecord(e: Event) {
    e.Succeed? || e.Fail?
  }

  lemma AfterStep(cfg: Config, es: seq<Event>, e: Event)
    ensures After(cfg, es + [e]) == Step(cfg, After(cfg, es), e)
  {
    assert (es + [e])[..|es|] == es;
  }

  lemma TimelyFront(es: seq<Event>, e: Event)
    requires Timely(es + [e])
    ensures Timely(es) && (es != [] ==> es[|es| - 1].at <= e.at)
  {
    var all := es + [e];
    assert forall i :: 0 <= i < |es| ==> all[i] == es[i];
    assert all[|es|] == e;
  }

  lemma TimelyTail(pre: seq<Event>, e: Event, post: seq<Event>)
    requires Timely(pre + [e] + post)
    ensures Timely(post) && NotBefore(post, e.at)
  {
    var all, n := pre + [e] + post, |pre| + 1;
    assert all[|pre|] == e;
    assert forall i :: 0 <= i < |post| ==> all[n + i] == post[i];
  }

  lemma {:induction false} FromSplits(cfg: Config, b: Breaker, pre: seq<Event>, post: seq<Event>)
    ensures From(cfg, b, pre + post) == From(cfg, From(cfg, b, pre), post)
  {
    if post == [] {
      assert pre + post == pre;
    } else {
      var front := post[..|post| - 1];
      assert (pre + post)[..|pre + post| - 1] == pre + front;
      FromSplits(cfg, b, pre, front);
    }
  }

  // ---------------------------------------------------------------------------
  // Single probe
  // ---------------------------------------------------------------------------

  /** HALF_OPEN and "a probe is in flight" are the same condition in every run, so the
      branch that would hand out a second HALF_OPEN permission is dead. */
  lemma {:induction false} ProbeFlagIsHalfOpen(cfg: Config, es: seq<Event>)
    ensures After(cfg, es).mode == HalfOpen <==> After(cfg, es).probing
  {
    if es != [] {
      ProbeFlagIsHalfOpen(cfg, es[..|es| - 1]);
    }
  }

  /** How many of these events are permissions granted. */
  function Admissions(cfg: Config, b: Breaker, es: seq<Event>): nat
    decreases es
  {
    if es == [] then 0
    else
      var rest := Admissions(cfg, Step(cfg, b, es[0]), es[1..]);
      if es[0].Ask? && Admits(cfg, b, es[0].at) then 1 + rest else rest
  }

  lemma {:induction false} AdmissionsSplit(cfg: Config, b: Breaker, pre: seq<Event>, post: seq<Event>)
    ensures Admissions(cfg, b, pre + post) == Admissions(cfg, b, pre) + Admissions(cfg, From(cfg, b, pre), post)
    decreases pre
  {
    if pre == [] {
      assert pre + post == post;
    } else {
      assert (pre + post)[1..] == pre[1..] + post;
      AdmissionsSplit(cfg, Step(cfg, b, pre[0]), pre[1..], post);
      FromSplits(cfg, b, pre[..1], pre[1..]);
      assert pre[..1] + pre[1..] == pre;
      assert From(cfg, b, pre[..1]) == Step(cfg, b, pre[0]) by { assert pre[..1][..0] == []; }
    }
  }

  lemma {:induction false} NothingWhileProbing(cfg: Config, b: Breaker, es: seq<Event>)
    requires b.mode == HalfOpen && b.probing
    requires forall i :: 0 <= i < |es| ==> !IsRecord(es[i])
    ensures Admissions(cfg, b, es) == 0
    decreases es
  {
    if es != [] {
      NothingWhileProbing(cfg, Step(cfg, b, es[0]), es[1..]);
    }
  }

  lemma {:induction false} AtMostOneUnrecorded(cfg: Config, b: Breaker, es: seq<Event>)
    requires b.mode == Open || (b.mode == HalfOpen && b.probing)
    requires forall i :: 0 <= i < |es| ==> !IsRecord(es[i])
    ensures Admissions(cfg, b, es) <= 1
    decreases es
  {
    if es != [] {
      var c := Step(cfg, b, es[0]);
      if b.mode == HalfOpen || Admits(cfg, b, es[0].at) {
        NothingWhileProbing(cfg, c, es[1..]);
      } else {
        AtMostOneUnrecorded(cfg, c, es[1..]);
      }
    }
  }

  /** At any point of any run, a breaker that is not CLOSED admits at most one request
      until somebody records an outcome, and a recorded outcome always ends HALF_OPEN. */
  lemma SingleProbe(cfg: Config, pre: seq<Event>, asks: seq<Event>, record: Event)
    requires After(cfg, pre).mode != Closed
    requires forall i :: 0 <= i < |asks| ==> !IsRecord(asks[i])
    requires IsRecord(record)
    ensures Admissions(cfg, After(cfg, pre), asks) <= 1
    ensures After(cfg, pre + asks + [record]).mode != HalfOpen
  {
    ProbeFlagIsHalfOpen(cfg, pre);
    AtMostOneUnrecorded(cfg, After(cfg, pre), asks);
    AfterStep(cfg, pre + asks, record);
  }

  // ---------------------------------------------------------------------------
  // Sliding window
  // ---------------------------------------------------------------------------

  /** Every failure recorded since the last success (or since construction). */
  function Streak(es: seq<Event>): seq<real> {
    if es == [] then []
    else
      var front := Streak(es[..|es| - 1]);
      match es[|es| - 1]
      case Ask(_) => front
      case Succeed(_) => []
      case Fail(at) => front + [at]
  }

  /** The entries that are not older than `cutoff`, whatever their order. */
  function Recent(ts: seq<real>, cutoff: real): seq<real> {
    if ts == [] then []
    else if ts[0] >= cutoff then [ts[0]] + Recent(ts[1..], cutoff)
    else Recent(ts[1..], cutoff)
  }

  ghost predicate Sorted(ts: seq<real>) {
    forall i, j :: 0 <= i < j < |ts| ==> ts[i] <= ts[j]
  }

  lemma {:induction false} RecentAppend(a: seq<real>, x: real, cutoff: real)
    ensures Recent(a + [x], cutoff) == Recent(a, cutoff) + (if x >= cutoff then [x] else [])
  {
    if a == [] {
    } else {
      assert (a + [x])[1..] == a[1..] + [x];
      RecentAppend(a[1..], x, cutoff);
    }
  }

  /** Popping the stale prefix forgets nothing that a later cutoff would still see. */
  lemma {:induction false} DropKeepsRecent(ts: seq<real>, stale: real, cutoff: real)
    requires stale <= cutoff
    ensures Recent(DropStale(ts, stale), cutoff) == Recent(ts, cutoff)
  {
    if ts != [] && ts[0] < stale {
      DropKeepsRecent(ts[1..], stale, cutoff);
    }
  }

  lemma {:induction false} AllRecent(ts: seq<real>, cutoff: real)
    requires forall i :: 0 <= i < |ts| ==> ts[i] >= cutoff
    ensures Recent(ts, cutoff) == ts
  {
    if ts != [] {
      AllRecent(ts[1..], cutoff);
    }
  }

  lemma {:induction false} DropIsFilterWhenSorted(ts: seq<real>, cutoff: real)
    requires Sorted(ts)
    ensures DropStale(ts, cutoff) == Recent(ts, cutoff)
  {
    if ts == [] {
    } else if ts[0] < cutoff {
      DropIsFilterWhenSorted(ts[1..], cutoff);
    } else {
      AllRecent(ts, cutoff);
    }
  }

  lemma {:induction false} DropIsSuffix(ts: seq<real>, cutoff: real)
    ensures |DropStale(ts, cutoff)| <= |ts|
    ensures DropStale(ts, cutoff) == ts[|ts| - |DropStale(ts, cutoff)|..]
  {
    if ts != [] && ts[0] < cutoff {
      DropIsSuffix(ts[1..], cutoff);
    }
  }

  lemma {:induction false} QueueSorted(cfg: Config, es: seq<Event>)
    requires Timely(es)
    ensures Sorted(After(cfg, es).failures)
    ensures forall i :: 0 <= i < |After(cfg, es).failures| ==> es != [] && After(cfg, es).failures[i] <= es[|es| - 1].at
  {
    if es != [] {
      var front := es[..|es| - 1];
      QueueSorted(cfg, front);
      DropIsSuffix(After(cfg, front).failures, es[|es| - 1].at - cfg.window);
    }
  }

  /** While CLOSED the queue and the whole streak agree on every cutoff that a clock
      reading from now on can ask about. */
  lemma {:induction false} QueueTracksStreak(cfg: Config, es: seq<Event>, cutoff: real)
    requires Timely(es) && After(cfg, es).mode == Closed
    requires es != [] ==> es[|es| - 1].at - cfg.window <= cutoff
    ensures Recent(After(cfg, es).failures, cutoff) == Recent(Streak(es), cutoff)
  {
    if es != [] {
      var front, e := es[..|es| - 1], es[|es| - 1];
      if !e.Succeed? {
        QueueTracksStreak(cfg, front, cutoff);
        var kept := DropStale(After(cfg, front).failures, e.at - cfg.window);
        DropKeepsRecent(After(cfg, front).failures, e.at - cfg.window, cutoff);
        RecentAppend(kept, e.at, cutoff);
        RecentAppend(Streak(front), e.at, cutoff);
      }
    }
  }

  /** The prefix-popping queue is an exact sliding window: a CLOSED breaker trips at a
      failure if and only if that failure and the ones of the current streak that are no
      older than `window` number at least the threshold; when it does not trip, the queue
      holds precisely those failures. */
  lemma TripsExactly(cfg: Config, es: seq<Event>, now: real)
    requires Timely(es + [Fail(now)]) && After(cfg, es).mode == Closed
    ensures var window := Recent(Streak(es), now - cfg.window) + [now];
            var b := After(cfg, es + [Fail(now)]);
            && (b.mode == Open <==> |window| >= cfg.threshold)
            && (b.mode == Closed <==> |window| < cfg.threshold)
            && (b.mode == Closed ==> b.failures == window)
            && (b.mode == Open ==> b == Breaker([], Open, now, false))
  {
    hide Timely, From;
    AfterStep(cfg, es, Fail(now));
    TimelyFront(es, Fail(now));
    QueueSorted(cfg, es);
    QueueTracksStreak(cfg, es, now - cfg.window);
    DropIsFilterWhenSorted(After(cfg, es).failures, now - cfg.window);
  }

  // ---------------------------------------------------------------------------
  // Availability
  // ---------------------------------------------------------------------------

  function AsksIn(es: seq<Event>): nat {
    if es == [] then 0 else AsksIn(es[..|es| - 1]) + if es[|es| - 1].Ask? then 1 else 0
  }

  /** Every failure of the run finds fewer than `threshold` in the window, itself included. */
  ghost predicate NeverFull(cfg: Config, es: seq<Event>) {
    forall k :: 0 <= k < |es| && es[k].Fail? ==> |Recent(Streak(es[..k]), es[k].at - cfg.window)| + 1 < cfg.threshold
  }

  ghost predicate AlwaysClosed(cfg: Config, es: seq<Event>) {
    forall k :: 0 <= k <= |es| ==> After(cfg, es[..k]).mode == Closed
  }

  lemma ClosedNext(cfg: Config, es: seq<Event>, e: Event)
    requires Timely(es + [e]) && After(cfg, es).mode == Closed
    ensures After(cfg, es + [e]).mode == Closed
       <==> (e.Fail? ==> |Recent(Streak(es), e.at - cfg.window)| + 1 < cfg.threshold)
  {
    hide Timely, From, Recent, Streak;
    AfterStep(cfg, es, e);
    if e.Fail? {
      TripsExactly(cfg, es, e.at);
    }
  }

  lemma TimelyPrefix(es: seq<Event>, k: nat)
    requires Timely(es) && k <= |es|
    ensures Timely(es[..k])
  {
  }

  lemma {:induction false} ClosedSoFar(cfg: Config, es: seq<Event>, k: nat)
    requires Timely(es) && NeverFull(cfg, es) && k <= |es|
    ensures After(cfg, es[..k]).mode == Closed
  {
    if k > 0 {
      ClosedSoFar(cfg, es, k - 1);
      assert es[..k] == es[..k - 1] + [es[k - 1]];
      TimelyPrefix(es, k);
      ClosedNext(cfg, es[..k - 1], es[k - 1]);
    }
  }

  /** A breaker stays CLOSED throughout a run if and only if the run's failures never fill the window. */
  lemma StaysClosedExactly(cfg: Config, es: seq<Event>)
    requires Timely(es)
    ensures AlwaysClosed(cfg, es) <==> NeverFull(cfg, es)
  {
    hide Timely, From, Recent, Streak;
    if NeverFull(cfg, es) {
      forall k | 0 <= k <= |es| ensures After(cfg, es[..k]).mode == Closed {
        ClosedSoFar(cfg, es, k);
      }
    }
    if AlwaysClosed(cfg, es) {
      forall k | 0 <= k < |es| && es[k].Fail?
        ensures |Recent(Streak(es[..k]), es[k].at - cfg.window)| + 1 < cfg.threshold
      {
        assert es[..k + 1] == es[..k] + [es[k]];
        TimelyPrefix(es, k + 1);
        ClosedNext(cfg, es[..k], es[k]);
      }
    }
  }

  /** A permission asked of a CLOSED breaker is granted, after whatever run. */
  lemma ClosedGrants(cfg: Config, es: seq<Event>, now: real)
    requires After(cfg, es).mode == Closed
    ensures Admissions(cfg, FRESH, es + [Ask(now)]) == Admissions(cfg, FRESH, es) + 1
    ensures After(cfg, es + [Ask(now)]).mode == Closed
  {
    AdmissionsSplit(cfg, FRESH, es, [Ask(now)]);
    AfterStep(cfg, es, Ask(now));
    assert [Ask(now)][1..] == [];
  }

  lemma NoAsk(cfg: Config, b: Breaker, e: Event)
    requires !e.Ask?
    ensures Admissions(cfg, b, [e]) == 0
  {
    assert [e][1..] == [];
  }

  lemma NoEvents(cfg: Config)
    ensures Admissions(cfg, FRESH, []) == 0
  {
  }

  lemma {:induction false} ClosedGrantsAll(cfg: Config, es: seq<Event>)
    requires AlwaysClosed(cfg, es)
    ensures Admissions(cfg, FRESH, es) == AsksIn(es)
  {
    if es != [] {
      hide From, Admissions;
      var front, e := es[..|es| - 1], es[|es| - 1];
      assert es == front + [e];
      assert forall k :: 0 <= k <= |front| ==> front[..k] == es[..k];
      ClosedGrantsAll(cfg, front);
      assert front[..|front|] == front && es[..|front|] == front;
      if e.Ask? {
        ClosedGrants(cfg, front, e.at);
      } else {
        AdmissionsSplit(cfg, FRESH, front, [e]);
        NoAsk(cfg, After(cfg, front), e);
      }
    } else {
      NoEvents(cfg);
    }
  }

  /** Availability: as long as the failures since the last success never fill the window, every
      single request is admitted. */
  lemma HealthyServiceIsNeverCutOff(cfg: Config, es: seq<Event>)
    requires Timely(es) && NeverFull(cfg, es)
    ensures Admissions(cfg, FRESH, es) == AsksIn(es)
  {
    StaysClosedExactly(cfg, es);
    ClosedGrantsAll(cfg, es);
  }

  // ---------------------------------------------------------------------------
  // Trip conservation
  // ---------------------------------------------------------------------------

  /** CLOSED to OPEN transitions of a run. */
  function Trips(cfg: Config, es: seq<Event>): nat {
    if es == [] then 0
    else
      var front := es[..|es| - 1];
      Trips(cfg, front) + if After(cfg, front).mode == Closed && After(cfg, es).mode == Open then 1 else 0
  }

  /** HALF_OPEN to OPEN transitions of a run. */
  function Reopenings(cfg: Config, es: seq<Event>): nat {
    if es == [] then 0
    else
      var front := es[..|es| - 1];
      Reopenings(cfg, front) + if After(cfg, front).mode == HalfOpen && After(cfg, es).mode == Open then 1 else 0
  }

  function FailuresRecorded(es: seq<Event>): nat {
    if es == [] then 0
    else FailuresRecorded(es[..|es| - 1]) + if es[|es| - 1].Fail? then 1 else 0
  }

  predicate TripsAt(cfg: Config, front: seq<Event>, e: Event) {
    After(cfg, front).mode == Closed && Step(cfg, After(cfg, front), e).mode == Open
  }

  /** The failures that the run's trips and reopenings have used up. */
  function Spent(cfg: Config, es: seq<Event>): nat {
    if es == [] then 0
    else
      var front, e := es[..|es| - 1], es[|es| - 1];
      Spent(cfg, front)
      + if TripsAt(cfg, front, e) then Needed(cfg)
        else if After(cfg, front).mode == HalfOpen && e.Fail? then 1
        else 0
  }

  lemma OneMore(n: nat, t: nat)
    ensures n * (t + 1) == n * t + n
  {
  }

  lemma {:induction false} SpentIsTripsAndReopenings(cfg: Config, es: seq<Event>)
    ensures Spent(cfg, es) == Needed(cfg) * Trips(cfg, es) + Reopenings(cfg, es)
  {
    if es != [] {
      hide Needed, DropStale;
      var front := es[..|es| - 1];
      SpentIsTripsAndReopenings(cfg, front);
      OneMore(Needed(cfg), Trips(cfg, front));
    }
  }

  /** What a CLOSED breaker still holds, which is always short of a trip, is not spent yet. */
  lemma {:induction false} FailuresCoverSpending(cfg: Config, es: seq<Event>)
    ensures var b := After(cfg, es);
            && Spent(cfg, es) + (if b.mode == Closed then |b.failures| else 0) <= FailuresRecorded(es)
            && (b.mode == Closed ==> |b.failures| < Needed(cfg))
  {
    if es != [] {
      var front, e := es[..|es| - 1], es[|es| - 1];
      FailuresCoverSpending(cfg, front);
      DropIsSuffix(After(cfg, front).failures, e.at - cfg.window);
    }
  }

  /** Every trip is paid for by `Needed` recorded failures of its own and every reopening
      by one; what a CLOSED breaker still holds in its queue is counted on top, and is
      always short of a trip. No clock assumption is needed. */
  lemma TripConservation(cfg: Config, es: seq<Event>)
    ensures var b := After(cfg, es);
            && Needed(cfg) * Trips(cfg, es) + Reopenings(cfg, es) + (if b.mode == Closed then |b.failures| else 0)
               <= FailuresRecorded(es)
            && (b.mode == Closed ==> |b.failures| < Needed(cfg))
  {
    FailuresCoverSpending(cfg, es);
    SpentIsTripsAndReopenings(cfg, es);
  }

  // ---------------------------------------------------------------------------
  // Outage load bound
  // ---------------------------------------------------------------------------

  /** The last clock reading, or `t` if there is none. */
  function LastReading(t: real, es: seq<Event>): real {
    if es == [] then t else es[|es| - 1].at
  }

  /** n cooldowns, as a sum. */
  function Cooldowns(n: nat, c: real): real {
    if n == 0 then 0.0 else c + Cooldowns(n - 1, c)
  }

  lemma {:induction false} CooldownsAreProduct(n: nat, c: real)
    ensures Cooldowns(n, c) == n as real * c
  {
    if n > 0 {
      CooldownsAreProduct(n - 1, c);
      assert (1 + (n - 1)) as real == 1.0 + (n - 1) as real;
      assert (1.0 + (n - 1) as real) * c == c + (n - 1) as real * c;
    }
  }

  /** OPEN since `mark` or later, or HALF_OPEN with the probe out: no admission before `mark` plus a
      cooldown. */
  predicate Resting(b: Breaker, mark: real) {
    b.mode != Closed && (b.mode == HalfOpen ==> b.probing) && (b.mode == Open ==> mark <= b.openedAt)
  }

  lemma RestingStep(cfg: Config, b: Breaker, e: Event, mark: real)
    requires Resting(b, mark) && mark <= e.at && !e.Succeed?
    ensures if e.Ask? && Admits(cfg, b, e.at)
            then mark + cfg.cooldown <= e.at && Resting(Step(cfg, b, e), mark + cfg.cooldown)
            else Resting(Step(cfg, b, e), mark)
  {
  }

  lemma LaterNotBefore(es: seq<Event>)
    requires es != [] && Timely(es)
    ensures Timely(es[1..]) && NotBefore(es[1..], es[0].at) && LastReading(es[0].at, es[1..]) == es[|es| - 1].at
  {
    assert forall i :: 0 <= i < |es[1..]| ==> es[1..][i] == es[i + 1];
  }

  /** Each admission moves the earliest possible next one a full cooldown further on. */
  lemma {:induction false} CooldownSpacing(cfg: Config, b: Breaker, es: seq<Event>, mark: real, now: real)
    requires Resting(b, mark) && mark <= now
    requires Timely(es) && NotBefore(es, now)
    requires forall i :: 0 <= i < |es| ==> !es[i].Succeed?
    ensures mark + Cooldowns(Admissions(cfg, b, es), cfg.cooldown) <= LastReading(now, es)
    decreases es
  {
    if es != [] {
      hide Resting, Step, Admits, Timely;
      var e, rest := es[0], es[1..];
      RestingStep(cfg, b, e, mark);
      LaterNotBefore(es);
      var granted := e.Ask? && Admits(cfg, b, e.at);
      CooldownSpacing(cfg, Step(cfg, b, e), rest, if granted then mark + cfg.cooldown else mark, e.at);
    }
  }

  lemma MulMonotone(x: real, y: real, c: real)
    requires c > 0.0 && y < x
    ensures y * c < x * c
  {
    assert 0.0 < (x - y) * c;
  }

  /** n cooldowns fit into a span of time exactly when n is at most floor(span / cooldown). */
  lemma CooldownsFloor(n: nat, cooldown: real, span: real)
    requires cooldown > 0.0
    ensures Cooldowns(n, cooldown) <= span <==> n <= (span / cooldown).Floor
  {
    CooldownsAreProduct(n, cooldown);
    var q := span / cooldown;
    assert q * cooldown == span;
    if q < n as real {
      MulMonotone(n as real, q, cooldown);
    } else if n as real < q {
      MulMonotone(q, n as real, cooldown);
    }
  }

  /** After a failure at `t0` has opened the breaker, and for as long as no success is recorded, the
      cooldowns of all requests admitted by time `t` fit into t - t0, whatever the interleaving of
      permissions and late failures. */
  lemma CooldownsFit(cfg: Config, pre: seq<Event>, t0: real, outage: seq<Event>)
    requires Timely(pre + [Fail(t0)] + outage)
    requires After(cfg, pre).mode != Open && After(cfg, pre + [Fail(t0)]).mode == Open
    requires forall i :: 0 <= i < |outage| ==> !outage[i].Succeed?
    ensures Cooldowns(Admissions(cfg, After(cfg, pre + [Fail(t0)]), outage), cfg.cooldown) <= LastReading(t0, outage) - t0
  {
    hide Timely;
    AfterStep(cfg, pre, Fail(t0));
    TimelyTail(pre, Fail(t0), outage);
    var b := After(cfg, pre + [Fail(t0)]);
    CooldownSpacing(cfg, b, outage, t0, t0);
  }

  /** Outage load bound: so they number at most floor((t - t0) / cooldown). */
  lemma OutageLoadBound(cfg: Config, pre: seq<Event>, t0: real, outage: seq<Event>)
    requires Timely(pre + [Fail(t0)] + outage) && cfg.cooldown > 0.0
    requires After(cfg, pre).mode != Open && After(cfg, pre + [Fail(t0)]).mode == Open
    requires forall i :: 0 <= i < |outage| ==> !outage[i].Succeed?
    ensures Admissions(cfg, After(cfg, pre + [Fail(t0)]), outage) <= ((LastReading(t0, outage) - t0) / cfg.cooldown).Floor
  {
    hide Timely, Cooldowns, Admissions, From;
    CooldownsFit(cfg, pre, t0, outage);
    CooldownsFloor(Admissions(cfg, After(cfg, pre + [Fail(t0)]), outage), cfg.cooldown, LastReading(t0, outage) - t0);
  }

  /** The n-th probe, asked for and failed exactly when its cooldown is over. */
  function Probes(cfg: Config, t0: real, n: nat): seq<Event> {
    if n == 0 then []
    else
      var at := t0 + Cooldowns(n, cfg.cooldown);
      Probes(cfg, t0, n - 1) + [Ask(at), Fail(at)]
  }

  lemma OneProbe(cfg: Config, c: Breaker, at: real)
    requires c.mode == Open && at == c.openedAt + cfg.cooldown
    ensures Admissions(cfg, c, [Ask(at), Fail(at)]) == 1
    ensures From(cfg, c, [Ask(at), Fail(at)]).mode == Open && From(cfg, c, [Ask(at), Fail(at)]).openedAt == at
  {
    var two := [Ask(at), Fail(at)];
    var d := Step(cfg, c, two[0]);
    assert Admits(cfg, c, at);
    assert two[1..][1..] == [];
    assert Admissions(cfg, d, two[1..]) == 0;
    assert two[..1][..0] == [];
    assert From(cfg, c, two[..1]) == d;
  }

  lemma {:induction false} ProbesAllAdmitted(cfg: Config, b: Breaker, t0: real, n: nat)
    requires b.mode == Open && b.openedAt == t0
    ensures Admissions(cfg, b, Probes(cfg, t0, n)) == n
    ensures var c := From(cfg, b, Probes(cfg, t0, n));
            c.mode == Open && c.openedAt == t0 + Cooldowns(n, cfg.cooldown)
  {
    if n > 0 {
      hide Admissions, From, Step, Admits;
      ProbesAllAdmitted(cfg, b, t0, n - 1);
      var at := t0 + Cooldowns(n, cfg.cooldown);
      var c := From(cfg, b, Probes(cfg, t0, n - 1));
      AdmissionsSplit(cfg, b, Probes(cfg, t0, n - 1), [Ask(at), Fail(at)]);
      FromSplits(cfg, b, Probes(cfg, t0, n - 1), [Ask(at), Fail(at)]);
      OneProbe(cfg, c, at);
    }
  }

  /** A probe schedule stays within the clock: it starts after `t0` and never runs backwards. */
  lemma {:induction false} ProbesAreTimely(cfg: Config, t0: real, n: nat)
    requires cfg.cooldown >= 0.0
    ensures var es := Probes(cfg, t0, n);
            && Timely(es) && NotBefore(es, t0) && LastReading(t0, es) == t0 + Cooldowns(n, cfg.cooldown)
            && (forall i :: 0 <= i < |es| ==> !es[i].Succeed? && es[i].at <= t0 + Cooldowns(n, cfg.cooldown))
  {
    if n > 0 {
      ProbesAreTimely(cfg, t0, n - 1);
    }
  }

  /** `n` failures in a row, all at the same moment. */
  function Burst(n: nat, t0: real): seq<Event> {
    seq(n, _ => Fail(t0))
  }

  /** A burst one short of the threshold leaves a fresh breaker CLOSED; the next failure trips it. */
  lemma {:induction false} BurstTrips(cfg: Config, t0: real, n: nat)
    requires cfg.window >= 0.0 && n < Needed(cfg)
    ensures After(cfg, Burst(n, t0)) == Breaker(seq(n, _ => t0), Closed, 0.0, false)
    ensures n + 1 == Needed(cfg) ==> After(cfg, Burst(n, t0) + [Fail(t0)]) == Breaker([], Open, t0, false)
  {
    AfterStep(cfg, Burst(n, t0), Fail(t0));
    if n > 0 {
      BurstTrips(cfg, t0, n - 1);
      assert Burst(n, t0) == Burst(n - 1, t0) + [Fail(t0)];
      AfterStep(cfg, Burst(n - 1, t0), Fail(t0));
      assert seq(n - 1, _ => t0) + [t0] == seq(n, _ => t0);
    }
  }

  lemma BurstThenLater(k: nat, t0: real, es: seq<Event>)
    requires Timely(es) && NotBefore(es, t0)
    ensures Timely(Burst(k, t0) + es)
  {
  }

  lemma FloorOfCooldowns(n: nat, cooldown: real)
    requires cooldown > 0.0
    ensures (Cooldowns(n, cooldown) / cooldown).Floor == n
  {
    CooldownsAreProduct(n, cooldown);
    assert n as real * cooldown / cooldown == n as real;
  }

  /** The bound is attained, from a fresh breaker on and by every count: a burst of failures trips
      the breaker at `t0`, and `n` probes, each asked for and failed as soon as its cooldown is over,
      are all admitted within exactly `n` cooldowns. */
  lemma OutageBoundIsTight(cfg: Config, t0: real, n: nat)
    requires cfg.window >= 0.0 && cfg.cooldown >= 0.0
    ensures var pre, outage := Burst(Needed(cfg) - 1, t0), Probes(cfg, t0, n);
            && Timely(pre + [Fail(t0)] + outage)
            && After(cfg, pre).mode == Closed && After(cfg, pre + [Fail(t0)]).mode == Open
            && (forall i :: 0 <= i < |outage| ==> !outage[i].Succeed?)
            && Admissions(cfg, After(cfg, pre + [Fail(t0)]), outage) == n
            && LastReading(t0, outage) - t0 == Cooldowns(n, cfg.cooldown)
            && (cfg.cooldown > 0.0 ==> ((LastReading(t0, outage) - t0) / cfg.cooldown).Floor == n)
  {
    hide From, Admissions, Probes, Cooldowns;
    var pre := Burst(Needed(cfg) - 1, t0);
    BurstTrips(cfg, t0, Needed(cfg) - 1);
    ProbesAllAdmitted(cfg, After(cfg, pre + [Fail(t0)]), t0, n);
    ProbesAreTimely(cfg, t0, n);
    BurstThenLater(Needed(cfg), t0, Probes(cfg, t0, n));
    assert Burst(Needed(cfg), t0) == pre + [Fail(t0)];
    if cfg.cooldown > 0.0 {
      FloorOfCooldowns(n, cfg.cooldown);
    }
  }

  // ---------------------------------------------------------------------------
  // The object
  // ---------------------------------------------------------------------------

  class CircuitBreaker {
    const cfg: Config
    var failures: seq<real>
    var mode: Mode
    var openedAt: real
    var probing: bool
    ghost var history: seq<Event>

    function View(): Breaker
      reads this
    {
      Breaker(failures, mode, openedAt, probing)
    }

    /** The fields are what the history makes them, and time has not run backwards. */
    ghost predicate Valid()
      reads this
    {
      View() == After(cfg, history) && Timely(history)
    }

    ghost predicate NowOk(now: real)
      reads this
    {
      history != [] ==> history[|history| - 1].at <= now
    }

    constructor (cfg: Config)
      ensures Valid() && this.cfg == cfg && history == [] && View() == FRESH
      ensures mode == Closed && failures == [] && !probing
    {
      this.cfg := cfg;
      failures, mode, openedAt, probing := [], Closed, 0.0, false;
      history := [];
    }

    method Prune(now: real)
      modifies this`failures
      ensures failures == DropStale(old(failures), now - cfg.window)
    {
      var cutoff := now - cfg.window;
      while failures != [] && failures[0] < cutoff
        invariant DropStale(failures, cutoff) == DropStale(old(failures), cutoff)
        decreases |failures|
      {
        failures := failures[1..];
      }
    }

    /** A refusal changes nothing but the queue; a granted permission on a breaker that is
        not CLOSED starts the one probe. */
    method CanRequest(now: real) returns (admitted: bool)
      requires Valid() && NowOk(now)
      modifies this
      ensures Valid() && history == old(history) + [Ask(now)]
      ensures admitted == Admits(cfg, old(View()), now)
      ensures old(mode) == Closed ==> admitted
      ensures old(mode) == Open ==> (admitted <==> now - old(openedAt) >= cfg.cooldown)
      ensures old(mode) == HalfOpen ==> (admitted <==> !old(probing))
      ensures mode == if admitted && old(mode) == Open then HalfOpen else old(mode)
      ensures openedAt == old(openedAt) && probing == (old(probing) || (admitted && old(mode) != Closed))
    {
      hide From;
      AfterStep(cfg, history, Ask(now));
      history := history + [Ask(now)];
      Prune(now);
      if mode == Closed {
        return true;
      }
      if mode == Open {
        if now - openedAt >= cfg.cooldown {
          mode := HalfOpen;
          probing := true;
          return true;
        }
        return false;
      }
      if probing {
        return false;
      }
      probing := true;
      return true;
    }

    method RecordSuccess(ghost now: real)
      requires Valid() && NowOk(now)
      modifies this
      ensures Valid() && history == old(history) + [Succeed(now)]
      ensures mode == Closed && !probing && failures == [] && openedAt == old(openedAt)
    {
      hide From;
      AfterStep(cfg, history, Succeed(now));
      history := history + [Succeed(now)];
      failures := [];
      if mode == HalfOpen || mode == Open {
        mode := Closed;
      }
      probing := false;
    }

    /** From CLOSED: trips exactly when the window is full. From HALF_OPEN: reopens. From
        OPEN: a late failure moves neither the mode nor `openedAt`. */
    method RecordFailure(now: real)
      requires Valid() && NowOk(now)
      modifies this
      ensures Valid() && history == old(history) + [Fail(now)]
      ensures old(mode) == Closed ==>
                (mode == Open <==> |Recent(Streak(old(history)), now - cfg.window)| + 1 >= cfg.threshold)
      ensures mode == if old(mode) == Closed then mode else Open
      ensures old(mode) == Open ==> openedAt == old(openedAt)
      ensures old(mode) != Open && mode == Open ==> openedAt == now && failures == []
    {
      hide From;
      ghost var was := history;
      AfterStep(cfg, was, Fail(now));
      history := history + [Fail(now)];
      if mode == Closed {
        TripsExactly(cfg, was, now);
      }
      Prune(now);
      failures := failures + [now];
      if mode == HalfOpen {
        mode := Open;
        openedAt := now;
        probing := false;
        failures := [];
        return;
      }
      if mode == Closed && |failures| >= cfg.threshold {
        mode := Open;
        openedAt := now;
        probing := false;
        failures := [];
      }
    }
  }
}
