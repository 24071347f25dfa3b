/** Any number of client calls sharing one breaker, interleaved at every await.

    A call is a small step machine: it asks permission, then alternates between an attempt on the
    wire and the report of that attempt to the breaker; other calls may run between any two of
    its steps. Sleeping between attempts is just time passing between two steps. */
module Interleaving {
  import opened CircuitBreakers
  import opened RequestLoop

  datatype Phase =
    | Idle
    | Sending
    | Received(outcome: Outcome)
    | Finished(verdict: Verdict)

  datatype Call = Call(route: Route, phase: Phase, wire: seq<Outcome>, reports: seq<Report>)

  datatype System = System(breaker: Breaker, calls: seq<Call>)

  datatype Action =
    | Permit(id: nat, at: real)
    | Attempt(id: nat, outcome: Outcome)
    | Tell(id: nat, at: real)

  predicate Enabled(s: System, a: Action) {
    && a.id < |s.calls|
    && match s.calls[a.id].phase
       case Idle => a.Permit?
       case Sending => a.Attempt?
       case Received(o) => a.Tell? && Recorded(s.calls[a.id].route, o) != []
       case Finished(_) => false
  }

  /** What an action is to the breaker, if anything. */
  function EventOf(s: System, a: Action): seq<Event>
    requires Enabled(s, a)
  {
    match a
    case Permit(_, at) => [Ask(at)]
    case Attempt(_, _) => []
    case Tell(id, at) =>
      var c := s.calls[id];
      [Stamp(Recorded(c.route, c.phase.outcome)[0], at)]
  }

  function Proceed(cfg: Config, b: Breaker, c: Call, a: Action): Call
    requires Enabled(System(b, [c]), a.(id := 0))
  {
    match a
    case Permit(_, at) =>
      c.(phase := if !Admits(cfg, b, at) then Finished(CircuitOpen)
                  else if Attempts(c.route) < 1 then Finished(Exhausted)
                  else Sending)
    case Attempt(_, o) =>
      c.(wire := c.wire + [o],
         phase := if Recorded(c.route, o) == [] then Finished(Ending(c.route, o)) else Received(o))
    case Tell(_, _) =>
      var o := c.phase.outcome;
      c.(reports := c.reports + Recorded(c.route, o),
         phase := if Retryable(c.route, o) && |c.wire| < Attempts(c.route) then Sending
                  else Finished(Ending(c.route, o)))
  }

  function Next(cfg: Config, s: System, a: Action): System
    requires Enabled(s, a)
  {
    var e := EventOf(s, a);
    System(if e == [] then s.breaker else Step(cfg, s.breaker, e[0]),
           s.calls[a.id := Proceed(cfg, s.breaker, s.calls[a.id], a)])
  }

  predicate Runnable(cfg: Config, s: System, run: seq<Action>)
    decreases run
  {
    run == [] || (Enabled(s, run[0]) && Runnable(cfg, Next(cfg, s, run[0]), run[1..]))
  }

  function Exec(cfg: Config, s: System, run: seq<Action>): System
    requires Runnable(cfg, s, run)
    decreases run
  {
    if run == [] then s else Exec(cfg, Next(cfg, s, run[0]), run[1..])
  }

  /** The breaker's share of a run. */
  function Events(cfg: Config, s: System, run: seq<Action>): seq<Event>
    requires Runnable(cfg, s, run)
    decreases run
  {
    if run == [] then [] else EventOf(s, run[0]) + Events(cfg, Next(cfg, s, run[0]), run[1..])
  }

  predicate Start(s: System) {
    s.breaker == FRESH && forall i :: 0 <= i < |s.calls| ==> s.calls[i] == Call(s.calls[i].route, Idle, [], [])
  }

  predicate Grants(cfg: Config, s: System, a: Action) {
    a.Permit? && Admits(cfg, s.breaker, a.at)
  }

  lemma StepAdmissions(cfg: Config, s: System, a: Action)
    requires Enabled(s, a)
    ensures From(cfg, s.breaker, EventOf(s, a)) == Next(cfg, s, a).breaker
    ensures Admissions(cfg, s.breaker, EventOf(s, a)) == if Grants(cfg, s, a) then 1 else 0
    ensures a.Tell? <==> EventOf(s, a) != [] && IsRecord(EventOf(s, a)[0])
  {
    var e := EventOf(s, a);
    if e != [] {
      assert e[..0] == [] && e[1..] == [];
    }
  }

  /** However the calls interleave, the shared breaker only ever sees a run of its own events. */
  lemma {:induction false} BreakerRun(cfg: Config, s: System, run: seq<Action>)
    requires Runnable(cfg, s, run)
    ensures Exec(cfg, s, run).breaker == From(cfg, s.breaker, Events(cfg, s, run))
    decreases run
  {
    if run != [] {
      var t := Next(cfg, s, run[0]);
      BreakerRun(cfg, t, run[1..]);
      StepAdmissions(cfg, s, run[0]);
      FromSplits(cfg, s.breaker, EventOf(s, run[0]), Events(cfg, t, run[1..]));
    }
  }

  // ---------------------------------------------------------------------------
  // Every call keeps to its trace
  // ---------------------------------------------------------------------------

  ghost predicate OnTrack(c: Call) {
    match c.phase
    case Idle =>
      c.wire == [] && c.reports == []
    case Sending =>
      && |c.wire| < Attempts(c.route)
      && (forall i :: 0 <= i < |c.wire| ==> Retryable(c.route, c.wire[i]))
      && c.reports == Failures(|c.wire|)
    case Received(o) =>
      && 1 <= |c.wire| <= Attempts(c.route)
      && c.wire[|c.wire| - 1] == o && Recorded(c.route, o) != []
      && (forall i :: 0 <= i < |c.wire| - 1 ==> Retryable(c.route, c.wire[i]))
      && c.reports == Failures(|c.wire| - 1)
    case Finished(v) =>
      (v == CircuitOpen && c.wire == [] && c.reports == []) || IsTrace(c.route, c.wire, v, c.reports)
  }

  ghost predicate AllOnTrack(s: System) {
    forall i :: 0 <= i < |s.calls| ==> OnTrack(s.calls[i])
  }

  lemma ProceedOnTrack(cfg: Config, b: Breaker, c: Call, a: Action)
    requires OnTrack(c) && Enabled(System(b, [c]), a.(id := 0))
    ensures OnTrack(Proceed(cfg, b, c, a))
  {
    match a
    case Permit(_, at) =>
      assert Failures(0) == [];
    case Attempt(_, o) =>
      assert Failures(|c.wire|) + [] == Failures(|c.wire|);
    case Tell(_, _) =>
      var o := c.phase.outcome;
      assert Retryable(c.route, o) ==> Failures(|c.wire|) == Failures(|c.wire| - 1) + Recorded(c.route, o);
  }

  /** The trace theorem survives every interleaving: each call that has finished was either refused
      without touching the wire, or its attempts, verdict and reports form a complete trace of its
      own, exactly as if it had run alone. */
  lemma {:induction false} EveryCallTraces(cfg: Config, s: System, run: seq<Action>)
    requires AllOnTrack(s) && Runnable(cfg, s, run)
    ensures AllOnTrack(Exec(cfg, s, run))
    decreases run
  {
    if run != [] {
      ProceedOnTrack(cfg, s.breaker, s.calls[run[0].id], run[0]);
      EveryCallTraces(cfg, Next(cfg, s, run[0]), run[1..]);
    }
  }

  /** The system after the first k actions. */
  function StateAt(cfg: Config, s: System, run: seq<Action>, k: nat): System
    requires Runnable(cfg, s, run) && k <= |run|
    decreases k
  {
    if k == 0 then s else StateAt(cfg, Next(cfg, s, run[0]), run[1..], k - 1)
  }

  lemma RefusalStep(cfg: Config, s: System, a: Action, id: nat)
    requires AllOnTrack(s) && Enabled(s, a) && id < |s.calls|
    ensures var t := Next(cfg, s, a);
            && AllOnTrack(t) && |t.calls| == |s.calls|
            && (s.calls[id].phase != Finished(CircuitOpen) && t.calls[id].phase == Finished(CircuitOpen) ==>
                  a.Permit? && a.id == id && s.breaker.mode != Closed)
  {
    hide DropStale, IsTrace, Failures;
    ProceedOnTrack(cfg, s.breaker, s.calls[a.id], a);
    assert OnTrack(s.calls[a.id]);
  }

  /** A call is refused only by a breaker that is not CLOSED: if it had not asked at the start and ends
      with `CircuitOpen`, the breaker was OPEN or HALF_OPEN at the moment it asked. */
  lemma {:induction false} RefusedByAnOpenBreaker(cfg: Config, s: System, run: seq<Action>, id: nat) returns (k: nat)
    requires AllOnTrack(s) && Runnable(cfg, s, run)
    requires id < |s.calls| && s.calls[id].phase != Finished(CircuitOpen)
    requires id < |Exec(cfg, s, run).calls| && Exec(cfg, s, run).calls[id].phase == Finished(CircuitOpen)
    ensures k < |run| && run[k].Permit? && run[k].id == id
    ensures StateAt(cfg, s, run, k).breaker.mode != Closed
    decreases run
  {
    hide Next, Enabled, OnTrack;
    var t := Next(cfg, s, run[0]);
    RefusalStep(cfg, s, run[0], id);
    if t.calls[id].phase == Finished(CircuitOpen) {
      k := 0;
    } else {
      k := RefusedByAnOpenBreaker(cfg, t, run[1..], id);
      k := k + 1;
    }
  }

  // ---------------------------------------------------------------------------
  // Load on the service during an outage
  // ---------------------------------------------------------------------------

  datatype Group = Everyone | Only(ids: set<nat>) {
    predicate Has(id: nat) {
      Everyone? || id in ids
    }
  }

  /** Attempts made in a run by the calls of a group. */
  function WireLoad(run: seq<Action>, group: Group): nat {
    if run == [] then 0
    else WireLoad(run[1..], group) + if run[0].Attempt? && group.Has(run[0].id) then 1 else 0
  }

  /** Permissions granted in a run to the calls of a group. */
  function Granted(cfg: Config, s: System, run: seq<Action>, group: Group): nat
    requires Runnable(cfg, s, run)
    decreases run
  {
    if run == [] then 0
    else
      Granted(cfg, Next(cfg, s, run[0]), run[1..], group)
      + if Grants(cfg, s, run[0]) && group.Has(run[0].id) then 1 else 0
  }

  /** The calls that have not asked yet. */
  function Waiting(s: System): Group {
    Only(set i | 0 <= i < |s.calls| && s.calls[i].phase == Idle)
  }

  predicate Live(c: Call) {
    c.phase.Sending? || c.phase.Received?
  }

  /** Attempts a call can still make if no call may make more than `most`. */
  function Left(most: nat, c: Call): nat {
    if Live(c) && |c.wire| < most then most - |c.wire| else 0
  }

  function Budget(most: nat, calls: seq<Call>, group: Group): nat {
    if calls == [] then 0
    else
      var n := |calls| - 1;
      Budget(most, calls[..n], group) + if group.Has(n) then Left(most, calls[n]) else 0
  }

  lemma {:induction false} BudgetUpdate(most: nat, calls: seq<Call>, group: Group, i: nat, c: Call)
    requires i < |calls|
    ensures Budget(most, calls[i := c], group)
         == Budget(most, calls, group) + if group.Has(i) then Left(most, c) - Left(most, calls[i]) else 0
  {
    var n := |calls| - 1;
    if i == n {
      assert calls[i := c][..n] == calls[..n];
    } else {
      assert calls[i := c][..n] == calls[..n][i := c];
      BudgetUpdate(most, calls[..n], group, i, c);
    }
  }

  ghost predicate AtMost(most: nat, s: System) {
    forall i :: 0 <= i < |s.calls| ==> Attempts(s.calls[i].route) <= most
  }

  lemma LeftAfter(cfg: Config, most: nat, s: System, a: Action)
    requires Enabled(s, a) && AllOnTrack(s) && AtMost(most, s)
    ensures var c := s.calls[a.id];
            Left(most, Proceed(cfg, s.breaker, c, a)) + (if a.Attempt? then 1 else 0)
            <= Left(most, c) + if Grants(cfg, s, a) then most else 0
  {
    assert OnTrack(s.calls[a.id]);
  }

  /** `most` attempts for every permission granted to the group. */
  function Allowance(cfg: Config, most: nat, s: System, run: seq<Action>, group: Group): nat
    requires Runnable(cfg, s, run)
    decreases run
  {
    if run == [] then 0
    else
      Allowance(cfg, most, Next(cfg, s, run[0]), run[1..], group)
      + if Grants(cfg, s, run[0]) && group.Has(run[0].id) then most else 0
  }

  lemma {:induction false} AllowanceIsProduct(cfg: Config, most: nat, s: System, run: seq<Action>, group: Group)
    requires Runnable(cfg, s, run)
    ensures Allowance(cfg, most, s, run, group) == most * Granted(cfg, s, run, group)
    decreases run
  {
    if run != [] {
      hide Next;
      var t := Next(cfg, s, run[0]);
      AllowanceIsProduct(cfg, most, t, run[1..], group);
      OneMore(most, Granted(cfg, t, run[1..], group));
    }
  }

  /** Attempts are paid out of the attempts left over at the start and `most` per permission:
      a retry never asks again. */
  lemma {:induction false} LoadWithinBudget(cfg: Config, most: nat, s: System, run: seq<Action>, group: Group)
    requires Runnable(cfg, s, run) && AllOnTrack(s) && AtMost(most, s)
    ensures WireLoad(run, group) <= Budget(most, s.calls, group) + Allowance(cfg, most, s, run, group)
    decreases run
  {
    if run != [] {
      var a := run[0];
      var t := Next(cfg, s, a);
      ProceedOnTrack(cfg, s.breaker, s.calls[a.id], a);
      LoadWithinBudget(cfg, most, t, run[1..], group);
      LeftAfter(cfg, most, s, a);
      BudgetUpdate(most, s.calls, group, a.id, t.calls[a.id]);
    }
  }

  lemma {:induction false} NothingLeft(most: nat, calls: seq<Call>, group: Group)
    requires forall i :: 0 <= i < |calls| && group.Has(i) ==> !Live(calls[i])
    ensures Budget(most, calls, group) == 0
  {
    if calls != [] {
      NothingLeft(most, calls[..|calls| - 1], group);
    }
  }

  /** Calls that are past their permission and not finished. */
  function InFlight(calls: seq<Call>): nat {
    if calls == [] then 0
    else InFlight(calls[..|calls| - 1]) + if Live(calls[|calls| - 1]) then 1 else 0
  }

  lemma {:induction false} BudgetInFlight(most: nat, calls: seq<Call>, group: Group)
    ensures Budget(most, calls, group) <= most * InFlight(calls)
  {
    if calls != [] {
      var n := |calls| - 1;
      BudgetInFlight(most, calls[..n], group);
      assert most * (InFlight(calls[..n]) + 1) == most * InFlight(calls[..n]) + most;
    }
  }

  lemma {:induction false} GrantedIsAdmissions(cfg: Config, s: System, run: seq<Action>, group: Group)
    requires Runnable(cfg, s, run)
    ensures Granted(cfg, s, run, group) <= Admissions(cfg, s.breaker, Events(cfg, s, run))
    ensures group == Everyone ==>
              Granted(cfg, s, run, group) == Admissions(cfg, s.breaker, Events(cfg, s, run))
    decreases run
  {
    if run != [] {
      hide Next, EventOf, Admissions, Grants, From, Enabled;
      var t := Next(cfg, s, run[0]);
      GrantedIsAdmissions(cfg, t, run[1..], group);
      StepAdmissions(cfg, s, run[0]);
      AdmissionsSplit(cfg, s.breaker, EventOf(s, run[0]), Events(cfg, t, run[1..]));
    } else {
      assert Events(cfg, s, run) == [];
    }
  }

  lemma Scaling(most: nat, g: nat, n: nat, k: nat)
    requires g <= n
    ensures most * g <= most * n && most * (n + k) == most * n + most * k
  {
  }

  /** Outage load on the wire. Take any moment at which the breaker has been OPEN since `t0`, with
      `k` calls still in flight from before, and let no success be recorded up to time `t`. Then
      the calls admitted meanwhile number some n <= floor((t - t0) / cooldown), they send at
      most `most * n` wire requests, and all calls together send at most `most * (n + k)`. */
  lemma OutageWireBound(cfg: Config, most: nat, s: System, run: seq<Action>, t0: real)
    requires AllOnTrack(s) && AtMost(most, s) && Runnable(cfg, s, run)
    requires s.breaker.mode == Open && s.breaker.openedAt == t0
    requires Timely(Events(cfg, s, run)) && NotBefore(Events(cfg, s, run), t0)
    requires forall i :: 0 <= i < |Events(cfg, s, run)| ==> !Events(cfg, s, run)[i].Succeed?
    ensures var n := Granted(cfg, s, run, Everyone);
            var span := LastReading(t0, Events(cfg, s, run)) - t0;
            && Cooldowns(n, cfg.cooldown) <= span
            && (cfg.cooldown > 0.0 ==> n <= (span / cfg.cooldown).Floor)
            && WireLoad(run, Waiting(s)) <= most * n
            && WireLoad(run, Everyone) <= most * (n + InFlight(s.calls))
  {
    hide Runnable, Granted, Allowance, Budget, WireLoad, Admissions, Cooldowns, InFlight, Next;
    var n, k := Granted(cfg, s, run, Everyone), InFlight(s.calls);
    var g := Granted(cfg, s, run, Waiting(s));
    CooldownSpacing(cfg, s.breaker, Events(cfg, s, run), t0, t0);
    if cfg.cooldown > 0.0 {
      CooldownsFloor(n, cfg.cooldown, LastReading(t0, Events(cfg, s, run)) - t0);
    }
    GrantedIsAdmissions(cfg, s, run, Everyone);
    GrantedIsAdmissions(cfg, s, run, Waiting(s));
    LoadWithinBudget(cfg, most, s, run, Waiting(s));
    AllowanceIsProduct(cfg, most, s, run, Waiting(s));
    NothingLeft(most, s.calls, Waiting(s));
    LoadWithinBudget(cfg, most, s, run, Everyone);
    AllowanceIsProduct(cfg, most, s, run, Everyone);
    BudgetInFlight(most, s.calls, Everyone);
    Scaling(most, g, n, k);
  }

  // ---------------------------------------------------------------------------
  // A silent probe
  // ---------------------------------------------------------------------------

  /** The call was admitted and has told the breaker nothing. */
  predicate Silent(c: Call) {
    c.phase != Idle && c.phase != Finished(CircuitOpen) && c.reports == []
  }

  /** The k-th action is the permission that took the breaker from OPEN to HALF_OPEN, and nobody
      has told the breaker anything since. */
  ghost predicate LastProbe(cfg: Config, s: System, run: seq<Action>, k: nat)
    requires Runnable(cfg, s, run)
  {
    && k < |run| && run[k].Permit?
    && StateAt(cfg, s, run, k).breaker.mode == Open
    && StateAt(cfg, s, run, k + 1).breaker.mode == HalfOpen
    && forall m :: k < m < |run| ==> !run[m].Tell?
  }

  predicate ProbeFlag(s: System) {
    s.breaker.mode == HalfOpen ==> s.breaker.probing
  }

  lemma GrantedIsSilent(cfg: Config, s: System, a: Action)
    requires Enabled(s, a) && AllOnTrack(s) && Grants(cfg, s, a)
    ensures Silent(Next(cfg, s, a).calls[a.id])
  {
    assert OnTrack(s.calls[a.id]);
  }

  lemma OneStep(cfg: Config, s: System, a: Action)
    requires Enabled(s, a) && ProbeFlag(s) && AllOnTrack(s)
    ensures var t := Next(cfg, s, a);
            && ProbeFlag(t) && AllOnTrack(t) && |t.calls| == |s.calls|
            && (t.breaker.mode == HalfOpen && s.breaker.mode == HalfOpen ==> !a.Tell?)
            && (t.breaker.mode == HalfOpen && s.breaker.mode != HalfOpen ==>
                  s.breaker.mode == Open && a.Permit? && Silent(t.calls[a.id]))
  {
    hide DropStale;
    assert OnTrack(s.calls[a.id]);
    ProceedOnTrack(cfg, s.breaker, s.calls[a.id], a);
    if a.Permit? && Grants(cfg, s, a) {
      GrantedIsSilent(cfg, s, a);
    }
  }

  /** Nobody stops being silent except by telling. */
  lemma StillSilent(cfg: Config, s: System, a: Action, id: nat)
    requires Enabled(s, a) && !a.Tell? && id < |s.calls| && Silent(s.calls[id])
    ensures Silent(Next(cfg, s, a).calls[id])
  {
  }

  lemma {:induction false} SilentUnlessTold(cfg: Config, s: System, run: seq<Action>, id: nat)
    requires Runnable(cfg, s, run) && ProbeFlag(s) && AllOnTrack(s)
    requires forall m :: 0 <= m < |run| ==> !run[m].Tell?
    requires id < |s.calls| && Silent(s.calls[id])
    ensures var t := Exec(cfg, s, run);
            id < |t.calls| && Silent(t.calls[id])
    decreases run
  {
    if run != [] {
      hide Next, Enabled, Silent, OnTrack;
      OneStep(cfg, s, run[0]);
      StillSilent(cfg, s, run[0], id);
      SilentUnlessTold(cfg, Next(cfg, s, run[0]), run[1..], id);
    }
  }

  lemma IdInRange(s: System, a: Action)
    requires Enabled(s, a)
    ensures a.id < |s.calls|
  {
  }

  /** The last probe of a run that ends HALF_OPEN; -1 if it was under way at the start. */
  lemma {:induction false} FindProbe(cfg: Config, s: System, run: seq<Action>) returns (k: int)
    requires Runnable(cfg, s, run) && ProbeFlag(s) && AllOnTrack(s) && Exec(cfg, s, run).breaker.mode == HalfOpen
    ensures -1 <= k < |run|
    ensures k == -1 ==> s.breaker.mode == HalfOpen && forall m :: 0 <= m < |run| ==> !run[m].Tell?
    ensures k >= 0 ==> LastProbe(cfg, s, run, k)
    ensures k >= 0 ==> run[k].id < |Exec(cfg, s, run).calls| && Silent(Exec(cfg, s, run).calls[run[k].id])
    decreases run
  {
    hide Next, Enabled, Silent, Grants, OnTrack;
    if run == [] {
      k := -1;
    } else {
      var t := Next(cfg, s, run[0]);
      OneStep(cfg, s, run[0]);
      IdInRange(s, run[0]);
      k := FindProbe(cfg, t, run[1..]);
      if k >= 0 {
        assert run[k + 1] == run[1..][k];
        assert forall m :: k + 1 < m < |run| ==> run[m] == run[1..][m - 1];
        k := k + 1;
      } else {
        assert forall m :: 1 <= m < |run| ==> run[m] == run[1..][m - 1];
        if s.breaker.mode != HalfOpen {
          k := 0;
          SilentUnlessTold(cfg, t, run[1..], run[0].id);
          assert StateAt(cfg, s, run, 1) == StateAt(cfg, t, run[1..], 0) == t;
        }
      }
    }
  }

  lemma {:induction false} NoneInFlight(calls: seq<Call>)
    ensures InFlight(calls) == 0 <==> forall i :: 0 <= i < |calls| ==> !Live(calls[i])
  {
    if calls != [] {
      NoneInFlight(calls[..|calls| - 1]);
    }
  }

  /** A breaker that ends HALF_OPEN owes it to one probe, and that very probe has told it nothing:
      the call that took it from OPEN to HALF_OPEN is silent, and so has everybody else been since.
      If no call is in flight, the probe has finished, and its own first answer went unrecorded (a
      4xx or an uncaught exception, on the upload route also a 5xx), or it was allowed no attempt. */
  lemma HalfOpenMeansSilentProbe(cfg: Config, s: System, run: seq<Action>) returns (k: nat)
    requires AllOnTrack(s) && Runnable(cfg, s, run)
    requires s.breaker.mode != HalfOpen && Exec(cfg, s, run).breaker.mode == HalfOpen
    ensures LastProbe(cfg, s, run, k)
    ensures var t := Exec(cfg, s, run);
            var id := run[k].id;
            && id < |t.calls| && Silent(t.calls[id])
            && (InFlight(t.calls) == 0 ==>
                  && t.calls[id].phase.Finished?
                  && (t.calls[id].wire == [] || Recorded(t.calls[id].route, t.calls[id].wire[0]) == []))
  {
    k := FindProbe(cfg, s, run);
    EveryCallTraces(cfg, s, run);
    var t := Exec(cfg, s, run);
    NoneInFlight(t.calls);
    assert OnTrack(t.calls[run[k].id]);
  }

  /** And then it is wedged: with the probe flag set and nobody left to report, no permission is
      ever granted again, whatever time passes, and nothing more reaches the wire. */
  lemma {:induction false} SilentProbeWedges(cfg: Config, s: System, run: seq<Action>)
    requires s.breaker.mode == HalfOpen && s.breaker.probing && InFlight(s.calls) == 0
    requires Runnable(cfg, s, run)
    ensures var t := Exec(cfg, s, run);
            && t.breaker.mode == HalfOpen && t.breaker.probing && InFlight(t.calls) == 0
            && WireLoad(run, Everyone) == 0 && Granted(cfg, s, run, Everyone) == 0
            && |t.calls| == |s.calls|
            && forall i :: 0 <= i < |s.calls| && t.calls[i] != s.calls[i] ==> t.calls[i].phase == Finished(CircuitOpen)
    decreases run
  {
    if run != [] {
      NoneInFlight(s.calls);
      var t := Next(cfg, s, run[0]);
      NoneInFlight(t.calls);
      SilentProbeWedges(cfg, t, run[1..]);
    }
  }

  /** Some continuation of the run, from the clock reading `now` on, ends the HALF_OPEN state. */
  ghost predicate CanLeaveHalfOpen(cfg: Config, s: System, now: real) {
    exists run :: Runnable(cfg, s, run) && Exec(cfg, s, run).breaker.mode != HalfOpen
                  && Timely(Events(cfg, s, run)) && NotBefore(Events(cfg, s, run), now)
  }

  lemma TellLeaves(cfg: Config, s: System, id: nat, now: real)
    requires s.breaker.mode == HalfOpen && Enabled(s, Tell(id, now))
    ensures CanLeaveHalfOpen(cfg, s, now)
  {
    var a := Tell(id, now);
    var run, t := [a], Next(cfg, s, a);
    assert run[1..] == [];
    assert Runnable(cfg, t, []);
    assert Exec(cfg, s, run) == t;
    assert Events(cfg, s, run) == EventOf(s, a);
  }

  lemma TwoActions(cfg: Config, s: System, a: Action, b: Action)
    requires Enabled(s, a) && Enabled(Next(cfg, s, a), b)
    ensures var t := Next(cfg, s, a);
            && Runnable(cfg, s, [a, b]) && Exec(cfg, s, [a, b]) == Next(cfg, t, b)
            && Events(cfg, s, [a, b]) == EventOf(s, a) + EventOf(t, b)
  {
    hide Enabled, Next, EventOf;
    var t := Next(cfg, s, a);
    var u := Next(cfg, t, b);
    assert [a, b][1..] == [b] && [b][1..] == [];
    assert Runnable(cfg, u, []) && Runnable(cfg, t, [b]);
    assert Exec(cfg, t, [b]) == u && Events(cfg, t, [b]) == EventOf(t, b) + [];
  }

  lemma FailedAttemptLeaves(cfg: Config, s: System, id: nat, now: real)
    requires s.breaker.mode == HalfOpen && id < |s.calls| && s.calls[id].phase.Sending?
    ensures CanLeaveHalfOpen(cfg, s, now)
  {
    hide Runnable, Exec, Events, DropStale;
    var a, b := Attempt(id, ConnectError), Tell(id, now);
    var t := Next(cfg, s, a);
    TwoActions(cfg, s, a, b);
    assert EventOf(s, a) + EventOf(t, b) == EventOf(t, b);
  }

  /** The wedge, exactly: HALF_OPEN can still be left if and only if a call is in flight, the probe
      or one admitted before the outage, since only such a call can still record. */
  lemma LeavesOnlyThroughACallInFlight(cfg: Config, s: System, now: real)
    requires AllOnTrack(s) && s.breaker.mode == HalfOpen && s.breaker.probing
    ensures CanLeaveHalfOpen(cfg, s, now) <==> InFlight(s.calls) > 0
  {
    NoneInFlight(s.calls);
    if InFlight(s.calls) > 0 {
      var id :| 0 <= id < |s.calls| && Live(s.calls[id]);
      assert OnTrack(s.calls[id]);
      if s.calls[id].phase.Received? {
        TellLeaves(cfg, s, id, now);
      } else {
        FailedAttemptLeaves(cfg, s, id, now);
      }
    } else {
      forall run | Runnable(cfg, s, run) ensures Exec(cfg, s, run).breaker.mode == HalfOpen {
        SilentProbeWedges(cfg, s, run);
      }
    }
  }

  /** One silent probe is enough: from any idle system whose breaker is OPEN and has cooled down, a
      single call whose first answer goes unrecorded leaves the breaker wedged. */
  lemma OneSilentProbeSuffices(cfg: Config, s: System, id: nat, at: real, o: Outcome)
    requires s.breaker.mode == Open && at - s.breaker.openedAt >= cfg.cooldown && InFlight(s.calls) == 0
    requires id < |s.calls| && s.calls[id].phase == Idle && Attempts(s.calls[id].route) >= 1
    requires Recorded(s.calls[id].route, o) == []
    ensures var run := [Permit(id, at), Attempt(id, o)];
            && Runnable(cfg, s, run)
            && var t := Exec(cfg, s, run);
               t.breaker.mode == HalfOpen && t.breaker.probing && InFlight(t.calls) == 0
  {
    var run := [Permit(id, at), Attempt(id, o)];
    var asked := Next(cfg, s, run[0]);
    var done := Next(cfg, asked, run[1]);
    assert run[1..] == [run[1]] && run[1..][1..] == [];
    assert Runnable(cfg, done, []) && Runnable(cfg, asked, run[1..]);
    assert Exec(cfg, asked, run[1..]) == done;
    NoneInFlight(s.calls);
    NoneInFlight(done.calls);
  }

  /** A freshly built client is a legal place to start every run of this module. */
  lemma StartIsLegal(s: System)
    requires Start(s)
    ensures AllOnTrack(s) && s.breaker.mode == Closed && InFlight(s.calls) == 0
  {
    NoneInFlight(s.calls);
  }
}
