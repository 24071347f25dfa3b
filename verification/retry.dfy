/** Exponential backoff with jitter. */
module Retry {

  datatype Schedule = Schedule(baseMs: real, factor: real, capMs: real, jitter: real)

  /** The defaults of `backoff_delays`. */
  const STANDARD := Schedule(100.0, 4.0, 1600.0, 0.25)

  predicate IsRetryableStatus(status: int) {
    500 <= status <= 599
  }

  function Min(x: real, y: real): real {
    if x < y then x else y
  }

  /** A product that a proof can hide when it only needs the facts of the lemmas below. */
  function Times(x: real, y: real): real {
    x * y
  }

  function Power(x: real, n: nat): real {
    if n == 0 then 1.0 else Times(x, Power(x, n - 1))
  }

  /** The delay in milliseconds before jitter, as the loop carries it from one round to the next. */
  function Nominal(s: Schedule, i: nat): real {
    if i == 0 then s.baseMs else Min(Times(Nominal(s, i - 1), s.factor), s.capMs)
  }

  /** The same delay as a formula: the geometric term, capped. */
  function Capped(s: Schedule, i: nat): real {
    Min(Times(s.baseMs, Power(s.factor, i)), s.capMs)
  }

  /** `max(0, uniform(nominal - spread, nominal + spread)) / 1000`, where `draw` in [0, 1] is
      the uniform generator's own draw. */
  function Jittered(nominal: real, jitter: real, draw: real): real {
    var spread := Times(nominal, jitter);
    var ms := nominal - spread + Times(2.0 * spread, draw);
    (if ms < 0.0 then 0.0 else ms) / 1000.0
  }

  /** The schedules the backoff is meant for. */
  predicate Sensible(s: Schedule) {
    0.0 <= s.baseMs <= s.capMs && 0.0 <= s.factor && 0.0 <= s.jitter <= 1.0
  }

  lemma TimesGrows(x: real, y: real, c: real)
    requires x <= y && 0.0 <= c
    ensures Times(x, c) <= Times(y, c) && Times(c, x) <= Times(c, y)
  {
    assert 0.0 <= (y - x) * c;
  }

  lemma TimesUnit(x: real)
    ensures Times(1.0, x) == x == Times(x, 1.0) && Times(0.0, x) == 0.0 == Times(x, 0.0)
  {
  }

  lemma TimesSplits(x: real, y: real, c: real)
    ensures Times(c, x + y) == Times(c, x) + Times(c, y) && Times(c, x - y) == Times(c, x) - Times(c, y)
  {
  }

  lemma PowerStep(b: real, x: real, n: nat)
    ensures Times(Times(b, Power(x, n)), x) == Times(b, Power(x, n + 1))
  {
    var p := Power(x, n);
    assert b * p * x == b * (x * p);
  }

  /** Once the cap has been applied, multiplying and capping again cannot tell. */
  lemma CapAbsorbs(v: real, cap: real, factor: real)
    requires 0.0 <= cap && 1.0 <= factor
    ensures Min(Times(Min(v, cap), factor), cap) == Min(Times(v, factor), cap)
  {
    if cap <= v {
      hide Times;
      TimesUnit(cap);
      TimesGrows(1.0, factor, cap);
      TimesGrows(cap, v, factor);
    }
  }

  /** With a factor below one the geometric term never leaves [0, base]. */
  lemma {:induction false} TermShrinks(s: Schedule, i: nat)
    requires 0.0 <= s.baseMs && 0.0 <= s.factor <= 1.0
    ensures 0.0 <= Power(s.factor, i) <= 1.0 && 0.0 <= Times(s.baseMs, Power(s.factor, i)) <= s.baseMs
  {
    hide Times;
    if i > 0 {
      TermShrinks(s, i - 1);
      TimesUnit(s.factor);
      TimesGrows(0.0, Power(s.factor, i - 1), s.factor);
      TimesGrows(Power(s.factor, i - 1), 1.0, s.factor);
    }
    TimesUnit(s.baseMs);
    TimesGrows(0.0, Power(s.factor, i), s.baseMs);
    TimesGrows(Power(s.factor, i), 1.0, s.baseMs);
  }

  lemma {:induction false} CappedGeometric(s: Schedule, i: nat)
    requires 0.0 <= s.baseMs <= s.capMs && 0.0 <= s.factor
    ensures Nominal(s, i) == Capped(s, i)
  {
    hide Times;
    if i == 0 {
      TimesUnit(s.baseMs);
    } else {
      CappedGeometric(s, i - 1);
      PowerStep(s.baseMs, s.factor, i - 1);
      if 1.0 <= s.factor {
        CapAbsorbs(Times(s.baseMs, Power(s.factor, i - 1)), s.capMs, s.factor);
      } else {
        TermShrinks(s, i - 1);
      }
    }
  }

  /** Closed form of the loop: the i-th nominal delay is the capped geometric term, for every i,
      exactly when the base does not exceed the cap. The loop never caps its first delay, so a
      base above the cap already breaks the formula at i = 0. */
  lemma ClosedForm(s: Schedule)
    requires 0.0 <= s.baseMs && 0.0 <= s.factor
    ensures s.baseMs <= s.capMs <==> forall i: nat :: Nominal(s, i) == Capped(s, i)
  {
    hide Times;
    if s.baseMs <= s.capMs {
      forall i: nat ensures Nominal(s, i) == Capped(s, i) {
        CappedGeometric(s, i);
      }
    } else {
      TimesUnit(s.baseMs);
      assert Nominal(s, 0) != Capped(s, 0);
    }
  }

  lemma TimesCommute(x: real, y: real)
    ensures Times(x, y) == Times(y, x)
  {
  }

  /** Nominal delays never leave [0, cap]. */
  lemma {:induction false} NominalWithinCap(s: Schedule, i: nat)
    requires Sensible(s)
    ensures 0.0 <= Nominal(s, i) <= s.capMs
  {
    hide Times;
    if i > 0 {
      NominalWithinCap(s, i - 1);
      TimesUnit(s.factor);
      TimesGrows(0.0, Nominal(s, i - 1), s.factor);
      TimesCommute(s.factor, Nominal(s, i - 1));
    }
  }

  /** With a factor of at least one they never shrink, and never fall below the base. */
  lemma {:induction false} NominalGrows(s: Schedule, i: nat, j: nat)
    requires Sensible(s) && 1.0 <= s.factor && i <= j
    ensures s.baseMs <= Nominal(s, i) <= Nominal(s, j) <= s.capMs
    decreases i + j
  {
    hide Times;
    if i < j {
      NominalGrows(s, i, j - 1);
      TimesUnit(Nominal(s, j - 1));
      TimesGrows(1.0, s.factor, Nominal(s, j - 1));
    } else if 0 < i {
      NominalGrows(s, i - 1, i - 1);
      TimesUnit(Nominal(s, i - 1));
      TimesGrows(1.0, s.factor, Nominal(s, i - 1));
    }
  }

  /** Jitter stays inside its band and never makes a delay negative, so the clamp at zero is idle. */
  lemma JitterBand(nominal: real, jitter: real, draw: real)
    requires 0.0 <= nominal && 0.0 <= jitter <= 1.0 && 0.0 <= draw <= 1.0
    ensures Times(nominal, 1.0 - jitter) <= 1000.0 * Jittered(nominal, jitter, draw) <= Times(nominal, 1.0 + jitter)
    ensures 0.0 <= Times(nominal, 1.0 - jitter)
  {
    hide Times;
    var spread := Times(nominal, jitter);
    TimesUnit(nominal);
    TimesUnit(2.0 * spread);
    TimesGrows(0.0, jitter, nominal);
    TimesGrows(jitter, 1.0, nominal);
    TimesGrows(0.0, draw, 2.0 * spread);
    TimesGrows(draw, 1.0, 2.0 * spread);
    TimesSplits(1.0, jitter, nominal);
  }

  function Total(ds: seq<real>): real {
    if ds == [] then 0.0 else Total(ds[..|ds| - 1]) + ds[|ds| - 1]
  }

  lemma AddOne(n: nat, x: real)
    ensures Times((n + 1) as real, x) == Times(n as real, x) + x
  {
    assert (n + 1) as real == n as real + 1.0;
    assert (n as real + 1.0) * x == n as real * x + x;
  }

  lemma {:induction false} TotalBound(ds: seq<real>, most: real)
    requires forall i :: 0 <= i < |ds| ==> ds[i] <= most
    ensures Total(ds) <= Times(|ds| as real, most)
  {
    hide Times;
    if ds == [] {
      TimesUnit(most);
    } else {
      TotalBound(ds[..|ds| - 1], most);
      AddOne(|ds| - 1, most);
    }
  }

  ghost predicate FairDraws(draws: seq<real>) {
    forall i :: 0 <= i < |draws| ==> 0.0 <= draws[i] <= 1.0
  }

  function Rounds(maxAttempts: int): nat {
    if maxAttempts < 1 then 0 else maxAttempts - 1
  }

  /** Every delay is the jittered nominal one, and there is one delay fewer than attempts. */
  ghost predicate IsBackoff(s: Schedule, maxAttempts: int, draws: seq<real>, delays: seq<real>) {
    && |delays| == Rounds(maxAttempts) <= |draws|
    && forall i :: 0 <= i < |delays| ==> delays[i] == Jittered(Nominal(s, i), s.jitter, draws[i])
  }

  method BackoffDelays(maxAttempts: int, s: Schedule, draws: seq<real>) returns (delays: seq<real>)
    requires Rounds(maxAttempts) <= |draws|
    ensures IsBackoff(s, maxAttempts, draws, delays)
    ensures |delays| == if maxAttempts < 1 then 0 else maxAttempts - 1
  {
    hide Times;
    delays := [];
    var val := s.baseMs;
    var round := 0;
    while round < maxAttempts - 1
      invariant |delays| == round <= Rounds(maxAttempts)
      invariant val == Nominal(s, round)
      invariant forall i :: 0 <= i < round ==> delays[i] == Jittered(Nominal(s, i), s.jitter, draws[i])
    {
      var spread := Times(val, s.jitter);
      var low, high := val - spread, val + spread;
      assert high - low == 2.0 * spread;
      var ms := low + Times(high - low, draws[round]);
      delays := delays + [(if ms < 0.0 then 0.0 else ms) / 1000.0];
      val := Min(Times(val, s.factor), s.capMs);
      round := round + 1;
    }
  }

  /** Whatever is drawn, each delay lies in the jitter band around its closed form, and any prefix
      of the schedule sleeps at most cap * (1 + jitter) milliseconds a round. */
  lemma SleepBound(s: Schedule, maxAttempts: int, draws: seq<real>, delays: seq<real>, used: nat)
    requires Sensible(s) && FairDraws(draws) && IsBackoff(s, maxAttempts, draws, delays)
    requires used <= |delays|
    ensures forall i :: 0 <= i < |delays| ==>
              Times(Capped(s, i), 1.0 - s.jitter) <= 1000.0 * delays[i] <= Times(Capped(s, i), 1.0 + s.jitter)
    ensures Total(delays[..used]) <= Times(used as real, Times(s.capMs, 1.0 + s.jitter) / 1000.0)
  {
    hide Times;
    forall i | 0 <= i < |delays|
      ensures Times(Capped(s, i), 1.0 - s.jitter) <= 1000.0 * delays[i] <= Times(Capped(s, i), 1.0 + s.jitter)
      ensures 1000.0 * delays[i] <= Times(s.capMs, 1.0 + s.jitter)
    {
      NominalWithinCap(s, i);
      JitterBand(Nominal(s, i), s.jitter, draws[i]);
      TimesGrows(Nominal(s, i), s.capMs, 1.0 + s.jitter);
      CappedGeometric(s, i);
    }
    TotalBound(delays[..used], Times(s.capMs, 1.0 + s.jitter) / 1000.0);
  }

  lemma {:induction false} StandardNominal(i: nat)
    ensures Nominal(STANDARD, i) == if i == 0 then 100.0 else if i == 1 then 400.0 else 1600.0
  {
    if i > 0 {
      StandardNominal(i - 1);
    }
  }

  /** The default schedule in seconds: about 0.1, then about 0.4, then about 1.6 for ever, each a
      quarter up or down. */
  lemma StandardDelays(maxAttempts: int, draws: seq<real>, delays: seq<real>)
    requires FairDraws(draws) && IsBackoff(STANDARD, maxAttempts, draws, delays)
    ensures |delays| == if maxAttempts < 1 then 0 else maxAttempts - 1
    ensures forall i :: 0 <= i < |delays| ==>
              if i == 0 then 0.075 <= delays[i] <= 0.125
              else if i == 1 then 0.3 <= delays[i] <= 0.5
              else 1.2 <= delays[i] <= 2.0
  {
    forall i | 0 <= i < |delays|
      ensures if i == 0 then 0.075 <= delays[i] <= 0.125
              else if i == 1 then 0.3 <= delays[i] <= 0.5
              else 1.2 <= delays[i] <= 2.0
    {
      StandardNominal(i);
      JitterBand(Nominal(STANDARD, i), 0.25, draws[i]);
    }
  }
}
