/** One call of the API client: permission, retry loop and what each attempt tells the breaker.

    The HTTP transport is not modelled: each attempt's outcome, the jitter draws and the clock
    readings are inputs, so every statement below is about every way the network can behave. */
module RequestLoop {
  import opened CircuitBreakers
  import Retry

  /** What one wire attempt comes to. `redirect` is the transport's own `is_redirect` flag. */
  datatype Outcome =
    | ConnectError | ReadTimeout | PoolTimeout | RemoteProtocolError
    | OtherException
    | Response(status: int, redirect: bool)

  /** `Request` is the retrying loop, `Upload` the one-attempt identity-proof upload. */
  datatype Route = Request(attemptsMax: int) | Upload

  datatype Verdict =
    | Returned(status: int)
    | CircuitOpen
    | ConnectionError
    | UnexpectedRedirect
    | HttpError(status: int)
    | Propagated
    | Exhausted

  /** What one attempt reports to the breaker. */
  datatype Report = Failure | Success

  /** A GET may use all attempts, anything else at most two of them. */
  function AttemptsMax(isGet: bool, maxAttempts: int): (n: int)
    ensures isGet ==> n == maxAttempts
    ensures !isGet ==> n <= maxAttempts && n <= 2 && (n == maxAttempts || n == 2)
  {
    if isGet then maxAttempts else if maxAttempts < 2 then maxAttempts else 2
  }

  function Attempts(route: Route): int {
    match route
    case Request(n) => n
    case Upload => 1
  }

  /** The exceptions each route catches; the upload does not catch a protocol error. */
  predicate Caught(route: Route, o: Outcome) {
    o.ConnectError? || o.ReadTimeout? || o.PoolTimeout? || (o.RemoteProtocolError? && route.Request?)
  }

  /** Outcomes after which the loop would try again if it had an attempt left. */
  predicate Retryable(route: Route, o: Outcome) {
    && route.Request?
    && (Caught(route, o) || (o.Response? && !o.redirect && Retry.IsRetryableStatus(o.status)))
  }

  predicate Delivered(o: Outcome) {
    o.Response? && !o.redirect && o.status < 400
  }

  /** What an attempt records, if anything: 4xx answers and exceptions outside the caught list
      record nothing, and on the upload route neither does a 5xx. */
  function Recorded(route: Route, o: Outcome): seq<Report> {
    if Delivered(o) then [Success]
    else if Caught(route, o) || Retryable(route, o) || (o.Response? && o.redirect) then [Failure]
    else []
  }

  /** How a run ends when its last attempt has this outcome. */
  function Ending(route: Route, o: Outcome): Verdict {
    if Caught(route, o) then ConnectionError
    else if !o.Response? then Propagated
    else if o.redirect then UnexpectedRedirect
    else if o.status >= 400 then HttpError(o.status)
    else Returned(o.status)
  }

  function Failures(n: nat): seq<Report> {
    seq(n, _ => Failure)
  }

  /** The complete trace of an admitted run: `wire` are the outcomes of its attempts. Every attempt
      but the last was retryable, the last is either terminal or the last allowed, each retried
      attempt recorded one failure, and the last one decides both the verdict and what is recorded
      after those. Only a run allowed no attempt at all is `Exhausted`. */
  ghost predicate IsTrace(route: Route, wire: seq<Outcome>, verdict: Verdict, reports: seq<Report>) {
    var k := |wire|;
    if Attempts(route) < 1 then
      k == 0 && verdict == Exhausted && reports == []
    else
      && 1 <= k <= Attempts(route)
      && (forall i :: 0 <= i < k - 1 ==> Retryable(route, wire[i]))
      && (k < Attempts(route) ==> !Retryable(route, wire[k - 1]))
      && verdict == Ending(route, wire[k - 1])
      && reports == Failures(k - 1) + Recorded(route, wire[k - 1])
  }

  /** The network alone decides the trace: two runs that meet the same outcomes, attempt by
      attempt, make the same number of attempts, end alike and tell the breaker the same. */
  lemma TraceUnique(route: Route, w1: seq<Outcome>, v1: Verdict, r1: seq<Report>,
                    w2: seq<Outcome>, v2: Verdict, r2: seq<Report>)
    requires IsTrace(route, w1, v1, r1) && IsTrace(route, w2, v2, r2)
    requires forall i :: 0 <= i < |w1| && i < |w2| ==> w1[i] == w2[i]
    ensures w1 == w2 && v1 == v2 && r1 == r2
  {
    assert 0 < |w1| <= |w2| ==> w1[|w1| - 1] == w2[|w1| - 1];
    assert 0 < |w2| <= |w1| ==> w1[|w2| - 1] == w2[|w2| - 1];
  }

  function Count(r: Report, rs: seq<Report>): nat {
    if rs == [] then 0 else Count(r, rs[..|rs| - 1]) + if rs[|rs| - 1] == r then 1 else 0
  }

  lemma {:induction false} CountFailures(n: nat)
    ensures Count(Failure, Failures(n)) == n && Count(Success, Failures(n)) == 0
  {
    if n > 0 {
      assert Failures(n)[..n - 1] == Failures(n - 1);
      CountFailures(n - 1);
    }
  }

  lemma CountNone()
    ensures Count(Success, []) == 0 == Count(Failure, [])
  {
  }

  lemma CountLast(r: Report, rs: seq<Report>, told: seq<Report>)
    requires |told| <= 1
    ensures Count(r, rs + told) == Count(r, rs) + if told == [r] then 1 else 0
  {
    if told == [] {
      assert rs + told == rs;
    } else {
      assert (rs + told)[..|rs|] == rs;
    }
  }

  /** The outcome table of a run of k attempts: it returns if and only if attempt k is a
      non-redirect below 400; it then records k-1 failures and one success; after a redirect, a
      caught network error or (in the retrying loop) a 5xx it records k failures; after anything
      else, k-1 failures; and `Exhausted` needs a run allowed no attempt. */
  lemma TraceTable(route: Route, wire: seq<Outcome>, verdict: Verdict, reports: seq<Report>)
    requires IsTrace(route, wire, verdict, reports)
    ensures verdict == Exhausted <==> Attempts(route) < 1
    ensures verdict.Returned? <==> wire != [] && Delivered(wire[|wire| - 1])
    ensures Count(Success, reports) == if verdict.Returned? then 1 else 0
    ensures wire != [] ==>
              var last := wire[|wire| - 1];
              Count(Failure, reports) ==
              if Caught(route, last) || Retryable(route, last) || (last.Response? && last.redirect)
              then |wire| else |wire| - 1
  {
    hide Failures, Count;
    if wire != [] {
      var told := Recorded(route, wire[|wire| - 1]);
      CountFailures(|wire| - 1);
      CountLast(Failure, Failures(|wire| - 1), told);
      CountLast(Success, Failures(|wire| - 1), told);
    } else {
      CountNone();
    }
  }

  /** The retry policy in numbers. Only the four network exceptions and answers from 500 to 599 are
      tried again, and they are until the attempts run out; each of them, and a redirect, counts as
      one failure; an answer below 400 is the one success; an answer from 400 to 499, one above 599
      and any other exception end the call at once and are not recorded. */
  lemma PolicyInNumbers(n: int, wire: seq<Outcome>, verdict: Verdict, reports: seq<Report>)
    requires n >= 1 && IsTrace(Request(n), wire, verdict, reports)
    ensures 1 <= |wire| <= n
    ensures forall i :: 0 <= i < |wire| - 1 ==>
              || wire[i] in {ConnectError, ReadTimeout, PoolTimeout, RemoteProtocolError}
              || (wire[i].Response? && !wire[i].redirect && 500 <= wire[i].status <= 599)
    ensures |wire| < n ==>
              match wire[|wire| - 1]
              case OtherException => true
              case Response(status, redirect) => redirect || status < 500 || 599 < status
              case _ => false
    ensures var earlier := |wire| - 1;
            var failures, successes := Count(Failure, reports), Count(Success, reports);
            match wire[|wire| - 1]
            case OtherException => verdict == Propagated && failures == earlier && successes == 0
            case Response(status, redirect) =>
              if redirect then verdict == UnexpectedRedirect && failures == earlier + 1 && successes == 0
              else if status < 400 then verdict == Returned(status) && failures == earlier && successes == 1
              else if 500 <= status <= 599 then verdict == HttpError(status) && failures == earlier + 1 && successes == 0
              else verdict == HttpError(status) && failures == earlier && successes == 0
            case _ => verdict == ConnectionError && failures == earlier + 1 && successes == 0
  {
    hide Failures, Count;
    TraceTable(Request(n), wire, verdict, reports);
  }

  /** The upload in numbers: one attempt; three network exceptions and a redirect count as a failure,
      an answer below 400 as a success, and nothing else is recorded, an answer from 500 up neither. */
  lemma UploadInNumbers(wire: seq<Outcome>, verdict: Verdict, reports: seq<Report>)
    requires IsTrace(Upload, wire, verdict, reports)
    ensures |wire| == 1
    ensures match wire[0]
            case OtherException => verdict == Propagated && reports == []
            case RemoteProtocolError => verdict == Propagated && reports == []
            case Response(status, redirect) =>
              if redirect then verdict == UnexpectedRedirect && reports == [Failure]
              else if status < 400 then verdict == Returned(status) && reports == [Success]
              else verdict == HttpError(status) && reports == []
            case _ => verdict == ConnectionError && reports == [Failure]
  {
    assert Failures(0) == [];
  }

  // ---------------------------------------------------------------------------
  // The breaker's view of a run
  // ---------------------------------------------------------------------------

  function Stamp(r: Report, at: real): Event {
    match r
    case Failure => Fail(at)
    case Success => Succeed(at)
  }

  function Stamped(rs: seq<Report>, clock: seq<real>): seq<Event>
    requires |rs| <= |clock|
  {
    seq(|rs|, i requires 0 <= i < |rs| => Stamp(rs[i], clock[i]))
  }

  lemma {:induction false} FailuresKeepOpen(cfg: Config, b: Breaker, es: seq<Event>)
    requires b.mode == Open && forall i :: 0 <= i < |es| ==> es[i].Fail?
    ensures From(cfg, b, es).mode == Open
  {
    if es != [] {
      FailuresKeepOpen(cfg, b, es[..|es| - 1]);
    }
  }

  lemma {:induction false} FailuresEndProbe(cfg: Config, b: Breaker, es: seq<Event>)
    requires b.mode == HalfOpen && es != [] && forall i :: 0 <= i < |es| ==> es[i].Fail?
    ensures From(cfg, b, es).mode == Open
  {
    if |es| == 1 {
      assert From(cfg, b, es[..0]) == b;
    } else {
      FailuresEndProbe(cfg, b, es[..|es| - 1]);
    }
  }

  /** What a probe does to a HALF_OPEN breaker when nobody else records meanwhile: a returned
      response closes it, any recorded failure reopens it, and it stays HALF_OPEN, with its probe
      flag set for good, exactly when the run recorded nothing. That happens if and only if
      the very first attempt met an unrecorded outcome (or no attempt was allowed). */
  lemma ProbeVerdict(cfg: Config, b: Breaker, route: Route, wire: seq<Outcome>, verdict: Verdict,
                     reports: seq<Report>, clock: seq<real>)
    requires b.mode == HalfOpen && b.probing
    requires IsTrace(route, wire, verdict, reports) && |reports| <= |clock|
    ensures var c := From(cfg, b, Stamped(reports, clock));
            && (c.mode == Closed <==> verdict.Returned?)
            && (c.mode == HalfOpen <==> wire == [] || (Recorded(route, wire[0]) == []))
            && (c.mode == HalfOpen ==> c == b)
  {
    var es := Stamped(reports, clock);
    if wire == [] {
      assert es == [];
    } else {
      var k := |wire|;
      var last := Recorded(route, wire[k - 1]);
      if k > 1 {
        assert Retryable(route, wire[0]) && Recorded(route, wire[0]) == [Failure];
      }
      if verdict.Returned? {
        assert es[|es| - 1].Succeed?;
      } else if es != [] {
        assert last == [] ==> k > 1;
        FailuresEndProbe(cfg, b, es);
      }
    }
  }

  // ---------------------------------------------------------------------------
  // The client
  // ---------------------------------------------------------------------------

  lemma NothingStamped(clock: seq<real>)
    ensures Stamped([], clock) == [] && Failures(0) == []
  {
  }

  lemma StampedFirst(clock: seq<real>)
    requires clock != []
    ensures Stamped([Failure], clock) == [Fail(clock[0])] && Stamped([Success], clock) == [Succeed(clock[0])]
  {
  }

  /** Between two attempts: every outcome so far was retryable and recorded one failure, and each
      attempt was followed by its delay. */
  ghost predicate MidRun(route: Route, network: seq<Outcome>, delays: seq<real>,
                         wire: seq<Outcome>, reports: seq<Report>, slept: seq<real>) {
    && wire <= network && slept <= delays && |slept| == |wire|
    && (forall i :: 0 <= i < |wire| ==> Retryable(route, wire[i]))
    && reports == Failures(|wire|)
  }

  lemma BeforeFirst(route: Route, network: seq<Outcome>, delays: seq<real>)
    ensures MidRun(route, network, delays, [], [], [])
  {
  }

  /** One more attempt either leaves the run between two attempts again or completes its trace. */
  lemma OneAttempt(route: Route, network: seq<Outcome>, delays: seq<real>,
                   wire: seq<Outcome>, reports: seq<Report>, slept: seq<real>)
    requires MidRun(route, network, delays, wire, reports, slept)
    requires |wire| < Attempts(route) <= |network| && |delays| == Attempts(route) - 1
    ensures var k := |wire|;
            var o := network[k];
            && |Recorded(route, o)| <= 1 && slept == delays[..k] && wire + [o] <= network
            && (Retryable(route, o) ==> |Recorded(route, o)| == 1)
            && (if Retryable(route, o) && k + 1 < Attempts(route)
                then MidRun(route, network, delays, wire + [o], reports + Recorded(route, o), slept + [delays[k]])
                     && slept + [delays[k]] == delays[..k + 1]
                else IsTrace(route, wire + [o], Ending(route, o), reports + Recorded(route, o)))
  {
    var k := |wire|;
    var o := network[k];
    assert Failures(k + 1) == Failures(k) + [Failure];
    assert wire + [o] == network[..k + 1];
    assert forall i :: 0 <= i < k ==> (wire + [o])[i] == wire[i];
  }

  lemma NoSleep()
    ensures Retry.Total([]) == 0.0
  {
  }

  lemma NoAttempt(route: Route)
    ensures Attempts(route) < 1 ==> IsTrace(route, [], Exhausted, [])
  {
  }

  lemma StampedGrows(before: seq<Event>, rs: seq<Report>, told: seq<Report>, clock: seq<real>)
    requires |rs| + 1 < |clock| && |told| <= 1
    ensures before + Stamped(rs + told, clock[1..])
         == before + Stamped(rs, clock[1..]) + Stamped(told, [clock[|rs| + 1]])
  {
    assert Stamped(rs + told, clock[1..]) == Stamped(rs, clock[1..]) + Stamped(told, [clock[|rs| + 1]]);
  }

  lemma BackoffLength(attemptsMax: int, draws: seq<real>, delays: seq<real>)
    requires Retry.IsBackoff(Retry.STANDARD, attemptsMax, draws, delays)
    ensures |delays| == Retry.Rounds(attemptsMax)
  {
  }

  lemma SleptWithin(attemptsMax: int, draws: seq<real>, delays: seq<real>, used: nat)
    requires Retry.FairDraws(draws) && Retry.IsBackoff(Retry.STANDARD, attemptsMax, draws, delays)
    requires used <= |delays|
    ensures Retry.Total(delays[..used]) <= 2.0 * used as real
  {
    Retry.SleepBound(Retry.STANDARD, attemptsMax, draws, delays, used);
  }

  class ComplianceClient {
    const cb: CircuitBreaker

    constructor (cb: CircuitBreaker)
      ensures this.cb == cb
    {
      this.cb := cb;
    }

    ghost predicate Ready(clock: seq<real>, attempts: int)
      reads cb
    {
      && cb.Valid()
      && |clock| >= 1 + (if attempts < 0 then 0 else attempts)
      && (forall i, j :: 0 <= i < j < |clock| ==> clock[i] <= clock[j])
      && cb.NowOk(clock[0])
    }

    /** Reads one attempt's outcome: what to tell the breaker, how the run would end on it, and
        whether it is worth another attempt. The source's test for 502, 503 and 504 among the
        statuses from 400 up is dead, since those are retryable, and has no counterpart here. */
    method Settle(attemptsMax: int, outcome: Outcome, now: real) returns (again: bool, ending: Verdict, told: seq<Report>)
      requires cb.Valid() && cb.NowOk(now)
      modifies cb
      ensures cb.Valid() && cb.NowOk(now)
      ensures again <==> Retryable(Request(attemptsMax), outcome)
      ensures ending == Ending(Request(attemptsMax), outcome)
      ensures told == Recorded(Request(attemptsMax), outcome)
      ensures cb.history == old(cb.history) + Stamped(told, [now])
    {
      hide After, Streak, Stamped;
      NothingStamped([now]);
      StampedFirst([now]);
      if outcome.ConnectError? || outcome.ReadTimeout? || outcome.PoolTimeout? || outcome.RemoteProtocolError? {
        cb.RecordFailure(now);
        return true, ConnectionError, [Failure];
      }
      if !outcome.Response? {
        return false, Propagated, [];
      }
      if outcome.redirect {
        cb.RecordFailure(now);
        return false, UnexpectedRedirect, [Failure];
      }
      if Retry.IsRetryableStatus(outcome.status) {
        cb.RecordFailure(now);
        return true, HttpError(outcome.status), [Failure];
      }
      if outcome.status >= 400 {
        return false, HttpError(outcome.status), [];
      }
      cb.RecordSuccess(now);
      return false, Returned(outcome.status), [Success];
    }

    /** Runs one request to its end, with no other call on the breaker meanwhile. `network` are the
        outcomes the wire would give to successive attempts, `clock` the readings of the breaker's
        calls, `draws` the jitter. A refused run touches nothing; an admitted one asks the breaker
        once, consumes a prefix of `network` that is a complete trace, tells the breaker exactly
        that trace's reports, and sleeps at most two seconds before each further attempt. */
    method Send(isGet: bool, maxAttempts: int, network: seq<Outcome>, clock: seq<real>, draws: seq<real>)
      returns (verdict: Verdict, wire: seq<Outcome>, reports: seq<Report>, slept: seq<real>)
      requires Ready(clock, AttemptsMax(isGet, maxAttempts))
      requires |network| >= AttemptsMax(isGet, maxAttempts)
      requires Retry.FairDraws(draws) && |draws| >= Retry.Rounds(AttemptsMax(isGet, maxAttempts))
      modifies cb
      ensures cb.Valid() && wire <= network
      ensures if Admits(cb.cfg, old(cb.View()), clock[0])
              then IsTrace(Request(AttemptsMax(isGet, maxAttempts)), wire, verdict, reports)
              else verdict == CircuitOpen && wire == [] && reports == []
      ensures |slept| == (if wire == [] then 0 else |wire| - 1) && Retry.Total(slept) <= 2.0 * |slept| as real
      ensures forall i :: 0 <= i < |slept| ==>
                if i == 0 then 0.075 <= slept[i] <= 0.125
                else if i == 1 then 0.3 <= slept[i] <= 0.5
                else 1.2 <= slept[i] <= 2.0
      ensures |reports| <= |clock[1..]|
      ensures cb.history == old(cb.history) + [Ask(clock[0])] + Stamped(reports, clock[1..])
    {
      hide After, Streak, Stamped, IsTrace, MidRun, Recorded, Ending, Retryable, Retry.IsBackoff, Retry.Total, Admits;
      wire, reports, slept := [], [], [];
      NothingStamped(clock[1..]);
      var attemptsMax := if isGet then maxAttempts else if maxAttempts < 2 then maxAttempts else 2;
      ghost var route := Request(attemptsMax);
      var admitted := cb.CanRequest(clock[0]);
      ghost var asked := cb.history;
      NoSleep();
      if !admitted {
        return CircuitOpen, wire, reports, slept;
      }
      var delays := Retry.BackoffDelays(attemptsMax, Retry.STANDARD, draws);
      BackoffLength(attemptsMax, draws, delays);
      Retry.StandardDelays(attemptsMax, draws, delays);
      BeforeFirst(route, network, delays);
      var attempt := 0;
      while attempt < attemptsMax
        invariant 0 <= attempt == |wire| == |reports| == |slept| && (attempt == 0 || attempt < attemptsMax)
        invariant MidRun(route, network, delays, wire, reports, slept)
        invariant slept <= delays
        invariant wire <= network && Retry.Total(slept) <= 2.0 * attempt as real
        invariant cb.Valid() && cb.NowOk(clock[attempt])
        invariant cb.history == asked + Stamped(reports, clock[1..])
      {
        var outcome := network[attempt];
        OneAttempt(route, network, delays, wire, reports, slept);
        SleptWithin(attemptsMax, draws, delays, attempt);
        StampedGrows(asked, reports, Recorded(route, outcome), clock);
        var again, ending, told := Settle(attemptsMax, outcome, clock[attempt + 1]);
        wire := wire + [outcome];
        reports := reports + told;
        if again && attempt + 1 < attemptsMax {
          SleptWithin(attemptsMax, draws, delays, attempt + 1);
          slept := slept + [delays[attempt]];
          attempt := attempt + 1;
          continue;
        }
        return ending, wire, reports, slept;
      }
      NoAttempt(route);
      verdict := Exhausted;
    }

    /** The identity-proof upload: one attempt, a shorter list of caught exceptions, and no report
        to the breaker for any status from 400 up. */
    method UploadIdentityProof(outcome: Outcome, clock: seq<real>)
      returns (verdict: Verdict, wire: seq<Outcome>, reports: seq<Report>)
      requires Ready(clock, 1)
      modifies cb
      ensures cb.Valid() && wire <= [outcome]
      ensures if Admits(cb.cfg, old(cb.View()), clock[0])
              then IsTrace(Upload, wire, verdict, reports)
              else verdict == CircuitOpen && wire == [] && reports == []
      ensures |reports| <= |clock[1..]|
      ensures cb.history == old(cb.history) + [Ask(clock[0])] + Stamped(reports, clock[1..])
    {
      hide After, Streak, Stamped;
      NothingStamped(clock[1..]);
      StampedFirst(clock[1..]);
      wire, reports := [], [];
      var admitted := cb.CanRequest(clock[0]);
      if !admitted {
        return CircuitOpen, wire, reports;
      }
      wire := [outcome];
      if Caught(Upload, outcome) {
        cb.RecordFailure(clock[1]);
        return ConnectionError, wire, [Failure];
      }
      if !outcome.Response? {
        return Propagated, wire, [];
      }
      if outcome.redirect {
        cb.RecordFailure(clock[1]);
        return UnexpectedRedirect, wire, [Failure];
      }
      if outcome.status >= 400 {
        return HttpError(outcome.status), wire, [];
      }
      cb.RecordSuccess(clock[1]);
      return Returned(outcome.status), wire, [Success];
    }
  }
}
