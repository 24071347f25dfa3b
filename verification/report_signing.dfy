/** The life cycle of one report and the signature ledger, in one run.

    A run consists of requests on the nonce routes and of other events of the report. The stage that
    the report routes see is the stage of the report, possibly a stale copy; and whether a sign
    request reaches the service is decided by the nonce store, not assumed. */
module ReportSigning {
  import opened StaleCopies
  import opened JointRuns
  import Ledger = SignatureLedger
  import Life = ReportLifecycle
  import ReportWorkflow

  predicate Signs(act: Act<Life.Event>, reportId: string) {
    act.Request? && act.step.SignReport? && act.step.reportId == reportId
  }

  predicate Views(act: Act<Life.Event>, reportId: string) {
    act.Request? && act.step.ViewReport? && act.step.reportId == reportId
  }

  /** An act as an event of the report: a sign request is authorised if its handler gets as far as
      calling the service. */
  function EventOf(reportId: string, before: seq<Act<Life.Event>>, act: Act<Life.Event>): seq<Life.Event> {
    if act.Other? then [act.event]
    else if Signs(act, reportId) then [Life.Sign(act.step.user, act.seen, Answer(before, act.step) == Ledger.Called)]
    else []
  }

  function Events(reportId: string, acts: seq<Act<Life.Event>>): seq<Life.Event> {
    if acts == [] then []
    else
      var n := |acts| - 1;
      Events(reportId, acts[..n]) + EventOf(reportId, acts[..n], acts[n])
  }

  /** The stage of the copy that a request on the report works with. */
  function SeenStage(reportId: string, init: Life.Report, before: seq<Act<Life.Event>>, seen: nat): string {
    var events := Events(reportId, before);
    Life.StageAt(init, events, Cut(seen, |events|))
  }

  predicate HonestAct(reportId: string, init: Life.Report, before: seq<Act<Life.Event>>, act: Act<Life.Event>) {
    && (act.Other? ==> !act.event.Sign?)
    && (Signs(act, reportId) || Views(act, reportId) ==> act.step.stage == SeenStage(reportId, init, before, act.seen))
  }

  /** Report routes see stages of the report, and only requests sign. */
  ghost predicate Honest(reportId: string, init: Life.Report, acts: seq<Act<Life.Event>>) {
    forall n :: 0 <= n < |acts| ==> HonestAct(reportId, init, acts[..n], acts[n])
  }

  // ---------------------------------------------------------------------------
  // Where events come from
  // ---------------------------------------------------------------------------

  lemma {:induction false} EventOrigin(reportId: string, acts: seq<Act<Life.Event>>, j: nat) returns (n: nat)
    requires j < |Events(reportId, acts)|
    ensures n < |acts| && j == |Events(reportId, acts[..n])|
    ensures EventOf(reportId, acts[..n], acts[n]) == [Events(reportId, acts)[j]]
  {
    var m := |acts| - 1;
    if j < |Events(reportId, acts[..m])| {
      n := EventOrigin(reportId, acts[..m], j);
      assert acts[..m][..n] == acts[..n];
    } else {
      n := m;
    }
  }

  // ---------------------------------------------------------------------------
  // Signed reports have a ledger entry
  // ---------------------------------------------------------------------------

  /** The n-th act is the sign request that took the report from `approved` to `signed`, and the
      ledger counts it as a protected call. */
  ghost predicate SignedBy(reportId: string, init: Life.Report, acts: seq<Act<Life.Event>>, n: nat) {
    && n < |acts| && Signs(acts[n], reportId) && Protected(acts, n)
    && Life.SignedAt(init, Events(reportId, acts), |Events(reportId, acts[..n])|)
  }

  /** The m-th act is the page view that the n-th act goes back to, and it showed this report at a
      moment when it was `approved`. */
  ghost predicate ViewedBefore(reportId: string, init: Life.Report, acts: seq<Act<Life.Event>>, m: nat, n: nat)
    requires Protected(acts, n)
  {
    ComesFrom(acts, m, n) && Views(acts[m], reportId) && SeenStage(reportId, init, acts[..m], acts[m].seen) == "approved"
  }

  lemma SourceIsAView(reportId: string, init: Life.Report, acts: seq<Act<Life.Event>>, n: nat) returns (m: nat)
    requires Honest(reportId, init, acts)
    requires Protected(acts, n) && Signs(acts[n], reportId)
    ensures ViewedBefore(reportId, init, acts, m, n)
  {
    hide Ledger.ProtectedCall, Ledger.Source, Events, Steps;
    m := EveryProtectedActHasItsView(acts, n);
    assert HonestAct(reportId, init, acts[..m], acts[m]);
  }

  /** A report at `signed` or `delivered` was signed by one particular request: while the report was
      `approved`, on the strength of a nonce that the same user had been given, at most 60 seconds
      before, by a view of this very report that showed it `approved`. */
  lemma SignedReportsWereViewed(reportId: string, init: Life.Report, acts: seq<Act<Life.Event>>) returns (m: nat, n: nat)
    requires init.stage == "draft" && Honest(reportId, init, acts)
    requires ReportWorkflow.IsImmutableStage(Life.After(init, Events(reportId, acts)).stage)
    ensures SignedBy(reportId, init, acts, n) && ViewedBefore(reportId, init, acts, m, n)
  {
    hide Events, Steps, Answer, Protected, Life.After;
    var events := Events(reportId, acts);
    Life.Provenance(init, events);
    var i, j :| 0 <= i < j < |events| && Life.ApprovedBy(init, events, i) && Life.SignedAt(init, events, j);
    n := EventOrigin(reportId, acts, j);
    assert HonestAct(reportId, init, acts[..n], acts[n]);
    assert EventOf(reportId, acts[..n], acts[n])[0] == events[j];
    CalledIsProtected(acts, n);
    m := SourceIsAView(reportId, init, acts, n);
  }
}
