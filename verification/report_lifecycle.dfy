/** The stage table of regulatory reports. */
module ReportWorkflow {

  function NextStages(stage: string): set<string> {
    if stage == "draft" then {"review"}
    else if stage == "review" then {"approved", "draft"}
    else if stage == "approved" then {"signed"}
    else if stage == "signed" then {"delivered"}
    else {}
  }

  predicate IsValidTransition(from: string, to: string) {
    to in NextStages(from)
  }

  predicate CanSign(stage: string) {
    stage == "approved"
  }

  predicate CanDeliver(stage: string) {
    stage == "signed"
  }

  predicate IsImmutableStage(stage: string) {
    stage in {"signed", "delivered"}
  }
}

/** One report, the portal's route handlers over it, and the service that stores it.

    A handler first fetches the report and checks what it sees; its call reaches the service only
    later, after any number of other requests. `seen` says how long a prefix of the run the fetched
    copy reflects. The service checks the same stage table again on the report as it is by then. */
module ReportLifecycle {
  import opened Principals
  import opened StaleCopies
  import opened ReportWorkflow

  datatype Report = Report(stage: string, createdBy: string)

  datatype Event =
    | Submit(user: User, seen: nat)
    | Approve(user: User, seen: nat)
    | Sign(user: User, seen: nat, authorised: bool)  // authorised: fresh MFA and an accepted nonce
    | Deliver(user: User, seen: nat, channel: string)
    | SendBack(seen: nat)                            // review to draft; no portal route asks for it

  function Move(r: Report, to: string): Report {
    if IsValidTransition(r.stage, to) then r.(stage := to) else r
  }

  /** The portal's own checks on the copy it fetched. */
  predicate PortalAllows(copy: Report, e: Event) {
    match e
    case Submit(user, _) => MayWrite(user) && IsValidTransition(copy.stage, "review")
    case Approve(user, _) =>
      && IsAdmin(user) && IsValidTransition(copy.stage, "approved")
      && !(copy.createdBy != "" && copy.createdBy == user.sub)
    case Sign(user, _, authorised) => MayWrite(user) && CanSign(copy.stage) && authorised
    case Deliver(user, _, channel) =>
      && MayWrite(user) && channel in {"email", "secure_download", "regulator_portal"}
      && CanDeliver(copy.stage)
    case SendBack(_) => true
  }

  function Target(e: Event): string {
    match e
    case Submit(_, _) => "review"
    case Approve(_, _) => "approved"
    case Sign(_, _, _) => "signed"
    case Deliver(_, _, _) => "delivered"
    case SendBack(_) => "draft"
  }

  /** The report after a request whose handler fetched `copy` and whose call meets `now`. */
  function Apply(copy: Report, now: Report, e: Event): Report {
    if PortalAllows(copy, e) then Move(now, Target(e)) else now
  }

  lemma ApplyCases(copy: Report, now: Report, e: Event)
    requires copy.createdBy == now.createdBy
    ensures var next := Apply(copy, now, e).stage;
            && (next == now.stage || (next == Target(e) && IsValidTransition(now.stage, next)))
            && (next == "approved" && now.stage != next ==>
                  && e.Approve? && IsAdmin(e.user) && now.stage == "review"
                  && (now.createdBy == "" || e.user.sub != now.createdBy))
            && (next == "signed" && now.stage != next ==>
                  && e.Sign? && MayWrite(e.user) && e.authorised && now.stage == "approved")
  {
  }

  function After(init: Report, run: seq<Event>): Report
    decreases |run|
  {
    if run == [] then init
    else
      var n := |run| - 1;
      Apply(After(init, run[..Cut(run[n].seen, n)]), After(init, run[..n]), run[n])
  }

  lemma AfterLast(init: Report, run: seq<Event>)
    requires run != []
    ensures var n := |run| - 1;
            After(init, run) == Apply(After(init, run[..Cut(run[n].seen, n)]), After(init, run[..n]), run[n])
  {
  }

  function StageAt(init: Report, run: seq<Event>, k: nat): string
    requires k <= |run|
  {
    After(init, run[..k]).stage
  }

  lemma {:induction false} AuthorIsFixed(init: Report, run: seq<Event>)
    ensures After(init, run).createdBy == init.createdBy
    decreases |run|
  {
    if run != [] {
      AuthorIsFixed(init, run[..|run| - 1]);
    }
  }

  predicate PastApproval(stage: string) {
    stage in {"approved", "signed", "delivered"}
  }

  /** The i-th event took the report into this stage. */
  predicate Enters(init: Report, run: seq<Event>, i: nat, stage: string) {
    i < |run| && StageAt(init, run, i) != stage && StageAt(init, run, i + 1) == stage
  }

  ghost predicate ApprovedBy(init: Report, run: seq<Event>, i: nat) {
    && Enters(init, run, i, "approved") && run[i].Approve? && StageAt(init, run, i) == "review"
    && Admin in run[i].user.roles
    && (init.createdBy == "" || run[i].user.sub != init.createdBy)
  }

  ghost predicate SignedAt(init: Report, run: seq<Event>, j: nat) {
    && Enters(init, run, j, "signed") && run[j].Sign? && StageAt(init, run, j) == "approved"
    && (Admin in run[j].user.roles || ComplianceOfficer in run[j].user.roles) && run[j].authorised
  }

  /** What the last event of a run can do to the stage. */
  lemma LastEvent(init: Report, run: seq<Event>)
    requires run != []
    ensures var n := |run| - 1;
            var was, now := StageAt(init, run, n), After(init, run).stage;
            && (now == was || (now == Target(run[n]) && IsValidTransition(was, now)))
            && (now == "approved" && was != now ==> ApprovedBy(init, run, n))
            && (now == "signed" && was != now ==> SignedAt(init, run, n))
  {
    hide After, Apply, Target, IsValidTransition, IsAdmin, MayWrite;
    var n := |run| - 1;
    assert run[..n + 1] == run;
    AfterLast(init, run);
    AuthorIsFixed(init, run[..Cut(run[n].seen, n)]);
    AuthorIsFixed(init, run[..n]);
    ApplyCases(After(init, run[..Cut(run[n].seen, n)]), After(init, run[..n]), run[n]);
  }

  lemma Shorter(init: Report, run: seq<Event>, m: nat)
    requires m <= |run|
    ensures forall k :: 0 <= k <= m ==> StageAt(init, run[..m], k) == StageAt(init, run, k)
    ensures forall i :: 0 <= i < m ==> (ApprovedBy(init, run[..m], i) <==> ApprovedBy(init, run, i))
    ensures forall i :: 0 <= i < m ==> (SignedAt(init, run[..m], i) <==> SignedAt(init, run, i))
  {
    assert forall k :: 0 <= k <= m ==> run[..m][..k] == run[..k];
  }

  /** Provenance. In every run, however stale the copies the handlers looked at, a report at
      `approved`, `signed` or `delivered` was taken from `review` to `approved` by an admin who is
      not its (non-empty) author; and one at `signed` or `delivered` was, after that, signed by an
      authorised writer at a moment when it was `approved`. */
  lemma {:induction false} Provenance(init: Report, run: seq<Event>)
    requires init.stage == "draft"
    ensures PastApproval(After(init, run).stage) ==> exists i :: 0 <= i < |run| && ApprovedBy(init, run, i)
    ensures IsImmutableStage(After(init, run).stage) ==>
              exists i, j :: 0 <= i < j < |run| && ApprovedBy(init, run, i) && SignedAt(init, run, j)
    decreases |run|
  {
    if run != [] {
      var n := |run| - 1;
      Provenance(init, run[..n]);
      LastEvent(init, run);
      Shorter(init, run, n);
      var now := After(init, run).stage;
      if IsImmutableStage(StageAt(init, run, n)) {
        var i, j :| 0 <= i < j < n && ApprovedBy(init, run[..n], i) && SignedAt(init, run[..n], j);
        assert ApprovedBy(init, run, i) && SignedAt(init, run, j);
      } else if StageAt(init, run, n) == "approved" {
        var i :| 0 <= i < n && ApprovedBy(init, run[..n], i);
        assert ApprovedBy(init, run, i);
        if IsImmutableStage(now) {
          assert SignedAt(init, run, n);
        }
      } else if PastApproval(now) {
        assert ApprovedBy(init, run, n);
      }
    }
  }

  /** Each event in full, on an up-to-date copy: who may move the report, from which stage and to which. */
  lemma EventsInFull(init: Report, run: seq<Event>, e: Event)
    requires e.seen >= |run|
    ensures var was, next := After(init, run), After(init, run + [e]);
            var writer := !e.SendBack? && (Admin in e.user.roles || ComplianceOfficer in e.user.roles);
            next.stage == match e
                          case Submit(_, _) =>
                            if writer && was.stage == "draft" then "review" else was.stage
                          case Approve(user, _) =>
                            if Admin in user.roles && was.stage == "review" && (was.createdBy == "" || user.sub != was.createdBy)
                            then "approved" else was.stage
                          case Sign(_, _, authorised) =>
                            if writer && authorised && was.stage == "approved" then "signed" else was.stage
                          case Deliver(_, _, channel) =>
                            if writer && (channel == "email" || channel == "secure_download" || channel == "regulator_portal")
                               && was.stage == "signed" then "delivered" else was.stage
                          case SendBack(_) =>
                            if was.stage == "review" then "draft" else was.stage
  {
    hide After;
    assert (run + [e])[..|run|] == run && run[..|run|] == run;
    AfterLast(init, run + [e]);
  }

  function Rank(stage: string): nat {
    if stage == "approved" then 0 else if stage == "signed" then 1 else 2
  }

  /** Stage changes among the events from position i up. */
  function Changes(init: Report, run: seq<Event>, i: nat): nat
    requires i <= |run|
    decreases |run|
  {
    if i == |run| then 0
    else
      var n := |run| - 1;
      Changes(init, run[..n], i) + if StageAt(init, run, n) != After(init, run).stage then 1 else 0
  }

  /** Once approved, a report never goes back: every later change advances it by exactly one stage,
      so at most two remain and `delivered` is final. */
  lemma {:induction false} NoWayBack(init: Report, run: seq<Event>, i: nat)
    requires i <= |run| && PastApproval(StageAt(init, run, i))
    ensures PastApproval(After(init, run).stage)
    ensures Rank(After(init, run).stage) == Rank(StageAt(init, run, i)) + Changes(init, run, i)
    ensures Changes(init, run, i) <= 2
    decreases |run|
  {
    if i == |run| {
      assert run[..i] == run;
    } else {
      var n := |run| - 1;
      Shorter(init, run, n);
      NoWayBack(init, run[..n], i);
      LastEvent(init, run);
    }
  }
}
