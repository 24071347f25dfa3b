/** The public portal's identity sub-machine for data subject requests. */
module IdentityStates {

  const IDENTITY_STATES := {"received", "identity_pending", "identity_insufficient", "identity_rejected", "verified"}

  function AllowedTransitions(state: string): set<string> {
    if state == "received" then {"identity_pending"}
    else if state == "identity_pending" then {"verified", "identity_insufficient", "identity_rejected"}
    else if state == "identity_insufficient" then {"identity_pending", "identity_rejected"}
    else {}
  }

  predicate IsValidTransition(from: string, to: string) {
    to in AllowedTransitions(from)
  }

  /** The empty string stands for an absent subject. */
  predicate SodViolation(submitter: string, reviewer: string) {
    if submitter == "" || reviewer == "" then false else submitter == reviewer
  }
}

/** The internal life cycle of one data subject request: the router's handlers, working on copies
    fetched earlier, and the service that stores the request and re-checks the same table. */
module DsrLifecycle {
  import opened Principals
  import opened StaleCopies
  import IdentityStates

  datatype Dsr = Dsr(status: string, submittedBy: string)

  datatype Event =
    | Transition(user: User, seen: nat, to: string, rejectionReason: string, verificationMethod: string)
    | GenerateEvidence(user: User, seen: nat)
    | IssueDelivery(user: User, seen: nat)
    | Close(user: User, seen: nat)
    | Progress(seen: nat, to: string)  // the service's own moves: proof uploaded, evidence built, ...

  function NextStates(status: string): set<string> {
    if status == "received" then {"identity_pending", "rejected"}
    else if status == "identity_pending" then {"verified", "identity_insufficient", "identity_rejected", "rejected"}
    else if status == "identity_insufficient" then {"identity_pending", "identity_rejected", "rejected"}
    else if status == "verified" then {"processing", "rejected"}
    else if status == "processing" then {"evidence_generated", "rejected"}
    else if status == "evidence_generated" then {"delivered", "rejected"}
    else if status == "delivered" then {"closed", "rejected"}
    else {}
  }

  predicate IsTerminal(status: string) {
    status in {"closed", "rejected", "identity_rejected"}
  }

  /** The states the service may move a request to without a reviewer. */
  predicate ServiceMayEnter(to: string) {
    to in {"identity_pending", "processing", "evidence_generated", "delivered"}
  }

  /** Whether the handler, looking at its copy, calls the service at all. */
  predicate Calls(copy: Dsr, e: Event) {
    match e
    case Transition(user, _, to, reason, evidence) =>
      && MayWrite(user) && to in NextStates(copy.status)
      && !(to in {"verified", "identity_insufficient", "identity_rejected"}
           && copy.submittedBy != "" && copy.submittedBy == user.sub)
      && (to == "rejected" ==> reason != "")
      && (to == "verified" ==> evidence != "")
    case GenerateEvidence(user, _) => MayWrite(user) && copy.status in {"verified", "processing"}
    case IssueDelivery(user, _) => MayWrite(user) && copy.status == "evidence_generated"
    case Close(user, _) => MayWrite(user) && copy.status == "delivered"
    case Progress(_, to) => ServiceMayEnter(to)
  }

  /** The status a call asks for; starting evidence or a delivery asks for none. */
  function Requested(now: Dsr, e: Event): string {
    match e
    case Transition(_, _, to, _, _) => to
    case Close(_, _) => "closed"
    case Progress(_, to) => to
    case _ => now.status
  }

  function Apply(copy: Dsr, now: Dsr, e: Event): Dsr {
    var to := Requested(now, e);
    if Calls(copy, e) && to in NextStates(now.status) then now.(status := to) else now
  }

  function After(init: Dsr, run: seq<Event>): Dsr
    decreases |run|
  {
    if run == [] then init
    else
      var n := |run| - 1;
      Apply(Copy(init, run, n), After(init, run[..n]), run[n])
  }

  /** The copy that the i-th request works on. */
  function Copy(init: Dsr, run: seq<Event>, i: nat): Dsr
    requires i < |run|
    decreases |run|, 0
  {
    After(init, run[..Cut(run[i].seen, i)])
  }

  function StatusAt(init: Dsr, run: seq<Event>, k: nat): string
    requires k <= |run|
  {
    After(init, run[..k]).status
  }

  lemma AfterLast(init: Dsr, run: seq<Event>)
    requires run != []
    ensures var n := |run| - 1;
            After(init, run) == Apply(Copy(init, run, n), After(init, run[..n]), run[n])
  {
  }

  lemma {:induction false} SubmitterIsFixed(init: Dsr, run: seq<Event>)
    ensures After(init, run).submittedBy == init.submittedBy
    decreases |run|
  {
    if run != [] {
      SubmitterIsFixed(init, run[..|run| - 1]);
    }
  }

  // ---------------------------------------------------------------------------
  // Verification dominates everything that touches the subject's data
  // ---------------------------------------------------------------------------

  predicate NeedsVerification(status: string) {
    status in {"verified", "processing", "evidence_generated", "delivered", "closed"}
  }

  /** The i-th event verified the request: a reviewer other than its non-empty submitter took it
      from `identity_pending` to `verified`, naming the method used. */
  ghost predicate VerifiedAt(init: Dsr, run: seq<Event>, i: nat) {
    && i < |run| && run[i].Transition? && run[i].to == "verified" && run[i].verificationMethod != ""
    && (Admin in run[i].user.roles || ComplianceOfficer in run[i].user.roles)
    && (init.submittedBy == "" || run[i].user.sub != init.submittedBy)
    && StatusAt(init, run, i) == "identity_pending" && StatusAt(init, run, i + 1) == "verified"
  }

  lemma ApplyCases(copy: Dsr, now: Dsr, e: Event)
    requires copy.submittedBy == now.submittedBy
    ensures var next := Apply(copy, now, e).status;
            && (next == now.status || next in NextStates(now.status))
            && (NeedsVerification(next) && !NeedsVerification(now.status) ==>
                  && next == "verified" && now.status == "identity_pending"
                  && e.Transition? && e.to == "verified" && e.verificationMethod != "" && MayWrite(e.user)
                  && (now.submittedBy == "" || e.user.sub != now.submittedBy))
  {
  }

  lemma LastEvent(init: Dsr, run: seq<Event>)
    requires run != []
    ensures var n := |run| - 1;
            var was, now := StatusAt(init, run, n), After(init, run).status;
            && (now == was || now in NextStates(was))
            && (NeedsVerification(now) && !NeedsVerification(was) ==> VerifiedAt(init, run, n))
  {
    hide After, Apply, NextStates, NeedsVerification, MayWrite;
    var n := |run| - 1;
    assert run[..n + 1] == run;
    AfterLast(init, run);
    SubmitterIsFixed(init, run[..Cut(run[n].seen, n)]);
    SubmitterIsFixed(init, run[..n]);
    ApplyCases(Copy(init, run, n), After(init, run[..n]), run[n]);
  }

  lemma Shorter(init: Dsr, run: seq<Event>, m: nat)
    requires m <= |run|
    ensures forall k :: 0 <= k <= m ==> StatusAt(init, run[..m], k) == StatusAt(init, run, k)
    ensures forall i :: 0 <= i < m ==> (VerifiedAt(init, run[..m], i) <==> VerifiedAt(init, run, i))
  {
    hide After, MayWrite;
    assert forall k :: 0 <= k <= m ==> run[..m][..k] == run[..k];
  }

  /** Dominance: no run gets a request to `verified` or beyond, in particular none processes,
      delivers or closes it, without a verification step of its own. */
  lemma {:induction false} VerificationDominates(init: Dsr, run: seq<Event>)
    requires init.status == "received" && NeedsVerification(After(init, run).status)
    ensures exists i :: 0 <= i < |run| && VerifiedAt(init, run, i)
    decreases |run|
  {
    hide VerifiedAt;
    if run != [] {
      var n := |run| - 1;
      LastEvent(init, run);
      if NeedsVerification(StatusAt(init, run, n)) {
        VerificationDominates(init, run[..n]);
        Shorter(init, run, n);
        var i :| 0 <= i < n && VerifiedAt(init, run[..n], i);
        assert VerifiedAt(init, run, i);
      } else {
        assert VerifiedAt(init, run, n);
      }
    }
  }

  /** Nor is evidence ever requested or a delivery token ever issued for an unverified request:
      the verification step precedes even the stale copy that such a call was based on. */
  lemma CallsNeedVerification(init: Dsr, run: seq<Event>, i: nat)
    requires init.status == "received" && i < |run| && Calls(Copy(init, run, i), run[i])
    requires run[i].GenerateEvidence? || run[i].IssueDelivery? || run[i].Close?
    ensures exists k :: 0 <= k < i && k < run[i].seen && VerifiedAt(init, run, k)
  {
    var m := Cut(run[i].seen, i);
    VerificationDominates(init, run[..m]);
    Shorter(init, run, m);
    var k :| 0 <= k < m && VerifiedAt(init, run[..m], k);
    assert VerifiedAt(init, run, k);
  }

  /** Terminal states absorb. */
  lemma {:induction false} TerminalAbsorbs(init: Dsr, run: seq<Event>, k: nat)
    requires k <= |run| && StatusAt(init, run, k) in {"closed", "rejected", "identity_rejected"}
    ensures After(init, run).status == StatusAt(init, run, k)
    decreases |run|
  {
    if k == |run| {
      assert run[..k] == run;
    } else {
      var n := |run| - 1;
      Shorter(init, run, n);
      TerminalAbsorbs(init, run[..n], k);
      LastEvent(init, run);
    }
  }

  /** The states from which a request can get to a state in one step. */
  predicate LeadsTo(from: string, to: string) {
    match to
    case "identity_pending" => from == "received" || from == "identity_insufficient"
    case "identity_insufficient" => from == "identity_pending"
    case "verified" => from == "identity_pending"
    case "identity_rejected" => from == "identity_pending" || from == "identity_insufficient"
    case "processing" => from == "verified"
    case "evidence_generated" => from == "processing"
    case "delivered" => from == "evidence_generated"
    case "closed" => from == "delivered"
    case "rejected" =>
      || from == "received" || from == "identity_pending" || from == "identity_insufficient" || from == "verified"
      || from == "processing" || from == "evidence_generated" || from == "delivered"
    case _ => false
  }

  lemma NextInFull(from: string, to: string)
    ensures to in NextStates(from) <==> LeadsTo(from, to)
  {
  }

  /** Every step of every run goes along this relation, and an officer's transition on an up-to-date copy
      takes every step of it, given a reason for a rejection, a method for a verification, and, for the
      three identity decisions, an officer who did not submit the request. */
  lemma TransitionsInFull(init: Dsr, run: seq<Event>, user: User, seen: nat, to: string, reason: string, means: string)
    requires seen >= |run|
    ensures var was := After(init, run);
            var identity := to == "verified" || to == "identity_insufficient" || to == "identity_rejected";
            var allowed := (Admin in user.roles || ComplianceOfficer in user.roles) && LeadsTo(was.status, to)
                           && (identity ==> was.submittedBy == "" || was.submittedBy != user.sub)
                           && (to == "rejected" ==> reason != "") && (to == "verified" ==> means != "");
            After(init, run + [Transition(user, seen, to, reason, means)]).status == if allowed then to else was.status
  {
    hide After, NextStates, LeadsTo;
    var all := run + [Transition(user, seen, to, reason, means)];
    NextInFull(After(init, run).status, to);
    assert all[..|run|] == run && Cut(seen, |run|) == |run|;
    AfterLast(init, all);
  }

  /** What the other routes require: evidence is asked for as soon as the table leads on to processing
      or to evidence, a delivery token when it leads on to `delivered`, and only then. */
  lemma RoutesFollowTheTable(copy: Dsr, user: User, seen: nat)
    ensures var writer := Admin in user.roles || ComplianceOfficer in user.roles;
            && (Calls(copy, GenerateEvidence(user, seen)) <==>
                  writer && (LeadsTo(copy.status, "processing") || LeadsTo(copy.status, "evidence_generated")))
            && (Calls(copy, IssueDelivery(user, seen)) <==> writer && LeadsTo(copy.status, "delivered"))
            && (Calls(copy, Close(user, seen)) <==> writer && LeadsTo(copy.status, "closed"))
  {
  }

  /** A status with a single predecessor was reached from it. */
  lemma {:induction false} EnteredFrom(init: Dsr, run: seq<Event>, i: nat, k: nat, status: string, before: string)
      returns (j: nat)
    requires i <= k <= |run| && StatusAt(init, run, i) != status && StatusAt(init, run, k) == status
    requires forall from :: LeadsTo(from, status) ==> from == before
    ensures i <= j < k && StatusAt(init, run, j) == before
    decreases k
  {
    hide After, LeadsTo;
    var front := run[..k];
    Shorter(init, run, k);
    LastEvent(init, front);
    assert front[..k - 1] == run[..k - 1];
    if StatusAt(init, run, k - 1) == status {
      j := EnteredFrom(init, run, i, k - 1, status, before);
    } else {
      NextInFull(StatusAt(init, run, k - 1), status);
      j := k - 1;
    }
  }

  lemma VerifiedNext(init: Dsr, run: seq<Event>, v: nat)
    requires VerifiedAt(init, run, v)
    ensures v + 1 <= |run| && StatusAt(init, run, v + 1) == "verified"
  {
  }

  lemma OnlyFrom()
    ensures forall from :: LeadsTo(from, "closed") ==> from == "delivered"
    ensures forall from :: LeadsTo(from, "delivered") ==> from == "evidence_generated"
    ensures forall from :: LeadsTo(from, "evidence_generated") ==> from == "processing"
  {
  }

  /** A closed request went through everything, in this order. */
  lemma ClosedTookEveryStage(init: Dsr, run: seq<Event>) returns (v: nat, p: nat, e: nat, d: nat)
    requires init.status == "received" && After(init, run).status == "closed"
    ensures v < p < e < d < |run| && VerifiedAt(init, run, v)
    ensures StatusAt(init, run, p) == "processing" && StatusAt(init, run, e) == "evidence_generated"
    ensures StatusAt(init, run, d) == "delivered"
  {
    hide VerifiedAt, LeadsTo;
    assert run[..|run|] == run;
    VerificationDominates(init, run);
    v :| 0 <= v < |run| && VerifiedAt(init, run, v);
    VerifiedNext(init, run, v);
    OnlyFrom();
    d := EnteredFrom(init, run, v + 1, |run|, "closed", "delivered");
    e := EnteredFrom(init, run, v + 1, d, "delivered", "evidence_generated");
    p := EnteredFrom(init, run, v + 1, e, "evidence_generated", "processing");
  }

  /** The terminal states are those that can be entered but not left. */
  lemma TerminalExactly(status: string)
    ensures IsTerminal(status) <==> (exists from :: LeadsTo(from, status)) && forall to :: !LeadsTo(status, to)
  {
    if IsTerminal(status) {
      assert LeadsTo("delivered", "closed") && LeadsTo("received", "rejected") && LeadsTo("identity_pending", "identity_rejected");
    } else if from :| LeadsTo(from, status) {
      NextInFull(from, status);
      assert LeadsTo(status, "rejected");
    }
  }

  // ---------------------------------------------------------------------------
  // The identity sub-machine
  // ---------------------------------------------------------------------------

  /** On identity states the internal table and the public one are the same relation. */
  lemma TablesAgree(from: string, to: string)
    requires from in IdentityStates.IDENTITY_STATES && to in IdentityStates.IDENTITY_STATES
    ensures to in NextStates(from) <==> IdentityStates.IsValidTransition(from, to)
  {
  }

  /** The router's inline separation-of-duties test is the public helper, for all subjects. */
  lemma SodTestsAgree(submitter: string, reviewer: string)
    ensures (submitter != "" && submitter == reviewer) <==> IdentityStates.SodViolation(submitter, reviewer)
  {
  }

  /** Every identity-only prefix of an internal run is a run of the public sub-machine. */
  lemma IdentityPrefixSimulates(init: Dsr, run: seq<Event>, k: nat)
    requires k < |run|
    requires StatusAt(init, run, k) in IdentityStates.IDENTITY_STATES
    requires StatusAt(init, run, k + 1) in IdentityStates.IDENTITY_STATES
    ensures var was, now := StatusAt(init, run, k), StatusAt(init, run, k + 1);
            now == was || IdentityStates.IsValidTransition(was, now)
  {
    hide IdentityStates.IsValidTransition, NextStates;
    var part := run[..k + 1];
    assert part[..k] == run[..k];
    LastEvent(init, part);
    TablesAgree(StatusAt(init, run, k), StatusAt(init, run, k + 1));
  }

  ghost predicate IdentityPath(path: seq<string>) {
    && path != [] && path[0] == "received"
    && forall i :: 0 <= i < |path| - 1 ==> IdentityStates.IsValidTransition(path[i], path[i + 1])
  }

  /** A reviewer carrying out a path of the sub-machine, each step on an up-to-date copy. */
  function Review(path: seq<string>, reviewer: User): seq<Event>
    requires path != []
  {
    seq(|path| - 1, i requires 0 <= i < |path| - 1 => Transition(reviewer, i, path[i + 1], "", "in person"))
  }

  lemma StepTaken(now: Dsr, reviewer: User, seen: nat, to: string)
    requires MayWrite(reviewer) && reviewer.sub != now.submittedBy
    requires IdentityStates.IsValidTransition(now.status, to)
    ensures Apply(now, now, Transition(reviewer, seen, to, "", "in person")).status == to
  {
  }

  lemma AfterNothing(init: Dsr)
    ensures After(init, []) == init
  {
  }

  /** Conversely, every run of the public sub-machine is the run of some internal request. */
  lemma {:induction false} IdentityPathLifts(init: Dsr, path: seq<string>, reviewer: User, k: nat)
    requires init.status == "received" && IdentityPath(path) && k < |path|
    requires MayWrite(reviewer) && reviewer.sub != init.submittedBy
    ensures StatusAt(init, Review(path, reviewer), k) == path[k]
    decreases k
  {
    hide After, Apply, MayWrite, IdentityStates.IsValidTransition;
    var run := Review(path, reviewer);
    if k == 0 {
      AfterNothing(init);
      assert run[..0] == [];
    } else {
      IdentityPathLifts(init, path, reviewer, k - 1);
      var part := run[..k];
      assert part[..k - 1] == run[..k - 1];
      AfterLast(init, part);
      assert Copy(init, part, k - 1) == After(init, run[..k - 1]);
      SubmitterIsFixed(init, run[..k - 1]);
      StepTaken(After(init, run[..k - 1]), reviewer, k - 1, path[k]);
    }
  }
}
