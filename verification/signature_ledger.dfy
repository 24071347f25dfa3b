/** The gate, report and model-review routes that share one nonce manager, and the ledger of the
    protected calls they make on the compliance service.

    What the service answers to a handler's fetch (the gate, the stage, the review state) is an
    input of the step, so the ledger holds for any service and any interleaving of requests. */
module SignatureLedger {
  import opened Options
  import opened Principals
  import opened MfaNonces
  import opened Text
  import ReportWorkflow

  const MAX_AGE := 60.0

  datatype Gate = Gate(triggeredBy: string, classification: string)  // "" stands for absent

  datatype Review = Review(reviewId: string, state: string)

  /** Tokens drawn and clock readings of one `issue`. */
  datatype Draw = Draw(tokens: seq<Token>, stampedAt: real, storedAt: real)

  /** What a protected handler reads besides its arguments: seconds since the user's MFA (None if
      the session has none) and the two clock readings of `consume`. */
  datatype Moment = Moment(mfaAge: Option<real>, readAt: real, checkedAt: real)

  datatype Step =
    | ViewGate(user: User, gateId: string, gate: Gate, draw: Draw)
    | ViewReport(user: User, reportId: string, stage: string, draw: Draw)
    | ViewReview(user: User, review: Review, draw: Draw)  // one review of a model card page
    | DecideGate(user: User, gateId: string, gate: Gate, decision: string, escalateTo: string,
                 nonce: Token, moment: Moment)
    | SignReport(user: User, reportId: string, stage: string, nonce: Token, moment: Moment)
    | SignOff(user: User, reviewId: string, nonce: Token, moment: Moment)
    | CollectNonces(at: real)

  /** What the handler answers: a refusal by status code, a page with or without a nonce, or the
      call on the service that decides or signs. */
  datatype Reply =
    | Refused(code: int)
    | Page(nonce: Option<Token>)
    | Called
    | Crashed

  // ---------------------------------------------------------------------------
  // The action strings
  // ---------------------------------------------------------------------------

  function DecisionAction(gateId: string): string {
    "gate.decide:" + gateId
  }

  function SignAction(reportId: string): string {
    "report.sign:" + reportId
  }

  function SignoffAction(reviewId: string): string {
    "model_review.signoff:" + reviewId
  }

  /** The three families never share an action string, and within a family the string gives the
      target back, whatever characters the identifiers contain. */
  lemma ActionsAreUnambiguous(a: string, b: string)
    ensures DecisionAction(a) != SignAction(b)
    ensures DecisionAction(a) != SignoffAction(b)
    ensures SignAction(a) != SignoffAction(b)
    ensures DecisionAction(a) == DecisionAction(b) ==> a == b
    ensures SignAction(a) == SignAction(b) ==> a == b
    ensures SignoffAction(a) == SignoffAction(b) ==> a == b
  {
    assert DecisionAction(a)[0] == 'g' && SignAction(a)[0] == 'r' && SignAction(b)[0] == 'r' && SignoffAction(b)[0] == 'm';
    if DecisionAction(a) == DecisionAction(b) {
      PrefixUnique("gate.decide:", a, b);
    }
    if SignAction(a) == SignAction(b) {
      PrefixUnique("report.sign:", a, b);
    }
    if SignoffAction(a) == SignoffAction(b) {
      PrefixUnique("model_review.signoff:", a, b);
    }
  }

  // ---------------------------------------------------------------------------
  // The handlers' branches
  // ---------------------------------------------------------------------------

  predicate NeedsMfa(gate: Gate) {
    Lower(gate.classification) in {"confidential", "restricted"}
  }

  predicate OwnGate(user: User, gate: Gate) {
    gate.triggeredBy != "" && gate.triggeredBy == user.sub
  }

  /** `require_mfa(60)`: a session without MFA, or with one over 60 seconds old, must step up. */
  predicate FreshMfa(m: Moment) {
    m.mfaAge.Some? && m.mfaAge.value <= MAX_AGE
  }

  /** The refusal a protected handler gives before it looks at the nonce, if any. */
  function Precheck(e: Step): Option<int> {
    match e
    case DecideGate(user, _, gate, decision, escalateTo, nonce, moment) =>
      if !MayWrite(user) then Some(403)
      else if decision !in {"approve", "deny", "escalate"} then Some(400)
      else if decision == "escalate" && escalateTo == "" then Some(400)
      else if OwnGate(user, gate) then Some(403)
      else if NeedsMfa(gate) && !FreshMfa(moment) then Some(401)
      else if NeedsMfa(gate) && nonce == "" then Some(400)
      else None
    case SignReport(user, _, stage, _, moment) =>
      if !MayWrite(user) then Some(403)
      else if !ReportWorkflow.CanSign(stage) then Some(400)
      else if !FreshMfa(moment) then Some(401)
      else None
    case SignOff(user, _, _, moment) =>
      if !MayWrite(user) then Some(403)
      else if !FreshMfa(moment) then Some(401)
      else None
    case _ => None
  }

  function IssueOp(user: User, action: string, draw: Draw): Op {
    Issue(user.sub, action, draw.tokens, draw.stampedAt, draw.storedAt)
  }

  function ConsumeOp(nonce: Token, user: User, action: string, m: Moment): Op {
    Consume(nonce, user.sub, action, m.readAt, m.checkedAt)
  }

  /** What the step does to the nonce store. */
  function OpOf(e: Step): Op {
    match e
    case ViewGate(user, gateId, gate, draw) =>
      if MayWrite(user) && NeedsMfa(gate) && !OwnGate(user, gate) then IssueOp(user, DecisionAction(gateId), draw)
      else Untouched
    case ViewReport(user, reportId, stage, draw) =>
      if MayWrite(user) && ReportWorkflow.CanSign(stage) then IssueOp(user, SignAction(reportId), draw)
      else Untouched
    case ViewReview(user, review, draw) =>
      if MayWrite(user) && review.state == "decision" then IssueOp(user, SignoffAction(review.reviewId), draw)
      else Untouched
    case DecideGate(user, gateId, gate, _, _, nonce, moment) =>
      if Precheck(e).None? && NeedsMfa(gate) then ConsumeOp(nonce, user, DecisionAction(gateId), moment)
      else Untouched
    case SignReport(user, reportId, _, nonce, moment) =>
      if Precheck(e).None? then ConsumeOp(nonce, user, SignAction(reportId), moment) else Untouched
    case SignOff(user, reviewId, nonce, moment) =>
      if Precheck(e).None? then ConsumeOp(nonce, user, SignoffAction(reviewId), moment) else Untouched
    case CollectNonces(at) => Gc(at)
  }

  function PageWith(s: Store, op: Op): Reply {
    if !op.Issue? then Page(None)
    else if Issued(s, op).None? then Crashed
    else Page(Issued(s, op))
  }

  /** The handler's answer, given the nonces that are live when it runs. */
  function Respond(s: Store, e: Step): Reply {
    if Precheck(e).Some? then Refused(Precheck(e).value)
    else
      match e
      case DecideGate(_, _, gate, _, _, _, _) =>
        if NeedsMfa(gate) && !Accepts(MAX_AGE, s, OpOf(e)) then Refused(403) else Called
      case SignReport(_, _, _, _, _) => if Accepts(MAX_AGE, s, OpOf(e)) then Called else Refused(409)
      case SignOff(_, _, _, _) => if Accepts(MAX_AGE, s, OpOf(e)) then Called else Refused(409)
      case ViewGate(user, _, _, _) => if MayWrite(user) then PageWith(s, OpOf(e)) else Refused(403)
      case ViewReport(user, _, _, _) => if MayRead(user) then PageWith(s, OpOf(e)) else Refused(403)
      case ViewReview(user, _, _) => if MayRead(user) then PageWith(s, OpOf(e)) else Refused(403)
      case CollectNonces(_) => Page(None)
  }

  function Ops(steps: seq<Step>): seq<Op> {
    seq(|steps|, i requires 0 <= i < |steps| => OpOf(steps[i]))
  }

  function StoreAt(steps: seq<Step>, j: nat): Store
    requires j <= |steps|
  {
    After(MAX_AGE, Ops(steps)[..j])
  }

  // ---------------------------------------------------------------------------
  // The ledger
  // ---------------------------------------------------------------------------

  /** The j-th step makes a call that only a nonce may authorise: a report signature, a model-review
      sign-off, or a decision on a confidential or restricted gate. */
  predicate ProtectedCall(steps: seq<Step>, j: nat) {
    && j < |steps|
    && (steps[j].SignReport? || steps[j].SignOff? || (steps[j].DecideGate? && NeedsMfa(steps[j].gate)))
    && Respond(StoreAt(steps, j), steps[j]) == Called
  }

  /** View and call are about the same thing. */
  predicate SameTarget(view: Step, call: Step) {
    match call
    case DecideGate(_, gateId, _, _, _, _, _) => view.ViewGate? && view.gateId == gateId
    case SignReport(_, reportId, _, _, _) => view.ViewReport? && view.reportId == reportId
    case SignOff(_, reviewId, _, _) => view.ViewReview? && view.review.reviewId == reviewId
    case _ => false
  }

  /** What the service had shown when the nonce was issued. */
  predicate Eligible(view: Step) {
    match view
    case ViewGate(user, _, gate, _) => MayWrite(user) && NeedsMfa(gate) && !OwnGate(user, gate)
    case ViewReport(user, _, stage, _) => MayWrite(user) && stage == "approved"
    case ViewReview(user, review, _) => MayWrite(user) && review.state == "decision"
    case _ => false
  }

  /** The page view that a protected call goes back to. */
  function Source(steps: seq<Step>, j: nat): int
    requires ProtectedCall(steps, j)
  {
    Origin(MAX_AGE, Ops(steps), j)
  }

  lemma ProtectedCallsConsume(steps: seq<Step>, j: nat)
    requires ProtectedCall(steps, j)
    ensures AcceptedAt(MAX_AGE, Ops(steps), j)
    ensures FreshMfa(steps[j].moment) && MayWrite(steps[j].user)
    ensures Ops(steps)[j].token == steps[j].nonce && Ops(steps)[j].userSub == steps[j].user.sub
    ensures Ops(steps)[j].checkedAt == steps[j].moment.checkedAt
  {
  }

  function Identifier(e: Step): string {
    match e
    case ViewGate(_, id, _, _) => id
    case ViewReport(_, id, _, _) => id
    case ViewReview(_, review, _) => review.reviewId
    case DecideGate(_, id, _, _, _, _, _) => id
    case SignReport(_, id, _, _, _) => id
    case SignOff(_, id, _, _) => id
    case CollectNonces(_) => ""
  }

  lemma SameActionSameTarget(view: Step, call: Step)
    requires OpOf(view).Issue? && OpOf(call).Consume? && OpOf(view).action == OpOf(call).action
    ensures SameTarget(view, call) && Eligible(view)
  {
    hide Lower, DecisionAction, SignAction, SignoffAction;
    ActionsAreUnambiguous(Identifier(view), Identifier(call));
    ActionsAreUnambiguous(Identifier(call), Identifier(view));
  }

  /** The signature ledger. In every interleaved run each protected call goes back to an earlier page
      view by the same user of the same gate, report or review; that view handed out the nonce
      presented, at most 60 seconds before it was checked, and had seen the target eligible: for a
      sign-off the review was in `decision`, although the sign-off route itself never looks; and
      nobody presented the nonce in between. */
  lemma EveryCallHasItsView(steps: seq<Step>, j: nat)
    requires ProtectedCall(steps, j)
    ensures var i := Source(steps, j);
            && 0 <= i < j && SameTarget(steps[i], steps[j]) && Eligible(steps[i])
            && steps[i].user.sub == steps[j].user.sub
            && Respond(StoreAt(steps, i), steps[i]) == Page(Some(steps[j].nonce))
            && steps[j].moment.checkedAt - steps[i].draw.stampedAt <= 60.0
            && steps[j].moment.mfaAge.Some? && steps[j].moment.mfaAge.value <= 60.0
            && forall k :: i < k < j ==> !Takes(OpOf(steps[k]), steps[j].nonce)
  {
    hide Lower, DecisionAction, SignAction, SignoffAction;
    var ops := Ops(steps);
    ProtectedCallsConsume(steps, j);
    AcceptedHasOrigin(MAX_AGE, ops, j);
    var i := Source(steps, j);
    assert ops[i] == OpOf(steps[i]) && ops[j] == OpOf(steps[j]);
    SameActionSameTarget(steps[i], steps[j]);
    assert forall k :: i < k < j ==> ops[k] == OpOf(steps[k]);
  }

  /** No two protected calls share a view: one page view authorises at most one signature. */
  lemma ViewsAreNotShared(steps: seq<Step>, j: nat, k: nat)
    requires j < k && ProtectedCall(steps, j) && ProtectedCall(steps, k)
    ensures Source(steps, j) != Source(steps, k)
  {
    ProtectedCallsConsume(steps, j);
    ProtectedCallsConsume(steps, k);
    OriginsDiffer(MAX_AGE, Ops(steps), j, k);
  }

  // ---------------------------------------------------------------------------
  // Who may do what
  // ---------------------------------------------------------------------------

  /** "confidential" or "restricted", in any mixture of cases. */
  predicate Sensitive(gate: Gate) {
    Spells(gate.classification, "confidential") || Spells(gate.classification, "restricted")
  }

  lemma SensitiveGatesNeedMfa(gate: Gate)
    ensures NeedsMfa(gate) <==> Sensitive(gate)
  {
    assert LowerWord("confidential");
    assert LowerWord("restricted");
    LowerComparesLetters(gate.classification, "confidential");
    LowerComparesLetters(gate.classification, "restricted");
  }

  /** When a decision reaches the service, and with which code it is refused otherwise. Only an admin
      or a compliance officer decides, never on a gate of their own; a confidential or restricted gate
      takes an MFA at most 60 seconds old and an accepted nonce, any other gate neither. */
  lemma DecisionsInFull(s: Store, e: Step)
    requires e.DecideGate?
    ensures var writer := Admin in e.user.roles || ComplianceOfficer in e.user.roles;
            var valid := e.decision == "approve" || e.decision == "deny" || (e.decision == "escalate" && e.escalateTo != "");
            var own := e.gate.triggeredBy != "" && e.gate.triggeredBy == e.user.sub;
            var stepUp := Sensitive(e.gate) && !(e.moment.mfaAge.Some? && e.moment.mfaAge.value <= 60.0);
            var op := Consume(e.nonce, e.user.sub, "gate.decide:" + e.gateId, e.moment.readAt, e.moment.checkedAt);
            var presents := writer && valid && !own && Sensitive(e.gate) && !stepUp && e.nonce != "";
            && (Respond(s, e) == Called <==> writer && valid && !own && (Sensitive(e.gate) ==> presents && Accepts(60.0, s, op)))
            && (Respond(s, e) == Refused(401) <==> writer && valid && !own && stepUp)
            && (Respond(s, e) == Refused(400) <==> writer && (!valid || (!own && Sensitive(e.gate) && !stepUp && e.nonce == "")))
            && (Respond(s, e) == Refused(403) <==> !writer || (valid && own) || (presents && !Accepts(60.0, s, op)))
            && OpOf(e) == if presents then op else Untouched
  {
    hide Lower, Accepts;
    SensitiveGatesNeedMfa(e.gate);
  }

  /** The same for report signatures and model-review sign-offs. */
  lemma SignaturesInFull(s: Store, e: Step)
    requires e.SignReport? || e.SignOff?
    ensures var writer := Admin in e.user.roles || ComplianceOfficer in e.user.roles;
            var ready := e.SignOff? || e.stage == "approved";
            var recent := e.moment.mfaAge.Some? && e.moment.mfaAge.value <= 60.0;
            var action := if e.SignOff? then "model_review.signoff:" + e.reviewId else "report.sign:" + e.reportId;
            var op := Consume(e.nonce, e.user.sub, action, e.moment.readAt, e.moment.checkedAt);
            && (Respond(s, e) == Called <==> writer && ready && recent && Accepts(60.0, s, op))
            && (Respond(s, e) == Refused(403) <==> !writer)
            && (Respond(s, e) == Refused(400) <==> writer && !ready)
            && (Respond(s, e) == Refused(401) <==> writer && ready && !recent)
            && (Respond(s, e) == Refused(409) <==> writer && ready && recent && !Accepts(60.0, s, op))
            && OpOf(e) == if writer && ready && recent then op else Untouched
  {
    hide Accepts;
  }

  /** Which pages ask for a nonce, and for which action. */
  lemma ViewsInFull(e: Step)
    requires e.ViewGate? || e.ViewReport? || e.ViewReview?
    ensures var writer := Admin in e.user.roles || ComplianceOfficer in e.user.roles;
            var d := e.draw;
            match e
            case ViewGate(user, gateId, gate, _) =>
              OpOf(e) == if writer && Sensitive(gate) && !(gate.triggeredBy != "" && gate.triggeredBy == user.sub)
                         then Issue(user.sub, "gate.decide:" + gateId, d.tokens, d.stampedAt, d.storedAt) else Untouched
            case ViewReport(user, reportId, stage, _) =>
              OpOf(e) == if writer && stage == "approved"
                         then Issue(user.sub, "report.sign:" + reportId, d.tokens, d.stampedAt, d.storedAt) else Untouched
            case ViewReview(user, review, _) =>
              OpOf(e) == if writer && review.state == "decision"
                         then Issue(user.sub, "model_review.signoff:" + review.reviewId, d.tokens, d.stampedAt, d.storedAt)
                         else Untouched
  {
    hide Lower;
    if e.ViewGate? {
      SensitiveGatesNeedMfa(e.gate);
    }
  }

  /** Who is shown a page at all: gates to admins and compliance officers only, reports and model cards
      to auditors and viewers as well. */
  lemma PagesAreServed(s: Store, e: Step)
    requires e.ViewGate? || e.ViewReport? || e.ViewReview?
    ensures Respond(s, e) == Refused(403)
       <==> !(Admin in e.user.roles || ComplianceOfficer in e.user.roles
              || (!e.ViewGate? && (Auditor in e.user.roles || Viewer in e.user.roles)))
    ensures Respond(s, e) == Crashed ==> OpOf(e).Issue? && forall t :: t in e.draw.tokens ==> t in s
    ensures !Respond(s, e).Called? && (Respond(s, e).Refused? ==> Respond(s, e) == Refused(403))
  {
    hide Lower, FirstFree;
    if OpOf(e).Issue? {
      IssueAddsOne(MAX_AGE, s, OpOf(e));
    }
  }

  /** The ledger for gates, in plain terms: whoever gets a decision on a confidential or restricted gate
      through had an MFA at most 60 seconds old and had opened that very gate before, when it was
      confidential or restricted and not their own; the page had given them this nonce, at most 60
      seconds before it was checked. */
  lemma SensitiveDecisionsHaveTheirView(steps: seq<Step>, j: nat) returns (i: nat)
    requires j < |steps| && steps[j].DecideGate? && Sensitive(steps[j].gate)
    requires Respond(StoreAt(steps, j), steps[j]) == Called
    ensures i < j && steps[i].ViewGate? && steps[i].gateId == steps[j].gateId
    ensures steps[i].user.sub == steps[j].user.sub && Sensitive(steps[i].gate)
    ensures Admin in steps[i].user.roles || ComplianceOfficer in steps[i].user.roles
    ensures !(steps[i].gate.triggeredBy != "" && steps[i].gate.triggeredBy == steps[i].user.sub)
    ensures Respond(StoreAt(steps, i), steps[i]) == Page(Some(steps[j].nonce))
    ensures steps[j].moment.checkedAt - steps[i].draw.stampedAt <= 60.0
    ensures steps[j].moment.mfaAge.Some? && steps[j].moment.mfaAge.value <= 60.0
    ensures forall k :: i < k < j ==> !Takes(OpOf(steps[k]), steps[j].nonce)
  {
    hide Respond, StoreAt, Lower, Precheck, OpOf;
    SensitiveGatesNeedMfa(steps[j].gate);
    EveryCallHasItsView(steps, j);
    i := Source(steps, j);
    SensitiveGatesNeedMfa(steps[i].gate);
  }

  // ---------------------------------------------------------------------------
  // The routes
  // ---------------------------------------------------------------------------

  lemma OpsGrow(steps: seq<Step>, e: Step)
    ensures Ops(steps + [e]) == Ops(steps) + [OpOf(e)]
  {
  }

  /** The nonces that a model card page asks for: one for each of its reviews in `decision`. */
  function DecisionViews(user: User, reviews: seq<Review>, draws: seq<Draw>, n: nat): seq<Step>
    requires n <= |reviews| == |draws|
  {
    if n == 0 then []
    else
      DecisionViews(user, reviews, draws, n - 1)
      + if reviews[n - 1].state == "decision" then [ViewReview(user, reviews[n - 1], draws[n - 1])] else []
  }

  predicate AllTaken(s: Store, draw: Draw) {
    forall t :: t in draw.tokens ==> t in s
  }

  lemma NoViews(user: User, reviews: seq<Review>, draws: seq<Draw>)
    requires |reviews| == |draws|
    ensures DecisionViews(user, reviews, draws, 0) == []
  {
  }

  lemma ViewsGrow(steps: seq<Step>, user: User, reviews: seq<Review>, draws: seq<Draw>, n: nat)
    requires n < |reviews| == |draws|
    ensures reviews[n].state == "decision" ==>
              steps + DecisionViews(user, reviews, draws, n) + [ViewReview(user, reviews[n], draws[n])]
              == steps + DecisionViews(user, reviews, draws, n + 1)
    ensures reviews[n].state != "decision" ==>
              DecisionViews(user, reviews, draws, n) == DecisionViews(user, reviews, draws, n + 1)
  {
  }

  class Portal {
    const nonces: MfaNonceManager
    ghost var steps: seq<Step>

    /** The store is exactly what the ledger's run makes it, so the ledger speaks about it. */
    ghost predicate Valid()
      reads this, nonces, nonces.backend
    {
      && nonces.Valid() && nonces.maxAge == MAX_AGE
      && nonces.history == Ops(steps)
    }

    constructor ()
      ensures Valid() && fresh(nonces) && fresh(nonces.backend) && steps == []
    {
      nonces := new MfaNonceManager(MAX_AGE);
      steps := [];
    }

    method GateDetail(user: User, gateId: string, gate: Gate, draw: Draw) returns (reply: Reply)
      requires Valid() && |draw.tokens| == 3
      modifies this, nonces, nonces.backend
      ensures Valid() && steps == old(steps) + [ViewGate(user, gateId, gate, draw)]
      ensures reply == Respond(old(nonces.backend.records), ViewGate(user, gateId, gate, draw))
    {
      OpsGrow(steps, ViewGate(user, gateId, gate, draw));
      steps := steps + [ViewGate(user, gateId, gate, draw)];
      if !MayWrite(user) {
        nonces.LeaveAlone();
        return Refused(403);
      }
      var sodViolation := gate.triggeredBy != "" && gate.triggeredBy == user.sub;
      if NeedsMfa(gate) && !sodViolation {
        var nonce := nonces.IssueNonce(user.sub, DecisionAction(gateId), draw.tokens, draw.stampedAt, draw.storedAt);
        return if nonce.None? then Crashed else Page(nonce);
      }
      nonces.LeaveAlone();
      return Page(None);
    }

    method ReportDetail(user: User, reportId: string, stage: string, draw: Draw) returns (reply: Reply)
      requires Valid() && |draw.tokens| == 3
      modifies this, nonces, nonces.backend
      ensures Valid() && steps == old(steps) + [ViewReport(user, reportId, stage, draw)]
      ensures reply == Respond(old(nonces.backend.records), ViewReport(user, reportId, stage, draw))
    {
      OpsGrow(steps, ViewReport(user, reportId, stage, draw));
      steps := steps + [ViewReport(user, reportId, stage, draw)];
      if !MayRead(user) {
        nonces.LeaveAlone();
        return Refused(403);
      }
      if MayWrite(user) && ReportWorkflow.CanSign(stage) {
        var nonce := nonces.IssueNonce(user.sub, SignAction(reportId), draw.tokens, draw.stampedAt, draw.storedAt);
        return if nonce.None? then Crashed else Page(nonce);
      }
      nonces.LeaveAlone();
      return Page(None);
    }

    /** The model card page: one nonce for every review of the card that is in `decision`, and for
        no other. A page for which a token could not be allocated is not served at all. */
    method ModelCardDetail(user: User, reviews: seq<Review>, draws: seq<Draw>)
      returns (served: bool, issued: map<string, Token>)
      requires Valid() && |draws| == |reviews| && forall i :: 0 <= i < |draws| ==> |draws[i].tokens| == 3
      modifies this, nonces, nonces.backend
      ensures Valid() && old(steps) <= steps
      ensures !MayRead(user) ==> !served && issued == map[]
      ensures !MayWrite(user) ==> steps == old(steps) && (MayRead(user) ==> served)
      ensures MayWrite(user) && !served ==>
                exists i :: 0 <= i < |reviews| && reviews[i].state == "decision" && AllTaken(nonces.backend.records, draws[i])
      ensures served && MayWrite(user) ==> steps == old(steps) + DecisionViews(user, reviews, draws, |reviews|)
      ensures served ==> forall id :: id in issued <==>
                MayWrite(user) && exists i :: 0 <= i < |reviews| && reviews[i] == Review(id, "decision")
      ensures forall id :: id in issued ==>
                && issued[id] in nonces.backend.records && issued[id] !in old(nonces.backend.records)
                && nonces.backend.records[issued[id]].record.userSub == user.sub
                && nonces.backend.records[issued[id]].record.action == SignoffAction(id)
    {
      hide After, Ops, Lower, DecisionViews, FirstFree, Apply;
      issued := map[];
      if !MayRead(user) {
        return false, issued;
      }
      if MayWrite(user) {
        assert old(steps) + DecisionViews(user, reviews, draws, 0) == old(steps) by { NoViews(user, reviews, draws); }
        var i := 0;
        while i < |reviews|
          invariant 0 <= i <= |reviews| && Valid()
          invariant steps == old(steps) + DecisionViews(user, reviews, draws, i)
          invariant forall id :: id in issued <==> exists k :: 0 <= k < i && reviews[k] == Review(id, "decision")
          invariant forall t :: t in old(nonces.backend.records) ==> t in nonces.backend.records
          invariant forall id :: id in issued ==>
                      && issued[id] in nonces.backend.records && issued[id] !in old(nonces.backend.records)
                      && nonces.backend.records[issued[id]].record.userSub == user.sub
                      && nonces.backend.records[issued[id]].record.action == SignoffAction(id)
        {
          ViewsGrow(old(steps), user, reviews, draws, i);
          if reviews[i].state == "decision" {
            ghost var view := ViewReview(user, reviews[i], draws[i]);
            OpsGrow(steps, view);
            var action := SignoffAction(reviews[i].reviewId);
            var nonce := nonces.IssueNonce(user.sub, action, draws[i].tokens, draws[i].stampedAt, draws[i].storedAt);
            steps := steps + [view];
            if nonce.None? {
              assert AllTaken(nonces.backend.records, draws[i]);
              return false, issued;
            }
            issued := issued[reviews[i].reviewId := nonce.value];
          }
          i := i + 1;
        }
      }
      return true, issued;
    }

    method GateDecide(user: User, gateId: string, gate: Gate, decision: string, escalateTo: string,
                      nonce: Token, m: Moment) returns (reply: Reply)
      requires Valid()
      modifies this, nonces, nonces.backend
      ensures Valid() && steps == old(steps) + [DecideGate(user, gateId, gate, decision, escalateTo, nonce, m)]
      ensures reply == Respond(old(nonces.backend.records), DecideGate(user, gateId, gate, decision, escalateTo, nonce, m))
    {
      ghost var e := DecideGate(user, gateId, gate, decision, escalateTo, nonce, m);
      OpsGrow(steps, e);
      steps := steps + [e];
      if !MayWrite(user) {
        nonces.LeaveAlone();
        return Refused(403);
      }
      if decision !in {"approve", "deny", "escalate"} {
        nonces.LeaveAlone();
        return Refused(400);
      }
      if decision == "escalate" && escalateTo == "" {
        nonces.LeaveAlone();
        return Refused(400);
      }
      if gate.triggeredBy != "" && gate.triggeredBy == user.sub {
        nonces.LeaveAlone();
        return Refused(403);
      }
      if NeedsMfa(gate) {
        if !FreshMfa(m) {
          nonces.LeaveAlone();
          return Refused(401);
        }
        if nonce == "" {
          nonces.LeaveAlone();
          return Refused(400);
        }
        var ok := nonces.ConsumeNonce(nonce, user.sub, DecisionAction(gateId), m.readAt, m.checkedAt);
        return if ok then Called else Refused(403);
      }
      nonces.LeaveAlone();
      return Called;
    }

    method ReportSign(user: User, reportId: string, stage: string, nonce: Token, m: Moment) returns (reply: Reply)
      requires Valid()
      modifies this, nonces, nonces.backend
      ensures Valid() && steps == old(steps) + [SignReport(user, reportId, stage, nonce, m)]
      ensures reply == Respond(old(nonces.backend.records), SignReport(user, reportId, stage, nonce, m))
    {
      OpsGrow(steps, SignReport(user, reportId, stage, nonce, m));
      steps := steps + [SignReport(user, reportId, stage, nonce, m)];
      if !MayWrite(user) {
        nonces.LeaveAlone();
        return Refused(403);
      }
      if !ReportWorkflow.CanSign(stage) {
        nonces.LeaveAlone();
        return Refused(400);
      }
      if !FreshMfa(m) {
        nonces.LeaveAlone();
        return Refused(401);
      }
      var ok := nonces.ConsumeNonce(nonce, user.sub, SignAction(reportId), m.readAt, m.checkedAt);
      return if ok then Called else Refused(409);
    }

    method ReviewSignOff(user: User, reviewId: string, nonce: Token, m: Moment) returns (reply: Reply)
      requires Valid()
      modifies this, nonces, nonces.backend
      ensures Valid() && steps == old(steps) + [SignOff(user, reviewId, nonce, m)]
      ensures reply == Respond(old(nonces.backend.records), SignOff(user, reviewId, nonce, m))
    {
      OpsGrow(steps, SignOff(user, reviewId, nonce, m));
      steps := steps + [SignOff(user, reviewId, nonce, m)];
      if !MayWrite(user) {
        nonces.LeaveAlone();
        return Refused(403);
      }
      if !FreshMfa(m) {
        nonces.LeaveAlone();
        return Refused(401);
      }
      var ok := nonces.ConsumeNonce(nonce, user.sub, SignoffAction(reviewId), m.readAt, m.checkedAt);
      return if ok then Called else Refused(409);
    }
  }
}
