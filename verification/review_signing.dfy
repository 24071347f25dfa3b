/** The review of a model card and the signature ledger, in one run.

    Two routes can take a review out of `decision`: the sign-off route, which asks for MFA and a nonce
    but never looks at the state, and the transition route, which looks at the state only. The
    service applies the same table again to the review as it is by then. */
module ReviewSigning {
  import opened Principals
  import opened StaleCopies
  import opened JointRuns
  import Ledger = SignatureLedger

  /** A call of the transition route; `seen` is how long a prefix of the run its copy reflects. */
  datatype Move = Move(user: User, seen: nat, to: string, decision: string, rationaleLength: nat)

  function NextStates(state: string): set<string> {
    if state == "scheduled" then {"evidence_assembly"}
    else if state == "evidence_assembly" then {"reviewer_assigned"}
    else if state == "reviewer_assigned" then {"decision"}
    else if state == "decision" then {"signed_off"}
    else {}
  }

  /** Whether the transition route, looking at its copy, calls the service. */
  predicate RouteAllows(copy: string, m: Move) {
    && MayWrite(m.user) && m.to in NextStates(copy)
    && (m.to == "decision" ==> m.rationaleLength >= 30 && m.decision in {"approve", "defer", "escalate"})
  }

  predicate SignsOff(act: Act<Move>, reviewId: string) {
    act.Request? && act.step.SignOff? && act.step.reviewId == reviewId
  }

  predicate Views(act: Act<Move>, reviewId: string) {
    act.Request? && act.step.ViewReview? && act.step.review.reviewId == reviewId
  }

  /** The state that an act asks the service for. */
  function Asks(reviewId: string, before: seq<Act<Move>>, copy: string, act: Act<Move>): set<string> {
    if act.Other? then (if RouteAllows(copy, act.event) then {act.event.to} else {})
    else if SignsOff(act, reviewId) && Answer(before, act.step) == Ledger.Called then {"signed_off"}
    else {}
  }

  function Seen(act: Act<Move>): nat {
    if act.Other? then act.event.seen else act.seen
  }

  function Target(act: Act<Move>): string {
    if act.Other? then act.event.to else "signed_off"
  }

  function StateAfter(reviewId: string, init: string, acts: seq<Act<Move>>): string
    decreases |acts|
  {
    if acts == [] then init
    else
      var n := |acts| - 1;
      var now := StateAfter(reviewId, init, acts[..n]);
      var asked := Asks(reviewId, acts[..n], StateAfter(reviewId, init, acts[..Cut(Seen(acts[n]), n)]), acts[n]);
      if asked * NextStates(now) != {} then Target(acts[n]) else now
  }

  /** The pages show states of the review, possibly stale ones. */
  ghost predicate Honest(reviewId: string, init: string, acts: seq<Act<Move>>) {
    forall n :: 0 <= n < |acts| && Views(acts[n], reviewId) ==>
      acts[n].step.review.state == StateAfter(reviewId, init, acts[..Cut(acts[n].seen, n)])
  }

  /** The n-th act took the review to `signed_off`. */
  predicate Finishes(reviewId: string, init: string, acts: seq<Act<Move>>, n: nat) {
    && n < |acts|
    && StateAfter(reviewId, init, acts[..n]) == "decision"
    && StateAfter(reviewId, init, acts[..n + 1]) == "signed_off"
  }

  lemma LastAct(reviewId: string, init: string, acts: seq<Act<Move>>)
    requires acts != []
    ensures var n := |acts| - 1;
            var was, now := StateAfter(reviewId, init, acts[..n]), StateAfter(reviewId, init, acts);
            && (was == "signed_off" ==> now == "signed_off")
            && (now == "signed_off" && was != now ==>
                  && was == "decision"
                  && (acts[n].Other? || (SignsOff(acts[n], reviewId) && Answer(acts[..n], acts[n].step) == Ledger.Called)))
  {
    hide Answer;
    var n := |acts| - 1;
    var was := StateAfter(reviewId, init, acts[..n]);
    var asked := Asks(reviewId, acts[..n], StateAfter(reviewId, init, acts[..Cut(Seen(acts[n]), n)]), acts[n]);
    assert asked <= {Target(acts[n])};
    if asked * NextStates(was) != {} {
      var x :| x in asked * NextStates(was);
      assert x == Target(acts[n]);
    }
  }

  /** `signed_off` is final. */
  lemma {:induction false} StaysSignedOff(reviewId: string, init: string, acts: seq<Act<Move>>, k: nat)
    requires k <= |acts| && StateAfter(reviewId, init, acts[..k]) == "signed_off"
    ensures StateAfter(reviewId, init, acts) == "signed_off"
  {
    if k == |acts| {
      assert acts[..k] == acts;
    } else {
      var n := |acts| - 1;
      assert acts[..n][..k] == acts[..k];
      StaysSignedOff(reviewId, init, acts[..n], k);
      LastAct(reviewId, init, acts);
    }
  }

  lemma NothingYet(reviewId: string, init: string)
    ensures StateAfter(reviewId, init, []) == init
  {
  }

  lemma {:induction false} FindFinish(reviewId: string, init: string, acts: seq<Act<Move>>) returns (n: nat)
    requires init != "signed_off" && StateAfter(reviewId, init, acts) == "signed_off"
    ensures Finishes(reviewId, init, acts, n)
  {
    hide StateAfter, SignsOff, Answer;
    NothingYet(reviewId, init);
    n := |acts| - 1;
    assert acts[..n + 1] == acts;
    LastAct(reviewId, init, acts);
    if StateAfter(reviewId, init, acts[..n]) == "signed_off" {
      var m := FindFinish(reviewId, init, acts[..n]);
      assert acts[..n][..m] == acts[..m] && acts[..n][..m + 1] == acts[..m + 1];
      n := m;
    }
  }

  lemma FinishesOnce(reviewId: string, init: string, acts: seq<Act<Move>>, m: nat, n: nat)
    requires Finishes(reviewId, init, acts, m) && Finishes(reviewId, init, acts, n)
    ensures m == n
  {
    hide StateAfter;
    if m < n {
      assert acts[..n][..m + 1] == acts[..m + 1];
      StaysSignedOff(reviewId, init, acts[..n], m + 1);
    } else if n < m {
      assert acts[..m][..n + 1] == acts[..n + 1];
      StaysSignedOff(reviewId, init, acts[..m], n + 1);
    }
  }

  /** The n-th act signed the review off by a protected call, which goes back to a view by the same
      user that showed this review in `decision`, at a moment when it was. */
  ghost predicate SignedBy(reviewId: string, init: string, acts: seq<Act<Move>>, n: nat) {
    && Finishes(reviewId, init, acts, n) && SignsOff(acts[n], reviewId) && Protected(acts, n)
    && exists m: nat :: ComesFrom(acts, m, n) && Views(acts[m], reviewId)
                   && StateAfter(reviewId, init, acts[..Cut(acts[m].seen, m)]) == "decision"
  }

  predicate MovedBy(reviewId: string, init: string, acts: seq<Act<Move>>, n: nat) {
    Finishes(reviewId, init, acts, n) && acts[n].Other?
  }

  lemma FinishIsEither(reviewId: string, init: string, acts: seq<Act<Move>>, n: nat)
    requires Honest(reviewId, init, acts) && Finishes(reviewId, init, acts, n)
    ensures MovedBy(reviewId, init, acts, n) || SignedBy(reviewId, init, acts, n)
  {
    hide StateAfter, Answer, Steps, Ledger.ProtectedCall, Ledger.Source;
    assert acts[..n + 1][..n] == acts[..n];
    LastAct(reviewId, init, acts[..n + 1]);
    if acts[n].Request? {
      CalledIsProtected(acts, n);
      var m := EveryProtectedActHasItsView(acts, n);
      assert ComesFrom(acts, m, n) && Views(acts[m], reviewId);
    }
  }

  /** Which signed-off reviews have a signature: a review at `signed_off` has a protected sign-off that
      took it there if and only if no call of the transition route did. */
  lemma SignedExactlyWhenNotMoved(reviewId: string, init: string, acts: seq<Act<Move>>)
    requires Honest(reviewId, init, acts)
    requires init != "signed_off" && StateAfter(reviewId, init, acts) == "signed_off"
    ensures (exists n :: SignedBy(reviewId, init, acts, n)) <==> !(exists n :: MovedBy(reviewId, init, acts, n))
  {
    hide StateAfter, Finishes, Protected, Honest;
    var n := FindFinish(reviewId, init, acts);
    FinishIsEither(reviewId, init, acts, n);
    forall k, l | SignedBy(reviewId, init, acts, k) && MovedBy(reviewId, init, acts, l) ensures false {
      FinishesOnce(reviewId, init, acts, k, l);
    }
  }

  lemma MoveInDecision(reviewId: string, acts: seq<Act<Move>>, user: User)
    requires MayWrite(user)
    ensures var act := Other(Move(user, |acts|, "signed_off", "", 0));
            "signed_off" in Asks(reviewId, acts, "decision", act) * NextStates("decision")
  {
  }

  lemma StateStep(reviewId: string, init: string, acts: seq<Act<Move>>, act: Act<Move>)
    requires Seen(act) == |acts|
    ensures var now := StateAfter(reviewId, init, acts);
            StateAfter(reviewId, init, acts + [act])
            == if Asks(reviewId, acts, now, act) * NextStates(now) != {} then Target(act) else now
  {
    hide Asks, NextStates;
    assert (acts + [act])[..|acts|] == acts;
  }

  lemma NoRequest(acts: seq<Act<Move>>, act: Act<Move>)
    requires act.Other?
    ensures Steps(acts + [act]) == Steps(acts)
  {
    assert (acts + [act])[..|acts|] == acts;
  }

  /** The transition route in full, on an up-to-date copy: each state has one successor, only a writer
      moves the review there, and into `decision` only with a decision and 30 characters of rationale. */
  lemma MovesInFull(reviewId: string, init: string, acts: seq<Act<Move>>, m: Move)
    requires m.seen == |acts|
    ensures var was := StateAfter(reviewId, init, acts);
            var step := || (was == "scheduled" && m.to == "evidence_assembly")
                        || (was == "evidence_assembly" && m.to == "reviewer_assigned")
                        || (was == "reviewer_assigned" && m.to == "decision" && m.rationaleLength >= 30
                            && (m.decision == "approve" || m.decision == "defer" || m.decision == "escalate"))
                        || (was == "decision" && m.to == "signed_off");
            StateAfter(reviewId, init, acts + [Other(m)])
            == if (Admin in m.user.roles || ComplianceOfficer in m.user.roles) && step then m.to else was
  {
    hide StateAfter;
    var act: Act<Move> := Other(m);
    StateStep(reviewId, init, acts, act);
    var was := StateAfter(reviewId, init, acts);
    assert Asks(reviewId, acts, was, act) == if RouteAllows(was, m) then {m.to} else {};
    assert RouteAllows(was, m) ==> m.to in {m.to} * NextStates(was);
  }

  /** And a call of the transition route does it from every run that is in `decision`, by any writer,
      without a request that the ledger would see. */
  lemma TransitionFinishes(reviewId: string, init: string, acts: seq<Act<Move>>, user: User)
    requires MayWrite(user) && StateAfter(reviewId, init, acts) == "decision"
    ensures var run := acts + [Other(Move(user, |acts|, "signed_off", "", 0))];
            MovedBy(reviewId, init, run, |acts|) && Steps(run) == Steps(acts)
  {
    hide StateAfter, Steps, MayWrite;
    var act := Other(Move(user, |acts|, "signed_off", "", 0));
    var run := acts + [act];
    assert run[..|acts|] == acts && run[..|acts| + 1] == run;
    MoveInDecision(reviewId, acts, user);
    StateStep(reviewId, init, acts, act);
    NoRequest(acts, act);
  }
}
