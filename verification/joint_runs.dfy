/** Runs in which the requests of the signature ledger alternate with other events of one entity. */
module JointRuns {
  import opened Options
  import opened MfaNonces
  import Ledger = SignatureLedger

  /** `seen` says how long a prefix of the run is reflected by what the request's handler fetched. */
  datatype Act<E> =
    | Request(step: Ledger.Step, seen: nat)
    | Other(event: E)

  function StepOf<E>(act: Act<E>): seq<Ledger.Step> {
    if act.Request? then [act.step] else []
  }

  /** The requests of a run, as the ledger sees them. */
  function Steps<E>(acts: seq<Act<E>>): seq<Ledger.Step> {
    if acts == [] then []
    else
      var n := |acts| - 1;
      Steps(acts[..n]) + StepOf(acts[n])
  }

  /** What the handler of a request answers at this point of the run. */
  function Answer<E>(before: seq<Act<E>>, step: Ledger.Step): Ledger.Reply {
    Ledger.Respond(After(Ledger.MAX_AGE, Ledger.Ops(Steps(before))), step)
  }

  lemma {:induction false} StepOrigin<E>(acts: seq<Act<E>>, i: nat) returns (n: nat)
    requires i < |Steps(acts)|
    ensures n < |acts| && i == |Steps(acts[..n])| && acts[n].Request? && acts[n].step == Steps(acts)[i]
  {
    var m := |acts| - 1;
    if i < |Steps(acts[..m])| {
      n := StepOrigin(acts[..m], i);
      assert acts[..m][..n] == acts[..n];
    } else {
      n := m;
    }
  }

  lemma {:induction false} StepsArePrefix<E>(acts: seq<Act<E>>, n: nat)
    requires n <= |acts|
    ensures Steps(acts[..n]) <= Steps(acts)
  {
    if n == |acts| {
      assert acts[..n] == acts;
    } else {
      var m := |acts| - 1;
      StepsArePrefix(acts[..m], n);
      assert acts[..m][..n] == acts[..n];
    }
  }

  lemma StepsGrow<E>(acts: seq<Act<E>>, m: nat, n: nat)
    requires m <= n <= |acts|
    ensures |Steps(acts[..m])| <= |Steps(acts[..n])|
  {
    StepsArePrefix(acts[..n], m);
    assert acts[..n][..m] == acts[..m];
  }

  lemma StepsOnce<E>(acts: seq<Act<E>>, n: nat)
    requires n < |acts| && acts[n].Request?
    ensures Steps(acts[..n + 1]) == Steps(acts[..n]) + [acts[n].step]
  {
    assert acts[..n + 1][..n] == acts[..n];
  }

  lemma OpsOfPrefix(steps: seq<Ledger.Step>, front: seq<Ledger.Step>)
    requires front <= steps
    ensures Ledger.Ops(steps)[..|front|] == Ledger.Ops(front)
  {
    hide Ledger.OpOf;
  }

  lemma StepAt<E>(acts: seq<Act<E>>, n: nat)
    requires n < |acts| && acts[n].Request?
    ensures var k := |Steps(acts[..n])|;
            && k < |Steps(acts)| && Steps(acts)[k] == acts[n].step && Steps(acts)[..k] == Steps(acts[..n])
            && Ledger.Ops(Steps(acts))[..k] == Ledger.Ops(Steps(acts[..n]))
  {
    hide Steps, Ledger.Ops;
    StepsArePrefix(acts, n + 1);
    StepsOnce(acts, n);
    OpsOfPrefix(Steps(acts), Steps(acts[..n]));
  }

  /** The n-th act is a call that only a nonce may authorise. */
  predicate Protected<E>(acts: seq<Act<E>>, n: nat) {
    n < |acts| && acts[n].Request? && Ledger.ProtectedCall(Steps(acts), |Steps(acts[..n])|)
  }

  lemma CalledIsProtected<E>(acts: seq<Act<E>>, n: nat)
    requires n < |acts| && acts[n].Request? && (acts[n].step.SignReport? || acts[n].step.SignOff?)
    requires Answer(acts[..n], acts[n].step) == Ledger.Called
    ensures Protected(acts, n)
  {
    StepAt(acts, n);
  }

  /** The m-th act is the page view that the n-th goes back to: the same user looked at the same
      target while it was eligible, and was given the nonce that the n-th act used. */
  predicate ComesFrom<E>(acts: seq<Act<E>>, m: nat, n: nat)
    requires Protected(acts, n)
  {
    && m < n && acts[m].Request?
    && Ledger.SameTarget(acts[m].step, acts[n].step) && Ledger.Eligible(acts[m].step)
    && acts[m].step.user.sub == acts[n].step.user.sub
    && acts[n].step.moment.checkedAt - acts[m].step.draw.stampedAt <= Ledger.MAX_AGE
    && Answer(acts[..m], acts[m].step) == Ledger.Page(Some(acts[n].step.nonce))
    && Ledger.Source(Steps(acts), |Steps(acts[..n])|) == |Steps(acts[..m])|
  }

  /** The ledger theorem, at the positions of the joint run. */
  lemma EveryProtectedActHasItsView<E>(acts: seq<Act<E>>, n: nat) returns (m: nat)
    requires Protected(acts, n)
    ensures ComesFrom(acts, m, n)
  {
    hide Ledger.Respond, Ledger.ProtectedCall, Ledger.Ops, Ledger.OpOf, Ledger.SameTarget, Ledger.Eligible, Steps, After;
    var k := |Steps(acts[..n])|;
    StepAt(acts, n);
    Ledger.ProtectedCallsConsume(Steps(acts), k);
    Ledger.EveryCallHasItsView(Steps(acts), k);
    var i := Ledger.Source(Steps(acts), k);
    m := StepOrigin(acts, i);
    if n <= m {
      StepsGrow(acts, n, m);
    }
    StepAt(acts, m);
  }
}
