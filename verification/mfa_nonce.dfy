/** Single-use MFA nonces bound to a user and an action.

    A store of live nonces is a value (`Store`), every operation of the manager over the in-memory
    backend is an `Op`, and `After` runs a sequence of them. Tokens come from an arbitrary source:
    `draws` are the three tokens that one call of `issue` may try. The wall clock is arbitrary
    too, and is read twice by `issue` and by `consume`. */
module MfaNonces {
  import opened Options

  type Token = string

  datatype NonceRecord = NonceRecord(userSub: string, action: string, issuedAt: real)

  datatype Entry = Entry(record: NonceRecord, expiry: real)

  type Store = map<Token, Entry>

  datatype Op =
    | Issue(userSub: string, action: string, draws: seq<Token>, stampedAt: real, storedAt: real)
    | Consume(token: Token, userSub: string, action: string, readAt: real, checkedAt: real)
    | Gc(at: real)
    | Untouched  // somebody else's request: the store is left alone

  // ---------------------------------------------------------------------------
  // One step
  // ---------------------------------------------------------------------------

  function FirstFree(s: Store, draws: seq<Token>): Option<Token> {
    if draws == [] then None
    else if draws[0] !in s then Some(draws[0])
    else FirstFree(s, draws[1..])
  }

  /** The token that an operation hands out, if it hands one out. */
  function Issued(s: Store, op: Op): Option<Token> {
    if op.Issue? then FirstFree(s, op.draws) else None
  }

  function Fresh(maxAge: real, op: Op): Entry
    requires op.Issue?
  {
    Entry(NonceRecord(op.userSub, op.action, op.stampedAt), op.storedAt + maxAge)
  }

  predicate Accepts(maxAge: real, s: Store, op: Op) {
    && op.Consume? && op.token in s
    && op.readAt <= s[op.token].expiry
    && s[op.token].record.userSub == op.userSub && s[op.token].record.action == op.action
    && op.checkedAt - s[op.token].record.issuedAt <= maxAge
  }

  function Unexpired(s: Store, now: real): Store {
    map t | t in s && s[t].expiry >= now :: s[t]
  }

  function Apply(maxAge: real, s: Store, op: Op): Store {
    match op
    case Issue(_, _, draws, _, _) =>
      (match FirstFree(s, draws)
       case None => s
       case Some(t) => s[t := Fresh(maxAge, op)])
    case Consume(token, _, _, _, _) => s - {token}
    case Gc(at) => Unexpired(s, at)
    case Untouched => s
  }

  function After(maxAge: real, ops: seq<Op>): Store {
    if ops == [] then map[] else Apply(maxAge, After(maxAge, ops[..|ops| - 1]), ops[|ops| - 1])
  }

  lemma AfterStep(maxAge: real, ops: seq<Op>, op: Op)
    ensures After(maxAge, ops + [op]) == Apply(maxAge, After(maxAge, ops), op)
  {
    assert (ops + [op])[..|ops|] == ops;
  }

  /** The token drawn at `k` is handed out, and all drawn before it are taken. */
  ghost predicate IsFirstFree(s: Store, draws: seq<Token>, k: nat) {
    k < |draws| && FirstFree(s, draws) == Some(draws[k]) && forall m :: 0 <= m < k ==> draws[m] in s
  }

  lemma {:induction false} FirstFreeIsFree(s: Store, draws: seq<Token>)
    ensures FirstFree(s, draws).Some? ==> FirstFree(s, draws).value in draws && FirstFree(s, draws).value !in s
    ensures FirstFree(s, draws).None? <==> forall t :: t in draws ==> t in s
    ensures FirstFree(s, draws).Some? ==> exists k :: 0 <= k < |draws| && IsFirstFree(s, draws, k)
  {
    if draws != [] && draws[0] in s {
      FirstFreeIsFree(s, draws[1..]);
      if FirstFree(s, draws).Some? {
        var k :| 0 <= k < |draws[1..]| && IsFirstFree(s, draws[1..], k);
        assert forall m :: 1 <= m < k + 1 ==> draws[m] == draws[1..][m - 1];
        assert IsFirstFree(s, draws, k + 1);
      }
    } else if draws != [] {
      assert IsFirstFree(s, draws, 0);
    }
  }

  /** `issue` never overwrites a live nonce: it fails only when every token it may try is taken,
      and otherwise adds one entry under a token that was free. */
  lemma IssueAddsOne(maxAge: real, s: Store, op: Op)
    requires op.Issue?
    ensures Issued(s, op).None? <==> forall t :: t in op.draws ==> t in s
    ensures Issued(s, op).Some? ==> Issued(s, op).value in op.draws && Issued(s, op).value !in s
    ensures Issued(s, op).Some? ==> exists k :: 0 <= k < |op.draws| && IsFirstFree(s, op.draws, k)
    ensures forall t :: t in s ==> t in Apply(maxAge, s, op) && Apply(maxAge, s, op)[t] == s[t]
  {
    FirstFreeIsFree(s, op.draws);
  }

  // ---------------------------------------------------------------------------
  // Every accepted nonce has an issue of its own
  // ---------------------------------------------------------------------------

  predicate HandsOut(maxAge: real, front: seq<Op>, op: Op, t: Token) {
    Issued(After(maxAge, front), op) == Some(t)
  }

  predicate Takes(op: Op, t: Token) {
    op.Consume? && op.token == t
  }

  /** The last operation of the run that handed out this token, or -1. */
  function LastIssue(maxAge: real, ops: seq<Op>, t: Token): int {
    if ops == [] then -1
    else
      var n := |ops| - 1;
      if HandsOut(maxAge, ops[..n], ops[n], t) then n else LastIssue(maxAge, ops[..n], t)
  }

  /** A live nonce still is what its last issue made it, and nobody has presented it since. */
  lemma {:induction false} LiveEntry(maxAge: real, ops: seq<Op>, t: Token)
    requires t in After(maxAge, ops)
    ensures var i := LastIssue(maxAge, ops, t);
            && 0 <= i < |ops| && HandsOut(maxAge, ops[..i], ops[i], t)
            && After(maxAge, ops)[t] == Fresh(maxAge, ops[i])
            && forall k :: i < k < |ops| ==> !Takes(ops[k], t)
  {
    var n := |ops| - 1;
    var front := ops[..n];
    if HandsOut(maxAge, front, ops[n], t) {
    } else {
      LiveEntry(maxAge, front, t);
      var i := LastIssue(maxAge, front, t);
      assert front[..i] == ops[..i];
    }
  }

  /** The j-th operation is a `consume` that returns True. */
  predicate AcceptedAt(maxAge: real, ops: seq<Op>, j: nat) {
    j < |ops| && Accepts(maxAge, After(maxAge, ops[..j]), ops[j])
  }

  function Origin(maxAge: real, ops: seq<Op>, j: nat): int
    requires j < |ops| && ops[j].Consume?
  {
    LastIssue(maxAge, ops[..j], ops[j].token)
  }

  /** A nonce is accepted only on the strength of an earlier issue of that very token, for the same
      user and the same action, stamped at most max_age seconds before, and not presented in
      between by anybody, rightly or wrongly. */
  lemma AcceptedHasOrigin(maxAge: real, ops: seq<Op>, j: nat)
    requires AcceptedAt(maxAge, ops, j)
    ensures var i := Origin(maxAge, ops, j);
            && 0 <= i < j && ops[i].Issue? && HandsOut(maxAge, ops[..i], ops[i], ops[j].token)
            && ops[i].userSub == ops[j].userSub && ops[i].action == ops[j].action
            && ops[j].checkedAt - ops[i].stampedAt <= maxAge
            && forall k :: i < k < j ==> !Takes(ops[k], ops[j].token)
  {
    LiveEntry(maxAge, ops[..j], ops[j].token);
    var i := Origin(maxAge, ops, j);
    assert ops[..j][..i] == ops[..i];
    assert forall k :: i < k < j ==> ops[..j][k] == ops[k];
  }

  /** Nothing between two positions takes the record away: nobody presents the token, and no `gc` reads
      a time past its expiry. */
  ghost predicate Undisturbed(ops: seq<Op>, i: nat, j: nat, t: Token, expiry: real) {
    forall k :: i < k < j && k < |ops| ==> !Takes(ops[k], t) && !(ops[k].Gc? && expiry < ops[k].at)
  }

  lemma KeepsLive(maxAge: real, s: Store, op: Op, t: Token)
    requires t in s && !Takes(op, t) && !(op.Gc? && s[t].expiry < op.at)
    ensures t in Apply(maxAge, s, op) && Apply(maxAge, s, op)[t] == s[t]
  {
    if op.Issue? {
      IssueAddsOne(maxAge, s, op);
    }
  }

  lemma {:induction false} StaysLive(maxAge: real, ops: seq<Op>, i: nat, t: Token)
    requires i < |ops| && HandsOut(maxAge, ops[..i], ops[i], t)
    requires Undisturbed(ops, i, |ops|, t, ops[i].storedAt + maxAge)
    ensures t in After(maxAge, ops) && After(maxAge, ops)[t] == Fresh(maxAge, ops[i])
    decreases |ops|
  {
    var n := |ops| - 1;
    var front := ops[..n];
    assert ops == front + [ops[n]];
    AfterStep(maxAge, front, ops[n]);
    if i < n {
      hide After;
      assert front[..i] == ops[..i];
      StaysLive(maxAge, front, i, t);
      KeepsLive(maxAge, After(maxAge, front), ops[n], t);
    }
  }

  /** The token was handed out at `i` for this user and action, and `op` is in time. */
  ghost predicate InTime(maxAge: real, ops: seq<Op>, i: nat, op: Op) {
    && op.Consume? && i < |ops| && HandsOut(maxAge, ops[..i], ops[i], op.token)
    && ops[i].userSub == op.userSub && ops[i].action == op.action
    && op.readAt <= ops[i].storedAt + maxAge && op.checkedAt - ops[i].stampedAt <= maxAge
  }

  /** A live record has met no `gc` that read a time past its expiry. */
  lemma {:induction false} NeverExpired(maxAge: real, ops: seq<Op>, i: nat, t: Token)
    requires i < |ops| && ops[i].Issue? && t in After(maxAge, ops) && i == LastIssue(maxAge, ops, t)
    ensures forall k :: i < k < |ops| ==> !(ops[k].Gc? && ops[i].storedAt + maxAge < ops[k].at)
    decreases |ops|
  {
    var n := |ops| - 1;
    var front := ops[..n];
    LiveEntry(maxAge, ops, t);
    if i < n {
      assert front[..i] == ops[..i];
      LiveEntry(maxAge, front, t);
      NeverExpired(maxAge, front, i, t);
    }
  }

  /** When a nonce is accepted, exactly: some earlier issue handed it out to the same user for the same
      action, both clock readings are within `maxAge` of that issue's own, and since then nobody has
      presented the token and no `gc` has found it expired. */
  lemma AcceptedExactly(maxAge: real, ops: seq<Op>, j: nat)
    requires j < |ops| && ops[j].Consume?
    ensures AcceptedAt(maxAge, ops, j)
       <==> exists i :: 0 <= i < j && InTime(maxAge, ops, i, ops[j])
                        && Undisturbed(ops, i, j, ops[j].token, ops[i].storedAt + maxAge)
  {
    hide After;
    var t, front := ops[j].token, ops[..j];
    if AcceptedAt(maxAge, ops, j) {
      AcceptedHasOrigin(maxAge, ops, j);
      LiveEntry(maxAge, front, t);
      var i := Origin(maxAge, ops, j);
      assert front[..i] == ops[..i];
      NeverExpired(maxAge, front, i, t);
      assert forall k :: i < k < j ==> front[k] == ops[k];
    }
    if i :| 0 <= i < j && InTime(maxAge, ops, i, ops[j]) && Undisturbed(ops, i, j, t, ops[i].storedAt + maxAge) {
      assert front[..i] == ops[..i];
      StaysLive(maxAge, front, i, t);
    }
  }

  /** Single use: two accepted nonces never go back to the same issue. */
  lemma OriginsDiffer(maxAge: real, ops: seq<Op>, j: nat, k: nat)
    requires j < k && AcceptedAt(maxAge, ops, j) && AcceptedAt(maxAge, ops, k)
    ensures Origin(maxAge, ops, j) != Origin(maxAge, ops, k)
  {
    AcceptedHasOrigin(maxAge, ops, j);
    AcceptedHasOrigin(maxAge, ops, k);
    if Origin(maxAge, ops, j) == Origin(maxAge, ops, k) {
      assert Takes(ops[j], ops[k].token);
    }
  }

  // ---------------------------------------------------------------------------
  // Conservation
  // ---------------------------------------------------------------------------

  function Issues(maxAge: real, ops: seq<Op>, t: Token): nat {
    if ops == [] then 0
    else
      var n := |ops| - 1;
      Issues(maxAge, ops[..n], t) + if HandsOut(maxAge, ops[..n], ops[n], t) then 1 else 0
  }

  /** Presentations that removed a live nonce, whatever they then returned. */
  function Burned(maxAge: real, ops: seq<Op>, t: Token): nat {
    if ops == [] then 0
    else
      var n := |ops| - 1;
      Burned(maxAge, ops[..n], t) + if Takes(ops[n], t) && t in After(maxAge, ops[..n]) then 1 else 0
  }

  function Collected(maxAge: real, ops: seq<Op>, t: Token): nat {
    if ops == [] then 0
    else
      var n := |ops| - 1;
      Collected(maxAge, ops[..n], t)
      + if ops[n].Gc? && t in After(maxAge, ops[..n]) && t !in After(maxAge, ops) then 1 else 0
  }

  function Acceptances(maxAge: real, ops: seq<Op>, t: Token): nat {
    if ops == [] then 0
    else
      var n := |ops| - 1;
      Acceptances(maxAge, ops[..n], t)
      + if Takes(ops[n], t) && Accepts(maxAge, After(maxAge, ops[..n]), ops[n]) then 1 else 0
  }

  /** Every nonce handed out is burned once, collected once, or still live; so no token is ever
      accepted more often than it was issued. */
  lemma {:induction false} NonceConservation(maxAge: real, ops: seq<Op>, t: Token)
    ensures Issues(maxAge, ops, t)
         == Burned(maxAge, ops, t) + Collected(maxAge, ops, t) + if t in After(maxAge, ops) then 1 else 0
    ensures Acceptances(maxAge, ops, t) <= Burned(maxAge, ops, t) <= Issues(maxAge, ops, t)
  {
    if ops != [] {
      var n := |ops| - 1;
      NonceConservation(maxAge, ops[..n], t);
      if ops[n].Issue? {
        FirstFreeIsFree(After(maxAge, ops[..n]), ops[n].draws);
      }
    }
  }

  /** A presented nonce is gone, even if the presentation was refused: whatever happens next,
      nobody can use the token until some later call hands it out again. */
  lemma {:induction false} PresentingBurns(maxAge: real, pre: seq<Op>, op: Op, post: seq<Op>)
    requires op.Consume?
    requires forall k :: 0 <= k < |post| ==> !HandsOut(maxAge, pre + [op] + post[..k], post[k], op.token)
    ensures op.token !in After(maxAge, pre + [op] + post)
  {
    hide After;
    if post == [] {
      AfterStep(maxAge, pre, op);
      assert pre + [op] + post == pre + [op];
    } else {
      var n := |post| - 1;
      forall k | 0 <= k < n ensures !HandsOut(maxAge, pre + [op] + post[..n][..k], post[..n][k], op.token) {
        assert post[..n][..k] == post[..k];
      }
      PresentingBurns(maxAge, pre, op, post[..n]);
      assert !HandsOut(maxAge, pre + [op] + post[..n], post[n], op.token);
      assert pre + [op] + post == pre + [op] + post[..n] + [post[n]];
      AfterStep(maxAge, pre + [op] + post[..n], post[n]);
    }
  }

  // ---------------------------------------------------------------------------
  // Collecting garbage is invisible
  // ---------------------------------------------------------------------------

  /** `small` is `big` without some entries that had expired by `at`. */
  ghost predicate Trimmed(big: Store, small: Store, at: real) {
    && (forall t :: t in small ==> t in big && big[t] == small[t])
    && (forall t :: t in big && t !in small ==> big[t].expiry < at)
  }

  /** From `at` on the clock is not set back, and `issue` draws tokens nobody holds. */
  ghost predicate Regular(big: Store, op: Op, at: real) {
    && (op.Consume? ==> at <= op.readAt)
    && (op.Issue? ==> op.draws != [] && op.draws[0] !in big)
  }

  lemma TrimmedStep(maxAge: real, big: Store, small: Store, op: Op, at: real)
    requires Trimmed(big, small, at) && Regular(big, op, at)
    ensures Trimmed(Apply(maxAge, big, op), Apply(maxAge, small, op), at)
    ensures Issued(big, op) == Issued(small, op) && (Accepts(maxAge, big, op) <==> Accepts(maxAge, small, op))
  {
  }

  lemma {:induction false} GcTrims(maxAge: real, pre: seq<Op>, at: real, post: seq<Op>)
    requires forall k :: 0 <= k < |post| ==> Regular(After(maxAge, pre + post[..k]), post[k], at)
    ensures Trimmed(After(maxAge, pre + post), After(maxAge, pre + [Gc(at)] + post), at)
  {
    hide After;
    if post == [] {
      AfterStep(maxAge, pre, Gc(at));
      assert pre + post == pre && pre + [Gc(at)] + post == pre + [Gc(at)];
    } else {
      var n := |post| - 1;
      var front, op := post[..n], post[n];
      forall k | 0 <= k < n ensures Regular(After(maxAge, pre + front[..k]), front[k], at) {
        assert front[..k] == post[..k];
      }
      GcTrims(maxAge, pre, at, front);
      TrimmedStep(maxAge, After(maxAge, pre + front), After(maxAge, pre + [Gc(at)] + front), op, at);
      AfterStep(maxAge, pre + front, op);
      AfterStep(maxAge, pre + [Gc(at)] + front, op);
      assert pre + post == pre + front + [op];
      assert pre + [Gc(at)] + post == pre + [Gc(at)] + front + [op];
    }
  }

  /** Running `gc` at any point changes neither what a later `consume` answers nor which token a
      later `issue` returns, provided the clock is not set back behind it and tokens are fresh. */
  lemma GcInvisible(maxAge: real, pre: seq<Op>, at: real, post: seq<Op>, k: nat)
    requires forall j :: 0 <= j < |post| ==> Regular(After(maxAge, pre + post[..j]), post[j], at)
    requires k < |post|
    ensures var big, small := After(maxAge, pre + post[..k]), After(maxAge, pre + [Gc(at)] + post[..k]);
            && Issued(big, post[k]) == Issued(small, post[k])
            && (Accepts(maxAge, big, post[k]) <==> Accepts(maxAge, small, post[k]))
  {
    hide After;
    forall j | 0 <= j < k ensures Regular(After(maxAge, pre + post[..k][..j]), post[..k][j], at) {
      assert post[..k][..j] == post[..j];
    }
    GcTrims(maxAge, pre, at, post[..k]);
    TrimmedStep(maxAge, After(maxAge, pre + post[..k]), After(maxAge, pre + [Gc(at)] + post[..k]), post[k], at);
  }

  /** A nonce whose record expires at `t`. */
  function IssueUntil(maxAge: real, t: real): Op {
    Issue("alice", "a", ["t"], -maxAge, t - maxAge)
  }

  function UseAt(t: real): Op {
    Consume("t", "alice", "a", t, 0.0)
  }

  lemma LastMoment(maxAge: real, at: real, t: real)
    requires t < at
    ensures Accepts(maxAge, After(maxAge, [IssueUntil(maxAge, t)]), UseAt(t))
    ensures !Accepts(maxAge, After(maxAge, [IssueUntil(maxAge, t)] + [Gc(at)]), UseAt(t))
  {
    var issue := IssueUntil(maxAge, t);
    assert [] + [issue] == [issue];
    AfterStep(maxAge, [], issue);
    AfterStep(maxAge, [issue], Gc(at));
  }

  /** The exact condition at one reading: a `gc` that read `at` can make no difference to a `consume`
      that reads `t` right after it if and only if `at <= t`. */
  lemma GcHiddenExactly(maxAge: real, at: real, t: real)
    ensures at <= t
       <==> forall pre: seq<Op>, op: Op :: op.Consume? && op.readAt == t ==>
              (Accepts(maxAge, After(maxAge, pre), op) <==> Accepts(maxAge, After(maxAge, pre + [Gc(at)]), op))
  {
    if at <= t {
      forall pre: seq<Op>, op: Op | op.Consume? && op.readAt == t
        ensures Accepts(maxAge, After(maxAge, pre), op) <==> Accepts(maxAge, After(maxAge, pre + [Gc(at)]), op)
      {
        AfterStep(maxAge, pre, Gc(at));
      }
    } else {
      LastMoment(maxAge, at, t);
      var pre, op := [IssueUntil(maxAge, t)], UseAt(t);
      assert Accepts(maxAge, After(maxAge, pre), op) && !Accepts(maxAge, After(maxAge, pre + [Gc(at)]), op);
    }
  }

  /** Each `consume` among the operations reads the clock as the list says. */
  ghost predicate ReadsAre(post: seq<Op>, clock: seq<real>) {
    |post| == |clock| && forall k :: 0 <= k < |post| && post[k].Consume? ==> post[k].readAt == clock[k]
  }

  /** Every `issue` draws a token nobody holds. */
  ghost predicate FreshTokens(maxAge: real, pre: seq<Op>, post: seq<Op>) {
    forall k :: 0 <= k < |post| && post[k].Issue? ==>
      post[k].draws != [] && post[k].draws[0] !in After(maxAge, pre + post[..k])
  }

  /** A `gc` at `at` between `pre` and `post` changes no answer and no token of `post`. */
  ghost predicate GcHidden(maxAge: real, pre: seq<Op>, at: real, post: seq<Op>) {
    forall k :: 0 <= k < |post| ==>
      var big, small := After(maxAge, pre + post[..k]), After(maxAge, pre + [Gc(at)] + post[..k]);
      && Issued(big, post[k]) == Issued(small, post[k])
      && (Accepts(maxAge, big, post[k]) <==> Accepts(maxAge, small, post[k]))
  }

  /** One `consume` among requests that leave the store alone. */
  function OnlyUse(clock: seq<real>, k: nat): seq<Op>
    requires k < |clock|
  {
    seq(|clock|, i => if i == k then UseAt(clock[k]) else Untouched)
  }

  lemma {:induction false} IdleKeeps(maxAge: real, pre: seq<Op>, idle: seq<Op>)
    requires forall i :: 0 <= i < |idle| ==> idle[i] == Untouched
    ensures After(maxAge, pre + idle) == After(maxAge, pre)
  {
    hide After;
    if idle == [] {
      assert pre + idle == pre;
    } else {
      var n := |idle| - 1;
      IdleKeeps(maxAge, pre, idle[..n]);
      assert pre + idle == pre + idle[..n] + [Untouched];
      AfterStep(maxAge, pre + idle[..n], Untouched);
    }
  }

  lemma EarlierReadTells(maxAge: real, at: real, clock: seq<real>, k: nat)
    requires k < |clock| && clock[k] < at
    ensures var pre, post := [IssueUntil(maxAge, clock[k])], OnlyUse(clock, k);
            ReadsAre(post, clock) && FreshTokens(maxAge, pre, post) && !GcHidden(maxAge, pre, at, post)
  {
    hide After, Accepts;
    var pre, post := [IssueUntil(maxAge, clock[k])], OnlyUse(clock, k);
    IdleKeeps(maxAge, pre, post[..k]);
    IdleKeeps(maxAge, pre + [Gc(at)], post[..k]);
    LastMoment(maxAge, at, clock[k]);
    assert post[k] == UseAt(clock[k]);
  }

  /** The exact condition over runs: a `gc` is hidden in every run with fresh tokens whose later
      `consume` calls read these times if and only if none of the times lies before its own. */
  lemma GcHiddenOnRunsExactly(maxAge: real, at: real, clock: seq<real>)
    ensures (forall k :: 0 <= k < |clock| ==> at <= clock[k])
       <==> forall pre, post :: ReadsAre(post, clock) && FreshTokens(maxAge, pre, post) ==> GcHidden(maxAge, pre, at, post)
  {
    hide After;
    if forall k :: 0 <= k < |clock| ==> at <= clock[k] {
      forall pre, post | ReadsAre(post, clock) && FreshTokens(maxAge, pre, post)
        ensures GcHidden(maxAge, pre, at, post)
      {
        forall k | 0 <= k < |post|
          ensures var big, small := After(maxAge, pre + post[..k]), After(maxAge, pre + [Gc(at)] + post[..k]);
                  && Issued(big, post[k]) == Issued(small, post[k])
                  && (Accepts(maxAge, big, post[k]) <==> Accepts(maxAge, small, post[k]))
        {
          GcInvisible(maxAge, pre, at, post, k);
        }
      }
    } else {
      var k :| 0 <= k < |clock| && clock[k] < at;
      EarlierReadTells(maxAge, at, clock, k);
      assert !GcHidden(maxAge, [IssueUntil(maxAge, clock[k])], at, OnlyUse(clock, k));
    }
  }

  /** In numbers: a nonce issued at 0 and collected by a `gc` that read 100 would have been accepted
      by a `consume` that reads 30. */
  lemma GcVisibleAfterClockSetBack()
    ensures var issue := Issue("alice", "a", ["t"], 0.0, 0.0);
            var use := Consume("t", "alice", "a", 30.0, 30.0);
            && AcceptedAt(60.0, [issue, use], 1)
            && !AcceptedAt(60.0, [issue, Gc(100.0), use], 2)
  {
    var issue, use := Issue("alice", "a", ["t"], 0.0, 0.0), Consume("t", "alice", "a", 30.0, 30.0);
    assert [issue, use][..1] == [] + [issue];
    AfterStep(60.0, [], issue);
    assert [issue, Gc(100.0), use][..2] == [issue] + [Gc(100.0)];
    AfterStep(60.0, [issue], Gc(100.0));
    assert [issue] == [] + [issue];
  }

  // ---------------------------------------------------------------------------
  // The objects
  // ---------------------------------------------------------------------------

  class InMemoryNonceBackend {
    var records: Store

    constructor ()
      ensures records == map[]
    {
      records := map[];
    }

    method SetNx(key: Token, value: NonceRecord, ttl: real, now: real) returns (stored: bool)
      modifies this
      ensures stored <==> key !in old(records)
      ensures records == if stored then old(records)[key := Entry(value, now + ttl)] else old(records)
    {
      if key in records {
        return false;
      }
      records := records[key := Entry(value, now + ttl)];
      return true;
    }

    method GetDel(key: Token, now: real) returns (value: Option<NonceRecord>)
      modifies this
      ensures records == old(records) - {key}
      ensures value == if key in old(records) && now <= old(records)[key].expiry
                       then Some(old(records)[key].record) else None
    {
      if key !in records {
        assert records - {key} == records;
        return None;
      }
      var entry := records[key];
      records := records - {key};
      if now > entry.expiry {
        return None;
      }
      return Some(entry.record);
    }

    method Collect(now: real) returns (purged: nat)
      modifies this
      ensures records == Unexpired(old(records), now)
      ensures purged == |old(records)| - |records|
    {
      var expired := set k | k in records && records[k].expiry < now;
      ghost var was := records;
      purged := 0;
      var left := expired;
      while left != {}
        invariant left <= expired
        invariant forall k :: k in records <==> k in was && (k in left || k !in expired)
        invariant forall k :: k in records ==> records[k] == was[k]
        invariant purged + |records| == |was|
        decreases left
      {
        var k :| k in left;
        assert records.Keys == (records - {k}).Keys + {k};
        assert |records.Keys| == |(records - {k}).Keys| + 1;
        records := records - {k};
        left := left - {k};
        purged := purged + 1;
      }
      assert records == Unexpired(was, now);
    }
  }

  class MfaNonceManager {
    const maxAge: real
    const backend: InMemoryNonceBackend
    ghost var history: seq<Op>

    ghost predicate Valid()
      reads this, backend
    {
      backend.records == After(maxAge, history)
    }

    constructor (maxAge: real)
      ensures Valid() && fresh(backend) && this.maxAge == maxAge && history == []
    {
      this.maxAge := maxAge;
      backend := new InMemoryNonceBackend();
      history := [];
    }

    /** None stands for the RuntimeError raised when three tokens in a row are taken. */
    method IssueNonce(userSub: string, action: string, draws: seq<Token>, stampedAt: real, storedAt: real)
      returns (token: Option<Token>)
      requires Valid() && |draws| == 3
      modifies this, backend
      ensures Valid() && history == old(history) + [Issue(userSub, action, draws, stampedAt, storedAt)]
      ensures token == Issued(old(backend.records), Issue(userSub, action, draws, stampedAt, storedAt))
      ensures token.Some? ==> token.value !in old(backend.records) && token.value in backend.records
      ensures token.Some? ==> backend.records[token.value].record == NonceRecord(userSub, action, stampedAt)
      ensures token.None? ==> forall t :: t in draws ==> t in backend.records
      ensures forall t :: t in old(backend.records) ==> t in backend.records && backend.records[t] == old(backend.records)[t]
    {
      ghost var op := Issue(userSub, action, draws, stampedAt, storedAt);
      AfterStep(maxAge, history, op);
      IssueAddsOne(maxAge, backend.records, op);
      var nonce := NonceRecord(userSub, action, stampedAt);
      var round := 0;
      while round < 3
        invariant 0 <= round <= 3 && backend.records == old(backend.records)
        invariant FirstFree(backend.records, draws) == FirstFree(backend.records, draws[round..])
        invariant Valid() && history == old(history)
      {
        var stored := backend.SetNx(draws[round], nonce, maxAge, storedAt);
        if stored {
          history := history + [op];
          return Some(draws[round]);
        }
        round := round + 1;
      }
      history := history + [op];
      return None;
    }

    method ConsumeNonce(token: Token, userSub: string, action: string, readAt: real, checkedAt: real)
      returns (ok: bool)
      requires Valid()
      modifies this, backend
      ensures Valid() && history == old(history) + [Consume(token, userSub, action, readAt, checkedAt)]
      ensures ok <==> Accepts(maxAge, old(backend.records), Consume(token, userSub, action, readAt, checkedAt))
      ensures backend.records == old(backend.records) - {token}
    {
      AfterStep(maxAge, history, Consume(token, userSub, action, readAt, checkedAt));
      history := history + [Consume(token, userSub, action, readAt, checkedAt)];
      var found := backend.GetDel(token, readAt);
      if found.None? {
        return false;
      }
      if found.value.userSub != userSub || found.value.action != action {
        return false;
      }
      return checkedAt - found.value.issuedAt <= maxAge;
    }

    /** A request came and went without using the store. */
    ghost method LeaveAlone()
      requires Valid()
      modifies this
      ensures Valid() && history == old(history) + [Untouched]
    {
      AfterStep(maxAge, history, Untouched);
      history := history + [Untouched];
    }

    method CollectGarbage(now: real) returns (purged: nat)
      requires Valid()
      modifies this, backend
      ensures Valid() && history == old(history) + [Gc(now)]
      ensures purged == |old(backend.records)| - |backend.records|
    {
      AfterStep(maxAge, history, Gc(now));
      history := history + [Gc(now)];
      purged := backend.Collect(now);
    }
  }
}
