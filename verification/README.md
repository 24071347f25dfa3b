# Verified models of the compliance portal

This project models the parts of the compliance portal whose correctness depends on state, time or
interleaving, and proves what they promise over whole runs. It covers the resilience layer of the
compliance API client, the single-use MFA nonces and the three kinds of signature they protect, the
life cycles of reports and of data subject requests, two caches with expiry, and four
transformations of text and streams.

Run `dafny verify dfyconfig.toml` to check everything.

## How it is built

Code that only computes is written as functions. Code that updates fields is written as a class
with those fields; a ghost `history` records the calls made, `Valid()` says that the fields are what
the history makes them, and the theorems are lemmas about all histories.

| file | what it models |
|---|---|
| `circuit_breaker.dfy` | the breaker's three states, its sliding window and its single probe |
| `retry.dfy` | the backoff schedule |
| `request_loop.dfy` | one API call: permission, attempts, what each attempt tells the breaker |
| `interleaving.dfy` | any number of such calls on one breaker, interleaved at every await |
| `mfa_nonce.dfy` | the nonce manager over its in-memory backend |
| `signature_ledger.dfy` | the gate, report and model-review routes that share one nonce manager |
| `report_lifecycle.dfy`, `dsr_lifecycle.dfy` | the two life cycles, with handlers acting on stale copies (`stale_copies.dfy`) |
| `report_signing.dfy`, `review_signing.dfy` | a report's life cycle, and a model review, in one run with the ledger (`joint_runs.dfy`) |
| `session_store.dfy` | the lazily expiring session store against an ideal one |
| `pdf_cache.dfy` | watermark ids, cache keys and the export pipeline around the cache |
| `body_replay.dfy` | reading a form body under a cap and replaying it |
| `sql_normaliser.dfy` | the SQL normalisation of the audit-write guard |
| `doc_paths.dfy` | relative links between project documents, against RFC 3986 |
| `redaction.dfy` | redaction of log events |
| `text.dfy`, `options.dfy`, `principals.dfy` | shared strings, options and roles |

Inputs from outside are parameters, so every statement holds for all of them: the outcome of each
wire attempt, the clocks, random draws and tokens, what the compliance service returns, the bytes a
renderer produces, which cache entries vanish and when. Two digests are assumed not to collide, and
only on the requests of the run at hand (`PdfExport.NoCollision`).

Times are reals. The breaker's clock is monotonic, as the source's is. The wall clock of the nonce
manager and of the session store is unconstrained; where a property needs it not to be set back, a
lemma says exactly which sequences of readings it holds for, and another gives a run that fails.

## What the proofs turned up

Each of these is a place where the code does not do quite what its comments, or a natural reading,
promise. The model follows the code.

- A half-open probe whose first answer is a 4xx, or an exception outside the caught list, tells the
  breaker nothing; on the upload route a 5xx does not either. The probe flag then stays set and the
  breaker refuses every later call, whatever time passes (`Interleaving.SilentProbeWedges`). A
  breaker found half-open always owes it to one probe that has told it nothing
  (`Interleaving.HalfOpenMeansSilentProbe`), and it can still be left if and only if some call is
  in flight (`Interleaving.LeavesOnlyThroughACallInFlight`).
- The final "exhausted" raise of the request loop, marked as unreachable, is reached exactly when
  the call is allowed no attempt at all (`RequestLoop.TraceTable`).
- The test for 502, 503 and 504 among terminal statuses is dead: those are retryable and have been
  dealt with above.
- The backoff loop never caps its first delay, so its closed form holds for all rounds if and only
  if the base does not exceed the cap (`Retry.ClosedForm`).
- The PDF cache isolates auditors from each other, but everybody else only per role: neither the
  printed identity, nor the title, nor the demand for a byte-range signature is part of the key
  (`PdfExport.SameExportsShare`). A version "noetag" or "" is the same as none
  (`PdfExport.NoEtagShares`). The isolation holds for runs in which no component, role or version has
  a colon (`PdfExport.HitsAreIsolated`). One export whose version has colons is enough to lose it
  for others, with or without colons of their own (`PdfExport.ColonsServeAnotherDocument`); which
  exports share a raw key with a legal one of another document, role or version is said exactly by
  `PdfExport.ConfusedExactly`.
- Purging nonces (given fresh tokens) and expiring sessions are invisible exactly as long as the
  clock is not set back behind them (`MfaNonces.GcHiddenOnRunsExactly`,
  `SessionStore.RefinesExactlyWhenSteady`).
- A model review reaches `signed_off` by the transition route as well, with neither MFA nor a nonce
  (`ReviewSigning.TransitionFinishes`). A signed-off review has a protected sign-off if and only if
  that route did not take it there (`ReviewSigning.SignedExactlyWhenNotMoved`).
- The body reader's comment says that a disconnect yields an empty body. It yields what had arrived
  so far (`BodyReplay.CutOffBodyIsKept`), and the application then sees that as a complete body
  (`BodyReplay.ForwardPreservesBody`).
- The SQL normaliser strips block comments before line comments, so an opener inside a line comment
  counts: that line and all following ones up to a closer vanish together
  (`SqlNormaliser.OpenerInLineComment`). Outside open block comments, a line comment is the same as
  nothing before its line end if and only if it closes every block comment that it opens and does
  not follow a lone dash (`SqlNormaliser.LineCommentInvisibleExactly`). A block comment is the same
  as a space if and only if it does not stand inside an open one
  (`SqlNormaliser.InvisibleExactlyWhenSettled`).
- Link resolution and section 5.2.4 of RFC 3986 part when ".." meets an empty segment on top of
  names. `DocPaths.AlikeThroughoutExactly` is the exact condition for one target at every segment,
  `DocPaths.TargetsAgreeExactly` for all links below a directory.
- Redaction looks into mappings, lists and tuples only; sets and other objects are logged as they
  are.

## Model

| member | source | states |
|---|---|---|
| CircuitBreakers.ProbeFlagIsHalfOpen | src/shared/api_client/circuit_breaker.py:46-93 | in every run HALF_OPEN and the in-flight flag are the same condition, so a second half-open permission cannot be given |
| CircuitBreakers.SingleProbe | src/shared/api_client/circuit_breaker.py:55-93 | a breaker that is not CLOSED admits at most one request until an outcome is recorded, and any recorded outcome ends HALF_OPEN |
| CircuitBreakers.QueueTracksStreak | src/shared/api_client/circuit_breaker.py:68-98 | the pruned queue and the full history of failures since the last success agree on every cutoff a later clock reading can ask about |
| CircuitBreakers.TripsExactly | src/shared/api_client/circuit_breaker.py:75-98 | a CLOSED breaker trips at a failure if and only if that failure and those of the streak no older than the window number at least the threshold; otherwise the queue is exactly those failures |
| CircuitBreakers.StaysClosedExactly | src/shared/api_client/circuit_breaker.py:46-98 | a breaker stays CLOSED throughout a run if and only if every failure finds fewer than threshold in the window, itself included |
| CircuitBreakers.ClosedGrants | src/shared/api_client/circuit_breaker.py:52-53 | after any run, a permission asked of a CLOSED breaker is granted and leaves it CLOSED |
| CircuitBreakers.HealthyServiceIsNeverCutOff | src/shared/api_client/circuit_breaker.py:46-98 | as long as the failures never fill the window, every single permission asked for is granted |
| CircuitBreakers.TripConservation | src/shared/api_client/circuit_breaker.py:68-93 | threshold times trips, plus reopenings, plus what the CLOSED queue holds, never exceeds the failures recorded; a CLOSED queue is always short of a trip |
| CircuitBreakers.CooldownSpacing | src/shared/api_client/circuit_breaker.py:55-66 | from any breaker that is not CLOSED, each admission before the next success moves the earliest possible following one a full cooldown on |
| CircuitBreakers.CooldownsFloor | src/shared/api_client/circuit_breaker.py:56-56 | n cooldowns fit into a span if and only if n is at most the floor of span over cooldown |
| CircuitBreakers.CooldownsFit | src/shared/api_client/circuit_breaker.py:46-93 | after a trip or reopening at t0 and until a success, the cooldowns of all admitted requests fit into the time since t0, for any cooldown |
| CircuitBreakers.OutageLoadBound | src/shared/api_client/circuit_breaker.py:46-93 | so, for a positive cooldown, at most floor((t - t0) / cooldown) requests are admitted, under any interleaving of permissions and late failures |
| CircuitBreakers.OutageBoundIsTight | src/shared/api_client/circuit_breaker.py:46-93 | for every n a fresh breaker has a timely run, a burst that trips it and n probes, that admits exactly floor((t - t0) / cooldown) = n requests, so the bound cannot be improved |
| CircuitBreakers.BurstTrips | src/shared/api_client/circuit_breaker.py:75-93 | threshold failures at one moment trip a fresh breaker, one fewer leaves it CLOSED |
| CircuitBreakers.CircuitBreaker.constructor | src/shared/api_client/circuit_breaker.py:26-40 | a new breaker is CLOSED, empty, with no probe |
| CircuitBreakers.CircuitBreaker.Prune | src/shared/api_client/circuit_breaker.py:95-98 | the popping loop drops exactly the stale prefix |
| CircuitBreakers.CircuitBreaker.CanRequest | src/shared/api_client/circuit_breaker.py:46-66 | always grants when CLOSED, grants when OPEN exactly after the cooldown, when HALF_OPEN exactly without a probe; a refusal changes nothing but the queue; the new state is the run extended by this call |
| CircuitBreakers.CircuitBreaker.RecordSuccess | src/shared/api_client/circuit_breaker.py:68-73 | always ends CLOSED, empty and without a probe, and leaves the opening time alone |
| CircuitBreakers.CircuitBreaker.RecordFailure | src/shared/api_client/circuit_breaker.py:75-93 | trips a CLOSED breaker exactly when the window over the whole history is full, reopens a half-open one, and in OPEN moves neither mode nor opening time |
| Retry.ClosedForm | src/shared/api_client/retry.py:23-30 | for any factor and base from zero up, the loop's i-th nominal delay is the capped geometric term for all i if and only if the base is at most the cap |
| Retry.NominalGrows | src/shared/api_client/retry.py:29-29 | with a factor of at least one, nominal delays never shrink and stay between base and cap |
| Retry.NominalWithinCap | src/shared/api_client/retry.py:29-29 | with any factor from zero up, nominal delays stay between zero and the cap |
| Retry.JitterBand | src/shared/api_client/retry.py:27-28 | a jittered delay lies within its band and the clamp at zero never acts for jitter up to 1 |
| Retry.BackoffDelays | src/shared/api_client/retry.py:8-30 | the loop returns one delay fewer than attempts, each the jittered nominal delay of its round |
| Retry.SleepBound | src/shared/api_client/retry.py:8-30 | every delay is within the jitter band around the capped geometric term, and any prefix sleeps at most cap times (1 + jitter) a round |
| Retry.StandardDelays | src/shared/api_client/retry.py:8-30 | the default schedule in seconds: 0.075 to 0.125, then 0.3 to 0.5, then 1.2 to 2.0 for ever, one delay fewer than attempts |
| RequestLoop.TraceUnique | src/shared/api_client/client.py:249-306 | the network's outcomes determine attempts, verdict and reports: the trace predicate has one solution |
| RequestLoop.TraceTable | src/shared/api_client/client.py:249-306 | a run returns if and only if its last attempt is a non-redirect below 400; how many failures and successes it records in each case; "exhausted" if and only if no attempt is allowed |
| RequestLoop.PolicyInNumbers | src/shared/api_client/client.py:249-298 | which exceptions and status numbers are tried again, end the call, count as a failure, as a success or not at all: 500 to 599 are retried failures, 400 to 499 end the call unrecorded, a redirect is a failure, below 400 the one success |
| RequestLoop.UploadInNumbers | src/shared/api_client/client.py:725-759 | the same for the upload: one attempt, three exceptions and redirects are failures, every status from 400 up is unrecorded |
| RequestLoop.AttemptsMax | src/shared/api_client/client.py:245-245 | a GET may use all attempts, any other method at most two of them |
| RequestLoop.ProbeVerdict | src/shared/api_client/client.py:258-298 | what a probe's own run does to a half-open breaker: closed if and only if it returned, still half-open if and only if its first outcome goes unrecorded or it made no attempt |
| RequestLoop.ComplianceClient.Settle | src/shared/api_client/client.py:258-298 | one attempt tells the breaker exactly the reports of its outcome and says whether to try again and how the call would end |
| RequestLoop.ComplianceClient.Send | src/shared/api_client/client.py:227-306 | a refused call leaves the wire alone; an admitted one asks once, makes a complete trace of attempts, tells the breaker exactly that trace's reports in order, never indexes past the delays, and sleeps before each further attempt for the time that the default schedule gives in seconds |
| RequestLoop.ComplianceClient.UploadIdentityProof | src/shared/api_client/client.py:725-759 | the upload is the one-attempt trace with its shorter list of recorded outcomes |
| RequestLoop.SleptWithin | src/shared/api_client/client.py:246-262 | under the default schedule any number of sleeps adds up to at most two seconds each |
| Interleaving.BreakerRun | src/shared/api_client/client.py:227-306 | however calls interleave, the shared breaker sees one run of its own events, so every breaker theorem applies |
| Interleaving.EveryCallTraces | src/shared/api_client/client.py:227-306 | in every interleaving each finished call was refused without touching the wire or made a complete trace of its own |
| Interleaving.RefusedByAnOpenBreaker | src/shared/api_client/client.py:228-234 | in every interleaving a call that is refused asked a breaker that was not CLOSED |
| Interleaving.LoadWithinBudget | src/shared/api_client/client.py:245-288 | attempts are paid from the budget left at the start and from permissions granted: a retry never asks again |
| Interleaving.OutageWireBound | src/shared/api_client/client.py:227-288 | with the breaker open since t0 and k calls still in flight, newly admitted calls number n with n at most floor((t - t0) / cooldown), they send at most attempts times n requests, and all together at most attempts times (n + k) |
| Interleaving.HalfOpenMeansSilentProbe | src/shared/api_client/client.py:258-295 | a run that ends half-open has one permission that took the breaker from OPEN to HALF_OPEN, nothing was recorded since, and that very call is silent; with no call in flight it has finished and its own first outcome went unrecorded |
| Interleaving.SilentProbeWedges | src/shared/api_client/circuit_breaker.py:62-64 | half-open with nobody in flight, no permission is ever granted again and nothing reaches the wire |
| Interleaving.LeavesOnlyThroughACallInFlight | src/shared/api_client/circuit_breaker.py:62-93 | from any half-open system HALF_OPEN can still be left, from any clock reading on, if and only if a call is in flight |
| Interleaving.OneSilentProbeSuffices | src/shared/api_client/client.py:291-295 | from any cooled-down open breaker one call whose answer goes unrecorded leads there |
| Interleaving.StartIsLegal | src/shared/api_client/circuit_breaker.py:36-40 | a fresh breaker with idle calls satisfies what the run theorems assume |
| MfaNonces.IssueAddsOne | src/portal/auth/mfa.py:233-247 | issue never overwrites a live record; it fails only if all tokens it may try are taken |
| MfaNonces.LiveEntry | src/portal/auth/mfa.py:101-127 | a live record is what its last issue made it, and nobody has presented the token since |
| MfaNonces.AcceptedHasOrigin | src/portal/auth/mfa.py:249-271 | every accepted consume goes back to an earlier issue of that token for the same user and action, at most max_age_s old, not presented in between |
| MfaNonces.AcceptedExactly | src/portal/auth/mfa.py:227-271 | a consume is accepted if and only if an earlier issue handed the token to the same user for the same action, both clock readings are within max_age_s of that issue's own, and since then nobody presented the token and no gc found it expired |
| MfaNonces.OriginsDiffer | src/portal/auth/mfa.py:200-205 | two accepted consumes never go back to the same issue |
| MfaNonces.NonceConservation | src/portal/auth/mfa.py:101-127 | per token, issues are burned, collected or live, each exactly once; acceptances never exceed issues |
| MfaNonces.PresentingBurns | src/portal/auth/mfa.py:113-120 | a presented nonce, accepted or refused, stays gone until handed out anew |
| MfaNonces.GcTrims | src/portal/auth/mfa.py:122-127 | inserting a gc anywhere removes only expired records from every later store |
| MfaNonces.GcInvisible | src/portal/auth/mfa.py:278-283 | inserting a gc anywhere changes no later consume and no later issue, given fresh tokens and a clock not set back |
| MfaNonces.GcHiddenExactly | src/portal/auth/mfa.py:113-127 | a gc makes no difference to a consume right after it, for any store, if and only if the consume does not read an earlier time |
| MfaNonces.GcHiddenOnRunsExactly | src/portal/auth/mfa.py:227-283 | a gc is hidden in all runs with fresh tokens whose consumes read given times if and only if none of the times is earlier than the gc's |
| MfaNonces.GcVisibleAfterClockSetBack | src/portal/auth/mfa.py:117-124 | a numeric run with the clock set back in which gc does change a consume |
| MfaNonces.InMemoryNonceBackend.SetNx | src/portal/auth/mfa.py:107-111 | stores exactly when the key is free, with its deadline |
| MfaNonces.InMemoryNonceBackend.GetDel | src/portal/auth/mfa.py:113-120 | always removes the key, returns the value up to and including the deadline |
| MfaNonces.InMemoryNonceBackend.Collect | src/portal/auth/mfa.py:122-127 | leaves exactly the records not past their deadline and counts the others |
| MfaNonces.MfaNonceManager.IssueNonce | src/portal/auth/mfa.py:227-247 | tries three tokens, returns the first free one bound to user and action, touches no other record |
| MfaNonces.MfaNonceManager.ConsumeNonce | src/portal/auth/mfa.py:249-271 | true exactly for a live record of that user and action that is fresh enough; removes it either way |
| MfaNonces.MfaNonceManager.CollectGarbage | src/portal/auth/mfa.py:278-283 | removes the expired records and returns how many |
| SignatureLedger.ActionsAreUnambiguous | src/portal/routers/gates.py:89-91 | the three families of action strings are disjoint and each gives its target back |
| SignatureLedger.EveryCallHasItsView | src/portal/routers/reports.py:249-252 | every protected decision, signature or sign-off goes back to an earlier page view of the same target by the same user that handed out this nonce, at most 60 seconds old, when the target was eligible |
| SignatureLedger.SensitiveGatesNeedMfa | src/portal/routers/gates.py:69-69 | a gate is protected if and only if its classification spells confidential or restricted, letter by letter up to case |
| SignatureLedger.SensitiveDecisionsHaveTheirView | src/portal/routers/gates.py:161-298 | whoever gets a decision on a confidential or restricted gate through had an MFA at most 60 seconds old and had opened that very gate, not their own, whose page gave them this nonce at most 60 seconds before |
| SignatureLedger.DecisionsInFull | src/portal/routers/gates.py:195-298 | for each kind of answer to a decision, by roles, decision, ownership, classification, MFA age and nonce, exactly when it is given, and what is done to the nonce store |
| SignatureLedger.SignaturesInFull | src/portal/routers/reports.py:345-393 | the same for report signatures and model-review sign-offs |
| SignatureLedger.ViewsInFull | src/portal/routers/reports.py:246-252 | which page views issue a nonce, to whom and for which action, and that no other touches the store |
| SignatureLedger.PagesAreServed | src/portal/routers/model_cards.py:42-43 | who is refused a page, and that a page fails only if all tokens drawn for it are taken |
| SignatureLedger.ViewsAreNotShared | src/portal/routers/model_cards.py:279-303 | one page view authorises at most one protected call |
| SignatureLedger.Portal.GateDetail | src/portal/routers/gates.py:154-187 | a nonce is issued exactly for a writer viewing a confidential or restricted gate that is not their own |
| SignatureLedger.Portal.GateDecide | src/portal/routers/gates.py:195-298 | the order and codes of all refusals; a protected gate is decided only on an accepted nonce, others without one |
| SignatureLedger.Portal.ReportDetail | src/portal/routers/reports.py:239-267 | a nonce is issued exactly for a writer viewing an approved report |
| SignatureLedger.Portal.ReportSign | src/portal/routers/reports.py:345-393 | stage, MFA and nonce are checked in this order, with their codes, before the signing call |
| SignatureLedger.Portal.ModelCardDetail | src/portal/routers/model_cards.py:117-135 | a served page carries nonces for exactly the reviews in decision, each live, new and bound to its review; readers are always served, writers unless all tokens drawn for some review in decision were taken |
| SignatureLedger.Portal.ReviewSignOff | src/portal/routers/model_cards.py:260-303 | MFA and nonce are checked, the review's state is not |
| ReportLifecycle.LastEvent | src/portal/routers/reports.py:306-337 | each event moves the stage along the table or not at all, and only an approval by an admin other than the author enters approved, only an authorised sign enters signed |
| ReportLifecycle.EventsInFull | src/portal/routers/reports.py:280-439 | for each event on an up-to-date copy, by roles, stage, author, authorisation and channel, exactly where it moves the report |
| ReportLifecycle.Provenance | src/portal/routers/reports.py:306-393 | in every run, whatever stale copies handlers saw, a report past approval was approved from review by an admin other than its author, and a signed one was signed afterwards while approved |
| ReportLifecycle.NoWayBack | src/portal/services/report_workflow.py:27-54 | after approval each change advances exactly one stage, so at most two remain |
| ReportSigning.SignedReportsWereViewed | src/portal/routers/reports.py:239-393 | in a joint run of ledger and life cycle, a signed or delivered report was signed by a protected call, while approved, whose nonce came from a view by the same user that showed this report approved, at most 60 seconds old |
| ReportSigning.SourceIsAView | src/portal/routers/reports.py:249-252 | every protected sign request of the report goes back to such a view |
| JointRuns.EveryProtectedActHasItsView | src/portal/routers/model_cards.py:131-135 | the ledger theorem at the positions of a run that also has other events |
| ReviewSigning.SignedExactlyWhenNotMoved | src/portal/routers/model_cards.py:185-303 | a signed-off review has a protected sign-off that took it there, on a nonce from a view by the same user that showed it in decision, if and only if no call of the transition route took it there |
| ReviewSigning.TransitionFinishes | src/portal/routers/model_cards.py:45-51 | from every run in decision one call of the transition route by any writer signs the review off, unseen by the ledger |
| ReviewSigning.MovesInFull | src/portal/routers/model_cards.py:195-246 | a call of the transition route on an up-to-date copy moves the review exactly to its one successor, by a writer, into decision only with a valid decision and 30 characters of rationale |
| ReviewSigning.StaysSignedOff | src/portal/routers/model_cards.py:50-50 | signed_off is final |
| DsrLifecycle.LastEvent | src/portal/routers/dsr.py:244-307 | each event follows the table, and only a verification by an officer other than the submitter enters the verified region |
| DsrLifecycle.VerificationDominates | src/portal/routers/dsr.py:56-79 | every run to verified, processing, evidence_generated, delivered or closed contains a verified step with a method, by somebody other than the non-empty submitter |
| DsrLifecycle.ClosedTookEveryStage | src/portal/routers/dsr.py:56-77 | every run to closed has a verification and after it processing, evidence_generated and delivered, in this order |
| DsrLifecycle.CallsNeedVerification | src/portal/routers/dsr.py:336-454 | generating evidence, issuing a delivery token and closing are only ever requested after such a step, even on stale copies |
| DsrLifecycle.TerminalAbsorbs | src/portal/routers/dsr.py:73-79 | closed, rejected and identity_rejected are final |
| DsrLifecycle.TerminalExactly | src/portal/routers/dsr.py:79-87 | the terminal states are those that can be entered and not left |
| DsrLifecycle.TransitionsInFull | src/portal/routers/dsr.py:244-307 | a transition on an up-to-date copy happens if and only if the officer has a role for it, the state leads there, a rejection has a reason, a verification a method, and the identity decisions an officer who is not the submitter |
| DsrLifecycle.RoutesFollowTheTable | src/portal/routers/dsr.py:336-445 | evidence, delivery and closing are requested exactly from the states that lead to them |
| DsrLifecycle.TablesAgree | src/dsr_portal/identity_state_machine.py:41-67 | on identity states the internal and the public table are the same relation |
| DsrLifecycle.SodTestsAgree | src/dsr_portal/identity_state_machine.py:80-84 | the router's separation-of-duties test is the public helper |
| DsrLifecycle.IdentityPrefixSimulates | src/dsr_portal/identity_state_machine.py:41-67 | while a request is in identity states every step is a step of the public sub-machine |
| DsrLifecycle.IdentityPathLifts | src/dsr_portal/identity_state_machine.py:41-67 | every path of the public sub-machine is the run of some internal request |
| SessionStore.LazyIsSwept | src/portal/auth/session.py:71-94 | the lazy table is at every moment the ideal one without some entries that have expired |
| SessionStore.LazyRefinesIdeal | src/portal/auth/session.py:71-94 | with a clock not set back every get and exists answers as the abstract map that hides expired entries |
| SessionStore.OneReadHidesNothing | src/portal/auth/session.py:71-79 | a read at one time hides nothing from a read at another, for any store, if and only if it is not later |
| SessionStore.RefinesExactlyWhenSteady | src/portal/auth/session.py:71-94 | all runs stamped with given clock readings refine the abstract map if and only if, from the second reading on, none is later than one that follows it |
| SessionStore.ClockSetBackIsVisible | src/portal/auth/session.py:76-78 | a numeric run with the clock set back in which they differ |
| SessionStore.RotationEffect | src/portal/auth/session.py:47-61 | rotate is a delete of a non-empty old id followed by a store of the new one |
| SessionStore.RotationSticks | src/portal/auth/session.py:47-61 | whatever calls follow a rotate, the new id maps to the payload until its deadline unless set or deleted, other sessions show what they would have shown, the old id stays absent until set again |
| SessionStore.InMemorySessionStore.GetSession | src/portal/auth/session.py:71-79 | at any clock reading returns what the stored entries show, and with no reading set back what the ideal store over the whole history shows |
| SessionStore.InMemorySessionStore.SessionExists | src/portal/auth/session.py:87-94 | at any clock reading true exactly when the stored entries show the session, and with no reading set back when the ideal store does |
| SessionStore.InMemorySessionStore.SetSession | src/portal/auth/session.py:81-82 | stores the payload with its deadline and changes nothing else |
| SessionStore.InMemorySessionStore.DeleteSession | src/portal/auth/session.py:84-85 | removes the entry; true for any entry still stored, expired or not |
| SessionStore.InMemorySessionStore.CreateSession | src/portal/auth/session.py:41-45 | stores the payload under the drawn id and returns it |
| SessionStore.InMemorySessionStore.RotateSession | src/portal/auth/session.py:47-61 | performs exactly the rotation that the lemmas are about |
| PdfKeys.ValidatedIsWellFormed | src/portal/pdf/watermark.py:50-59 | validation leaves non-blank fields without the reserved bar |
| PdfKeys.CheckedExactly | src/portal/pdf/watermark.py:50-59 | a field is accepted with exactly its trimmed text, if and only if that is not empty and has no bar |
| PdfKeys.ValidatedExactly | src/portal/pdf/watermark.py:32-59 | the same for both fields of a watermark |
| PdfKeys.MarkPreimageInjective | src/portal/pdf/cache.py:33-46 | the watermark preimage determines auditor and engagement |
| PdfKeys.RawKeyInjective | src/portal/pdf/cache.py:57-62 | two raw keys are equal if and only if all five fields are, for document ids that may contain colons |
| PdfKeys.OneReadingExactly | src/portal/pdf/cache.py:57-62 | with colon-free component, role and mark, a raw key has only one reading with colons in the document alone if and only if the version has no colon |
| PdfKeys.ColonInTagCollides | src/portal/pdf/cache.py:58-61 | role and mark can be moved from the document into the version without changing the raw key |
| PdfExport.EntriesWereGenerated | src/portal/pdf/service.py:316-326 | every cached entry was generated by an earlier legal export with that key |
| PdfExport.GeneratedIsAsAsked | src/portal/pdf/service.py:200-311 | a generated export carries the signed bytes if and only if it demanded a byte-range signature, which takes a signer and a document id; it fails exactly when an ingredient is missing |
| PdfExport.HitsAreAsAsked | src/portal/pdf/service.py:177-198 | the bytes of a hit are what the export asked for that generated them |
| PdfExport.CachedUntilEvicted | src/portal/pdf/service.py:316-326 | what was generated is hit until it is evicted or generated anew |
| PdfExport.KeyIsIdentity | src/portal/pdf/service.py:168-174 | two legal exports share a key if and only if component, document, role, version and watermark agree |
| PdfExport.HitsAreIsolated | src/portal/pdf/service.py:156-198 | in every interleaving of lookups, completions and evictions a hit returns bytes generated for the same component, document, role, version and, for auditors, the same auditor and engagement |
| PdfExport.SameExportsShare | src/portal/pdf/service.py:168-198 | nothing else tells exports apart: identity, title and the demand for a byte-range signature do not |
| PdfExport.ConfusedExactly | src/portal/pdf/service.py:168-174 | a legal export with colon-free component and role has the raw key of a legal, colon-free-version export of another document, role or version if and only if its version has a colon, something follows the last one, and the two pieces of role:mark:version before that are a role and a mark that a legal export can have |
| PdfExport.ColonsServeAnotherDocument | src/portal/pdf/service.py:168-198 | two legal exports of different documents, for every role, mark and digest, of which the second hits and carries the first one's bytes |
| PdfExport.NoEtagShares | src/portal/pdf/cache.py:60-60 | two versions of one request share a key exactly when they are equal or both say none: absent, empty or "noetag" |
| PdfExport.PdfCache.Lookup | src/portal/pdf/cache.py:98-105 | returns the stored entry or nothing, counting a hit or a miss |
| PdfExport.PdfCache.Put | src/portal/pdf/cache.py:107-109 | stores the entry under its key |
| PdfExport.PdfCache.Drop | src/portal/pdf/cache.py:111-119 | removes exactly the given entries |
| PdfExport.PdfService.ExportPdf | src/portal/pdf/service.py:147-349 | exactly which arguments are refused, the lookup, and the bytes of a miss: signed if demanded, as rendered if not, a failure only if an ingredient is missing; one run of lookup and completion, counted as one hit or one miss |
| BodyReplay.ReadingCharacterised | src/portal/middleware/csrf_mw.py:94-113 | the reader gives up if and only if the body exceeds the cap, returns the whole body if and only if it ends within it, and otherwise waits |
| BodyReplay.ChunkingIsInvisible | src/portal/middleware/csrf_mw.py:101-113 | a body is the concatenation of its chunks however it is cut |
| BodyReplay.EveryChunkingReads | src/portal/middleware/csrf_mw.py:94-113 | every chunking of a body is read back as that body, or refused exactly above 1 MiB |
| BodyReplay.OthersAreSkipped | src/portal/middleware/csrf_mw.py:106-107 | messages of other types change nothing wherever they come |
| BodyReplay.CutOffBodyIsKept | src/portal/middleware/csrf_mw.py:104-105 | a body cut off by a disconnect is read as far as it had come |
| BodyReplay.ReadFullBody | src/portal/middleware/csrf_mw.py:94-113 | the loop computes that reading and its buffer never exceeds the cap |
| BodyReplay.ReplayChannel.Receive | src/portal/middleware/csrf_mw.py:122-132 | the channel delivers the body once and then disconnects for ever |
| BodyReplay.ReadReplayRead | src/portal/middleware/csrf_mw.py:116-134 | reading what was replayed gives back what was read |
| BodyReplay.Handle | src/portal/middleware/csrf_mw.py:221-262 | an exempt or safe request is passed on; a header token, if there is one, decides alone and the body is not read; otherwise a form body up to 1 MiB is read, decides by its token, and is replayed |
| BodyReplay.ForwardPreservesBody | src/portal/middleware/csrf_mw.py:221-251 | the application reads exactly the bytes sent; it sees them end alike if and only if no form body was cut off by a disconnect |
| SqlNormaliser.NormalisedText | src/portal/middleware/audit_guard.py:60-68 | the output holds no complete block comment, no double dash and only single plain spaces |
| SqlNormaliser.NormaliseIdempotent | src/portal/middleware/audit_guard.py:60-68 | normalising twice is normalising once |
| SqlNormaliser.LinesAreIndependent | src/portal/middleware/audit_guard.py:57-57 | line comments never reach across a line end |
| SqlNormaliser.LineCommentIsSpace | src/portal/middleware/audit_guard.py:63-63 | to the line stage alone, a comment at the head of a line is one space |
| SqlNormaliser.LineTail | src/portal/middleware/audit_guard.py:63-63 | what a line comment adds to the text before it at the line stage: nothing inside a comment, a space otherwise, in place of a lone dash if there is one |
| SqlNormaliser.CommentsAreInvisible | src/portal/middleware/audit_guard.py:86-96 | a block comment in place of a space outside an open comment changes neither the normalised text nor the verdict, for every pattern |
| SqlNormaliser.VerdictOnNormalText | src/portal/middleware/audit_guard.py:86-96 | on text in normal form the verdict is the pattern's own, on any other that of its normal form, and the empty text is never guarded |
| SqlNormaliser.InvisibleExactlyWhenSettled | src/portal/middleware/audit_guard.py:56-62 | comment and space are interchangeable behind a prefix, for all bodies and continuations, if and only if the prefix leaves no block comment open |
| SqlNormaliser.OpenerInLineComment | src/portal/middleware/audit_guard.py:60-68 | a line comment that opens a block comment, the lines after it and the line comment with the closer normalise to one space, whatever else the lines hold |
| SqlNormaliser.LineCommentInvisibleExactly | src/portal/middleware/audit_guard.py:60-68 | behind a prefix with no open block comment, for every continuation, a line comment and nothing before the line end normalise alike if and only if the comment leaves no block comment open and no lone dash precedes it |
| DocPaths.ResolveSegments | src/portal/routers/project_docs.py:584-593 | the stack loop computes the resolution function |
| DocPaths.ResolvedIsPlainAndStable | src/portal/routers/project_docs.py:584-594 | the result has no empty, dot or dot-dot segment and resolving it again changes nothing |
| DocPaths.ResolveComposes | src/portal/routers/project_docs.py:579-593 | resolving below a directory is continuing from the resolved directory, normalised or not |
| DocPaths.LinkStartsAtItsDirectory | src/portal/routers/project_docs.py:578-593 | a link is followed from the directory of its document, also at the root |
| DocPaths.LinkReplacesTheName | src/portal/routers/project_docs.py:578-583 | the href takes the place of the document's own name, whatever stands before it |
| DocPaths.EveryDocumentIsReachable | src/portal/routers/project_docs.py:578-594 | enough dot-dot segments lead to the root and never above it, from where every document is reached |
| DocPaths.RemoveDotsBySegments | src/portal/routers/project_docs.py:584-593 | the string routine of section 5.2.4 of RFC 3986 is a walk over segments, the form to compare the portal's loop with |
| DocPaths.StepAgreement | src/portal/routers/project_docs.py:586-593 | at one segment the loop and the standard part if and only if dot-dot meets an empty segment above names |
| DocPaths.AlikeThroughoutExactly | src/portal/routers/project_docs.py:584-593 | a target is read alike at every segment if and only if no dot-dot in it meets an empty segment above names |
| DocPaths.ExactAgreement | src/portal/routers/project_docs.py:584-593 | from one stack they give the same names for every further path if and only if no empty segment lies above a name |
| DocPaths.TargetsAgreeExactly | src/portal/routers/project_docs.py:579-594 | all links below a directory are read alike if and only if the directory is and the standard's reading of it has no name below an empty segment |
| DocPaths.DoubledSlashDiffers | src/portal/routers/project_docs.py:587-590 | the shortest target on which they differ |
| DocPaths.AgreesWithStandard | src/portal/routers/project_docs.py:584-594 | for every target without doubled slashes the loop is the standard's routine up to a trailing slash |
| DocPaths.AgreesAfterSqueezing | src/portal/routers/project_docs.py:584-594 | for every target the loop is the standard's routine on the target without its empty segments |
| Redaction.RedactedAt | src/portal/logging.py:61-71 | lookup along any path: commutes with redaction where no key is sensitive, gives the fixed text at the first sensitive key, nothing beyond |
| Redaction.SensitiveInFull | src/portal/logging.py:25-64 | a key is withheld if and only if it spells one of the names of subject data or secrets, letter by letter up to case |
| Redaction.NothingConfidentialIsLogged | src/portal/logging.py:25-71 | what stands under such a name, at any depth, never reaches a log line, and no other key is withheld for its own name |
| Redaction.RedactionIsIdempotent | src/portal/logging.py:61-71 | redacting twice is redacting once |
| Redaction.WalkKeepsHead | src/portal/logging.py:62-71 | keys, their order, lengths and kinds of containers are preserved |
| Redaction.LogsExactlyTheVisible | src/portal/logging.py:55-76 | two events give the same log line if and only if they agree along every path without a sensitive key |

## Left out

- The HTTP transport, request paths and their guard, headers, parameters, the mapping of error
  responses to typed exceptions, and the parsing of the upload's answer.
- `Send` and `UploadIdentityProof` run one call without interruption; calls that interleave are the
  step machine of `interleaving.dfy`, which promises the same traces.
- A task cancelled while it sleeps between two attempts, or waits for the breaker's lock, ends without
  the verdict its trace would have; cancellation on the wire is one of the uncaught exceptions.
- What the compliance service answers in `signature_ledger.dfy` is arbitrary. In the two life cycles
  it is a store that applies the same stage table again; its own moves are listed as events. Each
  run there follows one report or one request. `delivered` is entered by the transition that the
  delivery route asks for; the delivery record itself is not modelled.
- The page view of a model card is one ledger step for each review in decision.
- Length checks on form fields, audit events, page contents, and the undecodable-record branches of
  `consume`, which the in-memory backend cannot produce.
- The Redis backends of nonces and sessions, and the workings of the TTL cache: entries may vanish
  at any time, for any reason.
- Lower-casing covers ASCII and the Kelvin sign only, which decides equality with an ASCII word just
  as full lower-casing does.
- A request that must step up is answered by 401 in `signature_ledger.dfy`, the code that the
  exception carries; the handler that turns it into a 302 for page requests is not modelled.
- The review of a model card is modelled up to its state; a missing review (404) and the fields of a
  transition other than its target, decision and rationale length are not.
- JSON encoding of sessions and nonces; rendering, metadata and signing of PDFs; SHA-256, base64 and
  the token manager. A watermark digest is taken to be 22 characters without a colon.
- The CSRF cookie set on responses, path normalisation and exemption, cookie and header parsing,
  character sets: the token extracted from a form body is an arbitrary function of the body.
- The pattern for audit-table writes is an arbitrary predicate on normalised text; patching of the
  connection pool is not modelled, nor is SQL's own reading of comments inside string literals.
- Which links are rewritten at all, the tag pattern around them, and the path check of the document
  route.
- Rounding of floating-point times and delays; lifetimes are reals, where the source takes whole seconds.
- Endpoint wrappers, page models, dashboards, schedules, report diffs, role mapping and front end.
