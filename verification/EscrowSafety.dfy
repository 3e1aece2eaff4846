/** What every interleaving of the escrow protocol keeps. */
module EscrowSafety {
  import opened Prelude
  import opened Text
  import opened ProofPolicy
  import opened EscrowAttestation
  import opened EscrowStore
  import opened EscrowProtocol

  // --- vocabulary --------------------------------------------------------------------------------------

  function KeyOf(r: Release): (string, string)
    requires r.BaselineRelease?
  {
    (r.baseline.account, r.baseline.configHash)
  }

  function FinalKeyOf(r: Release): (string, int)
    requires r.FinalRelease?
  {
    (r.final.account, r.final.pactId)
  }

  /** A baseline row holds exactly what was attested when it was recorded. */
  ghost predicate RowMatches(row: BaselineRow, r: Release)
    requires r.BaselineRelease?
  {
    && (row.walletAddress, row.configHash) == KeyOf(r)
    && row.identityHash == r.baseline.identityHash
    && row.nullifier == r.baseline.nullifier
    && row.baselineXp == r.baselineXp
    && row.baselineObservedAt == r.observedAt
    && row.baselineSessionId == r.sessionId
  }

  /** A finals row holds exactly what was attested when it was last written. */
  ghost predicate FinalRowMatches(row: FinalRow, r: Release)
    requires r.FinalRelease?
  {
    && (row.walletAddress, row.pactId) == FinalKeyOf(r)
    && row.identityHash == r.final.identityHash
    && row.earnedXp == r.final.earnedXp
    && row.targetXp == r.final.targetXp
    && row.finalXp == r.finalXp
    && row.finalObservedAt == r.final.occurredAt
    && row.nullifier == r.final.nullifier
    && row.finalSessionId == r.sessionId
  }

  /** The last final released for a (wallet, Lock). */
  function LastFinal(releases: seq<Release>, key: (string, int)): (r: Option<Release>)
    ensures r.Some? ==> r.value.FinalRelease? && FinalKeyOf(r.value) == key && r.value in releases
    ensures r.None? ==> forall i :: 0 <= i < |releases| && releases[i].FinalRelease? ==> FinalKeyOf(releases[i]) != key
  {
    if releases == [] then None
    else
      var last := releases[|releases| - 1];
      if last.FinalRelease? && FinalKeyOf(last) == key then Some(last)
      else LastFinal(releases[..|releases| - 1], key)
  }

  function ReleasesOf(releases: seq<Release>, id: string): nat {
    if releases == [] then 0
    else ReleasesOf(releases[..|releases| - 1], id) + if releases[|releases| - 1].sessionId == id then 1 else 0
  }

  /** The final rests on a baseline release that came before it, for the same wallet, configuration and
      Duolingo identity, and clears the Lock's own target inside the Lock's own window. */
  ghost predicate Clears(f: Release, b: Release, terms: PactTerms)
    requires f.FinalRelease? && b.BaselineRelease?
  {
    && KeyOf(b) == (f.final.account, terms.configHash)
    && b.baseline.identityHash == f.final.identityHash == f.chainIdentity
    && b.observedAt < f.final.occurredAt
    && terms.startsAt <= f.final.occurredAt <= terms.startsAt + terms.durationSeconds
    && f.baselineXp == b.baselineXp
    && f.final.earnedXp == f.finalXp - b.baselineXp
    && 0 < f.final.targetXp == terms.targetXp <= f.final.earnedXp
  }

  ghost predicate Justified(pacts: map<int, PactTerms>, releases: seq<Release>, i: nat)
    requires i < |releases| && releases[i].FinalRelease?
  {
    && releases[i].final.pactId in pacts
    && exists j :: 0 <= j < i && releases[j].BaselineRelease?
                   && Clears(releases[i], releases[j], pacts[releases[i].final.pactId])
  }

  /** Both proofs behind a release name its wallet, its session and, for a final, its Lock and phase. */
  ghost predicate ProofsBound(proofs: seq<TrustedData>, wallet: string, sessionId: string, message: string) {
    && |proofs| == 2
    && forall k :: 0 <= k < 2 ==>
        && "contextAddress" in proofs[k].context && proofs[k].context["contextAddress"].Text?
        && ToLower(proofs[k].context["contextAddress"].text) == wallet
        && "contextMessage" in proofs[k].context && proofs[k].context["contextMessage"] == Field.Text(message)
        && "reclaimSessionId" in proofs[k].context
        && proofs[k].context["reclaimSessionId"] == Field.Text(sessionId)
  }

  /** The attested identity and XP are those of the account and the total the proofs state. */
  ghost predicate FiguresSigned(hashes: SignerHashes, proofs: seq<TrustedData>, identityHash: string, xp: int) {
    exists profileId :: FieldsState(proofs, profileId, xp) && identityHash == hashes.identity(profileId)
  }

  /** The nullifier an account spends on one action. */
  function ActionNullifier(hashes: SignerHashes, identityHash: string, input: ContextInput): string {
    match input
    case CreateContext(nonce) => hashes.nullifier(identityHash, Create, Nonce(ToLower(nonce)))
    case JoinContext(id) => hashes.nullifier(identityHash, Join, Pact(id))
    case FinalContext(id) => hashes.nullifier(identityHash, Intent.Final, Pact(id))
  }

  /** A baseline spends the nullifier of the create or join action that its proofs name. */
  ghost predicate BoundToAction(hashes: SignerHashes, proofs: ProofSet, b: BaselineAttestation, id: string,
                                input: ContextInput)
  {
    && !input.FinalContext? && ContextMessage(input).Ok?
    && ProofsBound(proofs.data, b.account, id, ContextMessage(input).value)
    && b.nullifier == ActionNullifier(hashes, b.identityHash, input)
  }

  /** Account, figures, time, action and lifetime of what was released all rest on its proof set. */
  ghost predicate ReleaseBound(hashes: SignerHashes, r: Release) {
    match r
    case BaselineRelease(id, proofs, b, xp, time) =>
      && FiguresSigned(hashes, proofs.data, b.identityHash, xp)
      && TimeSigned(proofs.data, proofs.timestamps, time)
      && b.expiresAt == b.issuedAt + 300
      && exists input :: BoundToAction(hashes, proofs, b, id, input)
    case FinalRelease(id, proofs, f, _, _, xp) =>
      && FiguresSigned(hashes, proofs.data, f.identityHash, xp)
      && TimeSigned(proofs.data, proofs.timestamps, f.occurredAt)
      && f.expiresAt == f.issuedAt + 300
      && ContextMessage(FinalContext(f.pactId)).Ok?
      && ProofsBound(proofs.data, f.account, id, ContextMessage(FinalContext(f.pactId)).value)
      && f.nullifier == hashes.nullifier(f.identityHash, Intent.Final, Pact(f.pactId))
  }

  // --- the invariant -----------------------------------------------------------------------------------

  ghost predicate SessionRowOk(s: State, id: string)
    requires id in s.db.sessions
  {
    var row := s.db.sessions[id];
    && row.session.sessionId == id
    && SessionShape(row.session)
    && ToLower(row.session.walletAddress) == row.session.walletAddress
    && (row.consumedAt.Some? ==> row.session.duolingoProfileId == "")
  }

  ghost predicate SessionsOk(s: State) {
    forall id :: id in s.db.sessions ==> SessionRowOk(s, id)
  }

  ghost predicate LoadedOk(session: Session) {
    && SessionShape(session)
    && ToLower(session.walletAddress) == session.walletAddress
  }

  ghost predicate VerifiedOk(session: Session, proofs: ProofSet, evidence: Evidence) {
    && ProofsBound(proofs.data, session.walletAddress, session.sessionId, session.contextMessage)
    && evidence.phase == session.phase
    && FieldsState(proofs.data, evidence.profileId, evidence.totalXp)
    && TimeSigned(proofs.data, proofs.timestamps, evidence.observedAt)
  }

  ghost predicate SignedBaselineOk(hashes: SignerHashes, session: Session, evidence: Evidence,
                                   attestation: BaselineAttestation)
  {
    && session.phase == Phase.Baseline
    && attestation.account == session.walletAddress
    && attestation.identityHash == hashes.identity(evidence.profileId)
    && attestation.nullifier == ActionNullifier(hashes, attestation.identityHash, OwnContext(session))
    && attestation.expiresAt == attestation.issuedAt + 300
  }

  ghost predicate PactOk(s: State, session: Session, pactId: int, pact: PactView) {
    && session.phase == Phase.Final && session.pactId == Some(pactId)
    && pactId in s.pacts && s.pacts[pactId] == pact.terms
  }

  /** A signed final agrees with the stored baseline and with the Lock's terms. */
  ghost predicate PlanOk(hashes: SignerHashes, s: State, session: Session, evidence: Evidence, plan: FinalPlan) {
    var f := plan.attestation;
    && session.phase == Phase.Final && session.pactId == Some(f.pactId)
    && f.account == session.walletAddress
    && f.identityHash == hashes.identity(evidence.profileId) && plan.finalXp == evidence.totalXp
    && f.occurredAt == evidence.observedAt && f.expiresAt == f.issuedAt + 300
    && plan.chainIdentity == f.identityHash
    && f.pactId in s.pacts
    && var terms := s.pacts[f.pactId];
       var key := (f.account, terms.configHash);
    && key in s.db.baselines
    && var row := s.db.baselines[key];
    && row.identityHash == f.identityHash
    && row.baselineObservedAt < f.occurredAt
    && terms.startsAt <= f.occurredAt <= terms.startsAt + terms.durationSeconds
    && plan.baselineXp == row.baselineXp
    && f.earnedXp == plan.finalXp - row.baselineXp
    && 0 < f.targetXp == terms.targetXp <= f.earnedXp
    && f.nullifier == hashes.nullifier(f.identityHash, Intent.Final, Pact(f.pactId))
  }

  ghost predicate RequestOk(hashes: SignerHashes, s: State, r: Request) {
    match r
    case Answered => true
    case Loaded(session) => LoadedOk(session)
    case Verified(session, proofs, evidence) => LoadedOk(session) && VerifiedOk(session, proofs, evidence)
    case BaselineSigned(session, proofs, evidence, attestation) =>
      && LoadedOk(session) && VerifiedOk(session, proofs, evidence)
      && SignedBaselineOk(hashes, session, evidence, attestation)
    case PactChecked(session, proofs, evidence, pactId, pact) =>
      LoadedOk(session) && VerifiedOk(session, proofs, evidence) && PactOk(s, session, pactId, pact)
    case FinalSigned(session, proofs, evidence, plan) =>
      LoadedOk(session) && VerifiedOk(session, proofs, evidence) && PlanOk(hashes, s, session, evidence, plan)
  }

  ghost predicate RequestsOk(hashes: SignerHashes, s: State) {
    forall req :: req in s.requests ==> RequestOk(hashes, s, s.requests[req])
  }

  ghost predicate RecordedBy(releases: seq<Release>, row: BaselineRow) {
    exists i :: 0 <= i < |releases| && releases[i].BaselineRelease? && RowMatches(row, releases[i])
  }

  /** Baseline rows and baseline releases correspond one to one. */
  ghost predicate BaselinesOk(s: State) {
    && (forall i :: 0 <= i < |s.releases| && s.releases[i].BaselineRelease? ==>
          && KeyOf(s.releases[i]) in s.db.baselines
          && RowMatches(s.db.baselines[KeyOf(s.releases[i])], s.releases[i]))
    && (forall key :: key in s.db.baselines ==>
          && key == (s.db.baselines[key].walletAddress, s.db.baselines[key].configHash)
          && RecordedBy(s.releases, s.db.baselines[key]))
    && (forall i, j :: 0 <= i < j < |s.releases| && s.releases[i].BaselineRelease? && s.releases[j].BaselineRelease?
          ==> KeyOf(s.releases[i]) != KeyOf(s.releases[j]))
  }

  ghost predicate FinalsJustified(s: State) {
    forall i :: 0 <= i < |s.releases| && s.releases[i].FinalRelease? ==> Justified(s.pacts, s.releases, i)
  }

  ghost predicate FinalsOk(s: State) {
    forall key ::
      && (key in s.db.finals <==> LastFinal(s.releases, key).Some?)
      && (key in s.db.finals ==> FinalRowMatches(s.db.finals[key], LastFinal(s.releases, key).value))
  }

  ghost predicate ReleasesBound(hashes: SignerHashes, s: State) {
    forall i :: 0 <= i < |s.releases| ==> ReleaseBound(hashes, s.releases[i])
  }

  /** An id has at most as many releases as insertions, and one less while its row waits to be consumed. */
  ghost predicate SessionSpent(s: State, id: string) {
    ReleasesOf(s.releases, id) + (if Unconsumed(s.db.sessions, id) then 1 else 0) <= s.saved[id]
  }

  ghost predicate SessionsSpent(s: State) {
    forall id :: SessionSpent(s, id)
  }

  ghost predicate Safe(hashes: SignerHashes, s: State) {
    && SessionsOk(s) && RequestsOk(hashes, s) && BaselinesOk(s) && FinalsJustified(s)
    && FinalsOk(s) && ReleasesBound(hashes, s) && SessionsSpent(s)
  }

  // --- steps that only touch sessions, requests or pacts -----------------------------------------------

  /** A request's obligations survive any growth of the pacts and the baseline rows. */
  lemma RequestOkMonotone(hashes: SignerHashes, s: State, t: State, r: Request)
    requires RequestOk(hashes, s, r)
    requires forall p :: p in s.pacts ==> p in t.pacts && t.pacts[p] == s.pacts[p]
    requires forall k :: k in s.db.baselines ==> k in t.db.baselines && t.db.baselines[k] == s.db.baselines[k]
    ensures RequestOk(hashes, t, r)
  {
  }

  lemma RequestsOkMonotone(hashes: SignerHashes, s: State, t: State)
    requires RequestsOk(hashes, s)
    requires forall p :: p in s.pacts ==> p in t.pacts && t.pacts[p] == s.pacts[p]
    requires forall k :: k in s.db.baselines ==> k in t.db.baselines && t.db.baselines[k] == s.db.baselines[k]
    ensures forall req :: req in s.requests ==> RequestOk(hashes, t, s.requests[req])
  {
    forall req | req in s.requests ensures RequestOk(hashes, t, s.requests[req]) {
      RequestOkMonotone(hashes, s, t, s.requests[req]);
    }
  }

  /** The part of safety about rows and releases only looks at these fields; Locks may be added. */
  lemma HistoryFrame(hashes: SignerHashes, s: State, t: State)
    requires BaselinesOk(s) && FinalsJustified(s) && FinalsOk(s) && ReleasesBound(hashes, s)
    requires t.releases == s.releases && t.db.baselines == s.db.baselines && t.db.finals == s.db.finals
    requires forall p :: p in s.pacts ==> p in t.pacts && t.pacts[p] == s.pacts[p]
    ensures BaselinesOk(t) && FinalsJustified(t) && FinalsOk(t) && ReleasesBound(hashes, t)
  {
    assert BaselinesOk(t);
    forall i | 0 <= i < |t.releases| && t.releases[i].FinalRelease? ensures Justified(t.pacts, t.releases, i) {
      assert Justified(s.pacts, s.releases, i);
    }
    assert FinalsOk(t) by {
      forall key
        ensures key in t.db.finals <==> LastFinal(t.releases, key).Some?
        ensures key in t.db.finals ==> FinalRowMatches(t.db.finals[key], LastFinal(t.releases, key).value)
      {
      }
    }
  }

  /** The part of safety about session rows only looks at these fields. */
  lemma SessionFrame(s: State, t: State)
    requires SessionsOk(s) && SessionsSpent(s)
    requires t.db.sessions == s.db.sessions && t.releases == s.releases
    requires t.saved == s.saved
    ensures SessionsOk(t) && SessionsSpent(t)
  {
    forall id ensures SessionSpent(t, id) { assert SessionSpent(s, id); }
    forall id | id in t.db.sessions ensures SessionRowOk(t, id) { assert SessionRowOk(s, id); }
  }

  /** Replacing one request by another sound one, and nothing else, keeps the state safe. */
  lemma SetKeepsSafe(hashes: SignerHashes, s: State, req: nat, r: Request)
    requires Safe(hashes, s) && RequestOk(hashes, s, r)
    ensures Safe(hashes, Set(s, req, r))
  {
    var t := Set(s, req, r);
    RequestsOkMonotone(hashes, s, t);
    RequestOkMonotone(hashes, s, t, r);
    HistoryFrame(hashes, s, t);
    SessionFrame(s, t);
  }

  /** Answering a request needs nothing of it. */
  lemma AnsweredRequestsOk(hashes: SignerHashes, s: State, t: State, req: nat)
    requires RequestsOk(hashes, s) && t.requests == s.requests[req := Answered]
    requires forall p :: p in s.pacts ==> p in t.pacts && t.pacts[p] == s.pacts[p]
    requires forall k :: k in s.db.baselines ==> k in t.db.baselines && t.db.baselines[k] == s.db.baselines[k]
    ensures RequestsOk(hashes, t)
  {
    RequestsOkMonotone(hashes, s, t);
  }

  lemma CreatePactKeepsSafe(hashes: SignerHashes, s: State, a: Action)
    requires Safe(hashes, s) && a.CreatePact?
    ensures Safe(hashes, Step(hashes, s, a))
  {
    if a.newPact !in s.pacts {
      var t := s.(pacts := s.pacts[a.newPact := a.terms]);
      RequestsOkMonotone(hashes, s, t);
      HistoryFrame(hashes, s, t);
      SessionFrame(s, t);
    }
  }

  lemma StoredShape(session: Session)
    requires SessionShape(session)
    ensures SessionShape(StoredSession(session))
    ensures ToLower(StoredSession(session).walletAddress) == StoredSession(session).walletAddress
  {
    ToLowerIdempotent(session.walletAddress);
  }

  lemma SaveKeepsSafe(hashes: SignerHashes, s: State, session: Session)
    requires Safe(hashes, s) && session.sessionId !in s.db.sessions && SessionShape(session)
    ensures Safe(hashes, s.(
                   db := AfterSave(s.db, session, s.now),
                   saved := s.saved + multiset{session.sessionId}))
  {
    var id := session.sessionId;
    var t := s.(db := AfterSave(s.db, session, s.now), saved := s.saved + multiset{id});
    RequestsOkMonotone(hashes, s, t);
    HistoryFrame(hashes, s, t);
    StoredShape(session);
    forall other ensures SessionSpent(t, other) {
      assert SessionSpent(s, other);
    }
    forall other | other in t.db.sessions ensures SessionRowOk(t, other) {
      if other != id { assert SessionRowOk(s, other); }
    }
  }

  lemma PruneKeepsSafe(hashes: SignerHashes, s: State, a: Action)
    requires Safe(hashes, s) && a.Prune?
    ensures Safe(hashes, Step(hashes, s, a))
  {
    var t := s.(db := AfterPrune(s.db, s.now));
    RequestsOkMonotone(hashes, s, t);
    HistoryFrame(hashes, s, t);
    forall id ensures SessionSpent(t, id) {
      assert SessionSpent(s, id);
    }
    forall id | id in t.db.sessions ensures SessionRowOk(t, id) {
      assert SessionRowOk(s, id);
    }
  }

  // --- steps of a verify request up to the signature ---------------------------------------------------

  /** What validation has checked. */
  lemma ValidatedOk(hashes: SignerHashes, session: Session, proofs: ProofSet)
    requires LoadedOk(session)
    requires EvidenceOf(hashes.proof, proofs.data, proofs.timestamps, PROVIDER_ID, PolicyFor(session)).Ok?
    ensures VerifiedOk(
              session, proofs,
              EvidenceOf(hashes.proof, proofs.data, proofs.timestamps, PROVIDER_ID, PolicyFor(session)).value)
  {
    var policy := PolicyFor(session);
    AcceptedEvidence(hashes.proof, proofs.data, proofs.timestamps, PROVIDER_ID, policy);
    AcceptedTime(hashes.proof, proofs.data, proofs.timestamps, PROVIDER_ID, policy);
    AcceptedFields(hashes.proof, proofs.data, proofs.timestamps, PROVIDER_ID, policy);
    assert BoundTo(proofs.data[0], policy) && BoundTo(proofs.data[1], policy);
  }

  lemma ValidatedKeepsSafe(hashes: SignerHashes, s: State, req: nat, session: Session, proofs: ProofSet)
    requires Safe(hashes, s) && LoadedOk(session)
    ensures Safe(hashes, Validated(hashes, s, req, session, proofs))
  {
    match EvidenceOf(hashes.proof, proofs.data, proofs.timestamps, PROVIDER_ID, PolicyFor(session)) {
      case Err(_) =>
        SetKeepsSafe(hashes, s, req, Answered);
      case Ok(evidence) =>
        ValidatedOk(hashes, session, proofs);
        SetKeepsSafe(hashes, s, req, Verified(session, proofs, evidence));
    }
  }

  lemma BaselineSigningKeepsSafe(hashes: SignerHashes, s: State, req: nat, r: Request, at: int)
    requires Safe(hashes, s) && r.Verified? && RequestOk(hashes, s, r) && r.session.phase == Phase.Baseline
    ensures Safe(hashes, BaselineSigning(hashes, s, req, r, at))
  {
    match SignedBaseline(hashes, r.session, r.evidence, at) {
      case Err(_) => SetKeepsSafe(hashes, s, req, Answered);
      case Ok(attestation) =>
        SetKeepsSafe(hashes, s, req, BaselineSigned(r.session, r.proofs, r.evidence, attestation));
    }
  }

  lemma PactReadingKeepsSafe(hashes: SignerHashes, s: State, req: nat, r: Request, live: PactLive, at: int)
    requires Safe(hashes, s) && r.Verified? && RequestOk(hashes, s, r) && r.session.phase == Phase.Final
    ensures Safe(hashes, PactReading(s, req, r, live, at))
  {
    var t := PactReading(s, req, r, live, at);
    if t == Set(s, req, Answered) {
      SetKeepsSafe(hashes, s, req, Answered);
    } else {
      SetKeepsSafe(hashes, s, req, t.requests[req]);
    }
  }

  /** What signing a final has checked. */
  lemma SignedPlanOk(hashes: SignerHashes, s: State, r: Request, at: int)
    requires r.PactChecked? && RequestOk(hashes, s, r) && BaselinesOk(s)
    requires SignedFinal(hashes, r.session, r.evidence, r.pactId, r.pact,
                         LoadBaseline(s.db, r.session.walletAddress, r.pact.terms.configHash), at).Ok?
    ensures PlanOk(hashes, s, r.session, r.evidence,
                   SignedFinal(hashes, r.session, r.evidence, r.pactId, r.pact,
                               LoadBaseline(s.db, r.session.walletAddress, r.pact.terms.configHash), at).value)
  {
  }

  lemma FinalSigningKeepsSafe(hashes: SignerHashes, s: State, req: nat, r: Request, at: int)
    requires Safe(hashes, s) && r.PactChecked? && RequestOk(hashes, s, r)
    ensures Safe(hashes, FinalSigning(hashes, s, req, r, at))
  {
    var baseline := LoadBaseline(s.db, r.session.walletAddress, r.pact.terms.configHash);
    match SignedFinal(hashes, r.session, r.evidence, r.pactId, r.pact, baseline, at) {
      case Err(_) => SetKeepsSafe(hashes, s, req, Answered);
      case Ok(plan) =>
        SignedPlanOk(hashes, s, r, at);
        SetKeepsSafe(hashes, s, req, FinalSigned(r.session, r.proofs, r.evidence, plan));
    }
  }

  // --- the two commits ---------------------------------------------------------------------------------

  /** Spending a session, with at most one release naming it, keeps the account of releases in order. */
  lemma SpendKeepsSessions(s: State, t: State, id: string)
    requires SessionsOk(s) && SessionsSpent(s)
    requires t.db.sessions == Consumed(s.db.sessions, id, s.now)
    requires t.saved == s.saved
    requires t.releases == s.releases
             || (Unconsumed(s.db.sessions, id) && |t.releases| == |s.releases| + 1
                 && t.releases[..|s.releases|] == s.releases && t.releases[|s.releases|].sessionId == id)
    ensures SessionsOk(t) && SessionsSpent(t)
  {
    forall other | other in t.db.sessions ensures SessionRowOk(t, other) {
      assert SessionRowOk(s, other);
    }
    if Unconsumed(s.db.sessions, id) { assert SessionRowOk(s, id); }
    forall other ensures SessionSpent(t, other) {
      assert SessionSpent(s, other);
    }
  }

  /** Nothing but requests, the tables of sessions, and baselines changed: the older releases stay justified. */
  lemma FinalsStayJustified(s: State, t: State)
    requires FinalsJustified(s) && t.pacts == s.pacts
    requires |s.releases| <= |t.releases| && t.releases[..|s.releases|] == s.releases
    ensures forall i :: 0 <= i < |s.releases| && t.releases[i].FinalRelease? ==> Justified(t.pacts, t.releases, i)
  {
    assert forall i :: 0 <= i < |s.releases| ==> t.releases[i] == s.releases[i];
    forall i | 0 <= i < |s.releases| && t.releases[i].FinalRelease?
      ensures Justified(t.pacts, t.releases, i)
    {
      assert Justified(s.pacts, s.releases, i);
    }
  }

  lemma ReleasesStayBound(hashes: SignerHashes, s: State, t: State)
    requires ReleasesBound(hashes, s)
    requires |s.releases| <= |t.releases| && t.releases[..|s.releases|] == s.releases
    ensures forall i :: 0 <= i < |s.releases| ==> ReleaseBound(hashes, t.releases[i])
  {
    assert forall i :: 0 <= i < |s.releases| ==> t.releases[i] == s.releases[i];
  }

  lemma RecordedByGrows(releases: seq<Release>, r: Release, row: BaselineRow)
    requires RecordedBy(releases, row)
    ensures RecordedBy(releases + [r], row)
  {
    var i :| 0 <= i < |releases| && releases[i].BaselineRelease? && RowMatches(row, releases[i]);
    assert (releases + [r])[i] == releases[i];
  }

  /** A recorded baseline keeps rows and releases in correspondence. */
  lemma RecordKeepsBaselines(s: State, t: State, input: BaselineInput, r: Release)
    requires BaselinesOk(s) && RecordsBaseline(s.db, input)
    requires t.db.baselines == AfterBaseline(s.db, input, s.now).baselines
    requires t.releases == s.releases + [r]
    requires r.BaselineRelease? && KeyOf(r) == BaselineKey(input) && RowMatches(NewBaselineRow(input, s.now), r)
    ensures BaselinesOk(t)
  {
    forall i | 0 <= i < |t.releases| && t.releases[i].BaselineRelease?
      ensures KeyOf(t.releases[i]) in t.db.baselines
      ensures RowMatches(t.db.baselines[KeyOf(t.releases[i])], t.releases[i])
    {
      if i < |s.releases| { assert t.releases[i] == s.releases[i]; }
    }
    forall key | key in t.db.baselines ensures RecordedBy(t.releases, t.db.baselines[key]) {
      if key == BaselineKey(input) {
        assert t.releases[|s.releases|] == r;
      } else {
        RecordedByGrows(s.releases, r, s.db.baselines[key]);
      }
    }
    forall i, j | 0 <= i < j < |t.releases| && t.releases[i].BaselineRelease? && t.releases[j].BaselineRelease?
      ensures KeyOf(t.releases[i]) != KeyOf(t.releases[j])
    {
      assert t.releases[i] == s.releases[i];
      if j < |s.releases| { assert t.releases[j] == s.releases[j]; }
    }
  }

  lemma BaselineReleaseBound(hashes: SignerHashes, s: State, r: Request)
    requires r.BaselineSigned? && RequestOk(hashes, s, r)
    ensures ReleaseBound(hashes, BaselineRelease(
              r.session.sessionId, r.proofs, r.attestation, r.evidence.totalXp, r.evidence.observedAt))
  {
    var input := OwnContext(r.session);
    assert ContextMessage(input) == Ok(r.session.contextMessage);
    assert BoundToAction(hashes, r.proofs, r.attestation, r.session.sessionId, input);
  }

  /** A final row is looked up as before when only a baseline is released. */
  lemma BaselineKeepsFinals(s: State, t: State, r: Release)
    requires FinalsOk(s) && r.BaselineRelease?
    requires t.releases == s.releases + [r] && t.db.finals == s.db.finals
    ensures FinalsOk(t)
  {
    assert t.releases[..|s.releases|] == s.releases;
    forall key
      ensures key in t.db.finals <==> LastFinal(t.releases, key).Some?
      ensures key in t.db.finals ==> FinalRowMatches(t.db.finals[key], LastFinal(t.releases, key).value)
    {
      assert LastFinal(t.releases, key) == LastFinal(s.releases, key);
    }
  }

  /** The history after a baseline is recorded and released. */
  lemma BaselineCommittedHistory(hashes: SignerHashes, s: State, t: State, r: Request)
    requires BaselinesOk(s) && FinalsJustified(s) && ReleasesBound(hashes, s) && FinalsOk(s)
    requires r.BaselineSigned? && RequestOk(hashes, s, r)
    requires RecordsBaseline(s.db, BaselineCommit(r.session, r.evidence, r.attestation))
    requires t.pacts == s.pacts && t.db.finals == s.db.finals
    requires t.db.baselines
             == AfterBaseline(s.db, BaselineCommit(r.session, r.evidence, r.attestation), s.now).baselines
    requires t.releases == s.releases + [BaselineRelease(
                             r.session.sessionId, r.proofs, r.attestation, r.evidence.totalXp, r.evidence.observedAt)]
    ensures BaselinesOk(t) && FinalsJustified(t) && FinalsOk(t) && ReleasesBound(hashes, t)
  {
    var released := BaselineRelease(
      r.session.sessionId, r.proofs, r.attestation, r.evidence.totalXp, r.evidence.observedAt);
    assert BaselinesOk(t) by {
      RecordKeepsBaselines(s, t, BaselineCommit(r.session, r.evidence, r.attestation), released);
    }
    assert FinalsOk(t) by { BaselineKeepsFinals(s, t, released); }
    assert FinalsJustified(t) by {
      assert t.releases[..|s.releases|] == s.releases;
      FinalsStayJustified(s, t);
    }
    assert ReleasesBound(hashes, t) by { AppendBaselineKeepsBound(hashes, s, t, r, released); }
  }

  lemma AppendBaselineKeepsBound(hashes: SignerHashes, s: State, t: State, r: Request, released: Release)
    requires ReleasesBound(hashes, s) && r.BaselineSigned? && RequestOk(hashes, s, r)
    requires released == BaselineRelease(
                           r.session.sessionId, r.proofs, r.attestation, r.evidence.totalXp, r.evidence.observedAt)
    requires t.releases == s.releases + [released]
    ensures ReleasesBound(hashes, t)
  {
    assert ReleaseBound(hashes, released) by { BaselineReleaseBound(hashes, s, r); }
    ReleasesStayBound(hashes, s, t);
  }

  lemma BaselineCommittedKeepsSafe(hashes: SignerHashes, s: State, req: nat, r: Request)
    requires Safe(hashes, s) && r.BaselineSigned? && RequestOk(hashes, s, r)
    ensures Safe(hashes, BaselineCommitted(s, req, r))
  {
    var t := BaselineCommitted(s, req, r);
    var input := BaselineCommit(r.session, r.evidence, r.attestation);
    assert RequestsOk(hashes, t) by { AnsweredRequestsOk(hashes, s, t, req); }
    assert SessionsOk(t) && SessionsSpent(t) by { SpendKeepsSessions(s, t, input.sessionId); }
    if RecordsBaseline(s.db, input) {
      BaselineCommittedHistory(hashes, s, t, r);
    } else {
      HistoryFrame(hashes, s, t);
    }
  }

  /** The baseline a signed final relies on was itself released. */
  lemma PlanIsJustified(hashes: SignerHashes, s: State, r: Request, f: Release)
    requires BaselinesOk(s) && r.FinalSigned? && RequestOk(hashes, s, r)
    requires f == PlannedRelease(r.session, r.proofs, r.plan)
    ensures Justified(s.pacts, s.releases + [f], |s.releases|)
    ensures ReleaseBound(hashes, f)
  {
    var terms := s.pacts[f.final.pactId];
    var key := (f.final.account, terms.configHash);
    assert RecordedBy(s.releases, s.db.baselines[key]);
    var j :| 0 <= j < |s.releases| && s.releases[j].BaselineRelease?
             && RowMatches(s.db.baselines[key], s.releases[j]);
    var all := s.releases + [f];
    assert all[j] == s.releases[j] && all[|s.releases|] == f;
    assert Clears(all[|s.releases|], all[j], terms);
    assert OwnContext(r.session) == FinalContext(f.final.pactId);
  }

  /** A justified final agrees with the stored baseline row of its wallet and configuration. */
  lemma FinalMatchesRow(s: State, i: nat)
    requires BaselinesOk(s) && i < |s.releases| && s.releases[i].FinalRelease? && Justified(s.pacts, s.releases, i)
    ensures var f := s.releases[i].final;
            && f.pactId in s.pacts && f.targetXp == s.pacts[f.pactId].targetXp
            && (f.account, s.pacts[f.pactId].configHash) in s.db.baselines
            && f.identityHash == s.db.baselines[(f.account, s.pacts[f.pactId].configHash)].identityHash
  {
    var terms := s.pacts[s.releases[i].final.pactId];
    var j :| 0 <= j < i && s.releases[j].BaselineRelease? && Clears(s.releases[i], s.releases[j], terms);
    assert RowMatches(s.db.baselines[KeyOf(s.releases[j])], s.releases[j]);
  }

  /** Finals for one (wallet, Lock) always carry the same identity, target and nullifier. */
  lemma FinalsAgree(hashes: SignerHashes, s: State, i: nat, j: nat)
    requires BaselinesOk(s) && FinalsJustified(s) && ReleasesBound(hashes, s)
    requires i < |s.releases| && j < |s.releases| && s.releases[i].FinalRelease? && s.releases[j].FinalRelease?
    requires FinalKeyOf(s.releases[i]) == FinalKeyOf(s.releases[j])
    ensures s.releases[i].final.identityHash == s.releases[j].final.identityHash
    ensures s.releases[i].final.targetXp == s.releases[j].final.targetXp
    ensures s.releases[i].final.nullifier == s.releases[j].final.nullifier
  {
    FinalMatchesRow(s, i);
    FinalMatchesRow(s, j);
    assert ReleaseBound(hashes, s.releases[i]) && ReleaseBound(hashes, s.releases[j]);
  }

  lemma AppendFinalKeepsBaselines(s: State, t: State, f: Release)
    requires BaselinesOk(s) && f.FinalRelease?
    requires t.releases == s.releases + [f] && t.db.baselines == s.db.baselines
    ensures BaselinesOk(t)
  {
    assert forall i :: 0 <= i < |s.releases| ==> t.releases[i] == s.releases[i];
    forall key | key in t.db.baselines ensures RecordedBy(t.releases, t.db.baselines[key]) {
      RecordedByGrows(s.releases, f, s.db.baselines[key]);
    }
  }

  /** A final about to be released agrees with every earlier one for the same wallet and Lock. */
  lemma NextFinalAgrees(hashes: SignerHashes, s: State, r: Request, f: Release, i: nat)
    requires BaselinesOk(s) && FinalsJustified(s) && ReleasesBound(hashes, s)
    requires r.FinalSigned? && RequestOk(hashes, s, r)
    requires f == PlannedRelease(r.session, r.proofs, r.plan)
    requires i < |s.releases| && s.releases[i].FinalRelease? && FinalKeyOf(s.releases[i]) == FinalKeyOf(f)
    ensures s.releases[i].final.identityHash == f.final.identityHash
    ensures s.releases[i].final.targetXp == f.final.targetXp
    ensures s.releases[i].final.nullifier == f.final.nullifier
  {
    var t := s.(releases := s.releases + [f]);
    assert FinalsJustified(t) by { AppendFinalKeepsJustified(hashes, s, t, r, f); }
    assert ReleasesBound(hashes, t) by { AppendFinalKeepsBound(hashes, s, t, r, f); }
    assert BaselinesOk(t) by { AppendFinalKeepsBaselines(s, t, f); }
    assert t.releases[i] == s.releases[i] && t.releases[|s.releases|] == f;
    FinalsAgree(hashes, t, i, |s.releases|);
  }

  /** The row an upsert leaves is the final just released, although the upsert keeps two old columns. */
  lemma UpsertMatches(hashes: SignerHashes, s: State, r: Request, f: Release)
    requires BaselinesOk(s) && FinalsJustified(s) && ReleasesBound(hashes, s) && FinalsOk(s)
    requires r.FinalSigned? && RequestOk(hashes, s, r)
    requires f == PlannedRelease(r.session, r.proofs, r.plan)
    ensures FinalKey(FinalCommit(r.session, r.plan)) == FinalKeyOf(f)
    ensures FinalRowMatches(UpsertedFinal(s.db.finals, FinalCommit(r.session, r.plan), s.now), f)
  {
    var key := FinalKey(FinalCommit(r.session, r.plan));
    if key in s.db.finals {
      var last := LastFinal(s.releases, key).value;
      assert FinalRowMatches(s.db.finals[key], last);
      var i :| 0 <= i < |s.releases| && s.releases[i] == last;
      NextFinalAgrees(hashes, s, r, f, i);
    }
  }

  lemma UpsertKeepsFinals(s: State, t: State, input: FinalInput, f: Release)
    requires FinalsOk(s) && f.FinalRelease? && FinalKey(input) == FinalKeyOf(f)
    requires t.releases == s.releases + [f]
    requires t.db.finals == s.db.finals[FinalKey(input) := UpsertedFinal(s.db.finals, input, s.now)]
    requires FinalRowMatches(UpsertedFinal(s.db.finals, input, s.now), f)
    ensures FinalsOk(t)
  {
    assert t.releases[..|s.releases|] == s.releases;
    forall key
      ensures key in t.db.finals <==> LastFinal(t.releases, key).Some?
      ensures key in t.db.finals ==> FinalRowMatches(t.db.finals[key], LastFinal(t.releases, key).value)
    {
      if key != FinalKeyOf(f) {
        assert LastFinal(t.releases, key) == LastFinal(s.releases, key);
      }
    }
  }

  lemma AppendFinalKeepsJustified(hashes: SignerHashes, s: State, t: State, r: Request, f: Release)
    requires BaselinesOk(s) && FinalsJustified(s) && r.FinalSigned? && RequestOk(hashes, s, r)
    requires f == PlannedRelease(r.session, r.proofs, r.plan)
    requires t.pacts == s.pacts && t.releases == s.releases + [f]
    ensures FinalsJustified(t)
  {
    PlanIsJustified(hashes, s, r, f);
    FinalsStayJustified(s, t);
  }

  lemma AppendFinalKeepsBound(hashes: SignerHashes, s: State, t: State, r: Request, f: Release)
    requires BaselinesOk(s) && ReleasesBound(hashes, s) && r.FinalSigned? && RequestOk(hashes, s, r)
    requires f == PlannedRelease(r.session, r.proofs, r.plan)
    requires t.releases == s.releases + [f]
    ensures ReleasesBound(hashes, t)
  {
    PlanIsJustified(hashes, s, r, f);
    ReleasesStayBound(hashes, s, t);
  }

  /** The history after a final is released: rows, releases and their correspondence. */
  lemma FinalCommittedHistory(hashes: SignerHashes, s: State, t: State, r: Request)
    requires BaselinesOk(s) && FinalsJustified(s) && ReleasesBound(hashes, s) && FinalsOk(s)
    requires r.FinalSigned? && RequestOk(hashes, s, r)
    requires t.pacts == s.pacts && t.db.baselines == s.db.baselines
    requires t.db.finals == s.db.finals[FinalKey(FinalCommit(r.session, r.plan))
                              := UpsertedFinal(s.db.finals, FinalCommit(r.session, r.plan), s.now)]
    requires t.releases == s.releases + [PlannedRelease(r.session, r.proofs, r.plan)]
    ensures BaselinesOk(t) && FinalsJustified(t) && FinalsOk(t) && ReleasesBound(hashes, t)
  {
    var f := PlannedRelease(r.session, r.proofs, r.plan);
    assert BaselinesOk(t) by { AppendFinalKeepsBaselines(s, t, f); }
    assert FinalsOk(t) by {
      UpsertMatches(hashes, s, r, f);
      UpsertKeepsFinals(s, t, FinalCommit(r.session, r.plan), f);
    }
    assert FinalsJustified(t) by { AppendFinalKeepsJustified(hashes, s, t, r, f); }
    assert ReleasesBound(hashes, t) by { AppendFinalKeepsBound(hashes, s, t, r, f); }
  }

  /** What a final commit changes. */
  lemma FinalCommittedChanges(s: State, req: nat, r: Request)
    requires r.FinalSigned?
    ensures var t := FinalCommitted(s, req, r);
            var id := r.session.sessionId;
            && t.db.sessions == Consumed(s.db.sessions, id, s.now) && t.db.baselines == s.db.baselines
            && t.pacts == s.pacts && t.saved == s.saved
            && t.requests == s.requests[req := Answered]
            && (!Unconsumed(s.db.sessions, id) ==> t.releases == s.releases && t.db.finals == s.db.finals)
            && (Unconsumed(s.db.sessions, id) ==>
                  && t.db.finals == s.db.finals[FinalKey(FinalCommit(r.session, r.plan))
                                  := UpsertedFinal(s.db.finals, FinalCommit(r.session, r.plan), s.now)]
                  && t.releases == s.releases + [PlannedRelease(r.session, r.proofs, r.plan)])
  {
  }

  lemma FinalCommittedKeepsSafe(hashes: SignerHashes, s: State, req: nat, r: Request)
    requires Safe(hashes, s) && r.FinalSigned? && RequestOk(hashes, s, r)
    ensures Safe(hashes, FinalCommitted(s, req, r))
  {
    FinalCommittedChanges(s, req, r);
    FinalChangesKeepSafe(hashes, s, FinalCommitted(s, req, r), req, r);
  }

  lemma FinalChangesKeepSafe(hashes: SignerHashes, s: State, t: State, req: nat, r: Request)
    requires Safe(hashes, s) && r.FinalSigned? && RequestOk(hashes, s, r)
    requires t.db.sessions == Consumed(s.db.sessions, r.session.sessionId, s.now)
    requires t.db.baselines == s.db.baselines && t.pacts == s.pacts
    requires t.saved == s.saved && t.requests == s.requests[req := Answered]
    requires !Unconsumed(s.db.sessions, r.session.sessionId) ==>
               t.releases == s.releases && t.db.finals == s.db.finals
    requires Unconsumed(s.db.sessions, r.session.sessionId) ==>
               && t.db.finals == s.db.finals[FinalKey(FinalCommit(r.session, r.plan))
                               := UpsertedFinal(s.db.finals, FinalCommit(r.session, r.plan), s.now)]
               && t.releases == s.releases + [PlannedRelease(r.session, r.proofs, r.plan)]
    ensures Safe(hashes, t)
  {
    assert RequestsOk(hashes, t) by { AnsweredRequestsOk(hashes, s, t, req); }
    if Unconsumed(s.db.sessions, r.session.sessionId) {
      assert SessionsOk(t) && SessionsSpent(t) by {
        assert t.releases[..|s.releases|] == s.releases;
        SpendKeepsSessions(s, t, r.session.sessionId);
      }
      assert BaselinesOk(t) && FinalsJustified(t) && FinalsOk(t) && ReleasesBound(hashes, t) by {
        FinalCommittedHistory(hashes, s, t, r);
      }
    } else {
      assert SessionsOk(t) && SessionsSpent(t) by { SpendKeepsSessions(s, t, r.session.sessionId); }
      HistoryFrame(hashes, s, t);
    }
  }

  // --- every run ---------------------------------------------------------------------------------------

  lemma TickKeepsSafe(hashes: SignerHashes, s: State, a: Action)
    requires Safe(hashes, s) && a.Tick?
    ensures Safe(hashes, Step(hashes, s, a))
  {
    var t := s.(now := s.now + a.seconds);
    LaterIsSafe(hashes, s, t);
    assert Step(hashes, s, a) == t;
  }

  lemma LaterIsSafe(hashes: SignerHashes, s: State, t: State)
    requires Safe(hashes, s) && t == s.(now := t.now)
    ensures Safe(hashes, t)
  {
    assert RequestsOk(hashes, t) by { RequestsOkMonotone(hashes, s, t); }
    assert BaselinesOk(t) && FinalsJustified(t) && FinalsOk(t) && ReleasesBound(hashes, t) by {
      HistoryFrame(hashes, s, t);
    }
    assert SessionsOk(t) && SessionsSpent(t) by { SessionFrame(s, t); }
  }

  lemma OpenedKeepsSafe(hashes: SignerHashes, s: State, a: Action)
    requires Safe(hashes, s) && a.OpenSession?
    ensures Safe(hashes, Step(hashes, s, a))
  {
    var request := a.request;
    var pact := View(s, request.pactId, a.openLive);
    var baseline := if pact.Some? then LoadBaseline(s.db, request.wallet, pact.value.terms.configHash) else None;
    var prepared := PrepareSession(hashes, a.newSession, request, pact, baseline, a.openedAt);
    if prepared.Ok? && a.newSession !in s.db.sessions {
      PreparedSessionShape(hashes, a.newSession, request, pact, baseline, a.openedAt);
      SaveKeepsSafe(hashes, s, prepared.value);
    }
  }

  lemma LoadKeepsSafe(hashes: SignerHashes, s: State, a: Action)
    requires Safe(hashes, s) && a.LoadSession?
    ensures Safe(hashes, Step(hashes, s, a))
  {
    match Load(s.db, a.sessionId, s.now) {
      case None => SetKeepsSafe(hashes, s, a.req, Answered);
      case Some(session) =>
        assert SessionRowOk(s, a.sessionId);
        SetKeepsSafe(hashes, s, a.req, Loaded(session));
    }
  }

  lemma ValidateKeepsSafe(hashes: SignerHashes, s: State, a: Action)
    requires Safe(hashes, s) && a.Validate?
    ensures Safe(hashes, Step(hashes, s, a))
  {
    if a.req in s.requests && s.requests[a.req].Loaded? {
      assert RequestOk(hashes, s, s.requests[a.req]);
      ValidatedKeepsSafe(hashes, s, a.req, s.requests[a.req].session, a.proofs);
    }
  }

  lemma SignBaselineKeepsSafe(hashes: SignerHashes, s: State, a: Action)
    requires Safe(hashes, s) && a.SignBaseline?
    ensures Safe(hashes, Step(hashes, s, a))
  {
    if a.req in s.requests && s.requests[a.req].Verified? && s.requests[a.req].session.phase == Phase.Baseline {
      BaselineSigningKeepsSafe(hashes, s, a.req, s.requests[a.req], a.signedAt);
    }
  }

  lemma CommitBaselineKeepsSafe(hashes: SignerHashes, s: State, a: Action)
    requires Safe(hashes, s) && a.CommitBaseline?
    ensures Safe(hashes, Step(hashes, s, a))
  {
    if a.req in s.requests && s.requests[a.req].BaselineSigned? {
      BaselineCommittedKeepsSafe(hashes, s, a.req, s.requests[a.req]);
    }
  }

  lemma ReadPactKeepsSafe(hashes: SignerHashes, s: State, a: Action)
    requires Safe(hashes, s) && a.ReadPact?
    ensures Safe(hashes, Step(hashes, s, a))
  {
    if a.req in s.requests && s.requests[a.req].Verified? && s.requests[a.req].session.phase == Phase.Final {
      PactReadingKeepsSafe(hashes, s, a.req, s.requests[a.req], a.live, a.readAt);
    }
  }

  lemma FinalSteps(hashes: SignerHashes, s: State, a: Action)
    ensures a.SignFinal? ==>
              Step(hashes, s, a) == if a.req in s.requests && s.requests[a.req].PactChecked?
                                    then FinalSigning(hashes, s, a.req, s.requests[a.req], a.signedAt) else s
    ensures a.CommitFinal? ==>
              Step(hashes, s, a) == if a.req in s.requests && s.requests[a.req].FinalSigned?
                                    then FinalCommitted(s, a.req, s.requests[a.req]) else s
  {
  }

  lemma SignFinalKeepsSafe(hashes: SignerHashes, s: State, a: Action)
    requires Safe(hashes, s) && a.SignFinal?
    ensures Safe(hashes, Step(hashes, s, a))
  {
    FinalSteps(hashes, s, a);
    if a.req in s.requests && s.requests[a.req].PactChecked? {
      assert RequestOk(hashes, s, s.requests[a.req]);
      FinalSigningKeepsSafe(hashes, s, a.req, s.requests[a.req], a.signedAt);
    }
  }

  lemma CommitFinalKeepsSafe(hashes: SignerHashes, s: State, a: Action)
    requires Safe(hashes, s) && a.CommitFinal?
    ensures Safe(hashes, Step(hashes, s, a))
  {
    FinalSteps(hashes, s, a);
    if a.req in s.requests && s.requests[a.req].FinalSigned? {
      assert RequestOk(hashes, s, s.requests[a.req]);
      FinalCommittedKeepsSafe(hashes, s, a.req, s.requests[a.req]);
    }
  }

  lemma StepKeepsSafe(hashes: SignerHashes, s: State, a: Action)
    requires Safe(hashes, s)
    ensures Safe(hashes, Step(hashes, s, a))
  {
    match a
    case Tick(_) => TickKeepsSafe(hashes, s, a);
    case CreatePact(_, _) => CreatePactKeepsSafe(hashes, s, a);
    case OpenSession(_, _, _, _) => OpenedKeepsSafe(hashes, s, a);
    case Prune => PruneKeepsSafe(hashes, s, a);
    case LoadSession(_, _) => LoadKeepsSafe(hashes, s, a);
    case Validate(_, _) => ValidateKeepsSafe(hashes, s, a);
    case SignBaseline(_, _) => SignBaselineKeepsSafe(hashes, s, a);
    case CommitBaseline(_) => CommitBaselineKeepsSafe(hashes, s, a);
    case ReadPact(_, _, _) => ReadPactKeepsSafe(hashes, s, a);
    case SignFinal(_, _) => SignFinalKeepsSafe(hashes, s, a);
    case CommitFinal(_) => CommitFinalKeepsSafe(hashes, s, a);
  }

  lemma {:induction false} RunKeepsSafe(hashes: SignerHashes, s: State, actions: seq<Action>)
    requires Safe(hashes, s)
    ensures Safe(hashes, Run(hashes, s, actions))
    decreases |actions|
  {
    if actions == [] {
    } else {
      StepKeepsSafe(hashes, s, actions[0]);
      RunKeepsSafe(hashes, Step(hashes, s, actions[0]), actions[1..]);
    }
  }

  lemma ReachableIsSafe(hashes: SignerHashes, actions: seq<Action>)
    ensures Safe(hashes, Run(hashes, INITIAL, actions))
  {
    RunKeepsSafe(hashes, INITIAL, actions);
  }
}
