/** What the escrow routes write down, field by field: the session a request opens, and the answer and the rows of an
    undisturbed verify request (app/api/duolingo/escrow/session/route.ts, app/api/duolingo/escrow/verify/route.ts). */
module EscrowAnswers {
  import opened Prelude
  import opened Text
  import opened ProofPolicy
  import opened EscrowAttestation
  import opened EscrowStore
  import opened EscrowProtocol
  import opened EscrowSafety
  import opened EscrowTheorems

  // --- opening a session -------------------------------------------------------------------------------

  /** A session may be opened: a create with a nonce, a join of a Lock that has room and has not started, or a final of
      a Lock under way by a participant whose baseline is stored under the same account. */
  ghost predicate MayOpen(hashes: SignerHashes, s: State, request: OpenRequest, live: PactLive, at: int) {
    match request.intent
    case Create => IsCreateNonce(request.createNonce)
    case Join =>
      && request.pactId > 0 && request.pactId in s.pacts
      && !live.cancelled && !live.finalized && !live.joined
      && at < s.pacts[request.pactId].startsAt && live.participantCount < live.maxParticipants
    case Final =>
      && request.pactId > 0 && request.pactId in s.pacts
      && !live.cancelled && !live.finalized && live.joined && !live.completed
      && live.minParticipants <= live.participantCount
      && var terms := s.pacts[request.pactId];
         var key := (ToLower(request.wallet), terms.configHash);
      && terms.startsAt <= at < terms.startsAt + terms.durationSeconds
      && key in s.db.baselines && s.db.baselines[key].identityHash == hashes.identity(request.profileId)
  }

  /** The session as it is stored: the terms are the caller's own on create, and the Lock's otherwise. */
  ghost function OpenedSession(hashes: SignerHashes, s: State, id: string, request: OpenRequest, live: PactLive,
                               at: int): Session
    requires MayOpen(hashes, s, request, live, at)
  {
    var wallet := ToLower(request.wallet);
    match request.intent
    case Create =>
      Session(id, wallet, Create, Phase.Baseline, None, Some(request.createNonce), Some(request.configHash),
              request.targetXp, request.profileId, "escrow:create:" + ToLower(request.createNonce) + ":baseline")
    case Join =>
      var terms := s.pacts[request.pactId];
      Session(id, wallet, Join, Phase.Baseline, Some(request.pactId), None, Some(terms.configHash), terms.targetXp,
              request.profileId, "escrow:join:" + PrintNat(request.pactId) + ":baseline")
    case Final =>
      var terms := s.pacts[request.pactId];
      Session(id, wallet, Intent.Final, Phase.Final, Some(request.pactId), None, Some(terms.configHash), terms.targetXp,
              request.profileId, "escrow:final:" + PrintNat(request.pactId) + ":final")
  }

  /** In any state a session request inserts exactly this row under a new id if it may, and changes nothing if not. */
  lemma OpenedExactly(hashes: SignerHashes, s: State, id: string, request: OpenRequest, live: PactLive, at: int)
    ensures Step(hashes, s, OpenSession(id, request, live, at))
            == if id in s.db.sessions || !MayOpen(hashes, s, request, live, at) then s
               else
                 var row := SessionRow(OpenedSession(hashes, s, id, request, live, at), s.now, None);
                 s.(db := s.db.(sessions := s.db.sessions[id := row]), saved := s.saved + multiset{id})
  {
    assert Step(hashes, s, OpenSession(id, request, live, at)) == Opened(hashes, s, id, request, live, at);
    PreparedExactly(hashes, s, id, request, live, at);
  }

  lemma PreparedExactly(hashes: SignerHashes, s: State, id: string, request: OpenRequest, live: PactLive, at: int)
    ensures var pact := View(s, request.pactId, live);
            var baseline := if pact.None? then None
                            else LoadBaseline(s.db, request.wallet, pact.value.terms.configHash);
            var prepared := PrepareSession(hashes, id, request, pact, baseline, at);
            && (prepared.Ok? <==> MayOpen(hashes, s, request, live, at))
            && (prepared.Ok? ==> StoredSession(prepared.value) == OpenedSession(hashes, s, id, request, live, at)
                                 && prepared.value.sessionId == id)
  {
  }

  /** The event nullifier of accepted evidence names the account, the Lock, or nought for a create, and the phase. */
  lemma EvidenceNamesSession(hashes: SignerHashes, proofs: ProofSet, session: Session)
    requires EvidenceOf(hashes.proof, proofs.data, proofs.timestamps, PROVIDER_ID, PolicyFor(session)).Ok?
    ensures AllDigits(session.duolingoProfileId) && (session.pactId.Some? ==> session.pactId.value >= 0)
    ensures var e := EvidenceOf(hashes.proof, proofs.data, proofs.timestamps, PROVIDER_ID, PolicyFor(session)).value;
            && e.eventNullifier == hashes.proof.nullifier(
                                     hashes.proof.identity(ParseNat(session.duolingoProfileId)),
                                     if session.pactId.Some? then session.pactId.value else 0, session.phase)
  {
    NullifierOf(hashes.proof, proofs.data, proofs.timestamps, PolicyFor(session));
    if session.pactId.Some? && session.pactId.value >= 0 {
      PrintParse(session.pactId.value);
    } else {
      assert "0"[..0] == "" && ParseNat("0") == 0;
    }
  }

  // --- why a request is refused ------------------------------------------------------------------------

  /** What a refusal says of the Lock a final is for; `until` is when the last such final is taken. */
  ghost predicate LockReason(pact: PactView, until: int, now: int, e: VerifyError) {
    match e
    case NotParticipant => !pact.live.joined
    case AlreadyCompleted => pact.live.completed
    case Closed => pact.live.cancelled || pact.live.finalized
    case DidNotFill => pact.live.participantCount < pact.live.minParticipants
    case NotStarted => now < pact.terms.startsAt
    case TooLate => now >= until
    case _ => false
  }

  /** A final is refused for a true reason: a proof until the Lock's end, and a submission for an hour after. */
  lemma FinalRefusalIsTrue(pact: PactView, mode: Mode, now: int)
    requires FinalRefusal(pact, mode, now).Some?
    ensures var endsAt := pact.terms.startsAt + pact.terms.durationSeconds;
            LockReason(pact, if mode == Submit then endsAt + 3600 else endsAt, now, FinalRefusal(pact, mode, now).value)
  {
  }

  /** So is the opening of a session. */
  lemma OpeningRefusalIsTrue(hashes: SignerHashes, id: string, request: OpenRequest, pact: Option<PactView>,
                             baseline: Option<BaselineRow>, now: int)
    requires PrepareSession(hashes, id, request, pact, baseline, now).Err?
    ensures match PrepareSession(hashes, id, request, pact, baseline, now).error
            case InvalidContextInput =>
              if request.intent == Create then !IsCreateNonce(request.createNonce) else request.pactId <= 0
            case NoPact => request.intent != Create && pact.None?
            case AlreadyJoined => request.intent == Join && pact.Some? && pact.value.live.joined
            case AlreadyStarted => request.intent == Join && pact.Some? && pact.value.terms.startsAt <= now
            case Full =>
              request.intent == Join && pact.Some?
              && pact.value.live.participantCount >= pact.value.live.maxParticipants
            case NoBaseline => request.intent == Intent.Final && baseline.None?
            case DifferentAccount =>
              request.intent == Intent.Final && baseline.Some?
              && baseline.value.identityHash != hashes.identity(request.profileId)
            case e =>
              request.intent != Create && pact.Some?
              && LockReason(pact.value, pact.value.terms.startsAt + pact.value.terms.durationSeconds, now, e)
  {
  }

  /** So is the signing of a final, whose delta is judged against the stored baseline. */
  lemma SigningRefusalIsTrue(hashes: SignerHashes, session: Session, evidence: Evidence, pactId: int, pact: PactView,
                             baseline: Option<BaselineRow>, now: int)
    requires SignedFinal(hashes, session, evidence, pactId, pact, baseline, now).Err?
    ensures match SignedFinal(hashes, session, evidence, pactId, pact, baseline, now).error
            case NoBaseline => baseline.None?
            case DifferentAccount =>
              baseline.Some? && (hashes.identity(evidence.profileId) != baseline.value.identityHash
                                 || pact.live.participantIdentity != baseline.value.identityHash)
            case OutsideWindow =>
              evidence.observedAt < pact.terms.startsAt
              || evidence.observedAt > pact.terms.startsAt + pact.terms.durationSeconds
            case Rejected(FinalNotAfterBaseline) =>
              baseline.Some? && evidence.observedAt <= baseline.value.baselineObservedAt
            case Rejected(XpWentBackwards) => baseline.Some? && evidence.totalXp < baseline.value.baselineXp
            case Rejected(TargetNotMet) =>
              baseline.Some? && evidence.totalXp - baseline.value.baselineXp < pact.terms.targetXp
            case Rejected(InvalidTarget) => pact.terms.targetXp <= 0 || pact.terms.targetXp > MAX_SAFE_INTEGER
            case Rejected(e) =>
              (e == WrongPhaseOrder && evidence.phase != Phase.Final)
              || (e == ReplayedProof && evidence.eventNullifier == ZERO_HASH)
            case e => e == InvalidContextInput && pactId <= 0
  {
  }

  // --- what is released, field by field ----------------------------------------------------------------

  /** A baseline answer and its row, read off the session and the proofs. */
  ghost predicate BaselineSays(hashes: SignerHashes, s: State, end: State, session: Session, proofs: ProofSet,
                               r: Release, at: int)
  {
    var identity := hashes.identity(session.duolingoProfileId);
    var wallet := ToLower(session.walletAddress);
    && r.BaselineRelease? && session.configHash.Some?
    && FieldsState(proofs.data, session.duolingoProfileId, r.baselineXp)
    && TimeSigned(proofs.data, proofs.timestamps, r.observedAt)
    && r.baseline == BaselineAttestation(
                       wallet, session.configHash.value, identity,
                       ActionNullifier(hashes, identity, OwnContext(session)), at, at + 300)
    && end.db.finals == s.db.finals
    && end.db.baselines == s.db.baselines[
         (wallet, session.configHash.value)
         := BaselineRow(wallet, session.configHash.value, session.intent, session.pactId, session.createNonce, identity,
                        session.targetXp, r.baselineXp, r.observedAt, session.sessionId, r.baseline.nullifier, s.now)]
  }

  /** A final answer and its row, read off the session, the proofs, the terms of the Lock and the stored baseline. */
  ghost predicate FinalSays(hashes: SignerHashes, s: State, end: State, session: Session, proofs: ProofSet, r: Release,
                            at: int)
  {
    && r.FinalRelease? && session.pactId.Some? && session.pactId.value in s.pacts
    && var pactId := session.pactId.value;
       var terms := s.pacts[pactId];
       var identity := hashes.identity(session.duolingoProfileId);
       var wallet := ToLower(session.walletAddress);
    && (wallet, terms.configHash) in s.db.baselines
    && var start := s.db.baselines[(wallet, terms.configHash)].baselineXp;
    && FieldsState(proofs.data, session.duolingoProfileId, r.finalXp)
    && TimeSigned(proofs.data, proofs.timestamps, r.final.occurredAt)
    && r.final == FinalAttestation(
                    pactId, wallet, identity, r.finalXp - start, terms.targetXp,
                    hashes.nullifier(identity, Intent.Final, Pact(pactId)), r.final.occurredAt, at, at + 300)
    && r.chainIdentity == identity && r.baselineXp == start
    && end.db.baselines == s.db.baselines
    && end.db.finals == s.db.finals[(wallet, pactId) := FinalRowOf(s, r)]
  }

  /** The row a final leaves: a first one, or the old row of its key with new figures. */
  ghost function FinalRowOf(s: State, r: Release): FinalRow
    requires r.FinalRelease?
  {
    var key := (r.final.account, r.final.pactId);
    if key in s.db.finals then s.db.finals[key].(
      earnedXp := r.final.earnedXp, finalXp := r.finalXp, finalObservedAt := r.final.occurredAt,
      nullifier := r.final.nullifier, finalSessionId := r.sessionId, updatedAt := s.now)
    else FinalRow(
      key.0, key.1, r.final.identityHash, r.final.earnedXp, r.final.targetXp, r.finalXp,
      r.final.occurredAt, r.final.nullifier, r.sessionId, s.now, s.now)
  }

  /** An undisturbed request that is due an attestation answers with this one and leaves these rows. */
  lemma AnswerSays(hashes: SignerHashes, s: State, req: nat, id: string, proofs: ProofSet, live: PactLive, at: int)
    requires Due(hashes, s.db, s.pacts, s.now, id, proofs, live, at)
    ensures var end := Run(hashes, s, Script(req, id, proofs, live, at));
            var session := s.db.sessions[id].session;
            && |end.releases| == |s.releases| + 1
            && (session.sessionId == id ==>
                  end.db.sessions == s.db.sessions[
                    id := SessionRow(session.(duolingoProfileId := ""), s.db.sessions[id].createdAt, Some(s.now))])
            && var r := end.releases[|s.releases|];
               && r.sessionId == session.sessionId && r.proofs == proofs
               && (session.phase == Phase.Baseline ==> BaselineSays(hashes, s, end, session, proofs, r, at))
               && (session.phase == Phase.Final ==> FinalSays(hashes, s, end, session, proofs, r, at))
  {
    ScriptIsPosted(hashes, s, req, id, proofs, live, at);
    PostedExactlyWhenDue(hashes, s.db, s.pacts, s.now, id, proofs, live, at);
    var end := Run(hashes, s, Script(req, id, proofs, live, at));
    var session := s.db.sessions[id].session;
    var evidence := Found(hashes, proofs, session);
    AcceptedTime(hashes.proof, proofs.data, proofs.timestamps, PROVIDER_ID, PolicyFor(session));
    AcceptedFields(hashes.proof, proofs.data, proofs.timestamps, PROVIDER_ID, PolicyFor(session));
    if session.phase == Phase.Baseline {
      BaselineAnswerSays(hashes, s, end, session, proofs, evidence, at);
    } else {
      FinalAnswerSays(hashes, s, end, session, proofs, evidence, live, at);
    }
  }

  lemma BaselineAnswerSays(hashes: SignerHashes, s: State, end: State, session: Session, proofs: ProofSet,
                           evidence: Evidence, at: int)
    requires evidence.profileId == session.duolingoProfileId
    requires FieldsState(proofs.data, session.duolingoProfileId, evidence.totalXp)
    requires TimeSigned(proofs.data, proofs.timestamps, evidence.observedAt)
    requires BaselineDue(s.db, session)
    requires var posted := PostedBaseline(hashes, s.db, s.now, session, proofs, evidence, at);
             end.db == posted.0 && end.releases == s.releases + Opt(posted.1)
    ensures |end.releases| == |s.releases| + 1
    ensures var r := end.releases[|s.releases|];
            && r.sessionId == session.sessionId && r.proofs == proofs
            && BaselineSays(hashes, s, end, session, proofs, r, at)
  {
    ToLowerIdempotent(session.walletAddress);
    BaselineReleasedExactly(hashes, s.db, s.now, session, proofs, evidence, at);
  }

  lemma FinalAnswerSays(hashes: SignerHashes, s: State, end: State, session: Session, proofs: ProofSet,
                        evidence: Evidence, live: PactLive, at: int)
    requires evidence.profileId == session.duolingoProfileId && evidence.phase == session.phase == Phase.Final
    requires FieldsState(proofs.data, session.duolingoProfileId, evidence.totalXp)
    requires TimeSigned(proofs.data, proofs.timestamps, evidence.observedAt)
    requires VerifiedDue(hashes, s.db, s.pacts, session, evidence, live, at)
    requires var pactId := session.pactId.value;
             var pact := PactView(s.pacts[pactId], live);
             var posted := PostedFinal(hashes, s.db, s.now, session, proofs, evidence, pactId, pact, at);
             end.db == posted.0 && end.releases == s.releases + Opt(posted.1)
    ensures |end.releases| == |s.releases| + 1
    ensures var r := end.releases[|s.releases|];
            && r.sessionId == session.sessionId && r.proofs == proofs
            && FinalSays(hashes, s, end, session, proofs, r, at)
  {
    ToLowerIdempotent(session.walletAddress);
    var pactId := session.pactId.value;
    FinalReleasedExactly(hashes, s.db, s.now, session, proofs, evidence, pactId, PactView(s.pacts[pactId], live), at);
  }
}
