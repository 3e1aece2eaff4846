/** The evidence-signer protocol: concurrent session and verify requests over the escrow tables
    (app/api/duolingo/escrow/verify/route.ts, app/api/duolingo/escrow/session/route.ts).

    Every load, validation, chain read, signature and commit of a verify request is its own step, so a run is
    any interleaving of any number of requests. Two steps merge what the code does one after the other: opening
    a session reads the chain and the baseline and then inserts the row, and signing a final first loads the
    baseline. Nothing is lost by that. Baseline rows and the terms of a Lock never change once they exist, so
    what was found earlier is found again at the insertion, and a request that was refused changes nothing; the
    server's clock and the changing part of a Lock's state are supplied by the environment at each step. */
module EscrowProtocol {
  import opened Prelude
  import opened Text
  import opened ProofPolicy
  import opened EscrowAttestation
  import opened EscrowStore

  const ZERO_HASH := "0x0000000000000000000000000000000000000000000000000000000000000000"
  const SUBMISSION_GRACE_SECONDS := 3600

  datatype PactTerms = PactTerms(configHash: string, targetXp: int, startsAt: int, durationSeconds: int)

  /** The part of a Lock that may read differently each time, for one wallet. */
  datatype PactLive = PactLive(
    participantCount: int,
    minParticipants: int,
    maxParticipants: int,
    finalized: bool,
    cancelled: bool,
    joined: bool,
    completed: bool,
    participantIdentity: string)

  datatype PactView = PactView(terms: PactTerms, live: PactLive)

  datatype Mode = Capture | Submit

  datatype VerifyError =
    | InvalidBaselineSession | InvalidContextInput | NoPact | NotParticipant | AlreadyCompleted | Closed
    | DidNotFill | NotStarted | TooLate | AlreadyStarted | Full | AlreadyJoined
    | NoBaseline | DifferentAccount | OutsideWindow | Rejected(policy: PolicyError)

  /** Refuses a final the contract would reject; None when the final may go ahead. */
  function FinalRefusal(pact: PactView, mode: Mode, nowSeconds: int): Option<VerifyError> {
    var endsAt := pact.terms.startsAt + pact.terms.durationSeconds;
    if !pact.live.joined then Some(NotParticipant)
    else if pact.live.completed then Some(AlreadyCompleted)
    else if pact.live.cancelled || pact.live.finalized then Some(Closed)
    else if pact.live.participantCount < pact.live.minParticipants then Some(DidNotFill)
    else if nowSeconds < pact.terms.startsAt then Some(NotStarted)
    else if nowSeconds >= (if mode == Capture then endsAt else endsAt + SUBMISSION_GRACE_SECONDS) then Some(TooLate)
    else None
  }

  /** A final may be submitted exactly as long as a proof could be captured, and for an hour after. */
  lemma SubmissionOutlastsCapture(pact: PactView, nowSeconds: int)
    requires pact.terms.durationSeconds > 0
    ensures FinalRefusal(pact, Submit, nowSeconds).None? <==>
              exists captured :: nowSeconds - SUBMISSION_GRACE_SECONDS <= captured <= nowSeconds
                                 && FinalRefusal(pact, Capture, captured).None?
  {
    if FinalRefusal(pact, Submit, nowSeconds).None? {
      var endsAt := pact.terms.startsAt + pact.terms.durationSeconds;
      var captured := if nowSeconds < endsAt then nowSeconds else endsAt - 1;
      assert FinalRefusal(pact, Capture, captured).None?;
    }
  }

  // --- opening a session -------------------------------------------------------------------------------

  /** A session request after parsing: `configHash` and `targetXp` are the caller's own terms on create. */
  datatype OpenRequest = OpenRequest(
    wallet: string,
    intent: Intent,
    profileId: string,
    pactId: int,
    createNonce: string,
    configHash: string,
    targetXp: int)

  function WithMessage(session: Session, input: ContextInput): Result<Session, VerifyError> {
    match ContextMessage(input)
    case Err(_) => Err(InvalidContextInput)
    case Ok(message) => Ok(session.(contextMessage := message))
  }

  /** The row a session request may save, given what it read from the chain and the store. */
  function PrepareSession(hashes: SignerHashes, sessionId: string, request: OpenRequest, pact: Option<PactView>,
                          baseline: Option<BaselineRow>, nowSeconds: int): Result<Session, VerifyError>
  {
    match request.intent
    case Create =>
      WithMessage(
        Session(sessionId, request.wallet, Create, Phase.Baseline, None, Some(request.createNonce),
                Some(request.configHash), request.targetXp, request.profileId, ""),
        CreateContext(request.createNonce))
    case Join =>
      if pact.None? then Err(NoPact)
      else
        var view := pact.value;
        if view.live.cancelled || view.live.finalized then Err(Closed)
        else if view.live.joined then Err(AlreadyJoined)
        else if view.terms.startsAt <= nowSeconds then Err(AlreadyStarted)
        else if view.live.participantCount >= view.live.maxParticipants then Err(Full)
        else WithMessage(
          Session(sessionId, request.wallet, Join, Phase.Baseline, Some(request.pactId), None,
                  Some(view.terms.configHash), view.terms.targetXp, request.profileId, ""),
          JoinContext(request.pactId))
    case Final =>
      if pact.None? then Err(NoPact)
      else
        var view := pact.value;
        match FinalRefusal(view, Capture, nowSeconds)
        case Some(e) => Err(e)
        case None =>
          if baseline.None? then Err(NoBaseline)
          else if hashes.identity(request.profileId) != baseline.value.identityHash then Err(DifferentAccount)
          else WithMessage(
            Session(sessionId, request.wallet, Intent.Final, Phase.Final, Some(request.pactId), None,
                    Some(view.terms.configHash), view.terms.targetXp, request.profileId, ""),
            FinalContext(request.pactId))
  }

  /** The context a session's own intent calls for. */
  function OwnContext(session: Session): ContextInput {
    match session.intent
    case Create => CreateContext(if session.createNonce.Some? then session.createNonce.value else "")
    case Join => JoinContext(if session.pactId.Some? then session.pactId.value else 0)
    case Final => FinalContext(if session.pactId.Some? then session.pactId.value else 0)
  }

  /** What a session row is allowed to contain. */
  predicate SessionShape(session: Session) {
    && (session.phase == Phase.Final <==> session.intent == Intent.Final)
    && session.configHash.Some?
    && (session.intent == Create <==> session.pactId.None?)
    && (session.intent == Create <==> session.createNonce.Some?)
    && ContextMessage(OwnContext(session)) == Ok(session.contextMessage)
  }

  /** Whatever a session request reads, the row it saves has that shape. */
  lemma PreparedSessionShape(hashes: SignerHashes, sessionId: string, request: OpenRequest,
                             pact: Option<PactView>, baseline: Option<BaselineRow>, nowSeconds: int)
    requires PrepareSession(hashes, sessionId, request, pact, baseline, nowSeconds).Ok?
    ensures var session := PrepareSession(hashes, sessionId, request, pact, baseline, nowSeconds).value;
            && SessionShape(session) && session.sessionId == sessionId && session.intent == request.intent
            && session.duolingoProfileId == request.profileId && session.walletAddress == request.wallet
            && (session.intent == Create ==>
                  && session.createNonce == Some(request.createNonce)
                  && session.configHash == Some(request.configHash) && session.targetXp == request.targetXp)
            && (session.intent != Create ==>
                  && pact.Some? && session.pactId == Some(request.pactId)
                  && session.configHash == Some(pact.value.terms.configHash)
                  && session.targetXp == pact.value.terms.targetXp
                  && !pact.value.live.cancelled && !pact.value.live.finalized)
            && (session.intent == Join ==>
                  && nowSeconds < pact.value.terms.startsAt && !pact.value.live.joined
                  && pact.value.live.participantCount < pact.value.live.maxParticipants)
            && (session.intent == Intent.Final ==>
                  && baseline.Some? && baseline.value.identityHash == hashes.identity(request.profileId)
                  && pact.value.live.joined && !pact.value.live.completed
                  && (var terms := pact.value.terms;
                      terms.startsAt <= nowSeconds < terms.startsAt + terms.durationSeconds)
                  && FinalRefusal(pact.value, Submit, nowSeconds).None?)
  {
  }

  // --- verifying ---------------------------------------------------------------------------------------

  function PolicyFor(session: Session): Policy {
    Policy(
      session.walletAddress,
      match session.pactId { case Some(id) => if id >= 0 then PrintNat(id) else "" case None => "0" },
      session.phase, session.sessionId, session.duolingoProfileId, Some(session.contextMessage))
  }

  /** The baseline branch up to the signature. */
  function SignedBaseline(hashes: SignerHashes, session: Session, evidence: Evidence, nowSeconds: int)
    : Result<BaselineAttestation, VerifyError>
  {
    if session.intent == Intent.Final then Err(InvalidBaselineSession)
    else if session.configHash.None? || session.configHash.value == "" then Err(InvalidBaselineSession)
    else if session.intent != Create && session.pactId.None? then Err(InvalidContextInput)
    else
      var binding :=
        if session.intent != Create then Pact(session.pactId.value)
        else Nonce(if session.createNonce.Some? then session.createNonce.value else "");
      match BuildBaseline(hashes, session.walletAddress, evidence.profileId, session.configHash.value, binding,
                          nowSeconds)
      case Err(_) => Err(InvalidContextInput)
      case Ok(attestation) => Ok(attestation)
  }

  function BaselineCommit(session: Session, evidence: Evidence, attestation: BaselineAttestation): BaselineInput {
    BaselineInput(
      session.sessionId, session.walletAddress, attestation.configHash, session.intent, session.pactId,
      session.createNonce, attestation.identityHash, session.targetXp, evidence.totalXp, evidence.observedAt,
      attestation.nullifier)
  }

  /** A signed final with the XP figures the response reports and the identity the chain held. */
  datatype FinalPlan = FinalPlan(
    attestation: FinalAttestation, chainIdentity: string, baselineXp: int, finalXp: int)

  /** The final branch from the stored baseline to the signature. */
  function SignedFinal(hashes: SignerHashes, session: Session, evidence: Evidence, pactId: int, pact: PactView,
                       baseline: Option<BaselineRow>, nowSeconds: int): Result<FinalPlan, VerifyError>
  {
    if baseline.None? then Err(NoBaseline)
    else
      var row := baseline.value;
      if hashes.identity(evidence.profileId) != row.identityHash
         || pact.live.participantIdentity != row.identityHash then Err(DifferentAccount)
      else if evidence.observedAt < pact.terms.startsAt
              || evidence.observedAt > pact.terms.startsAt + pact.terms.durationSeconds then Err(OutsideWindow)
      else
        var start := Evidence(evidence.profileId, row.baselineXp, evidence.identityHash, ZERO_HASH,
                              row.baselineObservedAt, session.sessionId, Phase.Baseline);
        match ValidateDelta(start, evidence, pact.terms.targetXp, None, nowSeconds)
        case Err(e) => Err(Rejected(e))
        case Ok(delta) =>
          match BuildFinal(hashes, session.walletAddress, evidence.profileId, pactId, delta.earnedXp,
                           pact.terms.targetXp, evidence.observedAt, nowSeconds)
          case Err(_) => Err(InvalidContextInput)
          case Ok(attestation) =>
            Ok(FinalPlan(attestation, pact.live.participantIdentity, delta.baselineXp, delta.finalXp))
  }

  function FinalCommit(session: Session, plan: FinalPlan): FinalInput {
    FinalInput(
      session.sessionId, session.walletAddress, plan.attestation.pactId, plan.attestation.identityHash,
      plan.attestation.earnedXp, plan.attestation.targetXp, plan.finalXp, plan.attestation.occurredAt,
      plan.attestation.nullifier)
  }

  // --- the transition system ---------------------------------------------------------------------------

  /** The proofs of one submission, each with the time its attestor signed it. */
  datatype ProofSet = ProofSet(data: seq<TrustedData>, timestamps: seq<Option<int>>)

  /** How far one verify request has come. */
  datatype Request =
    | Loaded(session: Session)
    | Verified(session: Session, proofs: ProofSet, evidence: Evidence)
    | BaselineSigned(session: Session, proofs: ProofSet, evidence: Evidence,
                     attestation: BaselineAttestation)
    | PactChecked(session: Session, proofs: ProofSet, evidence: Evidence, pactId: int, pact: PactView)
    | FinalSigned(session: Session, proofs: ProofSet, evidence: Evidence, plan: FinalPlan)
    | Answered

  /** An attestation handed to a client, with the proof set it rests on. */
  datatype Release =
    | BaselineRelease(sessionId: string, proofs: ProofSet, baseline: BaselineAttestation,
                      baselineXp: int, observedAt: int)
    | FinalRelease(sessionId: string, proofs: ProofSet, final: FinalAttestation,
                   chainIdentity: string, baselineXp: int, finalXp: int)

  /** `saved` counts how often each session id was inserted. */
  datatype State = State(
    db: Db,
    now: int,
    pacts: map<int, PactTerms>,
    requests: map<nat, Request>,
    releases: seq<Release>,
    saved: multiset<string>)

  datatype Action =
    | Tick(seconds: nat)
    | CreatePact(newPact: int, terms: PactTerms)
    | OpenSession(newSession: string, request: OpenRequest, openLive: PactLive, openedAt: int)
    | Prune
    | LoadSession(req: nat, sessionId: string)
    | Validate(req: nat, proofs: ProofSet)
    | SignBaseline(req: nat, signedAt: int)
    | CommitBaseline(req: nat)
    | ReadPact(req: nat, live: PactLive, readAt: int)
    | SignFinal(req: nat, signedAt: int)
    | CommitFinal(req: nat)

  const INITIAL := State(EMPTY_DB, 0, map[], map[], [], multiset{})

  function View(s: State, pactId: int, live: PactLive): Option<PactView> {
    if pactId in s.pacts then Some(PactView(s.pacts[pactId], live)) else None
  }

  function Set(s: State, req: nat, r: Request): State {
    s.(requests := s.requests[req := r])
  }

  function Opened(hashes: SignerHashes, s: State, id: string, request: OpenRequest, live: PactLive, at: int): State {
    var pact := View(s, request.pactId, live);
    var baseline := if pact.Some? then LoadBaseline(s.db, request.wallet, pact.value.terms.configHash) else None;
    match PrepareSession(hashes, id, request, pact, baseline, at)
    case Err(_) => s
    case Ok(session) =>
      if id in s.db.sessions then s
      else s.(
        db := AfterSave(s.db, session, s.now),
        saved := s.saved + multiset{id})
  }

  function Validated(hashes: SignerHashes, s: State, req: nat, session: Session, proofs: ProofSet): State
  {
    match EvidenceOf(hashes.proof, proofs.data, proofs.timestamps, PROVIDER_ID, PolicyFor(session))
    case Err(_) => Set(s, req, Answered)
    case Ok(evidence) => Set(s, req, Verified(session, proofs, evidence))
  }

  function BaselineSigning(hashes: SignerHashes, s: State, req: nat, r: Request, at: int): State
    requires r.Verified?
  {
    match SignedBaseline(hashes, r.session, r.evidence, at)
    case Err(_) => Set(s, req, Answered)
    case Ok(attestation) => Set(s, req, BaselineSigned(r.session, r.proofs, r.evidence, attestation))
  }

  function BaselineCommitted(s: State, req: nat, r: Request): State
    requires r.BaselineSigned?
  {
    var input := BaselineCommit(r.session, r.evidence, r.attestation);
    var after := Set(s, req, Answered).(db := AfterBaseline(s.db, input, s.now));
    if RecordsBaseline(s.db, input) then
      after.(releases := s.releases + [BaselineRelease(
        r.session.sessionId, r.proofs, r.attestation, r.evidence.totalXp, r.evidence.observedAt)])
    else after
  }

  function PactReading(s: State, req: nat, r: Request, live: PactLive, at: int): State
    requires r.Verified?
  {
    if r.session.pactId.None? then Set(s, req, Answered)
    else match View(s, r.session.pactId.value, live)
      case None => Set(s, req, Answered)
      case Some(pact) =>
        if FinalRefusal(pact, Submit, at).Some? then Set(s, req, Answered)
        else Set(s, req, PactChecked(r.session, r.proofs, r.evidence, r.session.pactId.value, pact))
  }

  function FinalSigning(hashes: SignerHashes, s: State, req: nat, r: Request, at: int): State
    requires r.PactChecked?
  {
    var baseline := LoadBaseline(s.db, r.session.walletAddress, r.pact.terms.configHash);
    match SignedFinal(hashes, r.session, r.evidence, r.pactId, r.pact, baseline, at)
    case Err(_) => Set(s, req, Answered)
    case Ok(plan) => Set(s, req, FinalSigned(r.session, r.proofs, r.evidence, plan))
  }

  function PlannedRelease(session: Session, proofs: ProofSet, plan: FinalPlan): Release {
    FinalRelease(session.sessionId, proofs, plan.attestation, plan.chainIdentity, plan.baselineXp, plan.finalXp)
  }

  function FinalCommitted(s: State, req: nat, r: Request): State
    requires r.FinalSigned?
  {
    var input := FinalCommit(r.session, r.plan);
    var after := Set(s, req, Answered).(db := AfterFinal(s.db, input, s.now));
    if Unconsumed(s.db.sessions, input.sessionId) then
      after.(releases := s.releases + [PlannedRelease(r.session, r.proofs, r.plan)])
    else after
  }

  /** One atomic step; an action that does not apply leaves the state alone. */
  function Step(hashes: SignerHashes, s: State, a: Action): State {
    match a
    case Tick(seconds) => s.(now := s.now + seconds)
    case CreatePact(id, terms) => if id in s.pacts then s else s.(pacts := s.pacts[id := terms])
    case OpenSession(id, request, live, at) => Opened(hashes, s, id, request, live, at)
    case Prune => s.(db := AfterPrune(s.db, s.now))
    case LoadSession(req, id) =>
      (match Load(s.db, id, s.now)
       case None => Set(s, req, Answered)
       case Some(session) => Set(s, req, Loaded(session)))
    case Validate(req, proofs) =>
      if req in s.requests && s.requests[req].Loaded?
      then Validated(hashes, s, req, s.requests[req].session, proofs) else s
    case SignBaseline(req, at) =>
      if req in s.requests && s.requests[req].Verified? && s.requests[req].session.phase == Phase.Baseline
      then BaselineSigning(hashes, s, req, s.requests[req], at) else s
    case CommitBaseline(req) =>
      if req in s.requests && s.requests[req].BaselineSigned?
      then BaselineCommitted(s, req, s.requests[req]) else s
    case ReadPact(req, live, at) =>
      if req in s.requests && s.requests[req].Verified? && s.requests[req].session.phase == Phase.Final
      then PactReading(s, req, s.requests[req], live, at) else s
    case SignFinal(req, at) =>
      if req in s.requests && s.requests[req].PactChecked?
      then FinalSigning(hashes, s, req, s.requests[req], at) else s
    case CommitFinal(req) =>
      if req in s.requests && s.requests[req].FinalSigned?
      then FinalCommitted(s, req, s.requests[req]) else s
  }

  function Run(hashes: SignerHashes, s: State, actions: seq<Action>): State
    decreases |actions|
  {
    if actions == [] then s else Run(hashes, Step(hashes, s, actions[0]), actions[1..])
  }
}
