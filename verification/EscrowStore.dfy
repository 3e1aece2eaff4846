/** The three tables of the financial Duolingo escrow and the statements that touch them
    (src/duolingo-escrow-store.ts). Each method is one atomic SQL statement. */
module EscrowStore {
  import opened Prelude
  import opened Text
  import ProofPolicy
  import EscrowAttestation

  const SESSION_TTL_SECONDS := 1800
  const SESSION_PRUNE_SECONDS := 86400

  datatype Session = Session(
    sessionId: string,
    walletAddress: string,
    intent: EscrowAttestation.Intent,
    phase: ProofPolicy.Phase,
    pactId: Option<int>,
    createNonce: Option<string>,
    configHash: Option<string>,
    targetXp: int,
    duolingoProfileId: string,
    contextMessage: string)

  datatype SessionRow = SessionRow(session: Session, createdAt: int, consumedAt: Option<int>)

  datatype BaselineRow = BaselineRow(
    walletAddress: string,
    configHash: string,
    intent: EscrowAttestation.Intent,
    pactId: Option<int>,
    createNonce: Option<string>,
    identityHash: string,
    targetXp: int,
    baselineXp: int,
    baselineObservedAt: int,
    baselineSessionId: string,
    nullifier: string,
    createdAt: int)

  datatype FinalRow = FinalRow(
    walletAddress: string,
    pactId: int,
    identityHash: string,
    earnedXp: int,
    targetXp: int,
    finalXp: int,
    finalObservedAt: int,
    nullifier: string,
    finalSessionId: string,
    createdAt: int,
    updatedAt: int)

  datatype BaselineInput = BaselineInput(
    sessionId: string,
    walletAddress: string,
    configHash: string,
    intent: EscrowAttestation.Intent,
    pactId: Option<int>,
    createNonce: Option<string>,
    identityHash: string,
    targetXp: int,
    baselineXp: int,
    baselineObservedAt: int,
    nullifier: string)

  datatype FinalInput = FinalInput(
    sessionId: string,
    walletAddress: string,
    pactId: int,
    identityHash: string,
    earnedXp: int,
    targetXp: int,
    finalXp: int,
    finalObservedAt: int,
    nullifier: string)

  type Sessions = map<string, SessionRow>

  /** Primary keys: session id; (wallet, config hash); (wallet, Lock). */
  datatype Db = Db(
    sessions: Sessions,
    baselines: map<(string, string), BaselineRow>,
    finals: map<(string, int), FinalRow>)

  const EMPTY_DB := Db(map[], map[], map[])

  // --- the statements as functions on the tables -------------------------------------------------------

  predicate Unconsumed(sessions: Sessions, id: string) {
    id in sessions && sessions[id].consumedAt.None?
  }

  function StoredSession(session: Session): Session {
    session.(walletAddress := ToLower(session.walletAddress))
  }

  /** INSERT ... ON CONFLICT DO NOTHING. */
  function AfterSave(db: Db, session: Session, now: int): Db {
    if session.sessionId in db.sessions then db
    else db.(sessions := db.sessions[session.sessionId := SessionRow(StoredSession(session), now, None)])
  }

  /** The live, unconsumed, unexpired session. */
  function Load(db: Db, id: string, now: int): Option<Session> {
    if Unconsumed(db.sessions, id) && db.sessions[id].createdAt > now - SESSION_TTL_SECONDS
    then Some(db.sessions[id].session)
    else None
  }

  function AfterPrune(db: Db, now: int): Db {
    db.(sessions := map id | id in db.sessions && db.sessions[id].createdAt >= now - SESSION_PRUNE_SECONDS
                    :: db.sessions[id])
  }

  /** The CTE both commits share: mark the session consumed and forget its raw profile id. */
  function Consumed(sessions: Sessions, id: string, now: int): Sessions {
    if !Unconsumed(sessions, id) then sessions
    else
      var row := sessions[id];
      sessions[id := SessionRow(row.session.(duolingoProfileId := ""), row.createdAt, Some(now))]
  }

  function BaselineKey(input: BaselineInput): (string, string) {
    (ToLower(input.walletAddress), input.configHash)
  }

  function NewBaselineRow(input: BaselineInput, now: int): BaselineRow {
    BaselineRow(
      ToLower(input.walletAddress), input.configHash, input.intent, input.pactId, input.createNonce,
      input.identityHash, input.targetXp, input.baselineXp, input.baselineObservedAt, input.sessionId,
      input.nullifier, now)
  }

  /** Whether the statement inserts a row, and so returns true. */
  predicate RecordsBaseline(db: Db, input: BaselineInput) {
    Unconsumed(db.sessions, input.sessionId) && BaselineKey(input) !in db.baselines
  }

  function AfterBaseline(db: Db, input: BaselineInput, now: int): Db {
    Db(
      Consumed(db.sessions, input.sessionId, now),
      if RecordsBaseline(db, input) then db.baselines[BaselineKey(input) := NewBaselineRow(input, now)]
      else db.baselines,
      db.finals)
  }

  function LoadBaseline(db: Db, wallet: string, configHash: string): Option<BaselineRow> {
    var key := (ToLower(wallet), configHash);
    if key in db.baselines then Some(db.baselines[key]) else None
  }

  function FinalKey(input: FinalInput): (string, int) {
    (ToLower(input.walletAddress), input.pactId)
  }

  /** The row an upsert leaves: on conflict `identityHash`, `targetXp` and `createdAt` keep their old values. */
  function UpsertedFinal(finals: map<(string, int), FinalRow>, input: FinalInput, now: int): FinalRow {
    if FinalKey(input) in finals then
      finals[FinalKey(input)].(
        earnedXp := input.earnedXp, finalXp := input.finalXp, finalObservedAt := input.finalObservedAt,
        nullifier := input.nullifier, finalSessionId := input.sessionId, updatedAt := now)
    else
      FinalRow(
        ToLower(input.walletAddress), input.pactId, input.identityHash, input.earnedXp, input.targetXp,
        input.finalXp, input.finalObservedAt, input.nullifier, input.sessionId, now, now)
  }

  function AfterFinal(db: Db, input: FinalInput, now: int): Db {
    if !Unconsumed(db.sessions, input.sessionId) then db
    else Db(
      Consumed(db.sessions, input.sessionId, now),
      db.baselines,
      db.finals[FinalKey(input) := UpsertedFinal(db.finals, input, now)])
  }

  // --- the store ---------------------------------------------------------------------------------------

  class Store {
    var sessions: Sessions
    var baselines: map<(string, string), BaselineRow>
    var finals: map<(string, int), FinalRow>

    ghost function Tables(): Db
      reads this
    {
      Db(sessions, baselines, finals)
    }

    constructor ()
      ensures Tables() == EMPTY_DB
    {
      sessions, baselines, finals := map[], map[], map[];
    }

    method SaveSession(session: Session, now: int)
      modifies this`sessions
      ensures Tables() == AfterSave(old(Tables()), session, now)
    {
      if session.sessionId !in sessions {
        sessions := sessions[session.sessionId := SessionRow(StoredSession(session), now, None)];
      }
    }

    method LoadSession(id: string, now: int) returns (r: Option<Session>)
      ensures r == Load(Tables(), id, now)
    {
      if id !in sessions { return None; }
      var row := sessions[id];
      if row.consumedAt.Some? || row.createdAt <= now - SESSION_TTL_SECONDS { return None; }
      return Some(row.session);
    }

    method PruneExpired(now: int)
      modifies this`sessions
      ensures Tables() == AfterPrune(old(Tables()), now)
    {
      sessions := map id | id in sessions && !(sessions[id].createdAt < now - SESSION_PRUNE_SECONDS)
        :: sessions[id];
    }

    /** Marks a live session consumed; reports whether there was one. */
    method Consume(id: string, now: int) returns (consumed: bool)
      modifies this`sessions
      ensures consumed == Unconsumed(old(sessions), id)
      ensures sessions == Consumed(old(sessions), id, now)
    {
      consumed := id in sessions && sessions[id].consumedAt.None?;
      if consumed {
        var row := sessions[id];
        sessions := sessions[id := SessionRow(row.session.(duolingoProfileId := ""), row.createdAt, Some(now))];
      }
    }

    /** The session is spent even when the baseline already exists; only a fresh row returns true. */
    method ConsumeAndSaveBaseline(input: BaselineInput, now: int) returns (recorded: bool)
      modifies this
      ensures Tables() == AfterBaseline(old(Tables()), input, now)
      ensures recorded == RecordsBaseline(old(Tables()), input)
    {
      var consumed := Consume(input.sessionId, now);
      recorded := consumed && BaselineKey(input) !in baselines;
      if recorded {
        baselines := baselines[BaselineKey(input) := NewBaselineRow(input, now)];
      }
    }

    method LoadEscrowBaseline(wallet: string, configHash: string) returns (r: Option<BaselineRow>)
      ensures r == LoadBaseline(Tables(), wallet, configHash)
    {
      var key := (ToLower(wallet), configHash);
      if key in baselines { return Some(baselines[key]); }
      return None;
    }

    method ConsumeAndSaveFinal(input: FinalInput, now: int) returns (recorded: bool)
      modifies this
      ensures Tables() == AfterFinal(old(Tables()), input, now)
      ensures recorded == Unconsumed(old(sessions), input.sessionId)
    {
      recorded := Consume(input.sessionId, now);
      if recorded {
        var key := FinalKey(input);
        if key in finals {
          var row := finals[key];
          finals := finals[key := row.(
            earnedXp := input.earnedXp, finalXp := input.finalXp, finalObservedAt := input.finalObservedAt,
            nullifier := input.nullifier, finalSessionId := input.sessionId, updatedAt := now)];
        } else {
          finals := finals[key := FinalRow(
            key.0, input.pactId, input.identityHash, input.earnedXp, input.targetXp, input.finalXp,
            input.finalObservedAt, input.nullifier, input.sessionId, now, now)];
        }
      }
    }
  }

  // --- what the statements promise ---------------------------------------------------------------------

  /** A new session can be loaded for half an hour, as it was saved but for the case of its wallet, and pruning leaves
      it alone for a day. */
  lemma SessionLifetime(db: Db, session: Session, saved: int, later: int)
    requires session.sessionId !in db.sessions
    ensures var after := AfterSave(db, session, saved);
            && Load(after, session.sessionId, later)
               == (if later >= saved + 1800 then None
                   else Some(session.(walletAddress := ToLower(session.walletAddress))))
            && (session.sessionId in AfterPrune(after, later).sessions <==> later <= saved + 86400)
  {
  }

  /** A conflicting baseline commit burns its session, records nothing, and cannot be retried with it. */
  lemma ConflictBurnsSession(db: Db, input: BaselineInput, now: int, retry: BaselineInput, later: int)
    requires Unconsumed(db.sessions, input.sessionId) && BaselineKey(input) in db.baselines
    requires retry.sessionId == input.sessionId
    ensures var after := AfterBaseline(db, input, now);
            && !RecordsBaseline(db, input)
            && after.baselines == db.baselines && after.finals == db.finals
            && Load(after, input.sessionId, later) == None
            && !RecordsBaseline(after, retry)
            && AfterBaseline(after, retry, later) == after
  {
  }

  /** Why session ids must be fresh: an id saved again after its row was pruned can be consumed again. */
  lemma ReusedIdIsConsumedAgain(session: Session, first: FinalInput, again: FinalInput, t0: int, t1: int, t2: int)
    requires first.sessionId == again.sessionId == session.sessionId
    requires t2 > t0 + SESSION_PRUNE_SECONDS
    ensures var saved := AfterSave(EMPTY_DB, session, t0);
            var spent := AfterFinal(saved, first, t1);
            var reopened := AfterSave(AfterPrune(spent, t2), session, t2);
            && Unconsumed(saved.sessions, session.sessionId)
            && !Unconsumed(spent.sessions, session.sessionId)
            && Unconsumed(reopened.sessions, session.sessionId)
            && AfterFinal(reopened, again, t2).finals.Keys == {FinalKey(first), FinalKey(again)}
  {
  }
}
