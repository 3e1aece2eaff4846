# Lock In: verified models

Lock In lets players stake on a shared goal (a *Lock* or *pact*) and pays out on evidence that the goal was met. This
project models the parts of its code that decide about that evidence, about the people who may act, and about what is
shown, and proves what they promise:

- **The Duolingo evidence signer** (`ProofPolicy`, `EscrowAttestation`, `EscrowStore`, `EscrowProtocol`,
  `EscrowSafety`, `EscrowTheorems`, `EscrowAnswers`). Sessions, baselines and finals live in three tables. Any number
  of session and verify requests run at once; a verify request loads, validates, reads the chain, signs and commits in
  separate steps. The protocol is a transition system over those steps, `EscrowSafety.Safe` is its inductive
  invariant, and the theorems hold for every interleaving from empty tables. Two steps merge what the code does in
  sequence: opening a session (chain read, baseline load, insertion) and signing a final (baseline load, signature).
  That is sound because baseline rows and the terms of a Lock never change once they exist, refused requests change
  nothing, and the rest of what is read is free at each step. The tables are also a class whose methods are the SQL
  statements, and the handler is a method proved equal to the scripted run of any request number from any state; what
  it answers is also told field by field.
- **The rate limiter** (`RateLimiter`, `RateLimits`): the bounded, insertion-ordered map as a class, and its
  refinement of an unbounded limiter.
- **Invite codes** (`LockInvite`, `LockRouter`): a bijection between ids and codes, and the router that reads what a
  player typed.
- **Signed JSON** (`SortedNames`, `CanonicalJson`, `JsonInspector`): the canonical text of a tree, with a reader that
  takes it back, and the inspection of a tree, restated over the paths into it.
- **Leaderboards** (`LogScan`, `DayTables`, `Leaderboard`, `LeaderboardTheorems`, `ScoreLogs`): paging through chain
  logs, folding events into day tables, sorting, ranking and cutting off; and how the running escrow emits those events.
- **Strava check-ins** (`PactDays`, `StravaRuns`): day windows, the server's guards against the dashboard's search, and
  the choice of the run that counts.
- **OAuth state** (`OAuthState`): issuing, verifying and burning a one-time state, with callbacks interleaved.

`Text` holds strings and decimal numerals, and module `Prelude` in the same file holds `Option` and `Result`.
`dafny verify dfyconfig.toml` checks everything.

## Assumptions

- Hashes, keyed hashes, address checks, `Date.parse`, URL parsing, base64url, the engine's upper-casing and
  `localeCompare` are function-valued parameters. Injectivity is required only where a lemma says so, and a consistent
  order of names only in `LeaderboardTheorems.SortedInOrder`, `LeaderboardTheorems.EqualScoresByName` and
  `LeaderboardTheorems.AnyStableSortIsSorted`. The evidence signer's key is fixed.
- The terms of a Lock (configuration hash, target, window) do not change once it exists; everything else the chain says
  about it may differ at each read.
- The database clock does not go back. The server's own clock is free in the escrow protocol. The limiter's clock does
  not go back over a run, and callbacks and database share one clock in `OAuthState`. Where the dashboard and the server
  are compared they are given one time, although the page takes its own and the server the latest block's.
- `Array.prototype.sort` is stable, which JavaScript guarantees. The leaderboard's is modelled as insertion; when names
  compare consistently every stable sort gives that result (`LeaderboardTheorems.AnyStableSortIsSorted`). For an
  inconsistent comparison the language leaves the order open, and the model stands for insertion only.
- A provider's answers for adjacent block ranges add up to its answer for the whole (`LogScan.Additive`); whether it
  answers at all may differ from call to call.

## What the code does not promise

- `src/duolingo-escrow-store.ts:218` says a final is signed whether or not it was recorded. The route refuses when
  nothing was recorded, and the model follows the route.
- Session ids must be fresh. A spent row is pruned after a day, and an id opened again after that releases again
  (`EscrowTheorems.ReusedIdReleasesTwice`). In every run an id releases at most as often as it was inserted
  (`EscrowTheorems.ReleasesNeverExceedInsertions`).
- A number that overflows, such as `1e999`, prints as `null`. Canonical texts agree exactly when trees are equal counting
  such numbers as `null` (`CanonicalJson.CanonicalTextDecides`, `CanonicalJson.OverflowPrintsAsNull`).
- The router hands on a bare number outside the contract's range of ids, though never as the result of a code
  (`LockRouter.OutOfRangeIds`).
- As functions of a pact, the dashboard's search and the server's guards differ outside running Locks: there the page
  offers a check-in that the server always refuses. They agree on all states of a pact exactly if it is a running Lock or
  nobody could check in at all (`PactDays.DashboardAgreesExactly`). The running escrow creates no other mission
  (`contracts/LockInEscrow.sol:740-746`), so every pact it can hold is on the agreeing side.
- As a function of events, the running board can show a lock score below its all-time score: exactly for players with
  more days of runs than verified days in all (`LeaderboardTheorems.LockScoreCoversRunning`). That needs events made by
  hand (`LeaderboardTheorems.RunWithoutScoreEvent`). The deployed escrow logs a score for the day of every run it logs, so
  on its logs the lock score always covers the running score (`ScoreLogs.ChainCoversRunning`).
- The longest outdoor run decides even if it is implausible, so a longer implausible run costs the day of an athlete
  with a good one (`StravaRuns.FurtherRunDecidesIfLonger`).
- A callback that verifies a state in time and runs its statements after the expiry can be granted a second time
  (`OAuthState.ReplayAfterExpiry`); every grant after the first is of that kind (`OAuthState.GrantedOnceUntilExpiry`).

## Model

| member | source | states |
|---|---|---|
| `ProofPolicy.ValidateDuolingoEvidence` | src/duolingo-proof-policy.ts:96-185 | the loop over proofs, which fills a set and stops at the first refusal, gives the same verdict as a definition without state |
| `ProofPolicy.AcceptedEvidence` | src/duolingo-proof-policy.ts:122-184 | accepted evidence rests on two proofs that both name the wallet, message and session; one owns the account, the other alone states the XP, and the evidence is that proof's XP and timestamp |
| `ProofPolicy.AcceptedExactly` | src/duolingo-proof-policy.ts:96-185 | a proof set is accepted exactly if it comes from the pinned provider and both pinned requests, names wallet, message and session twice, and one proof owns the expected account while the other alone states an XP in range |
| `ProofPolicy.AcceptedFields` | src/duolingo-proof-policy.ts:148-160 | the attested account and XP are the ones the proofs themselves state |
| `ProofPolicy.AcceptedTime` | src/duolingo-proof-policy.ts:176-184 | the time of accepted evidence is the timestamp of the one proof of two that states the XP |
| `ProofPolicy.RefusalIsTrue` | src/duolingo-proof-policy.ts:96-160 | whatever reason a refusal gives is true of the proofs, timestamps or policy submitted |
| `ProofPolicy.SwappedProofsGiveSameEvidence` | src/duolingo-proof-policy.ts:117-184 | swapping the proofs together with their timestamps changes neither acceptance nor the evidence |
| `ProofPolicy.EvidenceBindsOnePolicy` | src/duolingo-proof-policy.ts:117-134 | evidence accepted for one message, session, wallet or profile is refused for any other |
| `ProofPolicy.ValidateDelta` | src/duolingo-proof-policy.ts:203-254 | an accepted delta is for one identity, the final is strictly later, the earned XP is exactly the difference, and it reaches a positive target |
| `ProofPolicy.DeltaAcceptedExactly` | src/duolingo-proof-policy.ts:203-254 | a delta is accepted exactly for one identity, a strictly later final with its own nullifier, and at least a positive target of further XP, within the age limit if there is one |
| `ProofPolicy.DeltaRefusalIsTrue` | src/duolingo-proof-policy.ts:203-245 | so is the reason a delta is refused for |
| `ProofPolicy.NullifierNamesPhase` | src/duolingo-proof-policy.ts:162-174 | with injective hashes, accepted evidence shares a nullifier exactly for one account, Lock and phase, whatever its XP, time, session and wallet |
| `EscrowAttestation.ContextMessageInjective` | src/duolingo-escrow-attestation.ts:65-79 | two context messages are equal exactly when intent and Lock, or intent and case-folded nonce, are |
| `EscrowAttestation.ProofServesOneAction` | src/duolingo-escrow-attestation.ts:59-79 | a proof set accepted for one escrow action is refused for every action bound to something else |
| `EscrowAttestation.BaselineNullifierNamesAction` | src/duolingo-escrow-attestation.ts:88-162 | with an injective hash, baseline nullifiers agree exactly for one identity and one Lock or case-folded nonce, and an attestation lasts five minutes |
| `EscrowAttestation.FinalNullifierNamesLock` | src/duolingo-escrow-attestation.ts:101-104 | with an injective hash, a final nullifier is that of no baseline and of no final for another identity or Lock |
| `EscrowStore.Store.constructor` | src/duolingo-escrow-store.ts:19-78 | the tables start empty |
| `EscrowStore.Store.SaveSession` | src/duolingo-escrow-store.ts:94-103 | the whole new state: a new id is inserted with its wallet lower-cased, a known id changes nothing |
| `EscrowStore.Store.LoadSession` | src/duolingo-escrow-store.ts:106-129 | a session is found exactly if it is unconsumed and younger than its half hour |
| `EscrowStore.Store.PruneExpired` | src/duolingo-escrow-store.ts:131-135 | exactly the rows older than a day go, consumed or not |
| `EscrowStore.Store.Consume` | src/duolingo-escrow-store.ts:171-175 | at most one caller consumes a session, and the raw profile id is forgotten |
| `EscrowStore.Store.ConsumeAndSaveBaseline` | src/duolingo-escrow-store.ts:156-187 | the whole new state of all tables, and true exactly if this call inserted the row |
| `EscrowStore.Store.LoadEscrowBaseline` | src/duolingo-escrow-store.ts:189-212 | the row of the lower-cased wallet and configuration, if any |
| `EscrowStore.Store.ConsumeAndSaveFinal` | src/duolingo-escrow-store.ts:220-253 | the whole new state, in which a conflict keeps identity, target and creation time of the old row |
| `EscrowStore.ConflictBurnsSession` | src/duolingo-escrow-store.ts:170-186 | a baseline that conflicts still burns its session, changes no durable table, and cannot be retried with it |
| `EscrowStore.ReusedIdIsConsumedAgain` | src/duolingo-escrow-store.ts:94-135 | in the store, a row saved again under an id that was pruned is consumed again |
| `EscrowStore.SessionLifetime` | src/duolingo-escrow-store.ts:94-135 | a session can be loaded for exactly half an hour after it was saved, as it was saved with its wallet lower-cased, and is pruned exactly after a day |
| `EscrowProtocol.SubmissionOutlastsCapture` | src/duolingo-escrow-chain.ts:52-69 | a final may be submitted exactly as long as a proof could be captured, and for an hour after |
| `EscrowProtocol.PreparedSessionShape` | app/api/duolingo/escrow/session/route.ts:77-145 | whatever a session request reads, its row ties phase, Lock, nonce, terms and message to the intent; joining needs an open Lock that has not started, a final the stored identity and a Lock under way |
| `EscrowSafety.StepKeepsSafe` | app/api/duolingo/escrow/verify/route.ts:52-246 | every step of every request, of the clock, of pruning and of the chain keeps the invariant |
| `EscrowSafety.BaselineCommittedKeepsSafe` | app/api/duolingo/escrow/verify/route.ts:139-165 | committing a baseline keeps rows and released baselines in one-to-one correspondence, whatever happened since it was signed |
| `EscrowSafety.FinalCommittedKeepsSafe` | app/api/duolingo/escrow/verify/route.ts:222-245 | committing a final keeps the invariant, although other requests ran between its reads and its commit |
| `EscrowSafety.NextFinalAgrees` | src/duolingo-escrow-store.ts:231-250 | a final about to be released has identity, target and nullifier of every earlier one for its wallet and Lock |
| `EscrowSafety.UpsertMatches` | src/duolingo-escrow-store.ts:243-249 | the row left by the partial update equals the final just released in every column |
| `EscrowSafety.RunKeepsSafe` | app/api/duolingo/escrow/verify/route.ts:52-246 | the invariant over any run |
| `EscrowSafety.ReachableIsSafe` | app/api/duolingo/escrow/verify/route.ts:52-246 | the invariant in every reachable state |
| `EscrowTheorems.EveryFinalIsJustified` | app/api/duolingo/escrow/verify/route.ts:168-234 | each released final follows a released baseline of its wallet, configuration and identity, is later, lies in the Lock's window, and its earned XP is the difference and reaches the Lock's target |
| `EscrowTheorems.FinalsTableAgrees` | src/duolingo-escrow-store.ts:231-250 | there is a finals row exactly if a final was released, and it is the last one field by field |
| `EscrowTheorems.FinalNullifierIsStable` | src/duolingo-escrow-attestation.ts:101-104 | all finals of a wallet and Lock carry one nullifier, identity and target |
| `EscrowTheorems.ReleasesNeverExceedInsertions` | app/api/duolingo/escrow/verify/route.ts:139-155 | in every run a session id releases at most as many attestations as it was inserted times |
| `EscrowTheorems.SessionReleasesOnce` | app/api/duolingo/escrow/verify/route.ts:139-155 | so an id inserted once releases at most one, and its proof set is behind no other release |
| `EscrowTheorems.ReusedIdReleasesTwice` | src/duolingo-escrow-store.ts:131-135 | the bound is met: the run in which an id opened again after pruning releases twice |
| `EscrowTheorems.FinalProofsNameTheLock` | app/api/duolingo/escrow/verify/route.ts:106-118 | the proofs behind a released final name its wallet, session, Lock and final phase, and state the attested account and XP |
| `EscrowTheorems.FinalTimeIsProofTime` | app/api/duolingo/escrow/verify/route.ts:213-220 | in every run the time a final attests is the timestamp of the one proof of its set that states the XP, and the attestation lasts 300 seconds |
| `EscrowTheorems.BaselineRestsOnItsProofs` | app/api/duolingo/escrow/verify/route.ts:120-165 | in every run a baseline attests the account and XP its proofs state, reports that proof's timestamp, spends the nullifier of the very create or join its proofs name, and lasts 300 seconds |
| `EscrowTheorems.BaselineIsReleasedOnce` | src/duolingo-escrow-store.ts:149-187 | one baseline attestation at most per wallet and configuration, and the row is that attestation |
| `EscrowTheorems.HistoryPersists` | src/duolingo-escrow-store.ts:149-187 | from any state, baseline rows never change, finals rows and releases are never lost |
| `EscrowTheorems.StepPersists` | src/duolingo-escrow-store.ts:149-187 | the same for a single step |
| `EscrowTheorems.QuietStep` | app/api/duolingo/escrow/verify/route.ts:168-220 | only the two commits touch the durable tables or release anything |
| `EscrowTheorems.ConsumedRowsForgetProfile` | src/duolingo-escrow-store.ts:169-175 | in every reachable state a consumed row has no raw profile id |
| `EscrowTheorems.ReleasedExactlyWhenDue` | app/api/duolingo/escrow/verify/route.ts:52-246 | from any state and under any request number, an undisturbed request releases exactly one attestation if its session is live, its proofs are acceptable and what they say is due one, and none otherwise |
| `EscrowTheorems.ScriptIsPosted` | app/api/duolingo/escrow/verify/route.ts:52-246 | the scripted run has the handler's effect on the tables and releases, and touches no other request, Lock, clock or count |
| `EscrowTheorems.FinalReleasedExactly` | app/api/duolingo/escrow/verify/route.ts:176-234 | for a validated final of an open Lock: exactly if session, baseline, both identities, window, order and XP deserve it |
| `EscrowTheorems.BaselineReleasedExactly` | app/api/duolingo/escrow/verify/route.ts:120-155 | for a validated baseline: exactly if its session waits, is bound to a nonce or a Lock, and no row exists |
| `EscrowTheorems.VerifyPost` | app/api/duolingo/escrow/verify/route.ts:52-246 | the handler leaves the tables and gives the answer of the scripted run of any request number, from any state with those tables, time and Locks |
| `EscrowTheorems.VerifyBaseline` | app/api/duolingo/escrow/verify/route.ts:120-166 | the whole effect and the answer of the baseline branch |
| `EscrowTheorems.VerifyFinal` | app/api/duolingo/escrow/verify/route.ts:176-246 | the whole effect and the answer of the final branch once the Lock was read |
| `EscrowAnswers.OpenedExactly` | app/api/duolingo/escrow/session/route.ts:77-160 | in any state a session request inserts exactly this row, every column of it, if its intent, the Lock and the stored baseline allow it, and changes nothing otherwise |
| `EscrowAnswers.EvidenceNamesSession` | app/api/duolingo/escrow/verify/route.ts:106-118 | the event nullifier of accepted evidence is that of the account, the Lock, or nought for a create, and the phase of its session |
| `EscrowAnswers.AnswerSays` | app/api/duolingo/escrow/verify/route.ts:120-246 | every field of the answer and of the rows that an undisturbed request due an attestation leaves, read off its session, its proofs, the Lock and the stored baseline: XP difference, target, proof time, nullifier, issue time and expiry |
| `EscrowAnswers.FinalRefusalIsTrue` | src/duolingo-escrow-chain.ts:52-69 | a final is refused for a reason that is true of its Lock |
| `EscrowAnswers.OpeningRefusalIsTrue` | app/api/duolingo/escrow/session/route.ts:77-145 | so is the opening of a session |
| `EscrowAnswers.SigningRefusalIsTrue` | app/api/duolingo/escrow/verify/route.ts:176-211 | so is the signing of a final |
| `RateLimiter.FixedWindowRateLimiter.constructor` | src/rate-limit.ts:45-48 | an empty map under a valid configuration |
| `RateLimiter.FixedWindowRateLimiter.Create` | src/rate-limit.ts:39-49 | a limiter is made exactly from three positive integers |
| `RateLimiter.FixedWindowRateLimiter.Check` | src/rate-limit.ts:55-77 | the whole new map, in order, and the decision |
| `RateLimiter.FixedWindowRateLimiter.EntryFor` | src/rate-limit.ts:57-69 | the live bucket, or a fresh one at the end after expired and then oldest ones made room |
| `RateLimiter.FixedWindowRateLimiter.PruneExpired` | src/rate-limit.ts:96-101 | exactly the live buckets stay, in order |
| `RateLimiter.FixedWindowRateLimiter.MakeRoom` | src/rate-limit.ts:103-109 | as few of the oldest buckets go as leave room for one |
| `RateLimits.RunWellKept` | src/rate-limit.ts:55-109 | over every run the map is sorted by expiry, within its bound, with distinct keys and counts within the limit |
| `RateLimits.CheckedWellKept` | src/rate-limit.ts:55-77 | one check keeps that |
| `RateLimits.EvictionIsSoonest` | src/rate-limit.ts:63-69 | a check evicts a live bucket exactly if it needs a fresh one while the bound is met by live others; it is one bucket, the soonest to expire, never the checked key |
| `RateLimits.DenialChangesNothing` | src/rate-limit.ts:71-73 | a denied check leaves the map as it was, and only a full live bucket is denied |
| `RateLimits.RemainingCountsDown` | src/rate-limit.ts:71-93 | within a window the next check is allowed exactly if `remaining` is positive, and then leaves one less under the same reset time |
| `RateLimits.RetryIsAllowed` | src/rate-limit.ts:84-92 | after waiting as long as a denial says, the key is allowed whatever other keys did |
| `RateLimits.RetryIsLeast` | src/rate-limit.ts:83-94 | a denial asks for at least a second and no second too many, an allowed check for none |
| `RateLimits.DecisionReports` | src/rate-limit.ts:55-94 | every field of a decision: it reports the bucket left under the key, whose reset time is kept while its window is open and is one window from now otherwise, and allows exactly while the limit is not used up |
| `RateLimits.WindowClosesAtReset` | src/rate-limit.ts:57-69 | a later check opens a new window exactly from the reported reset time on, or if the key was evicted, whatever other keys did meanwhile |
| `RateLimits.CheckRefines` | src/rate-limit.ts:55-77 | one check of the bounded and the unbounded limiter decides alike while live buckets fit |
| `RateLimits.OverflowEvicts` | src/rate-limit.ts:63-66 | and a live bucket is lost exactly when they do not fit |
| `RateLimits.BoundedRefinesIdeal` | src/rate-limit.ts:55-109 | over any run whose live buckets fit, all decisions are those of the unbounded limiter: pruning and lazy deletion are invisible |
| `RateLimits.IdealAccount` | src/rate-limit.ts:57-76 | one bucket allows at most `limit` checks, and any stretch reaching back one window at most twice that |
| `RateLimits.KeyKeepsItsBucket` | src/rate-limit.ts:55-109 | a key whose own live bucket is never evicted gets the decisions of the unbounded limiter, whatever happens to other keys |
| `RateLimits.NoEvictionIsFitting` | src/rate-limit.ts:63-66 | a run evicts no live bucket exactly if its live buckets always fit |
| `RateLimits.AtMostTwiceTheLimit` | src/rate-limit.ts:55-77 | over any run that never evicts a live bucket of a key, no stretch of `windowMs` holds more than twice the limit of its allowed checks |
| `LockInvite.AlphabetSpelledOut` | src/lock-invite.ts:3 | the digits are the Crockford alphabet |
| `LockInvite.IndexOf` | src/lock-invite.ts:47 | the inverse of the alphabet |
| `LockInvite.EncodeCrockford` | src/lock-invite.ts:9-19 | the loop prints the numeral |
| `LockInvite.CrockfordValue` | src/lock-invite.ts:9-19 | the printed numeral reads back as the number and has no leading zero |
| `LockInvite.CanonicalNumeral` | src/lock-invite.ts:9-19 | a numeral without leading zero is the only one of its value |
| `LockInvite.DigitCounts` | src/lock-invite.ts:21-42 | a uint256 fits the 52 digits of the pattern, and a checksum is always two |
| `LockInvite.ChecksumFacts` | src/lock-invite.ts:21-24 | a checksum is two digits that read as the low ten bits of the digest |
| `LockInvite.DecodeLockInviteCode` | src/lock-invite.ts:41-57 | the loop with its early exit accepts what the definition accepts |
| `LockInvite.BoundedValueIsValue` | src/lock-invite.ts:46-51 | the early exit is taken exactly if the whole body is out of range |
| `LockInvite.DecodeEncoded` | src/lock-invite.ts:30-57 | every id from 1 to 2^256-1 survives the round trip |
| `LockInvite.DecodeIsInverse` | src/lock-invite.ts:30-57 | a code is accepted exactly if it is the code of an id, which is the answer |
| `LockInvite.CodesAreDistinct` | src/lock-invite.ts:30-35 | different ids have different codes |
| `LockInvite.CodedExactly` | src/lock-invite.ts:6-31 | codes exist exactly for the positive numbers of 256 bits |
| `LockInvite.CodeSpelledOut` | src/lock-invite.ts:5-35 | a code is LOCK, a body that denotes the id, of four digits below 32^4 and of no more than needed from there on, and two digits of the body's digest |
| `LockInvite.PaddingIsTheOnlyAlias` | src/lock-invite.ts:53-56 | a well-formed code in range with a good checksum is refused exactly if padded beyond four digits |
| `LockRouter.CodeLeadsToItsLock` | components/pact-discovery.tsx:32-50 | every text that, trimmed, the engine upper-cases to a code leads to that code's Lock, letters beyond ASCII included |
| `LockRouter.StravaComesFromCodeOrNumber` | components/pact-discovery.tsx:47-49 | a Strava destination comes from exactly its code or a bare number |
| `LockRouter.OutOfRangeIds` | components/pact-discovery.tsx:47 | an id outside the contract's range is handed on exactly for a bare numeral |
| `LockRouter.NumeralLeadsToItsLock` | components/pact-discovery.tsx:47 | the numeral of every uint256 id fits the 78 digits and leads to its Lock |
| `LockRouter.DuoCodeLeadsToItsLock` | components/pact-discovery.tsx:34-35 | the short Duolingo form leads to its Lock |
| `LockRouter.DuolingoExactly` | components/pact-discovery.tsx:32-43 | a text leads to a Duolingo Lock exactly if it is DUO or DUOLINGO in any case, separators and the positive numeral, or a link whose lock parameter is that numeral |
| `LockRouter.StravaExactly` | components/pact-discovery.tsx:32-50 | any other text leads to a Strava Lock exactly if it is no unparsable link and is a number of at most 78 digits or upper-cased to the code |
| `SortedNames.LeIsUtf16` | src/reclaim-onchain.ts:158 | names are compared as JavaScript does, by UTF-16 code unit |
| `SortedNames.SortedIsUnique` | src/reclaim-onchain.ts:158 | members with distinct names have one sorted order |
| `CanonicalJson.CanonicalOfNormal` | src/reclaim-onchain.ts:150-159 | a tree and its normal form have the same text |
| `CanonicalJson.EveryTreeReadsBack` | src/reclaim-onchain.ts:150-168 | a canonical text, with whatever may follow it, reads back as the normal form |
| `CanonicalJson.PlainStandsForItself` | src/reclaim-onchain.ts:150-158 | a string without quotes, backslashes and control characters stands for itself between its quotes |
| `CanonicalJson.EscapesSpelledOut` | src/reclaim-onchain.ts:150-158 | every other character has one escape: seven two-letter ones, and four digits in lower case |
| `CanonicalJson.StringsJoin` | src/reclaim-onchain.ts:150-158 | the text of a string is that of its parts put together, so the two above fix every string's text |
| `CanonicalJson.CanonicalRoundTrip` | src/reclaim-onchain.ts:150-168 | parsing a canonical text and canonicalising again changes nothing |
| `CanonicalJson.NormalIsEqual` | src/reclaim-onchain.ts:150-159 | normal forms agree exactly for trees equal up to member order |
| `CanonicalJson.CanonicalTextDecides` | src/reclaim-onchain.ts:150-168 | texts agree exactly if trees are equal up to member order at every depth, overflow counting as null |
| `CanonicalJson.CanonicalTextIsTree` | src/reclaim-onchain.ts:150-168 | without overflow, exactly if they are equal up to member order |
| `CanonicalJson.OverflowPrintsAsNull` | src/reclaim-onchain.ts:151-154 | the pair that shows the exception is needed |
| `JsonInspector.VisitIsEveryNode` | src/reclaim-onchain.ts:131-145 | the recursion accepts exactly if every node reachable by a path passes |
| `JsonInspector.InspectionDecides` | src/reclaim-onchain.ts:122-147 | accepted exactly if small, parsable, at most 20 deep, within 512 entries and 256 fields everywhere, and every header container passes |
| `JsonInspector.BoundsAreExact` | src/reclaim-onchain.ts:131-142 | twenty levels, 512 entries and 256 members are accepted, and no more |
| `JsonInspector.HeadersAreInspected` | src/reclaim-onchain.ts:140-143 | a member called header or headers, in any case, is inspected wherever it stands |
| `JsonInspector.VerdictIsTrue` | src/reclaim-onchain.ts:131-145 | a tree is refused for something that is true of a node in it |
| `JsonInspector.FewestBytes` | src/reclaim-onchain.ts:75-77 | a text is measured in UTF-8: the fewest bytes with room for each character |
| `JsonInspector.SensitiveAnywhere` | src/reclaim-onchain.ts:22 | a name is sensitive exactly if, in some case of letters, one of the words occurs in it |
| `JsonInspector.HeaderLine` | src/reclaim-onchain.ts:93-98 | a line is refused exactly if what stands before its first colon is there and, trimmed, sensitive |
| `JsonInspector.TextByLines` | src/reclaim-onchain.ts:92-99 | a text container is judged line by line under either line ending |
| `JsonInspector.ContainerIsEveryNode` | src/reclaim-onchain.ts:91-120 | a container passes exactly if no line, first entry or member reachable through arrays names something sensitive |
| `JsonInspector.HeaderMember` | src/reclaim-onchain.ts:108-119 | a member of a header object is refused exactly if its name is sensitive, or it is called name, key or header and its text is sensitive |
| `LogScan.ChunksTile` | src/monad-logs.ts:50-51 | the pages start and end with the range, follow without gap or overlap, and are short enough |
| `LogScan.EachBlockOnce` | src/monad-logs.ts:50-51 | each block of the range is in exactly one page, and no other block in any |
| `LogScan.ReadEventsInChunks` | src/monad-logs.ts:21-63 | one call if it is served, else every page in order; it fails exactly if a page does, and the trace of ranges read is stated |
| `LogScan.ChunkedScanIsWholeScan` | src/monad-logs.ts:49-62 | page by page or at once, an additive reader gives the same |
| `LogScan.EventLists.constructor` | app/api/social/leaderboard/route.ts:118 | five empty lists |
| `LogScan.EventLists.Merge` | app/api/social/leaderboard/route.ts:49-55 | each list is extended by its own |
| `LogScan.ReadAllEvents` | app/api/social/leaderboard/route.ts:117-133 | what is read, and that it is read exactly if the range or each of its pages is served |
| `LogScan.ScanReturnsWholeRange` | app/api/social/leaderboard/route.ts:117-133 | however cut up, the five lists are those of the whole range |
| `LogScan.ReadCompletionRange` | app/api/social/leaderboard/route.ts:62-75 | the loop turns logs into completions in order, skipping those without account |
| `LogScan.LogIsCredited` | app/api/social/leaderboard/route.ts:65-73 | a log with an account is credited to the day that contains its own time if that is positive, and else its block's; one without account to nobody |
| `LogScan.ReadAllCompletions` | app/api/social/leaderboard/route.ts:77-90 | as for the other events, from the second escrow's deployment |
| `LogScan.CompletionsAddUp` | app/api/social/leaderboard/route.ts:62-75 | turning logs into completions commutes with joining ranges |
| `LogScan.CompletionScanIsWhole` | app/api/social/leaderboard/route.ts:77-90 | so completions scan alike however cut up |
| `DayTables.DayMap.constructor` | src/social-score.ts:112-114 | an empty table |
| `DayTables.DayMap.AddDay` | src/social-score.ts:66-70 | the whole new table, new accounts last |
| `DayTables.AfterDaysHolds` | src/social-score.ts:119-137 | the fold holds exactly the days credited, whatever their order and number |
| `DayTables.AfterMissionsHolds` | src/social-score.ts:124-128 | the same for runs, other missions leaving no day |
| `DayTables.PutsKeepLast` | src/social-score.ts:138-142 | a map written event by event holds the last event's value |
| `DayTables.ValidSpelledOut` | src/social-score.ts:44-56 | an address is 0x and forty hexadecimal digits, and a day a safe integer from nought |
| `DayTables.LastPutIsLast` | src/social-score.ts:138-142 | the value kept is that of the event after which no other is of the account |
| `DayTables.LastHidesIsLast` | src/social-score.ts:143-148 | and likewise for visibility |
| `DayTables.HiddenIsLast` | src/social-score.ts:143-148 | a profile is hidden exactly if its last visibility event says so |
| `DayTables.TableIsVerified` | src/social-score.ts:112-137 | each board's table is the verified days of every account |
| `DayTables.SpellingsAreLast` | src/social-score.ts:117-148 | the shown spelling is that of the last event naming the account, list by list, and folds to its key |
| `DayTables.VerifiedIsSpelled` | src/social-score.ts:117-137 | whoever has a verified day has a spelling |
| `Leaderboard.UtcWeekStartDay` | src/social-score.ts:58-64 | the result is a Monday and the moment lies in the seven days from it, before the epoch too |
| `Leaderboard.BuildEntries` | src/social-score.ts:72-104 | the loop and sort give the sorted rows of the table |
| `Leaderboard.TablesAreCovered` | src/social-score.ts:83-88 | every account of every table has a spelling, so the cast on the lookup is safe |
| `Leaderboard.AddScores` | src/social-score.ts:119-123 | the loop fills its table and spellings, or refuses exactly if some event is invalid |
| `Leaderboard.AddMissions` | src/social-score.ts:124-128 | the same; the day of another mission is not looked at |
| `Leaderboard.AddCompletions` | src/social-score.ts:131-137 | the same, into both tables |
| `Leaderboard.AddHandles` | src/social-score.ts:138-142 | the same for handles |
| `Leaderboard.AddVisibility` | src/social-score.ts:143-148 | the same for hidden profiles |
| `Leaderboard.FillTables` | src/social-score.ts:112-148 | all tables together, refusing exactly if any event is invalid |
| `Leaderboard.BuildSocialLeaderboards` | src/social-score.ts:111-166 | all three boards and the week, refusing exactly if an event is invalid or the week has no date |
| `LeaderboardTheorems.SortedStanding` | src/social-score.ts:98-103 | sorting keeps each account's entry and adds none |
| `LeaderboardTheorems.BoardShowsDeserved` | src/social-score.ts:72-148 | each account is on a board at most once, with exactly the entry its events deserve, last handle, visibility and spelling included |
| `LeaderboardTheorems.EntryTells` | src/social-score.ts:83-95 | what an entry on a board says: the account as last spelled, the last handle exactly if it is not empty and the last visibility event does not hide it, and the counts of verified days with ten points each |
| `LeaderboardTheorems.ScoresIgnoreOrderAndRepeats` | src/social-score.ts:106-137 | scores depend only on the set of accounts and days: order, repeats, case, handles and name order do not matter |
| `LeaderboardTheorems.TenPointsPerDay` | src/social-score.ts:83-96 | on the board exactly with a verified day this week; ten points for each day, at most seventy a week |
| `LeaderboardTheorems.LockScoreCoversLearning` | src/social-score.ts:129-137 | on the learning and overall boards the lock score is at least the board's all-time score |
| `LeaderboardTheorems.LockScoreCoversRunning` | src/social-score.ts:83-94 | on the running board it is exactly for players with no more days of runs than verified days in all |
| `LeaderboardTheorems.LockScoreCoversScoredRuns` | src/social-score.ts:119-128 | so it is if each of a player's runs also came as a score event |
| `LeaderboardTheorems.RunWithoutScoreEvent` | src/social-score.ts:124-128 | the builder itself does not ask for that: a run made by hand, which the escrow never logs alone, shows a lock score of nought |
| `ScoreLogs.ScoreKeeper.constructor` | contracts/LockInEscrow.sol:122-127 | nothing is scored or logged |
| `ScoreLogs.ScoreKeeper.RecordVerifiedDay` | contracts/LockInEscrow.sol:618-645 | the whole new storage and both logs: a service account scores for one account, a mission day and a day are logged once |
| `ScoreLogs.AfterConsistent` | contracts/LockInEscrow.sol:618-645 | in every run each logged mission day is a scored day, the score log has exactly the scored days, and the lock score is ten for each |
| `ScoreLogs.ScoredExactly` | contracts/LockInEscrow.sol:618-643 | in every run a day of an account is scored, for a mission or at all, exactly if a completion in it belongs to a service account that this account was the first to show |
| `ScoreLogs.LoggedOnce` | contracts/LockInEscrow.sol:629-643 | and whatever is scored is logged exactly once |
| `ScoreLogs.ChainCoversRunning` | contracts/LockInEscrow.sol:629-643 | on boards built from the contract's own logs the lock score covers the running score |
| `ScoreLogs.ChainLockScore` | contracts/LockInEscrow.sol:636-643 | without completions from the second escrow, the shown lock score is the one the contract keeps |
| `LeaderboardTheorems.SortedIsRanked` | src/social-score.ts:98-103 | under the modelled insertion, boards are ordered by weekly, all-time and lock score however names compare |
| `LeaderboardTheorems.SortedInOrder` | src/social-score.ts:98-103 | with consistent name order the comparison holds between any two entries |
| `LeaderboardTheorems.EqualScoresByName` | src/social-score.ts:102 | among equal scores entries stand by the handle shown, or else the account |
| `LeaderboardTheorems.AnyStableSortIsSorted` | src/social-score.ts:98-103 | with consistent name order, a list is a stable sort of the entries exactly if it is the modelled board |
| `LeaderboardTheorems.DisplayedEntries` | components/social-leaderboard.tsx:78-86 | a prefix of at least the limit that goes on through ties with its last entry and stops before the next score |
| `LeaderboardTheorems.RankCountsBetter` | components/social-leaderboard.tsx:35-40 | a shown rank is one plus the number of entries on the whole board with a higher weekly score, and all omitted score less |
| `LeaderboardTheorems.BoardRanks` | components/social-leaderboard.tsx:35-86 | so it is on every board, for any events |
| `LeaderboardTheorems.LoadLeaderboard` | app/api/social/leaderboard/route.ts:135-150 | a response is given exactly if the ranges could be read and the events are valid, and is the one for all events since deployment however reading was cut up |
| `PactDays.PolicyWindow` | src/pact-server.ts:66-83 | a policy names its pact canonically, its window ends where the next day's starts, and now is within its window or the day of grace |
| `PactDays.WindowsAreDisjoint` | src/pact-server.ts:66-67 | a moment lies in one day's window at most |
| `PactDays.MarkingVerifiesOneDay` | src/pact-server.ts:65 | the bitmap keeps one bit a day: marking a day verifies it and no other |
| `PactDays.RefusalIsTrue` | src/pact-server.ts:52-73 | the reason a day is refused for is true of it |
| `PactDays.LastOpenIsGreatest` | components/pact-dashboard.tsx:205-217 | the search finds the greatest open day if there is one |
| `PactDays.AcceptedIsShown` | src/pact-server.ts:52-73 | the server accepts a day of a running Lock exactly if the page's conditions hold of it |
| `PactDays.StravaDashboardAgrees` | components/pact-dashboard.tsx:372-388 | for a running Lock the page offers a check-in exactly if the server accepts some day, and offers the last such |
| `PactDays.DashboardAgreesExactly` | components/pact-dashboard.tsx:205-217 | they agree on all states of a pact exactly if it is a running Lock or idle |
| `PactDays.AtMostTwoDaysOpen` | src/pact-server.ts:8-10 | two days accepted at one moment are adjacent |
| `StravaRuns.FirstIsLongest` | src/strava-activities.ts:152 | the first after sorting is the first of the longest |
| `StravaRuns.EvidenceIsLongestRun` | src/strava-activities.ts:128-195 | evidence is of a qualifying activity from the list, a longest and the first such, inside the window, far enough and at a plausible pace |
| `StravaRuns.AcceptedExactly` | src/strava-activities.ts:128-171 | evidence is given exactly if the first of the longest qualifying activities is far enough, consistently timed and plausible |
| `StravaRuns.OnlyQualifyingMatter` | src/strava-activities.ts:132-152 | lists with the same qualifying runs, if any, give the same answer |
| `StravaRuns.OtherActivitiesDoNotMatter` | src/strava-activities.ts:132-152 | inserting an activity that does not qualify, anywhere, changes nothing if some run qualifies |
| `StravaRuns.FurtherRunDecidesIfLonger` | src/strava-activities.ts:150-171 | a further qualifying run changes nothing unless it is longest, and then it alone is assessed |
| `StravaRuns.NoActivityIsHonest` | src/strava-activities.ts:132-136 | that nothing was recorded is said exactly if nothing was |
| `StravaRuns.NoneQualifiesIsHonest` | src/strava-activities.ts:138-148 | a refusal that nothing qualifies is given exactly if nothing does |
| `StravaRuns.ReasonIsTrue` | src/strava-activities.ts:141-148 | what a refusal says of a recording is true of a run in the window |
| `StravaRuns.TooShortIsHonest` | src/strava-activities.ts:152-159 | that the distance is too short is said exactly if it is for every qualifying run |
| `StravaRuns.ComplaintIsTrue` | src/strava-activities.ts:152-171 | any other complaint is true of the first of the longest qualifying activities |
| `StravaRuns.SignedExactly` | app/api/strava/checkin/route.ts:55-120 | a completion is signed exactly if the server accepts the day and the first of the longest runs that qualify on it is plausible at the Lock's daily target |
| `StravaRuns.CompletionReports` | app/api/strava/checkin/route.ts:98-124 | every field of it: the Lock and day asked for, that run's distance, times and climb rounded down, its start, the keyed hashes of athlete, activity, record and session, and ten minutes of validity |
| `StravaRuns.CompletionInsideDay` | app/api/strava/checkin/route.ts:55-127 | a signed completion is for an accepted day, of at least the target distance, and its run began inside that day |
| `StravaRuns.NullifierNamesRun` | src/strava-activities.ts:184-185 | completions with one nullifier began at one second |
| `StravaRuns.IdentityNamesAthlete` | src/strava-activities.ts:182-183 | completions share an identity exactly if they are of one athlete |
| `StravaRuns.OneRunOneDay` | app/api/strava/checkin/route.ts:55-127 | over any sequence of requests, completions of a Lock with the same second or nullifier are for the same day |
| `OAuthState.PiecesOfJoined` | src/strava-oauth.ts:89 | splitting takes the joined parts back and ignores a third |
| `OAuthState.IssuedVerifies` | src/strava-oauth.ts:60-113 | an issued state verifies up to and including its expiry with its wallet, nonce and expiry, and copies with text added burn with it |
| `OAuthState.SignedPayloadDecides` | src/strava-oauth.ts:98-113 | a payload under its own signature is accepted exactly if it names an address, a nonce and a time not yet past, and is refused for the first that is missing |
| `OAuthState.AlteredIsRefused` | src/strava-oauth.ts:92-96 | another payload under an issued signature is refused as such |
| `OAuthState.StateTable.constructor` | src/strava-token-store.ts:78-83 | an empty table |
| `OAuthState.StateTable.DeleteExpired` | src/strava-token-store.ts:98 | exactly the expired rows go |
| `OAuthState.StateTable.Insert` | src/strava-token-store.ts:99-105 | inserted exactly if the nonce was not there |
| `OAuthState.StateTable.Consume` | src/strava-token-store.ts:92-106 | alone, it succeeds exactly if the nonce was never spent or its record has expired |
| `OAuthState.NextKeeps` | app/api/strava/callback/route.ts:32-46 | each step of each callback keeps every granted nonce on record until it expires |
| `OAuthState.RunKeeps` | app/api/strava/callback/route.ts:32-46 | and so does every interleaving |
| `OAuthState.GrantedOnceUntilExpiry` | src/strava-token-store.ts:86-106 | of the grants of one state all but the first happen after its expiry, and a grant is for the wallet it was issued to |
| `OAuthState.ReplayGrantedIffExpired` | src/strava-token-store.ts:98-105 | a callback with a spent state is granted exactly if the state has expired meanwhile |
| `OAuthState.ReplayAfterExpiry` | app/api/strava/callback/route.ts:32-46 | the interleaving in which that happens |

## Left out

- The Solidity escrows and their settlement, but for the scoring of verified days; the chain enters as terms, views and logs.
- Cryptography, signatures, proof SDK and trusted-execution checks: abstract functions, or left out before the policy sees the data.
- Wallet sessions, allow lists, product flags, rate limits and environment checks at the head of the routes.
- The wire: HTTP bodies and answers, the SQL transport, RPC retries, cookies, caching of the leaderboard response.
- `BigInt` and `Number` conversions of values that cannot exceed 2^53 in practice (block times, XP, durations); ids and invite codes are unbounded and checked.
- Case folding beyond ASCII where it cannot matter: addresses, nonces and hashes hold no letter that another folds to, and the patterns with the `i` flag match ASCII letters by ASCII letters only. Where it matters it is modelled: the Kelvin sign in member names (`Text.Fold`), and the router's upper-casing as a parameter.
- JSON text that the canonical form never contains: white space between tokens, repeated member names, lone surrogates.
- The SDK transformation and identifier check around `canonicalClaimContext` in `toDirectProofBundle`.
- The age limit on finals is in `ProofPolicy.ValidateDelta`, but the escrow route does not set it, and the protocol follows the route.
- Key and client-address helpers and response headers of the rate limiter, and `clear`.
- The account and the mission's policy hash in a signed completion, which the route copies from the wallet session and the chain.
- What a player sees besides: ISO strings of the week, error messages, wallet and network state of the dashboard.
- The scope check, code exchange and saving of a connection after a state is burned.
- Non-finite numbers and activity fields of the wrong type from Strava; distances are real numbers.
- The preview store for Duolingo, the superseded run policy, deploy and canary scripts.
