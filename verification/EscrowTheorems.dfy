/** The escrow protocol's promises, for every run from empty tables, and the verify handler itself. */
module EscrowTheorems {
  import opened Prelude
  import opened Text
  import opened ProofPolicy
  import opened EscrowAttestation
  import opened EscrowStore
  import opened EscrowProtocol
  import opened EscrowSafety

  /** Every released final was preceded by the release of the baseline it is measured against. */
  lemma EveryFinalIsJustified(hashes: SignerHashes, actions: seq<Action>, i: nat)
    requires var s := Run(hashes, INITIAL, actions); i < |s.releases| && s.releases[i].FinalRelease?
    ensures var s := Run(hashes, INITIAL, actions);
            var f := s.releases[i];
            && f.final.pactId in s.pacts
            && exists j :: 0 <= j < i && s.releases[j].BaselineRelease?
                           && Clears(f, s.releases[j], s.pacts[f.final.pactId])
  {
    ReachableIsSafe(hashes, actions);
    var s := Run(hashes, INITIAL, actions);
    assert Justified(s.pacts, s.releases, i);
  }

  /** A finals row agrees field by field with the last final released for its wallet and Lock, and there is
      a row exactly when there was a release. */
  lemma FinalsTableAgrees(hashes: SignerHashes, actions: seq<Action>, key: (string, int))
    ensures var s := Run(hashes, INITIAL, actions);
            var last := LastFinal(s.releases, key);
            && (key in s.db.finals <==> last.Some?)
            && (key in s.db.finals ==> FinalRowMatches(s.db.finals[key], last.value))
  {
    ReachableIsSafe(hashes, actions);
  }

  /** All finals for one wallet and Lock carry the same nullifier, identity and target. */
  lemma FinalNullifierIsStable(hashes: SignerHashes, actions: seq<Action>, i: nat, j: nat)
    requires var s := Run(hashes, INITIAL, actions);
             && i < |s.releases| && j < |s.releases|
             && s.releases[i].FinalRelease? && s.releases[j].FinalRelease?
             && FinalKeyOf(s.releases[i]) == FinalKeyOf(s.releases[j])
    ensures var s := Run(hashes, INITIAL, actions);
            var (a, b) := (s.releases[i].final, s.releases[j].final);
            && a.nullifier == b.nullifier == hashes.nullifier(a.identityHash, Intent.Final, Pact(a.pactId))
            && a.identityHash == b.identityHash && a.targetXp == b.targetXp
  {
    ReachableIsSafe(hashes, actions);
    var s := Run(hashes, INITIAL, actions);
    FinalsAgree(hashes, s, i, j);
    assert ReleaseBound(hashes, s.releases[i]);
  }

  lemma {:induction false} TwoReleasesCount(releases: seq<Release>, i: nat, j: nat)
    requires i < j < |releases| && releases[i].sessionId == releases[j].sessionId
    ensures ReleasesOf(releases, releases[i].sessionId) >= 2
  {
    var n := |releases| - 1;
    if j == n {
      OneReleaseCounts(releases[..n], i);
    } else {
      TwoReleasesCount(releases[..n], i, j);
    }
  }

  lemma {:induction false} OneReleaseCounts(releases: seq<Release>, i: nat)
    requires i < |releases|
    ensures ReleasesOf(releases, releases[i].sessionId) >= 1
  {
    var n := |releases| - 1;
    if i == n {
    } else {
      OneReleaseCounts(releases[..n], i);
    }
  }

  /** A session id releases at most as many attestations as it was inserted times. */
  lemma ReleasesNeverExceedInsertions(hashes: SignerHashes, actions: seq<Action>, id: string)
    ensures var s := Run(hashes, INITIAL, actions);
            ReleasesOf(s.releases, id) <= s.saved[id]
  {
    ReachableIsSafe(hashes, actions);
    assert SessionSpent(Run(hashes, INITIAL, actions), id);
  }

  /** So an id inserted once releases at most one, and the proof set behind it is behind no other release. */
  lemma SessionReleasesOnce(hashes: SignerHashes, actions: seq<Action>, i: nat, j: nat)
    requires var s := Run(hashes, INITIAL, actions);
             i < j < |s.releases| && s.saved[s.releases[i].sessionId] <= 1
    ensures var s := Run(hashes, INITIAL, actions);
            && s.releases[i].sessionId != s.releases[j].sessionId
            && s.releases[i].proofs.data != s.releases[j].proofs.data
  {
    var s := Run(hashes, INITIAL, actions);
    ReleasesNeverExceedInsertions(hashes, actions, s.releases[i].sessionId);
    if s.releases[i].sessionId == s.releases[j].sessionId {
      TwoReleasesCount(s.releases, i, j);
    }
    ReachableIsSafe(hashes, actions);
    assert ReleaseBound(hashes, s.releases[i]) && ReleaseBound(hashes, s.releases[j]);
    BoundProofsNameSession(hashes, s.releases[i]);
    BoundProofsNameSession(hashes, s.releases[j]);
  }

  lemma BoundProofsNameSession(hashes: SignerHashes, r: Release)
    requires ReleaseBound(hashes, r)
    ensures |r.proofs.data| == 2 && "reclaimSessionId" in r.proofs.data[0].context
    ensures r.proofs.data[0].context["reclaimSessionId"] == Field.Text(r.sessionId)
  {
  }

  lemma EveryReleaseIsBound(hashes: SignerHashes, actions: seq<Action>, i: nat)
    requires i < |Run(hashes, INITIAL, actions).releases|
    ensures ReleaseBound(hashes, Run(hashes, INITIAL, actions).releases[i])
  {
    ReachableIsSafe(hashes, actions);
  }

  /** What the proofs behind a final say, in so many words. */
  lemma BoundFinalNamesTheLock(hashes: SignerHashes, f: Release)
    requires f.FinalRelease? && ReleaseBound(hashes, f)
    ensures f.final.pactId > 0
    ensures ProofsBound(f.proofs.data, f.final.account, f.sessionId,
                        "escrow:final:" + PrintNat(f.final.pactId) + ":final")
  {
  }

  /** The proofs behind a released final name its wallet, its session, and this Lock's final phase, and
      they state the account and the XP that were attested. */
  lemma FinalProofsNameTheLock(hashes: SignerHashes, actions: seq<Action>, i: nat)
    requires var s := Run(hashes, INITIAL, actions); i < |s.releases| && s.releases[i].FinalRelease?
    ensures var f := Run(hashes, INITIAL, actions).releases[i];
            && f.final.pactId > 0
            && FiguresSigned(hashes, f.proofs.data, f.final.identityHash, f.finalXp)
            && ProofsBound(f.proofs.data, f.final.account, f.sessionId,
                           "escrow:final:" + PrintNat(f.final.pactId) + ":final")
  {
    EveryReleaseIsBound(hashes, actions, i);
    BoundFinalNamesTheLock(hashes, Run(hashes, INITIAL, actions).releases[i]);
  }

  /** In every run, the time a final attests is the timestamp of the one proof of its set that states the XP, and
      the attestation lasts five minutes. */
  lemma FinalTimeIsProofTime(hashes: SignerHashes, actions: seq<Action>, i: nat)
    requires var s := Run(hashes, INITIAL, actions); i < |s.releases| && s.releases[i].FinalRelease?
    ensures var f := Run(hashes, INITIAL, actions).releases[i];
            && TimeSigned(f.proofs.data, f.proofs.timestamps, f.final.occurredAt)
            && f.final.expiresAt == f.final.issuedAt + 300
  {
    EveryReleaseIsBound(hashes, actions, i);
  }

  /** The proofs of a baseline name a create action, and its nullifier is the one spent on that. */
  ghost predicate NamesCreate(hashes: SignerHashes, r: Release, nonce: string)
    requires r.BaselineRelease?
  {
    && IsCreateNonce(nonce)
    && ProofsBound(r.proofs.data, r.baseline.account, r.sessionId, "escrow:create:" + ToLower(nonce) + ":baseline")
    && r.baseline.nullifier == hashes.nullifier(r.baseline.identityHash, Create, Nonce(ToLower(nonce)))
  }

  /** They name the joining of a Lock. */
  ghost predicate NamesJoin(hashes: SignerHashes, r: Release, pactId: int)
    requires r.BaselineRelease?
  {
    && pactId > 0
    && ProofsBound(r.proofs.data, r.baseline.account, r.sessionId, "escrow:join:" + PrintNat(pactId) + ":baseline")
    && r.baseline.nullifier == hashes.nullifier(r.baseline.identityHash, Join, Pact(pactId))
  }

  lemma BoundBaselineNamesAction(hashes: SignerHashes, r: Release)
    requires r.BaselineRelease? && ReleaseBound(hashes, r)
    ensures (exists nonce :: NamesCreate(hashes, r, nonce)) || (exists pactId :: NamesJoin(hashes, r, pactId))
  {
    var input :| BoundToAction(hashes, r.proofs, r.baseline, r.sessionId, input);
    assert input.CreateContext? ==> NamesCreate(hashes, r, input.createNonce);
    assert input.JoinContext? ==> NamesJoin(hashes, r, input.joinId);
  }

  /** So is the time reported with a baseline, which attests the account its proofs state and spends the nullifier
      of the very action that they name. */
  lemma BaselineRestsOnItsProofs(hashes: SignerHashes, actions: seq<Action>, i: nat)
    requires var s := Run(hashes, INITIAL, actions); i < |s.releases| && s.releases[i].BaselineRelease?
    ensures var r := Run(hashes, INITIAL, actions).releases[i];
            && FiguresSigned(hashes, r.proofs.data, r.baseline.identityHash, r.baselineXp)
            && TimeSigned(r.proofs.data, r.proofs.timestamps, r.observedAt)
            && ((exists nonce :: NamesCreate(hashes, r, nonce)) || (exists pactId :: NamesJoin(hashes, r, pactId)))
            && r.baseline.expiresAt == r.baseline.issuedAt + 300
  {
    EveryReleaseIsBound(hashes, actions, i);
    BoundBaselineNamesAction(hashes, Run(hashes, INITIAL, actions).releases[i]);
  }

  /** A baseline is attested at most once per wallet and configuration, and the row is that attestation. */
  lemma BaselineIsReleasedOnce(hashes: SignerHashes, actions: seq<Action>, i: nat)
    requires var s := Run(hashes, INITIAL, actions); i < |s.releases| && s.releases[i].BaselineRelease?
    ensures var s := Run(hashes, INITIAL, actions);
            var key := KeyOf(s.releases[i]);
            && key in s.db.baselines && RowMatches(s.db.baselines[key], s.releases[i])
            && forall j :: 0 <= j < |s.releases| && j != i && s.releases[j].BaselineRelease?
                           ==> KeyOf(s.releases[j]) != key
  {
    ReachableIsSafe(hashes, actions);
  }

  /** From any state, a baseline row is never changed or removed, and released attestations are never lost. */
  lemma {:induction false} HistoryPersists(hashes: SignerHashes, s: State, actions: seq<Action>)
    ensures var t := Run(hashes, s, actions);
            && (forall key :: key in s.db.baselines ==>
                  key in t.db.baselines && t.db.baselines[key] == s.db.baselines[key])
            && (forall key :: key in s.db.finals ==> key in t.db.finals)
            && (forall p :: p in s.pacts ==> p in t.pacts && t.pacts[p] == s.pacts[p])
            && s.releases <= t.releases
    decreases |actions|
  {
    if actions == [] {
    } else {
      StepPersists(hashes, s, actions[0]);
      HistoryPersists(hashes, Step(hashes, s, actions[0]), actions[1..]);
    }
  }

  lemma StepPersists(hashes: SignerHashes, s: State, a: Action)
    ensures var t := Step(hashes, s, a);
            && (forall key :: key in s.db.baselines ==>
                  key in t.db.baselines && t.db.baselines[key] == s.db.baselines[key])
            && (forall key :: key in s.db.finals ==> key in t.db.finals)
            && (forall p :: p in s.pacts ==> p in t.pacts && t.pacts[p] == s.pacts[p])
            && s.releases <= t.releases
  {
    match a
    case CommitBaseline(_) =>
    case CommitFinal(_) =>
    case _ => QuietStep(hashes, s, a);
  }

  /** Only the commits touch the two durable tables and release anything. */
  lemma QuietStep(hashes: SignerHashes, s: State, a: Action)
    requires !a.CommitBaseline? && !a.CommitFinal?
    ensures var t := Step(hashes, s, a);
            && t.db.baselines == s.db.baselines && t.db.finals == s.db.finals && t.releases == s.releases
            && (forall p :: p in s.pacts ==> p in t.pacts && t.pacts[p] == s.pacts[p])
  {
    if a.LoadSession? || a.Validate? || a.SignBaseline? || a.ReadPact? || a.SignFinal? {
      OnlyRequestsMove(hashes, s, a);
    }
  }

  /** Between load and commit a request changes nothing but its own progress. */
  lemma OnlyRequestsMove(hashes: SignerHashes, s: State, a: Action)
    requires a.LoadSession? || a.Validate? || a.SignBaseline? || a.ReadPact? || a.SignFinal?
    ensures Step(hashes, s, a) == s.(requests := Step(hashes, s, a).requests)
  {
  }

  /** Once consumed, a session row keeps no raw Duolingo profile id. */
  lemma ConsumedRowsForgetProfile(hashes: SignerHashes, actions: seq<Action>, id: string)
    requires var sessions := Run(hashes, INITIAL, actions).db.sessions; id in sessions && sessions[id].consumedAt.Some?
    ensures Run(hashes, INITIAL, actions).db.sessions[id].session.duolingoProfileId == ""
  {
    ReachableIsSafe(hashes, actions);
    assert SessionRowOk(Run(hashes, INITIAL, actions), id);
  }

  // --- one verify request, from load to answer ---------------------------------------------------------

  /** The tables and the answer a baseline request leaves. */
  function PostedBaseline(hashes: SignerHashes, db: Db, now: int, session: Session, proofs: ProofSet,
                          evidence: Evidence, at: int): (Db, Option<Release>)
  {
    match SignedBaseline(hashes, session, evidence, at)
    case Err(_) => (db, None)
    case Ok(attestation) =>
      var input := BaselineCommit(session, evidence, attestation);
      (AfterBaseline(db, input, now),
       if RecordsBaseline(db, input)
       then Some(BaselineRelease(session.sessionId, proofs, attestation, evidence.totalXp, evidence.observedAt))
       else None)
  }

  /** The tables and the answer a final request leaves once the Lock was read. */
  function PostedFinal(hashes: SignerHashes, db: Db, now: int, session: Session, proofs: ProofSet,
                       evidence: Evidence, pactId: int, pact: PactView, at: int): (Db, Option<Release>)
  {
    var baseline := LoadBaseline(db, session.walletAddress, pact.terms.configHash);
    match SignedFinal(hashes, session, evidence, pactId, pact, baseline, at)
    case Err(_) => (db, None)
    case Ok(plan) =>
      (AfterFinal(db, FinalCommit(session, plan), now),
       if Unconsumed(db.sessions, session.sessionId) then Some(PlannedRelease(session, proofs, plan)) else None)
  }

  /** The tables and the answer a request leaves once its proofs were validated. */
  function PostedVerified(hashes: SignerHashes, db: Db, pacts: map<int, PactTerms>, now: int, session: Session,
                          proofs: ProofSet, evidence: Evidence, live: PactLive, at: int): (Db, Option<Release>)
  {
    if session.phase == Phase.Baseline then PostedBaseline(hashes, db, now, session, proofs, evidence, at)
    else if session.pactId.None? || session.pactId.value !in pacts then (db, None)
    else
      var pact := PactView(pacts[session.pactId.value], live);
      if FinalRefusal(pact, Submit, at).Some? then (db, None)
      else PostedFinal(hashes, db, now, session, proofs, evidence, session.pactId.value, pact, at)
  }

  /** How far loading and validation bring a request: it is over, or its proofs are verified. */
  function Reached(hashes: SignerHashes, db: Db, now: int, id: string, proofs: ProofSet): (r: Request)
    ensures r.Answered? || r.Verified?
  {
    match Load(db, id, now)
    case None => Answered
    case Some(session) =>
      match EvidenceOf(hashes.proof, proofs.data, proofs.timestamps, PROVIDER_ID, PolicyFor(session))
      case Err(_) => Answered
      case Ok(evidence) => Verified(session, proofs, evidence)
  }

  /** The tables and the answer the verify handler leaves. */
  function Posted(hashes: SignerHashes, db: Db, pacts: map<int, PactTerms>, now: int, id: string,
                  proofs: ProofSet, live: PactLive, at: int)
    : (Db, Option<Release>)
  {
    var r := Reached(hashes, db, now, id, proofs);
    if r.Answered? then (db, None)
    else PostedVerified(hashes, db, pacts, now, r.session, r.proofs, r.evidence, live, at)
  }

  // --- the handler is a run ----------------------------------------------------------------------------

  function Tail(req: nat, live: PactLive, at: int): seq<Action> {
    [SignBaseline(req, at), CommitBaseline(req), ReadPact(req, live, at), SignFinal(req, at), CommitFinal(req)]
  }

  /** The actions of one verify request, start to finish. Those of the other phase do nothing. */
  function Script(req: nat, id: string, proofs: ProofSet, live: PactLive, at: int): seq<Action> {
    [LoadSession(req, id), Validate(req, proofs)] + Tail(req, live, at)
  }

  function Opt(r: Option<Release>): seq<Release> {
    if r.Some? then [r.value] else []
  }

  /** What a request may change besides its own progress: the tables, and at most one release. */
  ghost predicate Ends(s: State, t: State, req: nat, posted: (Db, Option<Release>)) {
    && t.db == posted.0 && t.releases == s.releases + Opt(posted.1)
    && t.now == s.now && t.pacts == s.pacts && t.saved == s.saved
    && t.requests - {req} == s.requests - {req}
  }

  lemma RunStep(hashes: SignerHashes, s: State, a: Action, rest: seq<Action>)
    ensures Run(hashes, s, [a] + rest) == Run(hashes, Step(hashes, s, a), rest)
  {
    assert ([a] + rest)[1..] == rest;
  }

  lemma {:induction false} RunConcat(hashes: SignerHashes, s: State, a: seq<Action>, b: seq<Action>)
    ensures Run(hashes, s, a + b) == Run(hashes, Run(hashes, s, a), b)
    decreases |a|
  {
    if a == [] {
      assert a + b == b;
    } else {
      assert a + b == [a[0]] + (a[1..] + b);
      RunStep(hashes, s, a[0], a[1..] + b);
      RunConcat(hashes, Step(hashes, s, a[0]), a[1..], b);
    }
  }

  predicate Continues(a: Action, req: nat) {
    match a
    case Validate(r, _) => r == req
    case SignBaseline(r, _) => r == req
    case CommitBaseline(r) => r == req
    case ReadPact(r, _, _) => r == req
    case SignFinal(r, _) => r == req
    case CommitFinal(r) => r == req
    case _ => false
  }

  /** The request is over: no later action of the script touches it. */
  lemma {:induction false} AnsweredIsFinal(hashes: SignerHashes, s: State, req: nat, actions: seq<Action>)
    requires req in s.requests && s.requests[req].Answered?
    requires forall k :: 0 <= k < |actions| ==> Continues(actions[k], req)
    ensures Run(hashes, s, actions) == s
    decreases |actions|
  {
    if actions == [] {
    } else {
      assert Continues(actions[0], req);
      assert Step(hashes, s, actions[0]) == s;
      AnsweredIsFinal(hashes, s, req, actions[1..]);
    }
  }

  lemma SignAndCommitBaseline(hashes: SignerHashes, s: State, req: nat, at: int)
    requires req in s.requests && s.requests[req].Verified? && s.requests[req].session.phase == Phase.Baseline
    ensures var r := s.requests[req];
            var t := Step(hashes, Step(hashes, s, SignBaseline(req, at)), CommitBaseline(req));
            && req in t.requests && t.requests[req].Answered?
            && Ends(s, t, req, PostedBaseline(hashes, s.db, s.now, r.session, r.proofs, r.evidence, at))
  {
    var t := BaselineSigning(hashes, s, req, s.requests[req], at);
    assert Step(hashes, s, SignBaseline(req, at)) == t;
    assert Step(hashes, t, CommitBaseline(req))
           == if t.requests[req].Answered? then t else BaselineCommitted(t, req, t.requests[req]);
  }

  /** Signing and committing a baseline; the actions of a final then do nothing. */
  lemma BaselineTail(hashes: SignerHashes, s: State, t: State, req: nat, live: PactLive, at: int)
    requires t == Step(hashes, Step(hashes, s, SignBaseline(req, at)), CommitBaseline(req))
    requires req in t.requests && t.requests[req].Answered?
    ensures Run(hashes, s, Tail(req, live, at)) == t
  {
    var last := [ReadPact(req, live, at), SignFinal(req, at), CommitFinal(req)];
    assert Tail(req, live, at) == [SignBaseline(req, at)] + ([CommitBaseline(req)] + last);
    RunStep(hashes, s, SignBaseline(req, at), [CommitBaseline(req)] + last);
    RunStep(hashes, Step(hashes, s, SignBaseline(req, at)), CommitBaseline(req), last);
    AnsweredIsFinal(hashes, t, req, last);
  }

  /** A final request skips the baseline's actions, reads the Lock, signs and commits. */
  lemma FinalTail(hashes: SignerHashes, s: State, req: nat, live: PactLive, at: int)
    requires req in s.requests && s.requests[req].Verified? && s.requests[req].session.phase == Phase.Final
    ensures Run(hashes, s, Tail(req, live, at))
            == Run(hashes, PactReading(s, req, s.requests[req], live, at), [SignFinal(req, at), CommitFinal(req)])
  {
    var last := [SignFinal(req, at), CommitFinal(req)];
    RunStep(hashes, s, ReadPact(req, live, at), last);
    RunStep(hashes, s, CommitBaseline(req), [ReadPact(req, live, at)] + last);
    RunStep(hashes, s, SignBaseline(req, at), [CommitBaseline(req), ReadPact(req, live, at)] + last);
    assert [CommitBaseline(req)] + ([ReadPact(req, live, at)] + last)
           == [CommitBaseline(req), ReadPact(req, live, at)] + last;
    assert [SignBaseline(req, at)] + ([CommitBaseline(req), ReadPact(req, live, at)] + last) == Tail(req, live, at);
    assert Step(hashes, s, SignBaseline(req, at)) == s && Step(hashes, s, CommitBaseline(req)) == s;
  }

  lemma SignAndCommit(hashes: SignerHashes, s: State, req: nat, at: int)
    requires req in s.requests && s.requests[req].PactChecked?
    ensures var r := s.requests[req];
            Ends(s, Run(hashes, s, [SignFinal(req, at), CommitFinal(req)]), req,
                 PostedFinal(hashes, s.db, s.now, r.session, r.proofs, r.evidence, r.pactId, r.pact, at))
  {
    var t := FinalSigning(hashes, s, req, s.requests[req], at);
    assert [SignFinal(req, at)] + [CommitFinal(req)] == [SignFinal(req, at), CommitFinal(req)];
    RunStep(hashes, s, SignFinal(req, at), [CommitFinal(req)]);
    RunStep(hashes, t, CommitFinal(req), []);
    assert [CommitFinal(req)] + [] == [CommitFinal(req)];
    assert Step(hashes, s, SignFinal(req, at)) == t;
  }

  /** The rest of a script after validation. */
  lemma TailIsPosted(hashes: SignerHashes, s: State, req: nat, live: PactLive, at: int)
    requires req in s.requests && s.requests[req].Verified?
    ensures var r := s.requests[req];
            Ends(s, Run(hashes, s, Tail(req, live, at)), req,
                 PostedVerified(hashes, s.db, s.pacts, s.now, r.session, r.proofs, r.evidence, live, at))
  {
    if s.requests[req].session.phase == Phase.Baseline {
      var t := Step(hashes, Step(hashes, s, SignBaseline(req, at)), CommitBaseline(req));
      SignAndCommitBaseline(hashes, s, req, at);
      BaselineTail(hashes, s, t, req, live, at);
    } else {
      FinalTail(hashes, s, req, live, at);
      var t := PactReading(s, req, s.requests[req], live, at);
      if t.requests[req].Answered? {
        AnsweredIsFinal(hashes, t, req, [SignFinal(req, at), CommitFinal(req)]);
      } else {
        SignAndCommit(hashes, t, req, at);
      }
    }
  }

  lemma SetTwice(s: State, req: nat, a: Request, b: Request)
    ensures Set(Set(s, req, a), req, b) == Set(s, req, b)
  {
    assert s.requests[req := a][req := b] == s.requests[req := b];
  }

  /** The first two steps of a script. */
  lemma LoadAndValidate(hashes: SignerHashes, s: State, req: nat, id: string, proofs: ProofSet)
    ensures Step(hashes, Step(hashes, s, LoadSession(req, id)), Validate(req, proofs))
            == Set(s, req, Reached(hashes, s.db, s.now, id, proofs))
  {
    var r := Reached(hashes, s.db, s.now, id, proofs);
    var loaded := Load(s.db, id, s.now);
    if loaded.Some? {
      var t := Set(s, req, Loaded(loaded.value));
      assert Step(hashes, s, LoadSession(req, id)) == t;
      assert Step(hashes, t, Validate(req, proofs)) == Set(t, req, r) by {
        assert Validated(hashes, t, req, loaded.value, proofs) == Set(t, req, r);
      }
      SetTwice(s, req, Loaded(loaded.value), r);
    }
  }

  /** Run from any state, among any other requests but undisturbed by them, the script of a request has exactly the
      effect of the handler. */
  lemma ScriptIsPosted(hashes: SignerHashes, s: State, req: nat, id: string, proofs: ProofSet, live: PactLive, at: int)
    ensures Ends(s, Run(hashes, s, Script(req, id, proofs, live, at)), req,
                 Posted(hashes, s.db, s.pacts, s.now, id, proofs, live, at))
  {
    var tail := Tail(req, live, at);
    var u := Step(hashes, Step(hashes, s, LoadSession(req, id)), Validate(req, proofs));
    assert Run(hashes, s, Script(req, id, proofs, live, at)) == Run(hashes, u, tail) by {
      ScriptStarts(hashes, s, req, id, proofs, live, at);
    }
    LoadAndValidate(hashes, s, req, id, proofs);
    if u.requests[req].Answered? {
      AnsweredIsFinal(hashes, u, req, tail);
    } else {
      TailIsPosted(hashes, u, req, live, at);
    }
  }

  lemma ScriptStarts(hashes: SignerHashes, s: State, req: nat, id: string, proofs: ProofSet, live: PactLive, at: int)
    ensures Run(hashes, s, Script(req, id, proofs, live, at))
            == Run(hashes, Step(hashes, Step(hashes, s, LoadSession(req, id)), Validate(req, proofs)),
                   Tail(req, live, at))
  {
    var tail := Tail(req, live, at);
    var validate := Validate(req, proofs);
    assert Script(req, id, proofs, live, at) == [LoadSession(req, id)] + ([validate] + tail);
    RunStep(hashes, s, LoadSession(req, id), [validate] + tail);
    RunStep(hashes, Step(hashes, s, LoadSession(req, id)), validate, tail);
  }

  /** `POST` of the verify route on a store: it leaves the tables and gives the answer of the scripted run of any
      request number, from any state with those tables, time and Locks. */
  method VerifyPost(store: Store, hashes: SignerHashes, sessionId: string, proofs: ProofSet,
                    pacts: map<int, PactTerms>, live: PactLive, now: int, at: int)
    returns (released: Option<Release>)
    modifies store
    ensures (store.Tables(), released)
            == Posted(hashes, old(store.Tables()), pacts, now, sessionId, proofs, live, at)
    ensures forall s: State, req: nat :: s.db == old(store.Tables()) && s.pacts == pacts && s.now == now ==>
              Ends(s, Run(hashes, s, Script(req, sessionId, proofs, live, at)), req,
                   (store.Tables(), released))
  {
    forall s: State, req: nat | s.db == store.Tables() && s.pacts == pacts && s.now == now
      ensures Ends(s, Run(hashes, s, Script(req, sessionId, proofs, live, at)), req,
                   Posted(hashes, s.db, s.pacts, s.now, sessionId, proofs, live, at))
    {
      ScriptIsPosted(hashes, s, req, sessionId, proofs, live, at);
    }
    var loaded := store.LoadSession(sessionId, now);
    if loaded.None? { return None; }
    var session := loaded.value;
    var verdict := ValidateDuolingoEvidence(
      hashes.proof, proofs.data, proofs.timestamps, PROVIDER_ID, PolicyFor(session));
    if verdict.Err? { return None; }
    if session.phase == Phase.Baseline {
      released := VerifyBaseline(store, hashes, session, proofs, verdict.value, now, at);
      return;
    }
    if session.pactId.None? || session.pactId.value !in pacts { return None; }
    var pact := PactView(pacts[session.pactId.value], live);
    if FinalRefusal(pact, Submit, at).Some? { return None; }
    released := VerifyFinal(store, hashes, session, proofs, verdict.value, session.pactId.value, pact, now, at);
  }

  method VerifyBaseline(store: Store, hashes: SignerHashes, session: Session, proofs: ProofSet,
                        evidence: Evidence, now: int, at: int)
    returns (released: Option<Release>)
    modifies store
    ensures (store.Tables(), released)
            == PostedBaseline(hashes, old(store.Tables()), now, session, proofs, evidence, at)
  {
    var signed := SignedBaseline(hashes, session, evidence, at);
    if signed.Err? { return None; }
    var recorded := store.ConsumeAndSaveBaseline(BaselineCommit(session, evidence, signed.value), now);
    if !recorded { return None; }
    return Some(BaselineRelease(session.sessionId, proofs, signed.value, evidence.totalXp, evidence.observedAt));
  }

  method VerifyFinal(store: Store, hashes: SignerHashes, session: Session, proofs: ProofSet,
                     evidence: Evidence, pactId: int, pact: PactView, now: int, at: int)
    returns (released: Option<Release>)
    modifies store
    ensures (store.Tables(), released)
            == PostedFinal(hashes, old(store.Tables()), now, session, proofs, evidence, pactId, pact, at)
  {
    var baseline := store.LoadEscrowBaseline(session.walletAddress, pact.terms.configHash);
    var signed := SignedFinal(hashes, session, evidence, pactId, pact, baseline, at);
    if signed.Err? { return None; }
    var recorded := store.ConsumeAndSaveFinal(FinalCommit(session, signed.value), now);
    if !recorded { return None; }
    return Some(PlannedRelease(session, proofs, signed.value));
  }

  // --- what is released, exactly -----------------------------------------------------------------------

  /** A validated baseline is due: its session waits, it is bound to a nonce or a Lock, and it is the first of its
      wallet and configuration. */
  ghost predicate BaselineDue(db: Db, session: Session) {
    && Unconsumed(db.sessions, session.sessionId)
    && session.configHash.Some? && session.configHash.value != ""
    && (session.intent == Create ==> session.createNonce.Some? && IsCreateNonce(session.createNonce.value))
    && (session.intent == Join ==> session.pactId.Some? && session.pactId.value > 0)
    && session.intent != Intent.Final
    && LoadBaseline(db, session.walletAddress, session.configHash.value).None?
  }

  /** The Lock is open to a final of a participant who has not completed it, or was within the last hour. */
  ghost predicate LockOpen(pact: PactView, at: int) {
    && pact.live.joined && !pact.live.completed && !pact.live.cancelled && !pact.live.finalized
    && pact.live.minParticipants <= pact.live.participantCount
    && pact.terms.startsAt <= at < pact.terms.startsAt + pact.terms.durationSeconds + 3600
  }

  /** A validated final is due: its session waits, and against the stored baseline it is of the same account, later,
      inside the Lock's window, and far enough ahead in XP. */
  ghost predicate FinalDue(hashes: SignerHashes, db: Db, session: Session, evidence: Evidence, pactId: int,
                           pact: PactView)
  {
    var baseline := LoadBaseline(db, session.walletAddress, pact.terms.configHash);
    && Unconsumed(db.sessions, session.sessionId) && pactId > 0
    && baseline.Some?
    && hashes.identity(session.duolingoProfileId) == baseline.value.identityHash == pact.live.participantIdentity
    && pact.terms.startsAt <= evidence.observedAt <= pact.terms.startsAt + pact.terms.durationSeconds
    && baseline.value.baselineObservedAt < evidence.observedAt
    && evidence.eventNullifier != ZERO_HASH
    && 0 < pact.terms.targetXp <= MAX_SAFE_INTEGER
    && baseline.value.baselineXp + pact.terms.targetXp <= evidence.totalXp
  }

  /** A validated request is due an attestation. */
  ghost predicate VerifiedDue(hashes: SignerHashes, db: Db, pacts: map<int, PactTerms>, session: Session,
                              evidence: Evidence, live: PactLive, at: int)
  {
    if session.phase == Phase.Baseline then BaselineDue(db, session)
    else
      && session.pactId.Some? && session.pactId.value in pacts
      && var pact := PactView(pacts[session.pactId.value], live);
         LockOpen(pact, at) && FinalDue(hashes, db, session, evidence, session.pactId.value, pact)
  }

  /** A request is due an attestation: its session is live, its proofs are acceptable, and what they say is due one. */
  ghost predicate Due(hashes: SignerHashes, db: Db, pacts: map<int, PactTerms>, now: int, id: string,
                      proofs: ProofSet, live: PactLive, at: int)
  {
    var loaded := Load(db, id, now);
    && loaded.Some?
    && Acceptable(hashes.proof, proofs.data, proofs.timestamps, PROVIDER_ID, PolicyFor(loaded.value))
    && VerifiedDue(hashes, db, pacts, loaded.value, Found(hashes, proofs, loaded.value), live, at)
  }

  /** The evidence of an acceptable proof set. */
  ghost function Found(hashes: SignerHashes, proofs: ProofSet, session: Session)
    : (evidence: Evidence)
    requires Acceptable(hashes.proof, proofs.data, proofs.timestamps, PROVIDER_ID, PolicyFor(session))
    ensures Ok(evidence) == EvidenceOf(hashes.proof, proofs.data, proofs.timestamps, PROVIDER_ID, PolicyFor(session))
    ensures evidence.profileId == session.duolingoProfileId && evidence.phase == session.phase
  {
    AcceptedExactly(hashes.proof, proofs.data, proofs.timestamps, PROVIDER_ID, PolicyFor(session));
    AcceptedEvidence(hashes.proof, proofs.data, proofs.timestamps, PROVIDER_ID, PolicyFor(session));
    EvidenceOf(hashes.proof, proofs.data, proofs.timestamps, PROVIDER_ID, PolicyFor(session)).value
  }

  lemma SignedBaselineExactly(hashes: SignerHashes, session: Session, evidence: Evidence, at: int)
    ensures SignedBaseline(hashes, session, evidence, at).Ok? <==>
              && session.configHash.Some? && session.configHash.value != ""
              && (session.intent == Create ==> session.createNonce.Some? && IsCreateNonce(session.createNonce.value))
              && (session.intent == Join ==> session.pactId.Some? && session.pactId.value > 0)
              && session.intent != Intent.Final
    ensures SignedBaseline(hashes, session, evidence, at).Ok? ==>
              SignedBaseline(hashes, session, evidence, at).value.configHash == session.configHash.value
  {
    assert !IsCreateNonce("");
  }

  lemma SignedFinalExactly(hashes: SignerHashes, session: Session, evidence: Evidence, pactId: int, pact: PactView,
                           baseline: Option<BaselineRow>, at: int)
    ensures SignedFinal(hashes, session, evidence, pactId, pact, baseline, at).Ok? <==>
              && pactId > 0 && baseline.Some?
              && hashes.identity(evidence.profileId) == baseline.value.identityHash == pact.live.participantIdentity
              && pact.terms.startsAt <= evidence.observedAt <= pact.terms.startsAt + pact.terms.durationSeconds
              && baseline.value.baselineObservedAt < evidence.observedAt
              && evidence.phase == Phase.Final && evidence.eventNullifier != ZERO_HASH
              && 0 < pact.terms.targetXp <= MAX_SAFE_INTEGER
              && baseline.value.baselineXp + pact.terms.targetXp <= evidence.totalXp
  {
    if baseline.Some? {
      var start := Evidence(evidence.profileId, baseline.value.baselineXp, evidence.identityHash, ZERO_HASH,
                            baseline.value.baselineObservedAt, session.sessionId, Phase.Baseline);
      DeltaAcceptedExactly(start, evidence, pact.terms.targetXp, None, at);
    }
  }

  /** A validated baseline request is answered with an attestation exactly if one is due. */
  lemma BaselineReleasedExactly(hashes: SignerHashes, db: Db, now: int, session: Session, proofs: ProofSet,
                                evidence: Evidence, at: int)
    ensures PostedBaseline(hashes, db, now, session, proofs, evidence, at).1.Some? <==> BaselineDue(db, session)
  {
    SignedBaselineExactly(hashes, session, evidence, at);
  }

  /** So is a validated final request, once the Lock was read. */
  lemma FinalReleasedExactly(hashes: SignerHashes, db: Db, now: int, session: Session, proofs: ProofSet,
                             evidence: Evidence, pactId: int, pact: PactView, at: int)
    requires evidence.profileId == session.duolingoProfileId && evidence.phase == Phase.Final
    ensures PostedFinal(hashes, db, now, session, proofs, evidence, pactId, pact, at).1.Some?
            <==> FinalDue(hashes, db, session, evidence, pactId, pact)
  {
    var baseline := LoadBaseline(db, session.walletAddress, pact.terms.configHash);
    SignedFinalExactly(hashes, session, evidence, pactId, pact, baseline, at);
  }

  /** From the loading of the session to the answer, in any state and under any request number: an undisturbed
      request releases an attestation exactly if one is due, and then just one. */
  lemma ReleasedExactlyWhenDue(hashes: SignerHashes, s: State, req: nat, id: string, proofs: ProofSet, live: PactLive,
                               at: int)
    ensures var end := Run(hashes, s, Script(req, id, proofs, live, at));
            |end.releases| == |s.releases|
              + if Due(hashes, s.db, s.pacts, s.now, id, proofs, live, at) then 1 else 0
  {
    ScriptIsPosted(hashes, s, req, id, proofs, live, at);
    PostedExactlyWhenDue(hashes, s.db, s.pacts, s.now, id, proofs, live, at);
  }

  lemma PostedExactlyWhenDue(hashes: SignerHashes, db: Db, pacts: map<int, PactTerms>, now: int, id: string,
                             proofs: ProofSet, live: PactLive, at: int)
    ensures Posted(hashes, db, pacts, now, id, proofs, live, at).1.Some?
            <==> Due(hashes, db, pacts, now, id, proofs, live, at)
  {
    var loaded := Load(db, id, now);
    if loaded.Some? {
      var session := loaded.value;
      AcceptedExactly(hashes.proof, proofs.data, proofs.timestamps, PROVIDER_ID, PolicyFor(session));
      if Reached(hashes, db, now, id, proofs).Verified? {
        var evidence := Found(hashes, proofs, session);
        VerifiedExactlyWhenDue(hashes, db, pacts, now, session, proofs, evidence, live, at);
      }
    }
  }

  lemma VerifiedExactlyWhenDue(hashes: SignerHashes, db: Db, pacts: map<int, PactTerms>, now: int, session: Session,
                               proofs: ProofSet, evidence: Evidence, live: PactLive, at: int)
    requires evidence.profileId == session.duolingoProfileId && evidence.phase == session.phase
    ensures PostedVerified(hashes, db, pacts, now, session, proofs, evidence, live, at).1.Some?
            <==> VerifiedDue(hashes, db, pacts, session, evidence, live, at)
  {
    if session.phase == Phase.Baseline {
      BaselineReleasedExactly(hashes, db, now, session, proofs, evidence, at);
    } else if session.pactId.Some? && session.pactId.value in pacts {
      var pact := PactView(pacts[session.pactId.value], live);
      assert FinalRefusal(pact, Submit, at).None? <==> LockOpen(pact, at);
      FinalReleasedExactly(hashes, db, now, session, proofs, evidence, session.pactId.value, pact, at);
    }
  }

  // --- why session ids must be fresh -------------------------------------------------------------------

  /** A create request with a proof set that will be accepted for its session. */
  ghost predicate GoodCreate(hashes: SignerHashes, id: string, request: OpenRequest, proofs: ProofSet)
  {
    && request.intent == Create && IsCreateNonce(request.createNonce) && request.configHash != ""
    && var prepared := PrepareSession(hashes, id, request, None, None, 0);
       && prepared.Ok?
       && Acceptable(hashes.proof, proofs.data, proofs.timestamps, PROVIDER_ID,
                     PolicyFor(StoredSession(prepared.value)))
  }

  /** What opening a create session and verifying it leaves, from a state that knows neither its id nor its
      baseline: one more release, of this id. */
  ghost predicate Created(s: State, t: State, id: string, request: OpenRequest) {
    && |t.releases| == |s.releases| + 1 && t.releases[..|s.releases|] == s.releases
    && t.releases[|s.releases|].sessionId == id
    && t.saved == s.saved + multiset{id} && t.now == s.now
    && id in t.db.sessions && t.db.sessions[id].createdAt == s.now
    && t.db.baselines.Keys == s.db.baselines.Keys + {(ToLower(request.wallet), request.configHash)}
  }

  function OpenAndVerify(req: nat, id: string, request: OpenRequest, proofs: ProofSet, live: PactLive, at: int)
    : seq<Action>
  {
    [OpenSession(id, request, live, at)] + Script(req, id, proofs, live, at)
  }

  lemma CreateReleases(hashes: SignerHashes, s: State, req: nat, id: string, request: OpenRequest,
                       proofs: ProofSet, live: PactLive, at: int)
    requires GoodCreate(hashes, id, request, proofs)
    requires id !in s.db.sessions && (ToLower(request.wallet), request.configHash) !in s.db.baselines
    ensures Created(s, Run(hashes, s, OpenAndVerify(req, id, request, proofs, live, at)), id, request)
  {
    var script := Script(req, id, proofs, live, at);
    var prepared := PrepareSession(hashes, id, request, None, None, 0).value;
    var u := s.(db := AfterSave(s.db, prepared, s.now), saved := s.saved + multiset{id});
    RunStep(hashes, s, OpenSession(id, request, live, at), script);
    CreateIgnoresChain(hashes, s, id, request, live, at);
    ScriptIsPosted(hashes, u, req, id, proofs, live, at);
    CreatePosted(hashes, u, id, request, proofs, live, at);
  }

  lemma CreateIgnoresChain(hashes: SignerHashes, s: State, id: string, request: OpenRequest, live: PactLive, at: int)
    requires request.intent == Create && id !in s.db.sessions
    ensures var prepared := PrepareSession(hashes, id, request, None, None, 0);
            prepared.Ok? ==>
              Step(hashes, s, OpenSession(id, request, live, at))
              == s.(db := AfterSave(s.db, prepared.value, s.now), saved := s.saved + multiset{id})
  {
  }

  /** The handler's effect on a create session that waits. */
  lemma CreatePosted(hashes: SignerHashes, s: State, id: string, request: OpenRequest, proofs: ProofSet, live: PactLive,
                     at: int)
    requires GoodCreate(hashes, id, request, proofs)
    requires id in s.db.sessions
    requires s.db.sessions[id]
             == SessionRow(StoredSession(PrepareSession(hashes, id, request, None, None, 0).value), s.now, None)
    requires (ToLower(request.wallet), request.configHash) !in s.db.baselines
    ensures var (db, released) := Posted(hashes, s.db, s.pacts, s.now, id, proofs, live, at);
            && released.Some? && released.value.sessionId == id
            && id in db.sessions && db.sessions[id].createdAt == s.now
            && db.baselines.Keys == s.db.baselines.Keys + {(ToLower(request.wallet), request.configHash)}
  {
    var session := s.db.sessions[id].session;
    assert Load(s.db, id, s.now) == Some(session);
    ToLowerIdempotent(request.wallet);
    var evidence := Found(hashes, proofs, session);
    SignedBaselineExactly(hashes, session, evidence, at);
    BaselineReleasedExactly(hashes, s.db, s.now, session, proofs, evidence, at);
    assert Posted(hashes, s.db, s.pacts, s.now, id, proofs, live, at)
           == PostedBaseline(hashes, s.db, s.now, session, proofs, evidence, at);
  }

  function Waiting(): seq<Action> {
    [Tick(SESSION_PRUNE_SECONDS + 1), Prune]
  }

  /** A day and a second later the row is pruned, and everything else is as before. */
  lemma WaitAndPrune(hashes: SignerHashes, s: State, id: string)
    requires id in s.db.sessions && s.db.sessions[id].createdAt == s.now
    ensures var t := Run(hashes, s, Waiting());
            && id !in t.db.sessions && t.db.baselines == s.db.baselines
            && t.releases == s.releases && t.saved == s.saved
  {
    var tick := Tick(SESSION_PRUNE_SECONDS + 1);
    assert [tick, Prune] == [tick] + [Prune] && [Prune] == [Prune] + [];
    RunStep(hashes, s, tick, [Prune]);
    RunStep(hashes, Step(hashes, s, tick), Prune, []);
  }

  lemma OpenedThenPruned(hashes: SignerHashes, id: string, first: OpenRequest, proofs: ProofSet, live: PactLive,
                         at: int)
    requires GoodCreate(hashes, id, first, proofs)
    ensures var t := Run(hashes, Run(hashes, INITIAL, OpenAndVerify(0, id, first, proofs, live, at)), Waiting());
            && |t.releases| == 1 && t.releases[0].sessionId == id && t.saved == multiset{id}
            && id !in t.db.sessions && t.db.baselines.Keys == {(ToLower(first.wallet), first.configHash)}
  {
    var s := Run(hashes, INITIAL, OpenAndVerify(0, id, first, proofs, live, at));
    assert Created(INITIAL, s, id, first) by {
      CreateReleases(hashes, INITIAL, 0, id, first, proofs, live, at);
    }
    WaitAndPrune(hashes, s, id);
  }

  /** The bound is met: an id opened again after its row was pruned releases again. */
  lemma ReusedIdReleasesTwice(hashes: SignerHashes, id: string, first: OpenRequest, second: OpenRequest,
                              proofs: ProofSet, proofs': ProofSet, live: PactLive, at: int)
    requires GoodCreate(hashes, id, first, proofs)
    requires GoodCreate(hashes, id, second, proofs')
    requires first.configHash != second.configHash
    ensures var s := Run(hashes, INITIAL,
                         OpenAndVerify(0, id, first, proofs, live, at)
                         + (Waiting() + OpenAndVerify(1, id, second, proofs', live, at)));
            && |s.releases| == 2 && s.releases[0].sessionId == id == s.releases[1].sessionId
            && s.saved[id] == 2
  {
    var opening := OpenAndVerify(0, id, first, proofs, live, at);
    var again := OpenAndVerify(1, id, second, proofs', live, at);
    var t := Run(hashes, Run(hashes, INITIAL, opening), Waiting());
    assert Run(hashes, INITIAL, opening + (Waiting() + again)) == Run(hashes, t, again) by {
      RunConcat(hashes, INITIAL, opening, Waiting() + again);
      RunConcat(hashes, Run(hashes, INITIAL, opening), Waiting(), again);
    }
    OpenedThenPruned(hashes, id, first, proofs, live, at);
    assert Created(t, Run(hashes, t, again), id, second) by {
      CreateReleases(hashes, t, 1, id, second, proofs', live, at);
    }
    TwoReleases(t.releases, Run(hashes, t, again).releases);
  }

  lemma TwoReleases(a: seq<Release>, b: seq<Release>)
    requires |a| == 1 && |b| == 2 && b[..1] == a
    ensures b[0] == a[0]
  {
  }
}
