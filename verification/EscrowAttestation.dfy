/** The signed context of an escrow phase, its nullifier, and the attestation released for it
    (src/duolingo-escrow-attestation.ts). Signatures are left out: an attestation is the signed message. */
module EscrowAttestation {
  import opened Prelude
  import opened Text
  import ProofPolicy

  const ATTESTATION_TTL_SECONDS := 300

  datatype Intent = Create | Join | Final

  /** What the phase of a nullifier is bound to: a server nonce or a Lock. */
  datatype Binding = Nonce(nonce: string) | Pact(pactId: int)

  /** The keyed and unkeyed hashes of the evidence signer, with a fixed key. */
  datatype SignerHashes = SignerHashes(
    proof: ProofPolicy.ProofHashes,
    identity: string -> string,
    nullifier: (string, Intent, Binding) -> string)

  datatype ContextInput = CreateContext(createNonce: string) | JoinContext(joinId: int) | FinalContext(finalId: int)

  datatype AttestationError = InvalidNonce | InvalidPactId

  predicate IsHexDigit(c: char) {
    IsDigit(c) || 'a' <= c <= 'f' || 'A' <= c <= 'F'
  }

  predicate IsCreateNonce(s: string) {
    |s| == 66 && s[..2] == "0x" && forall i :: 2 <= i < 66 ==> IsHexDigit(s[i])
  }

  function ContextMessage(input: ContextInput): Result<string, AttestationError> {
    match input
    case CreateContext(nonce) =>
      if !IsCreateNonce(nonce) then Err(InvalidNonce)
      else Ok("escrow:create:" + ToLower(nonce) + ":baseline")
    case JoinContext(id) =>
      if id <= 0 then Err(InvalidPactId)
      else Ok("escrow:join:" + PrintNat(id) + ":baseline")
    case FinalContext(id) =>
      if id <= 0 then Err(InvalidPactId)
      else Ok("escrow:final:" + PrintNat(id) + ":final")
  }

  /** Two inputs ask for the same binding: same intent, and the same Lock or the same case-folded nonce. */
  predicate SameBinding(a: ContextInput, b: ContextInput) {
    match (a, b)
    case (CreateContext(m), CreateContext(n)) => ToLower(m) == ToLower(n)
    case (JoinContext(i), JoinContext(j)) => i == j
    case (FinalContext(i), FinalContext(j)) => i == j
    case _ => false
  }

  /** Three strings around a middle part agree exactly when the middle parts do. */
  lemma MiddleAgrees(prefix: string, a: string, b: string, suffix: string)
    requires prefix + a + suffix == prefix + b + suffix
    ensures a == b
  {
    var whole := prefix + a + suffix;
    assert |whole| == |prefix| + |a| + |suffix| == |prefix| + |b| + |suffix|;
    assert whole[|prefix|..|prefix| + |a|] == a;
    assert (prefix + b + suffix)[|prefix|..|prefix| + |b|] == b;
  }

  /** The context message is injective over what it binds, and blind to nothing else than nonce case. */
  lemma ContextMessageInjective(a: ContextInput, b: ContextInput)
    requires ContextMessage(a).Ok? && ContextMessage(b).Ok?
    ensures ContextMessage(a) == ContextMessage(b) <==> SameBinding(a, b)
  {
    var ma, mb := ContextMessage(a).value, ContextMessage(b).value;
    assert a.CreateContext? ==> ma[7] == 'c';
    assert b.CreateContext? ==> mb[7] == 'c';
    assert a.JoinContext? ==> ma[7] == 'j';
    assert b.JoinContext? ==> mb[7] == 'j';
    assert a.FinalContext? ==> ma[7] == 'f';
    assert b.FinalContext? ==> mb[7] == 'f';
    if ma == mb {
      match (a, b) {
        case (CreateContext(m), CreateContext(n)) =>
          MiddleAgrees("escrow:create:", ToLower(m), ToLower(n), ":baseline");
        case (JoinContext(i), JoinContext(j)) =>
          MiddleAgrees("escrow:join:", PrintNat(i), PrintNat(j), ":baseline");
          PrintNatInjective(i, j);
        case (FinalContext(i), FinalContext(j)) =>
          MiddleAgrees("escrow:final:", PrintNat(i), PrintNat(j), ":final");
          PrintNatInjective(i, j);
        case _ =>
      }
    }
  }

  /** A proof set accepted for one escrow action is refused for every action with another binding. */
  lemma ProofServesOneAction(hashes: ProofPolicy.ProofHashes, data: seq<ProofPolicy.TrustedData>,
                             timestamps: seq<Option<int>>, p: ProofPolicy.Policy, q: ProofPolicy.Policy,
                             a: ContextInput, b: ContextInput)
    requires ContextMessage(a).Ok? && p.expectedContextMessage == Some(ContextMessage(a).value)
    requires ContextMessage(b).Ok? && q.expectedContextMessage == Some(ContextMessage(b).value)
    requires !SameBinding(a, b)
    requires ProofPolicy.EvidenceOf(hashes, data, timestamps, ProofPolicy.PROVIDER_ID, p).Ok?
    ensures ProofPolicy.EvidenceOf(hashes, data, timestamps, ProofPolicy.PROVIDER_ID, q).Err?
  {
    ContextMessageInjective(a, b);
    ProofPolicy.EvidenceBindsOnePolicy(hashes, data, timestamps, ProofPolicy.PROVIDER_ID, p, q);
  }

  datatype BaselineAttestation = BaselineAttestation(
    account: string,
    configHash: string,
    identityHash: string,
    nullifier: string,
    issuedAt: int,
    expiresAt: int)

  datatype FinalAttestation = FinalAttestation(
    pactId: int,
    account: string,
    identityHash: string,
    earnedXp: int,
    targetXp: int,
    nullifier: string,
    occurredAt: int,
    issuedAt: int,
    expiresAt: int)

  /** `binding` is the create nonce or the Lock joined. */
  function BuildBaseline(hashes: SignerHashes, account: string, profileId: string, configHash: string,
                         binding: Binding, now: int): Result<BaselineAttestation, AttestationError>
  {
    var identity := hashes.identity(profileId);
    match binding
    case Nonce(nonce) =>
      if !IsCreateNonce(nonce) then Err(InvalidNonce)
      else Ok(BaselineAttestation(ToLower(account), configHash, identity,
        hashes.nullifier(identity, Create, Nonce(ToLower(nonce))), now, now + ATTESTATION_TTL_SECONDS))
    case Pact(id) =>
      if id <= 0 then Err(InvalidPactId)
      else Ok(BaselineAttestation(ToLower(account), configHash, identity,
        hashes.nullifier(identity, Join, Pact(id)), now, now + ATTESTATION_TTL_SECONDS))
  }

  function BuildFinal(hashes: SignerHashes, account: string, profileId: string, pactId: int, earnedXp: int,
                      targetXp: int, occurredAt: int, now: int): Result<FinalAttestation, AttestationError>
  {
    var identity := hashes.identity(profileId);
    if pactId <= 0 then Err(InvalidPactId)
    else Ok(FinalAttestation(pactId, ToLower(account), identity, earnedXp, targetXp,
      hashes.nullifier(identity, Intent.Final, Pact(pactId)), occurredAt, now, now + ATTESTATION_TTL_SECONDS))
  }

  ghost predicate Injective(nullifier: (string, Intent, Binding) -> string) {
    forall i, p, b, j, q, c :: nullifier(i, p, b) == nullifier(j, q, c) ==> i == j && p == q && b == c
  }

  function Folded(binding: Binding): Binding {
    match binding
    case Nonce(nonce) => Nonce(ToLower(nonce))
    case Pact(_) => binding
  }

  /** Baseline nullifiers agree exactly for the same identity and the same Lock or case-folded nonce, whatever the
      wallet, configuration and time; and every attestation lasts five minutes. */
  lemma BaselineNullifierNamesAction(hashes: SignerHashes, account: string, profileId: string, configHash: string,
                                     binding: Binding, now: int, account': string, profileId': string,
                                     configHash': string, binding': Binding, now': int)
    requires Injective(hashes.nullifier)
    ensures var a := BuildBaseline(hashes, account, profileId, configHash, binding, now);
            var b := BuildBaseline(hashes, account', profileId', configHash', binding', now');
            a.Ok? && b.Ok? ==>
              && (a.value.nullifier == b.value.nullifier <==>
                    hashes.identity(profileId) == hashes.identity(profileId') && Folded(binding) == Folded(binding'))
              && (binding.Pact? ==> a.value.nullifier == hashes.nullifier(a.value.identityHash, Join, binding))
              && (binding.Nonce? ==>
                    a.value.nullifier == hashes.nullifier(a.value.identityHash, Create, Folded(binding)))
              && a.value.expiresAt == a.value.issuedAt + 300
  {
    var i, j := hashes.identity(profileId), hashes.identity(profileId');
    var p, q := if binding.Nonce? then Create else Join, if binding'.Nonce? then Create else Join;
    assert hashes.nullifier(i, p, Folded(binding)) == hashes.nullifier(j, q, Folded(binding')) ==>
        i == j && Folded(binding) == Folded(binding');
  }

  /** A final nullifier is that of no baseline, and of no final for another identity or Lock. */
  lemma FinalNullifierNamesLock(hashes: SignerHashes, account: string, profileId: string, pactId: int, earnedXp: int,
                                targetXp: int, occurredAt: int, now: int)
    requires Injective(hashes.nullifier)
    requires BuildFinal(hashes, account, profileId, pactId, earnedXp, targetXp, occurredAt, now).Ok?
    ensures var f := BuildFinal(hashes, account, profileId, pactId, earnedXp, targetXp, occurredAt, now).value;
            && (forall w, id, config, binding, t ::
                  var b := BuildBaseline(hashes, w, id, config, binding, t);
                  b.Ok? ==> b.value.nullifier != f.nullifier)
            && (forall w, id, pact, earned, target, at, t ::
                  var g := BuildFinal(hashes, w, id, pact, earned, target, at, t);
                  g.Ok? && g.value.nullifier == f.nullifier ==>
                    pact == pactId && g.value.identityHash == f.identityHash)
  {
  }
}
