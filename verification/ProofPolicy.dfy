/** What a pair of Reclaim proofs must say before it counts as Duolingo evidence, and when two pieces of
    evidence amount to enough earned XP (src/duolingo-proof-policy.ts). */
module ProofPolicy {
  import opened Prelude
  import opened Text

  const PROVIDER_ID := "cdf8cb3b-2976-4413-ab2d-693ae5028380"
  const OWNERSHIP_REQUEST_HASH := "0xea3ca9aeaa60e89d8f4a9134f5b314a78295e7e164f75eddb6d89f911a83766e"
  const XP_REQUEST_HASH := "0x92d80894f1f9e2f3574b840e846e41a49ae7491b587da9bd96cbcccbe001c8ed"
  const MAX_SAFE_INTEGER: int := 9007199254740991
  const MAX_XP: int := 2_000_000_000
  const MAX_UINT64: int := 0xFFFF_FFFF_FFFF_FFFF

  datatype Phase = Baseline | Final

  /** A signed field is either a string or some other JSON value, which the policy never accepts. */
  datatype Field = Text(text: string) | Other

  /** One verified proof: its signed context and the parameters extracted from the response. */
  datatype TrustedData = TrustedData(context: map<string, Field>, parameters: map<string, Field>)

  datatype Policy = Policy(
    walletAddress: string,
    pactId: string,
    phase: Phase,
    expectedSessionId: string,
    expectedProfileId: string,
    expectedContextMessage: Option<string>)

  datatype Evidence = Evidence(
    profileId: string,
    totalXp: int,
    identityHash: string,
    eventNullifier: string,
    observedAt: int,
    sessionId: string,
    phase: Phase)

  datatype PolicyError =
    | WrongProvider | WrongProofCount | InvalidProofTime | InvalidPolicy | InvalidContext
    | WrongWallet | WrongPactPhase | WrongSession | WrongRequestSchema | InvalidProofRole
    | AccountNotOwned | MissingField | ConflictingField | InvalidProfile | InvalidXp
    | WrongPhaseOrder | IdentityChanged | ReplayedProof | FinalNotAfterBaseline | InvalidTarget
    | XpWentBackwards | FinalInFuture | FinalTooOld | TargetNotMet

  /** The hash functions the policy calls, left uninterpreted. */
  datatype ProofHashes = ProofHashes(
    isAddress: string -> bool,
    identity: nat -> string,
    nullifier: (string, nat, Phase) -> string)

  function PhaseName(phase: Phase): string {
    match phase
    case Baseline => "baseline"
    case Final => "final"
  }

  function ExpectedMessage(policy: Policy): string {
    match policy.expectedContextMessage
    case Some(message) => message
    case None => policy.pactId + ":" + PhaseName(policy.phase)
  }

  function ContextString(item: TrustedData, key: string): Result<string, PolicyError> {
    if key in item.context && item.context[key].Text? && item.context[key].text != ""
    then Ok(item.context[key].text)
    else Err(InvalidContext)
  }

  /** One proof's context against the policy; the lower-cased provider hash when it is bound as expected. */
  function ItemVerdict(item: TrustedData, policy: Policy): Result<string, PolicyError> {
    match ContextString(item, "contextAddress")
    case Err(e) => Err(e)
    case Ok(address) =>
      if ToLower(address) != ToLower(policy.walletAddress) then Err(WrongWallet)
      else match ContextString(item, "contextMessage")
        case Err(e) => Err(e)
        case Ok(message) =>
          if message != ExpectedMessage(policy) then Err(WrongPactPhase)
          else match ContextString(item, "reclaimSessionId")
            case Err(e) => Err(e)
            case Ok(session) =>
              if session != policy.expectedSessionId then Err(WrongSession)
              else match ContextString(item, "providerHash")
                case Err(e) => Err(e)
                case Ok(hash) => Ok(ToLower(hash))
  }

  /** The provider hashes of the proofs in order, or the first refusal. */
  function ProviderHashes(data: seq<TrustedData>, policy: Policy): Result<set<string>, PolicyError> {
    if data == [] then Ok({})
    else match ProviderHashes(data[..|data| - 1], policy)
      case Err(e) => Err(e)
      case Ok(hashes) =>
        match ItemVerdict(data[|data| - 1], policy)
        case Err(e) => Err(e)
        case Ok(hash) => Ok(hashes + {hash})
  }

  predicate HasField(item: TrustedData, key: string) {
    key in item.parameters && item.parameters[key].Text?
  }

  function FieldIndexes(data: seq<TrustedData>, key: string): (indexes: seq<nat>)
    ensures forall i :: 0 <= i < |indexes| ==> indexes[i] < |data| && HasField(data[indexes[i]], key)
  {
    if data == [] then []
    else
      FieldIndexes(data[..|data| - 1], key)
      + (if HasField(data[|data| - 1], key) then [|data| - 1] else [])
  }

  function FieldValues(data: seq<TrustedData>, key: string): seq<string> {
    if data == [] then []
    else
      FieldValues(data[..|data| - 1], key)
      + (if HasField(data[|data| - 1], key) then [data[|data| - 1].parameters[key].text] else [])
  }

  function OneField(data: seq<TrustedData>, key: string): Result<string, PolicyError> {
    var values := FieldValues(data, key);
    if values == [] then Err(MissingField)
    else if exists i :: 0 <= i < |values| && values[i] != values[0] then Err(ConflictingField)
    else Ok(values[0])
  }

  function ProofIndexWithField(data: seq<TrustedData>, key: string): (r: Result<nat, PolicyError>)
    ensures r.Ok? ==> r.value < |data|
  {
    var indexes := FieldIndexes(data, key);
    if |indexes| != 1 then Err(InvalidProofRole) else Ok(indexes[0])
  }

  /** `[1-9]\d{0,19}`: the shape of a Duolingo profile id. */
  predicate ProfileIdShape(s: string) {
    PositiveNumeral(s) && |s| <= 20
  }

  /** `0|[1-9]\d{0,9}`: the shape of a signed XP total. */
  predicate XpShape(s: string) {
    s == "0" || (PositiveNumeral(s) && |s| <= 10)
  }

  predicate SafeTimestamps(timestamps: seq<Option<int>>) {
    |timestamps| == 2
    && forall i :: 0 <= i < 2 ==>
      timestamps[i].Some? && -MAX_SAFE_INTEGER <= timestamps[i].value <= MAX_SAFE_INTEGER
  }

  predicate PolicyWellFormed(hashes: ProofHashes, policy: Policy) {
    hashes.isAddress(policy.walletAddress)
    && policy.pactId != "" && AllDigits(policy.pactId)
    && ProfileIdShape(policy.expectedProfileId)
  }

  /** The checks that follow the context loop: roles, ownership marker, account, XP range. */
  function EvidenceFrom(hashes: ProofHashes, data: seq<TrustedData>, timestamps: seq<Option<int>>, policy: Policy)
    : Result<Evidence, PolicyError>
    requires |data| == 2 && SafeTimestamps(timestamps) && PolicyWellFormed(hashes, policy)
  {
    match (ProofIndexWithField(data, "marker"), ProofIndexWithField(data, "xp"))
    case (Err(e), _) => Err(e)
    case (_, Err(e)) => Err(e)
    case (Ok(ownershipIndex), Ok(profileIndex)) =>
      if ownershipIndex == profileIndex then Err(InvalidProofRole)
      else match OneField(data, "marker")
        case Err(e) => Err(e)
        case Ok(marker) =>
          if marker != "disable_social" then Err(AccountNotOwned)
          else match (OneField(data, "id"), OneField(data, "xp"))
            case (Err(e), _) => Err(e)
            case (_, Err(e)) => Err(e)
            case (Ok(profileId), Ok(xp)) =>
              if profileId != policy.expectedProfileId then Err(AccountNotOwned)
              else if !ProfileIdShape(profileId) || ParseNat(profileId) > MAX_UINT64 then Err(InvalidProfile)
              else if !XpShape(xp) then Err(InvalidXp)
              else if ParseNat(xp) > MAX_XP then Err(InvalidXp)
              else
                var identity := hashes.identity(ParseNat(profileId));
                Ok(Evidence(
                  profileId, ParseNat(xp), identity,
                  hashes.nullifier(identity, ParseNat(policy.pactId), policy.phase),
                  timestamps[profileIndex].value, policy.expectedSessionId, policy.phase))
  }

  /** The verdict on a proof set, as a function of its inputs. */
  function EvidenceOf(hashes: ProofHashes, data: seq<TrustedData>, timestamps: seq<Option<int>>,
                      providerId: string, policy: Policy): Result<Evidence, PolicyError>
  {
    if providerId != PROVIDER_ID then Err(WrongProvider)
    else if |data| != 2 then Err(WrongProofCount)
    else if !SafeTimestamps(timestamps) then Err(InvalidProofTime)
    else if !PolicyWellFormed(hashes, policy) then Err(InvalidPolicy)
    else match ProviderHashes(data, policy)
      case Err(e) => Err(e)
      case Ok(found) =>
        if |found| != 2 || OWNERSHIP_REQUEST_HASH !in found || XP_REQUEST_HASH !in found
        then Err(WrongRequestSchema)
        else EvidenceFrom(hashes, data, timestamps, policy)
  }

  /** The policy as the source runs it, filling a set of provider hashes proof by proof. */
  method ValidateDuolingoEvidence(hashes: ProofHashes, data: seq<TrustedData>, timestamps: seq<Option<int>>,
                                  providerId: string, policy: Policy)
    returns (r: Result<Evidence, PolicyError>)
    ensures r == EvidenceOf(hashes, data, timestamps, providerId, policy)
  {
    if providerId != PROVIDER_ID { return Err(WrongProvider); }
    if |data| != 2 { return Err(WrongProofCount); }
    if !SafeTimestamps(timestamps) { return Err(InvalidProofTime); }
    if !PolicyWellFormed(hashes, policy) { return Err(InvalidPolicy); }
    var providerHashes: set<string> := {};
    var i := 0;
    while i < |data|
      invariant 0 <= i <= |data|
      invariant ProviderHashes(data[..i], policy) == Ok(providerHashes)
    {
      assert data[..i + 1][..i] == data[..i];
      match ItemVerdict(data[i], policy) {
        case Err(e) =>
          assert ProviderHashes(data[..i + 1], policy) == Err(e);
          ErrorSticks(data, i + 1, policy);
          return Err(e);
        case Ok(hash) =>
          providerHashes := providerHashes + {hash};
      }
      i := i + 1;
    }
    assert data[..|data|] == data;
    if |providerHashes| != 2 || OWNERSHIP_REQUEST_HASH !in providerHashes || XP_REQUEST_HASH !in providerHashes {
      return Err(WrongRequestSchema);
    }
    r := EvidenceFrom(hashes, data, timestamps, policy);
  }

  /** Once a prefix of the proofs is refused, the whole list is refused for the same reason. */
  lemma {:induction false} ErrorSticks(data: seq<TrustedData>, n: nat, policy: Policy)
    requires n <= |data| && ProviderHashes(data[..n], policy).Err?
    ensures ProviderHashes(data, policy) == ProviderHashes(data[..n], policy)
    decreases |data|
  {
    if n < |data| {
      var shorter := data[..|data| - 1];
      assert shorter[..n] == data[..n];
      ErrorSticks(shorter, n, policy);
    } else {
      assert data[..n] == data;
    }
  }

  // --- the two-proof case, spelled out -----------------------------------------------------------------

  lemma TwoProofHashes(a: TrustedData, b: TrustedData, policy: Policy)
    ensures ProviderHashes([a, b], policy).Ok?
            <==> ItemVerdict(a, policy).Ok? && ItemVerdict(b, policy).Ok?
    ensures ProviderHashes([a, b], policy).Ok? ==>
              ProviderHashes([a, b], policy).value
              == {ItemVerdict(a, policy).value, ItemVerdict(b, policy).value}
  {
    assert [a, b][..1] == [a];
    assert [a][..0] == [];
    if ItemVerdict(a, policy).Ok? {
      var ha := ItemVerdict(a, policy).value;
      assert {} + {ha} == {ha};
      assert ProviderHashes([a], policy) == Ok({ha});
    }
  }

  lemma TwoProofFields(a: TrustedData, b: TrustedData, key: string)
    ensures FieldValues([a, b], key)
            == (if HasField(a, key) then [a.parameters[key].text] else [])
               + (if HasField(b, key) then [b.parameters[key].text] else [])
    ensures FieldIndexes([a, b], key)
            == (if HasField(a, key) then [0] else []) + (if HasField(b, key) then [1] else [])
  {
    assert [a, b][..1] == [a];
    assert [a][..0] == [];
    assert FieldValues([a], key) == if HasField(a, key) then [a.parameters[key].text] else [];
    assert FieldIndexes([a], key) == if HasField(a, key) then [0] else [];
  }

  lemma SwapKeepsField(a: TrustedData, b: TrustedData, key: string)
    ensures OneField([a, b], key) == OneField([b, a], key)
    ensures ProofIndexWithField([a, b], key).Ok? == ProofIndexWithField([b, a], key).Ok?
    ensures ProofIndexWithField([a, b], key).Ok? ==>
              ProofIndexWithField([b, a], key).value == 1 - ProofIndexWithField([a, b], key).value
  {
    TwoProofFields(a, b, key);
    TwoProofFields(b, a, key);
    if HasField(a, key) && HasField(b, key) {
      var va, vb := a.parameters[key].text, b.parameters[key].text;
      var ab, ba := FieldValues([a, b], key), FieldValues([b, a], key);
      assert ab == [va, vb] && ba == [vb, va];
      if va != vb {
        assert ab[1] != ab[0] && ba[1] != ba[0];
      }
    }
  }

  /** The order in which the two proofs arrive does not matter, as long as each keeps its own timestamp. */
  lemma SwappedProofsGiveSameEvidence(hashes: ProofHashes, a: TrustedData, b: TrustedData,
                                      ta: Option<int>, tb: Option<int>, providerId: string, policy: Policy)
    ensures EvidenceOf(hashes, [a, b], [ta, tb], providerId, policy).Ok?
            <==> EvidenceOf(hashes, [b, a], [tb, ta], providerId, policy).Ok?
    ensures EvidenceOf(hashes, [a, b], [ta, tb], providerId, policy).Ok? ==>
              EvidenceOf(hashes, [a, b], [ta, tb], providerId, policy)
              == EvidenceOf(hashes, [b, a], [tb, ta], providerId, policy)
  {
    assert ProviderHashes([a, b], policy).Ok? <==> ProviderHashes([b, a], policy).Ok? by {
      TwoProofHashes(a, b, policy);
      TwoProofHashes(b, a, policy);
    }
    if ProviderHashes([a, b], policy).Ok? { SwappedHashes(a, b, policy); }
    assert SafeTimestamps([ta, tb]) <==> SafeTimestamps([tb, ta]) by {
      assert [ta, tb][0] == [tb, ta][1] && [ta, tb][1] == [tb, ta][0];
    }
    if SafeTimestamps([ta, tb]) && PolicyWellFormed(hashes, policy) {
      SwappedFields(hashes, a, b, ta, tb, policy);
    }
  }

  lemma SwappedHashes(a: TrustedData, b: TrustedData, policy: Policy)
    requires ProviderHashes([a, b], policy).Ok?
    ensures ProviderHashes([b, a], policy) == ProviderHashes([a, b], policy)
  {
    TwoProofHashes(a, b, policy);
    TwoProofHashes(b, a, policy);
    var x, y := ItemVerdict(a, policy).value, ItemVerdict(b, policy).value;
    assert {x, y} == {y, x};
  }

  lemma SwappedFields(hashes: ProofHashes, a: TrustedData, b: TrustedData, ta: Option<int>, tb: Option<int>,
                      policy: Policy)
    requires SafeTimestamps([ta, tb]) && SafeTimestamps([tb, ta]) && PolicyWellFormed(hashes, policy)
    ensures EvidenceFrom(hashes, [a, b], [ta, tb], policy).Ok?
            <==> EvidenceFrom(hashes, [b, a], [tb, ta], policy).Ok?
    ensures EvidenceFrom(hashes, [a, b], [ta, tb], policy).Ok? ==>
              EvidenceFrom(hashes, [a, b], [ta, tb], policy) == EvidenceFrom(hashes, [b, a], [tb, ta], policy)
  {
    SwapKeepsField(a, b, "marker");
    SwapKeepsField(a, b, "xp");
    SwapKeepsField(a, b, "id");
  }

  /** The context of a proof names exactly this wallet, message and session. */
  ghost predicate BoundTo(item: TrustedData, policy: Policy) {
    && "contextAddress" in item.context && item.context["contextAddress"].Text?
    && ToLower(item.context["contextAddress"].text) == ToLower(policy.walletAddress)
    && "contextMessage" in item.context
    && item.context["contextMessage"] == Field.Text(ExpectedMessage(policy))
    && "reclaimSessionId" in item.context
    && item.context["reclaimSessionId"] == Field.Text(policy.expectedSessionId)
  }

  lemma AcceptedContext(item: TrustedData, policy: Policy)
    requires ItemVerdict(item, policy).Ok?
    ensures BoundTo(item, policy)
  {
  }

  /** In an accepted pair, proof `x` states the XP and the other one owns the account. */
  ghost predicate RolesAt(data: seq<TrustedData>, timestamps: seq<Option<int>>, e: Evidence, x: nat)
    requires |data| == 2 && |timestamps| == 2 && x < 2
  {
    && HasField(data[x], "xp") && !HasField(data[1 - x], "xp")
    && HasField(data[1 - x], "marker") && !HasField(data[x], "marker")
    && data[1 - x].parameters["marker"].text == "disable_social"
    && AllDigits(data[x].parameters["xp"].text)
    && e.totalXp == ParseNat(data[x].parameters["xp"].text)
    && timestamps[x] == Some(e.observedAt)
  }

  /** A field found in exactly one of two proofs: which one, and its value. */
  lemma SoleField(a: TrustedData, b: TrustedData, key: string)
    requires ProofIndexWithField([a, b], key).Ok?
    ensures var i := ProofIndexWithField([a, b], key).value;
            && i == (if HasField(a, key) then 0 else 1)
            && HasField([a, b][i], key) && !HasField([a, b][1 - i], key)
            && OneField([a, b], key) == Ok([a, b][i].parameters[key].text)
  {
    TwoProofFields(a, b, key);
  }

  lemma AcceptedRoles(hashes: ProofHashes, a: TrustedData, b: TrustedData, timestamps: seq<Option<int>>,
                      policy: Policy)
    requires SafeTimestamps(timestamps) && PolicyWellFormed(hashes, policy)
    requires EvidenceFrom(hashes, [a, b], timestamps, policy).Ok?
    ensures RolesAt([a, b], timestamps, EvidenceFrom(hashes, [a, b], timestamps, policy).value,
                    if HasField(a, "xp") then 0 else 1)
  {
    SoleField(a, b, "marker");
    SoleField(a, b, "xp");
  }

  /** What an accepted proof set guarantees: both proofs carry the expected binding, one of them owns the
      account, the other states the XP, and the evidence is that proof's own XP and timestamp. */
  lemma AcceptedEvidence(hashes: ProofHashes, data: seq<TrustedData>, timestamps: seq<Option<int>>,
                         providerId: string, policy: Policy)
    requires EvidenceOf(hashes, data, timestamps, providerId, policy).Ok?
    ensures |data| == 2 && |timestamps| == 2
    ensures forall i :: 0 <= i < 2 ==> BoundTo(data[i], policy)
    ensures var e := EvidenceOf(hashes, data, timestamps, providerId, policy).value;
            && e.profileId == policy.expectedProfileId
            && 0 <= e.totalXp <= MAX_XP
            && e.sessionId == policy.expectedSessionId && e.phase == policy.phase
            && AllDigits(e.profileId) && e.identityHash == hashes.identity(ParseNat(e.profileId))
            && exists x: nat :: x < 2 && RolesAt(data, timestamps, e, x)
  {
    var a, b := data[0], data[1];
    assert data == [a, b];
    TwoProofHashes(a, b, policy);
    AcceptedContext(a, policy);
    AcceptedContext(b, policy);
    AcceptedRoles(hashes, a, b, timestamps, policy);
  }

  /** A time is the timestamp of the one proof of two that states the XP. */
  ghost predicate TimeSigned(data: seq<TrustedData>, timestamps: seq<Option<int>>, time: int) {
    && |data| == 2 && |timestamps| == 2
    && HasField(data[0], "xp") != HasField(data[1], "xp")
    && timestamps[if HasField(data[0], "xp") then 0 else 1] == Some(time)
  }

  lemma AcceptedTime(hashes: ProofHashes, data: seq<TrustedData>, timestamps: seq<Option<int>>,
                     providerId: string, policy: Policy)
    requires EvidenceOf(hashes, data, timestamps, providerId, policy).Ok?
    ensures TimeSigned(data, timestamps, EvidenceOf(hashes, data, timestamps, providerId, policy).value.observedAt)
  {
    var a, b := data[0], data[1];
    assert data == [a, b];
    AcceptedRoles(hashes, a, b, timestamps, policy);
  }

  /** The account and the XP total are read off the proofs themselves. */
  ghost predicate FieldsState(data: seq<TrustedData>, profileId: string, totalXp: int) {
    && OneField(data, "id") == Ok(profileId)
    && OneField(data, "xp").Ok? && AllDigits(OneField(data, "xp").value)
    && totalXp == ParseNat(OneField(data, "xp").value)
  }

  lemma AcceptedFields(hashes: ProofHashes, data: seq<TrustedData>, timestamps: seq<Option<int>>,
                       providerId: string, policy: Policy)
    requires EvidenceOf(hashes, data, timestamps, providerId, policy).Ok?
    ensures var e := EvidenceOf(hashes, data, timestamps, providerId, policy).value;
            FieldsState(data, e.profileId, e.totalXp)
  {
    assert |data| == 2 && SafeTimestamps(timestamps) && PolicyWellFormed(hashes, policy);
    assert EvidenceOf(hashes, data, timestamps, providerId, policy) == EvidenceFrom(hashes, data, timestamps, policy);
    FieldsOfEvidence(hashes, data, timestamps, policy);
  }

  lemma FieldsOfEvidence(hashes: ProofHashes, data: seq<TrustedData>, timestamps: seq<Option<int>>, policy: Policy)
    requires |data| == 2 && SafeTimestamps(timestamps) && PolicyWellFormed(hashes, policy)
    requires EvidenceFrom(hashes, data, timestamps, policy).Ok?
    ensures var e := EvidenceFrom(hashes, data, timestamps, policy).value;
            FieldsState(data, e.profileId, e.totalXp)
  {
  }

  /** The lower-cased provider hash of a proof, if it states one. */
  function RequestOf(item: TrustedData): Option<string> {
    if "providerHash" in item.context && item.context["providerHash"].Text? && item.context["providerHash"].text != ""
    then Some(ToLower(item.context["providerHash"].text)) else None
  }

  /** One proof owns the account and the other states its XP; whichever names the account names the expected one. */
  ghost predicate OwnsAndStates(owner: TrustedData, stating: TrustedData, policy: Policy) {
    && HasField(owner, "marker") && !HasField(stating, "marker") && owner.parameters["marker"].text == "disable_social"
    && HasField(stating, "xp") && !HasField(owner, "xp")
    && XpShape(stating.parameters["xp"].text) && ParseNat(stating.parameters["xp"].text) <= 2_000_000_000
    && (HasField(owner, "id") || HasField(stating, "id"))
    && (HasField(owner, "id") ==> owner.parameters["id"].text == policy.expectedProfileId)
    && (HasField(stating, "id") ==> stating.parameters["id"].text == policy.expectedProfileId)
  }

  /** What a proof set must be like, without saying how it is checked. */
  ghost predicate Acceptable(hashes: ProofHashes, data: seq<TrustedData>, timestamps: seq<Option<int>>,
                             providerId: string, policy: Policy)
  {
    && providerId == "cdf8cb3b-2976-4413-ab2d-693ae5028380"
    && |timestamps| == 2
    && (forall i :: 0 <= i < 2 ==>
          timestamps[i].Some? && -9007199254740991 <= timestamps[i].value <= 9007199254740991)
    && hashes.isAddress(policy.walletAddress) && policy.pactId != "" && AllDigits(policy.pactId)
    && PositiveNumeral(policy.expectedProfileId) && ParseNat(policy.expectedProfileId) < 0x1_0000_0000_0000_0000
    && |policy.expectedProfileId| <= 20
    && ExpectedMessage(policy) != "" && policy.expectedSessionId != ""
    && |data| == 2
    && (forall i :: 0 <= i < 2 ==> BoundTo(data[i], policy) && data[i].context["contextAddress"].text != "")
    && {RequestOf(data[0]), RequestOf(data[1])} == {Some(OWNERSHIP_REQUEST_HASH), Some(XP_REQUEST_HASH)}
    && (OwnsAndStates(data[0], data[1], policy) || OwnsAndStates(data[1], data[0], policy))
  }

  lemma VerdictIsBound(item: TrustedData, policy: Policy)
    ensures ItemVerdict(item, policy).Ok? <==>
              && BoundTo(item, policy) && item.context["contextAddress"].text != ""
              && ExpectedMessage(policy) != "" && policy.expectedSessionId != "" && RequestOf(item).Some?
    ensures ItemVerdict(item, policy).Ok? ==> RequestOf(item) == Some(ItemVerdict(item, policy).value)
  {
  }

  lemma SameRequests(a: string, b: string)
    ensures |{a, b}| == 2 && OWNERSHIP_REQUEST_HASH in {a, b} && XP_REQUEST_HASH in {a, b}
            <==> {Some(a), Some(b)} == {Some(OWNERSHIP_REQUEST_HASH), Some(XP_REQUEST_HASH)}
  {
    assert OWNERSHIP_REQUEST_HASH[65] != XP_REQUEST_HASH[65];
    assert Some(a) in {Some(a), Some(b)} && Some(b) in {Some(a), Some(b)};
    assert Some(OWNERSHIP_REQUEST_HASH) in {Some(OWNERSHIP_REQUEST_HASH), Some(XP_REQUEST_HASH)};
  }

  /** A field that must be in one of two proofs only, and one that may be in either or both. */
  lemma SoleIndex(a: TrustedData, b: TrustedData, key: string)
    ensures ProofIndexWithField([a, b], key).Ok? <==> HasField(a, key) != HasField(b, key)
    ensures HasField(a, key) != HasField(b, key) ==>
              && ProofIndexWithField([a, b], key).value == (if HasField(a, key) then 0 else 1)
              && OneField([a, b], key)
                 == Ok(if HasField(a, key) then a.parameters[key].text else b.parameters[key].text)
  {
    TwoProofFields(a, b, key);
  }

  lemma FieldIs(a: TrustedData, b: TrustedData, key: string, value: string)
    ensures OneField([a, b], key) == Ok(value) <==>
              && (HasField(a, key) || HasField(b, key))
              && (HasField(a, key) ==> a.parameters[key].text == value)
              && (HasField(b, key) ==> b.parameters[key].text == value)
  {
    TwoProofFields(a, b, key);
    var values := FieldValues([a, b], key);
    if HasField(a, key) && HasField(b, key) {
      assert values == [a.parameters[key].text, b.parameters[key].text];
      if values[0] != values[1] { assert OneField([a, b], key) == Err(ConflictingField); }
    }
  }

  /** The verdict on roles and fields in terms of the four readings it rests on. */
  lemma ReadingsDecide(hashes: ProofHashes, data: seq<TrustedData>, timestamps: seq<Option<int>>, policy: Policy)
    requires |data| == 2 && SafeTimestamps(timestamps) && PolicyWellFormed(hashes, policy)
    ensures EvidenceFrom(hashes, data, timestamps, policy).Ok? <==>
              && ProofIndexWithField(data, "marker").Ok? && ProofIndexWithField(data, "xp").Ok?
              && ProofIndexWithField(data, "marker") != ProofIndexWithField(data, "xp")
              && OneField(data, "marker") == Ok("disable_social")
              && OneField(data, "id") == Ok(policy.expectedProfileId)
              && ParseNat(policy.expectedProfileId) <= MAX_UINT64
              && OneField(data, "xp").Ok? && XpShape(OneField(data, "xp").value)
              && ParseNat(OneField(data, "xp").value) <= MAX_XP
  {
  }

  lemma RolesDecide(hashes: ProofHashes, a: TrustedData, b: TrustedData, timestamps: seq<Option<int>>, policy: Policy)
    requires SafeTimestamps(timestamps) && PolicyWellFormed(hashes, policy)
    ensures EvidenceFrom(hashes, [a, b], timestamps, policy).Ok? <==>
              && ParseNat(policy.expectedProfileId) <= MAX_UINT64
              && (OwnsAndStates(a, b, policy) || OwnsAndStates(b, a, policy))
  {
    ReadingsDecide(hashes, [a, b], timestamps, policy);
    SoleIndex(a, b, "marker");
    SoleIndex(a, b, "xp");
    FieldIs(a, b, "id", policy.expectedProfileId);
  }

  /** The policy accepts a proof set exactly when it is acceptable. */
  lemma AcceptedExactly(hashes: ProofHashes, data: seq<TrustedData>, timestamps: seq<Option<int>>,
                        providerId: string, policy: Policy)
    ensures EvidenceOf(hashes, data, timestamps, providerId, policy).Ok?
            <==> Acceptable(hashes, data, timestamps, providerId, policy)
  {
    if providerId == PROVIDER_ID && |data| == 2 && SafeTimestamps(timestamps) && PolicyWellFormed(hashes, policy) {
      assert data == [data[0], data[1]];
      PairAcceptedExactly(hashes, data[0], data[1], timestamps, policy);
    }
  }

  /** The pair names wallet, message and session twice, and comes from both pinned requests. */
  ghost predicate PairBound(a: TrustedData, b: TrustedData, policy: Policy) {
    && ExpectedMessage(policy) != "" && policy.expectedSessionId != ""
    && BoundTo(a, policy) && a.context["contextAddress"].text != ""
    && BoundTo(b, policy) && b.context["contextAddress"].text != ""
    && {RequestOf(a), RequestOf(b)} == {Some(OWNERSHIP_REQUEST_HASH), Some(XP_REQUEST_HASH)}
  }

  lemma PairAcceptedExactly(hashes: ProofHashes, a: TrustedData, b: TrustedData, timestamps: seq<Option<int>>,
                            policy: Policy)
    requires SafeTimestamps(timestamps) && PolicyWellFormed(hashes, policy)
    ensures EvidenceOf(hashes, [a, b], timestamps, PROVIDER_ID, policy).Ok? <==>
              && PairBound(a, b, policy) && ParseNat(policy.expectedProfileId) <= MAX_UINT64
              && (OwnsAndStates(a, b, policy) || OwnsAndStates(b, a, policy))
  {
    TwoProofHashes(a, b, policy);
    VerdictIsBound(a, policy);
    VerdictIsBound(b, policy);
    RolesDecide(hashes, a, b, timestamps, policy);
    if ItemVerdict(a, policy).Ok? && ItemVerdict(b, policy).Ok? {
      SameRequests(ItemVerdict(a, policy).value, ItemVerdict(b, policy).value);
    }
    assert PairBound(a, b, policy) ==> RequestOf(a) in {Some(OWNERSHIP_REQUEST_HASH), Some(XP_REQUEST_HASH)}
                                       && RequestOf(b) in {Some(OWNERSHIP_REQUEST_HASH), Some(XP_REQUEST_HASH)};
  }

  /** A named part of the signed context is there, and says something. */
  predicate Stated(item: TrustedData, key: string) {
    key in item.context && item.context[key].Text? && item.context[key].text != ""
  }

  /** What a refusal says of one proof's context. */
  ghost predicate ContextReason(item: TrustedData, policy: Policy, e: PolicyError) {
    match e
    case InvalidContext =>
      || !Stated(item, "contextAddress") || !Stated(item, "contextMessage")
      || !Stated(item, "reclaimSessionId") || !Stated(item, "providerHash")
    case WrongWallet =>
      Stated(item, "contextAddress") && ToLower(item.context["contextAddress"].text) != ToLower(policy.walletAddress)
    case WrongPactPhase =>
      Stated(item, "contextMessage") && item.context["contextMessage"].text != ExpectedMessage(policy)
    case WrongSession =>
      Stated(item, "reclaimSessionId") && item.context["reclaimSessionId"].text != policy.expectedSessionId
    case _ => false
  }

  /** What a refusal says of the fields of two proofs. */
  ghost predicate FieldReason(a: TrustedData, b: TrustedData, policy: Policy, e: PolicyError) {
    match e
    case InvalidProofRole =>
      || HasField(a, "marker") == HasField(b, "marker") || HasField(a, "xp") == HasField(b, "xp")
      || HasField(a, "marker") == HasField(a, "xp")
    case AccountNotOwned =>
      exists item :: item in [a, b] &&
        ((HasField(item, "marker") && item.parameters["marker"].text != "disable_social")
         || (HasField(item, "id") && item.parameters["id"].text != policy.expectedProfileId))
    case MissingField => !HasField(a, "id") && !HasField(b, "id")
    case ConflictingField =>
      HasField(a, "id") && HasField(b, "id") && a.parameters["id"].text != b.parameters["id"].text
    case InvalidProfile => AllDigits(policy.expectedProfileId) && ParseNat(policy.expectedProfileId) > MAX_UINT64
    case InvalidXp =>
      exists item :: item in [a, b] && HasField(item, "xp")
                     && (XpShape(item.parameters["xp"].text) ==> ParseNat(item.parameters["xp"].text) > MAX_XP)
    case _ => false
  }

  lemma ContextRefusalIsTrue(item: TrustedData, policy: Policy)
    ensures ItemVerdict(item, policy).Err? ==> ContextReason(item, policy, ItemVerdict(item, policy).error)
  {
  }

  /** What reading a field off two proofs says of them. */
  lemma FieldReading(a: TrustedData, b: TrustedData, key: string)
    ensures OneField([a, b], key) == Err(MissingField) ==> !HasField(a, key) && !HasField(b, key)
    ensures OneField([a, b], key) == Err(ConflictingField) ==>
              HasField(a, key) && HasField(b, key) && a.parameters[key].text != b.parameters[key].text
    ensures OneField([a, b], key).Ok? ==>
              || (HasField(a, key) && a.parameters[key].text == OneField([a, b], key).value)
              || (HasField(b, key) && b.parameters[key].text == OneField([a, b], key).value)
  {
    TwoProofFields(a, b, key);
  }

  /** A refusal in terms of the readings it rests on. */
  lemma RefusedReadings(hashes: ProofHashes, data: seq<TrustedData>, timestamps: seq<Option<int>>, policy: Policy)
    requires |data| == 2 && SafeTimestamps(timestamps) && PolicyWellFormed(hashes, policy)
    requires EvidenceFrom(hashes, data, timestamps, policy).Err?
    ensures var (m, i, x) := (OneField(data, "marker"), OneField(data, "id"), OneField(data, "xp"));
            var roles := && ProofIndexWithField(data, "marker").Ok? && ProofIndexWithField(data, "xp").Ok?
                         && ProofIndexWithField(data, "marker") != ProofIndexWithField(data, "xp");
            var e := EvidenceFrom(hashes, data, timestamps, policy).error;
            if !roles then e == InvalidProofRole
            else match e
                 case AccountNotOwned =>
                   (m.Ok? && m.value != "disable_social") || (i.Ok? && i.value != policy.expectedProfileId)
                 case InvalidProfile => ParseNat(policy.expectedProfileId) > MAX_UINT64
                 case InvalidXp => x.Ok? && (XpShape(x.value) ==> ParseNat(x.value) > MAX_XP)
                 case _ => e == MissingField || e == ConflictingField
    ensures EvidenceFrom(hashes, data, timestamps, policy).error in {MissingField, ConflictingField} ==>
              EvidenceFrom(hashes, data, timestamps, policy).error == FieldError(data)
  {
  }

  /** The first field that cannot be read. */
  function FieldError(data: seq<TrustedData>): PolicyError {
    if OneField(data, "marker").Err? then OneField(data, "marker").error
    else if OneField(data, "id").Err? then OneField(data, "id").error
    else if OneField(data, "xp").Err? then OneField(data, "xp").error
    else InvalidProofRole
  }

  lemma FieldRefusalIsTrue(hashes: ProofHashes, a: TrustedData, b: TrustedData, timestamps: seq<Option<int>>,
                           policy: Policy)
    requires SafeTimestamps(timestamps) && PolicyWellFormed(hashes, policy)
    requires EvidenceFrom(hashes, [a, b], timestamps, policy).Err?
    ensures FieldReason(a, b, policy, EvidenceFrom(hashes, [a, b], timestamps, policy).error)
  {
    RefusedReadings(hashes, [a, b], timestamps, policy);
    SoleIndex(a, b, "marker");
    SoleIndex(a, b, "xp");
    FieldReading(a, b, "marker");
    FieldReading(a, b, "xp");
    FieldReading(a, b, "id");
    assert a in [a, b] && b in [a, b];
  }

  /** Whatever reason a refusal gives is true of what was submitted. */
  lemma RefusalIsTrue(hashes: ProofHashes, data: seq<TrustedData>, timestamps: seq<Option<int>>, providerId: string,
                      policy: Policy)
    requires EvidenceOf(hashes, data, timestamps, providerId, policy).Err?
    ensures match EvidenceOf(hashes, data, timestamps, providerId, policy).error
            case WrongProvider => providerId != PROVIDER_ID
            case WrongProofCount => |data| != 2
            case InvalidProofTime => !SafeTimestamps(timestamps)
            case InvalidPolicy => !PolicyWellFormed(hashes, policy)
            case WrongRequestSchema =>
              |data| == 2 && {RequestOf(data[0]), RequestOf(data[1])}
                             != {Some(OWNERSHIP_REQUEST_HASH), Some(XP_REQUEST_HASH)}
            case e =>
              |data| == 2 && (ContextReason(data[0], policy, e) || ContextReason(data[1], policy, e)
                              || FieldReason(data[0], data[1], policy, e))
  {
    if providerId == PROVIDER_ID && |data| == 2 && SafeTimestamps(timestamps) && PolicyWellFormed(hashes, policy) {
      var a, b := data[0], data[1];
      assert data == [a, b];
      ContextRefusalIsTrue(a, policy);
      ContextRefusalIsTrue(b, policy);
      TwoProofHashes(a, b, policy);
      TwoProofRefusal(a, b, policy);
      VerdictIsBound(a, policy);
      VerdictIsBound(b, policy);
      if ItemVerdict(a, policy).Ok? && ItemVerdict(b, policy).Ok? {
        SameRequests(ItemVerdict(a, policy).value, ItemVerdict(b, policy).value);
        if EvidenceFrom(hashes, [a, b], timestamps, policy).Err? {
          FieldRefusalIsTrue(hashes, a, b, timestamps, policy);
        }
      }
    }
  }

  /** The first refusal of a context is the answer. */
  lemma TwoProofRefusal(a: TrustedData, b: TrustedData, policy: Policy)
    ensures ItemVerdict(a, policy).Err? ==> ProviderHashes([a, b], policy) == Err(ItemVerdict(a, policy).error)
    ensures ItemVerdict(a, policy).Ok? && ItemVerdict(b, policy).Err? ==>
              ProviderHashes([a, b], policy) == Err(ItemVerdict(b, policy).error)
  {
    assert [a, b][..1] == [a] && [a][..0] == [];
    assert ProviderHashes([], policy) == Ok({});
    assert ItemVerdict(a, policy).Err? ==> ProviderHashes([a], policy) == Err(ItemVerdict(a, policy).error);
    assert ItemVerdict(a, policy).Ok? ==> ProviderHashes([a], policy).Ok?;
  }

  /** Evidence accepted for one expected message, session or wallet is refused for every other. */
  lemma EvidenceBindsOnePolicy(hashes: ProofHashes, data: seq<TrustedData>, timestamps: seq<Option<int>>,
                               providerId: string, p: Policy, q: Policy)
    requires EvidenceOf(hashes, data, timestamps, providerId, p).Ok?
    requires ExpectedMessage(p) != ExpectedMessage(q)
             || p.expectedSessionId != q.expectedSessionId
             || ToLower(p.walletAddress) != ToLower(q.walletAddress)
             || p.expectedProfileId != q.expectedProfileId
    ensures EvidenceOf(hashes, data, timestamps, providerId, q).Err?
  {
    AcceptedEvidence(hashes, data, timestamps, providerId, p);
    assert BoundTo(data[0], p);
    if EvidenceOf(hashes, data, timestamps, providerId, q).Ok? {
      AcceptedEvidence(hashes, data, timestamps, providerId, q);
      assert BoundTo(data[0], q);
      AcceptedFields(hashes, data, timestamps, providerId, p);
      AcceptedFields(hashes, data, timestamps, providerId, q);
    }
  }

  // --- the delta ---------------------------------------------------------------------------------------

  datatype Delta = Delta(identityHash: string, baselineXp: int, finalXp: int, earnedXp: int)

  /** Did this athlete earn the target between the two proofs? */
  function ValidateDelta(baseline: Evidence, final: Evidence, targetXp: int,
                         maxFinalAgeSeconds: Option<int>, now: int): (r: Result<Delta, PolicyError>)
    ensures r.Ok? ==>
              && baseline.identityHash == final.identityHash == r.value.identityHash
              && baseline.observedAt < final.observedAt
              && r.value.baselineXp == baseline.totalXp
              && r.value.baselineXp + r.value.earnedXp == final.totalXp == r.value.finalXp
              && 0 < targetXp <= r.value.earnedXp
  {
    if baseline.phase != Baseline || final.phase != Final then Err(WrongPhaseOrder)
    else if baseline.identityHash != final.identityHash then Err(IdentityChanged)
    else if baseline.eventNullifier == final.eventNullifier then Err(ReplayedProof)
    else if !(final.observedAt > baseline.observedAt) then Err(FinalNotAfterBaseline)
    else if !(-MAX_SAFE_INTEGER <= targetXp <= MAX_SAFE_INTEGER) || targetXp <= 0 then Err(InvalidTarget)
    else if final.totalXp < baseline.totalXp then Err(XpWentBackwards)
    else if maxFinalAgeSeconds.Some? && final.observedAt > now + 60 then Err(FinalInFuture)
    else if maxFinalAgeSeconds.Some? && now - final.observedAt > maxFinalAgeSeconds.value then Err(FinalTooOld)
    else
      var earnedXp := final.totalXp - baseline.totalXp;
      if earnedXp < targetXp then Err(TargetNotMet)
      else Ok(Delta(baseline.identityHash, baseline.totalXp, final.totalXp, earnedXp))
  }

  /** A delta is accepted exactly for one identity, a strictly later final with a nullifier of its own, a positive
      target, and at least that much more XP; with an age limit, also for a final neither too old nor in the future. */
  lemma DeltaAcceptedExactly(baseline: Evidence, final: Evidence, targetXp: int, maxFinalAgeSeconds: Option<int>,
                             now: int)
    ensures ValidateDelta(baseline, final, targetXp, maxFinalAgeSeconds, now).Ok? <==>
              && baseline.phase == Baseline && final.phase == Final
              && baseline.identityHash == final.identityHash && baseline.eventNullifier != final.eventNullifier
              && baseline.observedAt < final.observedAt
              && 0 < targetXp <= MAX_SAFE_INTEGER && baseline.totalXp + targetXp <= final.totalXp
              && (maxFinalAgeSeconds.Some? ==> now - maxFinalAgeSeconds.value <= final.observedAt <= now + 60)
  {
  }

  /** So is the reason a delta is refused for. */
  lemma DeltaRefusalIsTrue(baseline: Evidence, final: Evidence, targetXp: int, maxFinalAgeSeconds: Option<int>,
                           now: int)
    requires ValidateDelta(baseline, final, targetXp, maxFinalAgeSeconds, now).Err?
    ensures match ValidateDelta(baseline, final, targetXp, maxFinalAgeSeconds, now).error
            case WrongPhaseOrder => baseline.phase != Baseline || final.phase != Final
            case IdentityChanged => baseline.identityHash != final.identityHash
            case ReplayedProof => baseline.eventNullifier == final.eventNullifier
            case FinalNotAfterBaseline => final.observedAt <= baseline.observedAt
            case InvalidTarget => targetXp <= 0 || targetXp > 9007199254740991
            case XpWentBackwards => final.totalXp < baseline.totalXp
            case FinalInFuture => maxFinalAgeSeconds.Some? && final.observedAt > now + 60
            case FinalTooOld => maxFinalAgeSeconds.Some? && final.observedAt < now - maxFinalAgeSeconds.value
            case TargetNotMet => 0 <= final.totalXp - baseline.totalXp < targetXp
            case _ => false
  {
  }

  ghost predicate Injective(hashes: ProofHashes) {
    && (forall m, n :: hashes.identity(m) == hashes.identity(n) ==> m == n)
    && (forall i, m, p, j, n, q :: hashes.nullifier(i, m, p) == hashes.nullifier(j, n, q) ==>
          i == j && m == n && p == q)
  }

  /** The nullifier of accepted evidence names the account, the Lock and the phase, and never the XP, the time,
      the session or the wallet. */
  lemma NullifierNamesPhase(hashes: ProofHashes, data: seq<TrustedData>, timestamps: seq<Option<int>>, p: Policy,
                            data': seq<TrustedData>, timestamps': seq<Option<int>>, q: Policy)
    requires Injective(hashes)
    requires EvidenceOf(hashes, data, timestamps, PROVIDER_ID, p).Ok?
    requires EvidenceOf(hashes, data', timestamps', PROVIDER_ID, q).Ok?
    ensures AllDigits(p.pactId) && AllDigits(q.pactId)
    ensures AllDigits(p.expectedProfileId) && AllDigits(q.expectedProfileId)
    ensures EvidenceOf(hashes, data, timestamps, PROVIDER_ID, p).value.eventNullifier
            == EvidenceOf(hashes, data', timestamps', PROVIDER_ID, q).value.eventNullifier
            <==>
              && ParseNat(p.expectedProfileId) == ParseNat(q.expectedProfileId)
              && ParseNat(p.pactId) == ParseNat(q.pactId) && p.phase == q.phase
  {
    NullifierOf(hashes, data, timestamps, p);
    NullifierOf(hashes, data', timestamps', q);
  }

  lemma NullifierOf(hashes: ProofHashes, data: seq<TrustedData>, timestamps: seq<Option<int>>, p: Policy)
    requires EvidenceOf(hashes, data, timestamps, PROVIDER_ID, p).Ok?
    ensures AllDigits(p.pactId) && AllDigits(p.expectedProfileId)
    ensures EvidenceOf(hashes, data, timestamps, PROVIDER_ID, p).value.eventNullifier
            == hashes.nullifier(hashes.identity(ParseNat(p.expectedProfileId)), ParseNat(p.pactId), p.phase)
  {
    AcceptedEvidence(hashes, data, timestamps, PROVIDER_ID, p);
  }
}
