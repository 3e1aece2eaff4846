/** The signed state of the Strava authorisation, and burning it (src/strava-oauth.ts, src/strava-token-store.ts,
    app/api/strava/callback/route.ts). */
module OAuthState {
  import opened Prelude

  const STATE_TTL_MS := 600000
  const MAX_SAFE_INTEGER := 9007199254740991

  /** A payload as parsed: any field may be missing or of the wrong type. */
  datatype Payload = Payload(wallet: Option<string>, nonce: Option<string>, exp: Option<int>)

  /** The codec, the keyed hash under the server's secret, the nonce hash, and what an address is. */
  datatype Env = Env(
    encode: Payload -> string,
    decode: string -> Option<Payload>,
    mac: string -> string,
    hash: string -> string,
    isAddress: string -> bool,
    checksum: string -> string)

  datatype Verified = Verified(wallet: string, nonceHash: string, expiresAt: int)

  datatype Refusal = InvalidAddress | Malformed | SignatureMismatch | MalformedPayload | NoWallet | NoNonce | Expired

  predicate NoDot(s: string) {
    forall i :: 0 <= i < |s| ==> s[i] != '.'
  }

  /** Texts in base64url are not empty and have no dot; an address stays one when it is checksummed. */
  ghost predicate Sound(env: Env) {
    && (forall p :: env.decode(env.encode(p)) == Some(p) && env.encode(p) != "" && NoDot(env.encode(p)))
    && (forall s :: env.mac(s) != "" && NoDot(env.mac(s)))
    && (forall w :: env.isAddress(w) ==> w != "" && env.isAddress(env.checksum(w)))
    && (forall w :: env.isAddress(w) ==> env.checksum(env.checksum(w)) == env.checksum(w))
  }

  // --- issuing and verifying ---------------------------------------------------------------------------

  /** `issueStravaState`, with the random nonce and the time as parameters. */
  function IssueState(env: Env, wallet: string, nonce: string, now: int): Result<string, Refusal> {
    if !env.isAddress(wallet) then Err(InvalidAddress)
    else
      var encoded := env.encode(Payload(Some(env.checksum(wallet)), Some(nonce), Some(now + STATE_TTL_MS)));
      Ok(encoded + "." + env.mac(encoded))
  }

  function FirstDot(s: string): (i: nat)
    ensures i <= |s| && NoDot(s[..i]) && (i < |s| ==> s[i] == '.')
  {
    if s == "" || s[0] == '.' then 0
    else
      var i := 1 + FirstDot(s[1..]);
      assert s[..i] == [s[0]] + s[1..][..i - 1];
      i
  }

  /** The first two pieces of `state.split(".")`; a missing second piece is empty. */
  function Pieces(state: string): (string, string) {
    var i := FirstDot(state);
    if i == |state| then (state, "")
    else
      var rest := state[i + 1..];
      (state[..i], rest[..FirstDot(rest)])
  }

  /** `verifyStravaState`. */
  function VerifyState(env: Env, state: string, now: int): Result<Verified, Refusal> {
    var (encoded, signature) := Pieces(state);
    if encoded == "" || signature == "" then Err(Malformed)
    else if signature != env.mac(encoded) then Err(SignatureMismatch)
    else
      var payload := env.decode(encoded);
      if payload.None? then Err(MalformedPayload)
      else
        var p := payload.value;
        if p.wallet.None? || p.wallet.value == "" || !env.isAddress(p.wallet.value) then Err(NoWallet)
        else if p.nonce.None? || p.nonce.value == "" then Err(NoNonce)
        else if p.exp.None? || !(-MAX_SAFE_INTEGER <= p.exp.value <= MAX_SAFE_INTEGER) || p.exp.value < now then
          Err(Expired)
        else Ok(Verified(env.checksum(p.wallet.value), env.hash(p.nonce.value), p.exp.value))
  }

  lemma {:induction false} FirstDotIs(a: string, b: string)
    requires NoDot(a)
    ensures FirstDot(a + "." + b) == |a|
    ensures FirstDot(a) == |a|
  {
    if a == "" {
    } else {
      assert (a + "." + b)[1..] == a[1..] + "." + b;
      assert NoDot(a[1..]);
      FirstDotIs(a[1..], b);
    }
  }

  /** A state splits into what was joined; whatever follows a further dot is ignored. */
  lemma PiecesOfJoined(encoded: string, signature: string, more: string)
    requires NoDot(encoded) && NoDot(signature)
    ensures Pieces(encoded + "." + signature) == (encoded, signature)
    ensures Pieces(encoded + "." + signature + "." + more) == (encoded, signature)
  {
    var state := encoded + "." + signature;
    FirstDotIs(encoded, signature);
    assert state[..|encoded|] == encoded && state[|encoded| + 1..] == signature;
    assert signature[..|signature|] == signature && (signature + "." + more)[..|signature|] == signature;
    FirstDotIs(signature, more);
    var longer := state + "." + more;
    assert longer == encoded + "." + (signature + "." + more);
    FirstDotIs(encoded, signature + "." + more);
    assert longer[..|encoded|] == encoded && longer[|encoded| + 1..] == signature + "." + more;
  }

  /** An issued state verifies until the end of its ten minutes, that millisecond included, and names its wallet and
      nonce; from then on it has expired. Text after a further dot changes nothing, so such copies burn together. */
  lemma IssuedVerifies(env: Env, wallet: string, nonce: string, issued: int, now: int, more: string)
    requires Sound(env) && env.isAddress(wallet) && nonce != ""
    requires -9007199254740991 <= issued + 600000 <= 9007199254740991
    ensures var state := IssueState(env, wallet, nonce, issued).value;
            VerifyState(env, state, now)
            == (if now <= issued + 600000 then
                  Ok(Verified(env.checksum(wallet), env.hash(nonce), issued + 600000))
                else Err(Expired))
            && VerifyState(env, state + "." + more, now) == VerifyState(env, state, now)
  {
    var payload := Payload(Some(env.checksum(wallet)), Some(nonce), Some(issued + STATE_TTL_MS));
    var encoded := env.encode(payload);
    assert env.decode(encoded) == Some(payload);
    PiecesOfJoined(encoded, env.mac(encoded), more);
  }

  /** Another payload under the signature of an issued state is refused, if the keyed hash has no collisions. */
  lemma AlteredIsRefused(env: Env, encoded: string, other: string, now: int)
    requires forall a, b :: env.mac(a) == env.mac(b) ==> a == b
    requires Sound(env) && NoDot(other) && other != encoded
    ensures other == "" ==> VerifyState(env, other + "." + env.mac(encoded), now) == Err(Malformed)
    ensures other != "" ==> VerifyState(env, other + "." + env.mac(encoded), now) == Err(SignatureMismatch)
  {
    assert env.mac(encoded) != "" && NoDot(env.mac(encoded));
    PiecesOfJoined(other, env.mac(encoded), "");
  }

  /** A payload under its own signature is accepted exactly if it names an address, a nonce and a time not yet past,
      and the first of these that is missing is the reason it is refused for. */
  lemma SignedPayloadDecides(env: Env, encoded: string, now: int)
    requires Sound(env) && encoded != "" && NoDot(encoded)
    ensures VerifyState(env, encoded + "." + env.mac(encoded), now)
            == match env.decode(encoded)
               case None => Err(MalformedPayload)
               case Some(Payload(wallet, nonce, exp)) =>
                 if wallet.None? || !env.isAddress(wallet.value) then Err(NoWallet)
                 else if nonce.None? || nonce == Some("") then Err(NoNonce)
                 else if exp.None? || exp.value < now || exp.value < -9007199254740991 || exp.value > 9007199254740991
                 then Err(Expired)
                 else Ok(Verified(env.checksum(wallet.value), env.hash(nonce.value), exp.value))
  {
    assert env.mac(encoded) != "" && NoDot(env.mac(encoded));
    PiecesOfJoined(encoded, env.mac(encoded), "");
  }

  // --- the table of spent nonces -----------------------------------------------------------------------

  /** `DELETE ... WHERE expires_at < now()`. */
  function Cleared(rows: map<string, int>, now: int): map<string, int> {
    map n | n in rows && rows[n] >= now :: rows[n]
  }

  class StateTable {
    var rows: map<string, int>

    constructor ()
      ensures rows == map[]
    {
      rows := map[];
    }

    method DeleteExpired(now: int)
      modifies this
      ensures rows == Cleared(old(rows), now)
    {
      rows := map n | n in rows && !(rows[n] < now) :: rows[n];
    }

    /** `INSERT ... ON CONFLICT (nonce_hash) DO NOTHING RETURNING nonce_hash`. */
    method Insert(nonceHash: string, expiresAt: int) returns (inserted: bool)
      modifies this
      ensures inserted <==> nonceHash !in old(rows)
      ensures rows == if inserted then old(rows)[nonceHash := expiresAt] else old(rows)
    {
      inserted := nonceHash !in rows;
      if inserted { rows := rows[nonceHash := expiresAt]; }
    }

    /** `consumeStravaState` when nothing comes between its statements: it succeeds exactly if the nonce was never
        spent, or the record that it was has expired. */
    method Consume(nonceHash: string, expiresAt: int, now: int) returns (first: bool)
      modifies this
      ensures first <==> nonceHash !in old(rows) || old(rows)[nonceHash] < now
      ensures rows == if first then Cleared(old(rows), now)[nonceHash := expiresAt] else Cleared(old(rows), now)
      ensures nonceHash in rows
    {
      DeleteExpired(now);
      first := Insert(nonceHash, expiresAt);
    }
  }

  // --- many callbacks at once --------------------------------------------------------------------------

  /** A callback that has verified its state, and then perhaps run its DELETE. */
  datatype Stage = ToClear(state: Verified) | ToBurn(state: Verified)

  /** A callback that may go on to save the connection of this wallet. */
  datatype Grant = Grant(wallet: string, nonceHash: string, expiresAt: int, at: int)

  datatype System = System(rows: map<string, int>, callbacks: map<nat, Stage>, clock: int, grants: seq<Grant>)

  datatype Step = Tick(now: int) | Arrive(id: nat, text: string) | Clear(id: nat) | Burn(id: nat)

  /** One step of the clock or of one callback; a step that cannot be taken changes nothing. */
  function Next(env: Env, s: System, step: Step): System {
    match step
    case Tick(now) => if now >= s.clock then s.(clock := now) else s
    case Arrive(id, text) =>
      var verified := VerifyState(env, text, s.clock);
      if id in s.callbacks || verified.Err? then s else s.(callbacks := s.callbacks[id := ToClear(verified.value)])
    case Clear(id) =>
      if id !in s.callbacks || !s.callbacks[id].ToClear? then s
      else s.(rows := Cleared(s.rows, s.clock), callbacks := s.callbacks[id := ToBurn(s.callbacks[id].state)])
    case Burn(id) =>
      if id !in s.callbacks || !s.callbacks[id].ToBurn? then s
      else
        var v := s.callbacks[id].state;
        var rest := s.(callbacks := s.callbacks - {id});
        if v.nonceHash in s.rows then rest
        else rest.(rows := s.rows[v.nonceHash := v.expiresAt],
                   grants := s.grants + [Grant(v.wallet, v.nonceHash, v.expiresAt, s.clock)])
  }

  function Run(env: Env, s: System, steps: seq<Step>): System {
    if steps == [] then s else Next(env, Run(env, s, steps[..|steps| - 1]), steps[|steps| - 1])
  }

  function Start(clock: int): System {
    System(map[], map[], clock, [])
  }

  /** Nobody forges a state and nonces are fresh: of the texts that arrive, those that verify are issued states, and
      a nonce hash belongs to one of these only. */
  ghost predicate Genuine(env: Env, issued: string -> Verified, step: Step) {
    step.Arrive? ==> forall now :: VerifyState(env, step.text, now).Ok? ==>
      VerifyState(env, step.text, now).value == issued(VerifyState(env, step.text, now).value.nonceHash)
  }

  ghost predicate AllGenuine(env: Env, issued: string -> Verified, steps: seq<Step>) {
    forall k :: 0 <= k < |steps| ==> Genuine(env, issued, steps[k])
  }

  /** What every run keeps: rows and callbacks carry issued states, and a granted nonce is either on record or past
      its expiry. */
  ghost predicate Kept(issued: string -> Verified, s: System) {
    && (forall n :: n in s.rows ==> s.rows[n] == issued(n).expiresAt)
    && (forall id :: id in s.callbacks ==> s.callbacks[id].state == issued(s.callbacks[id].state.nonceHash))
    && (forall i :: 0 <= i < |s.grants| ==> Recorded(issued, s, s.grants[i]))
    && (forall i, j :: 0 <= i < j < |s.grants| && s.grants[i].nonceHash == s.grants[j].nonceHash ==>
          s.grants[j].at > s.grants[i].expiresAt)
  }

  ghost predicate Recorded(issued: string -> Verified, s: System, g: Grant) {
    && Verified(g.wallet, g.nonceHash, g.expiresAt) == issued(g.nonceHash)
    && g.at <= s.clock
    && (g.nonceHash in s.rows || g.expiresAt < s.clock)
  }

  lemma NextKeeps(env: Env, issued: string -> Verified, s: System, step: Step)
    requires Genuine(env, issued, step) && Kept(issued, s)
    ensures Kept(issued, Next(env, s, step))
  {
    var t := Next(env, s, step);
    forall i | 0 <= i < |s.grants| ensures Recorded(issued, t, s.grants[i]) {
      assert Recorded(issued, s, s.grants[i]);
    }
    if step.Burn? && t.grants != s.grants {
      var v := s.callbacks[step.id].state;
      assert t.grants[|s.grants|] == Grant(v.wallet, v.nonceHash, v.expiresAt, s.clock);
      forall i | 0 <= i < |s.grants| && s.grants[i].nonceHash == v.nonceHash ensures s.clock > s.grants[i].expiresAt {
        assert Recorded(issued, s, s.grants[i]);
      }
    }
  }

  lemma {:induction false} RunKeeps(env: Env, issued: string -> Verified, clock: int, steps: seq<Step>)
    requires AllGenuine(env, issued, steps)
    ensures Kept(issued, Run(env, Start(clock), steps))
  {
    if steps == [] {
    } else {
      RunKeeps(env, issued, clock, steps[..|steps| - 1]);
      NextKeeps(env, issued, Run(env, Start(clock), steps[..|steps| - 1]), steps[|steps| - 1]);
    }
  }

  /** However callbacks interleave, of the grants of one state all but the first happen after it expired; so if no
      callback burns it later than that, it is granted once. Every grant is for the wallet the state was issued to. */
  lemma GrantedOnceUntilExpiry(env: Env, issued: string -> Verified, clock: int, steps: seq<Step>, i: nat, j: nat)
    requires AllGenuine(env, issued, steps)
    requires i < j < |Run(env, Start(clock), steps).grants|
    ensures var grants := Run(env, Start(clock), steps).grants;
            && grants[i].wallet == issued(grants[i].nonceHash).wallet
            && (grants[i].nonceHash == grants[j].nonceHash ==>
                  grants[i].expiresAt == grants[j].expiresAt < grants[j].at)
  {
    RunKeeps(env, issued, clock, steps);
    var s := Run(env, Start(clock), steps);
    assert Recorded(issued, s, s.grants[i]) && Recorded(issued, s, s.grants[j]);
  }

  /** A callback with a state that is on record as spent, running both its statements now, is granted exactly if the
      state has expired since it was verified. */
  lemma ReplayGrantedIffExpired(env: Env, issued: string -> Verified, clock: int, steps: seq<Step>, id: nat)
    requires AllGenuine(env, issued, steps)
    requires var s := Run(env, Start(clock), steps);
             id in s.callbacks && s.callbacks[id].ToClear? && s.callbacks[id].state.nonceHash in s.rows
    ensures var s := Run(env, Start(clock), steps);
            var t := Next(env, Next(env, s, Clear(id)), Burn(id));
            |t.grants| > |s.grants| <==> s.callbacks[id].state.expiresAt < s.clock
  {
    RunKeeps(env, issued, clock, steps);
  }

  function ReplayScript(text: string, expiresAt: int): seq<Step> {
    [Arrive(0, text), Arrive(1, text), Clear(0), Burn(0), Tick(expiresAt + 1), Clear(1), Burn(1)]
  }

  lemma RunStep(env: Env, s: System, steps: seq<Step>, k: nat)
    requires k < |steps|
    ensures Run(env, s, steps[..k + 1]) == Next(env, Run(env, s, steps[..k]), steps[k])
  {
    assert steps[..k + 1][..k] == steps[..k];
  }

  /** Both callbacks verify. */
  lemma BothArrive(env: Env, text: string, v: Verified, now: int)
    requires VerifyState(env, text, now) == Ok(v)
    ensures Next(env, Next(env, Start(now), Arrive(0, text)), Arrive(1, text))
            == System(map[], map[0 := ToClear(v), 1 := ToClear(v)], now, [])
  {
    assert Next(env, Start(now), Arrive(0, text)) == System(map[], map[0 := ToClear(v)], now, []);
  }

  /** The first burns the state. */
  lemma FirstBurns(env: Env, v: Verified, now: int)
    ensures var s := System(map[], map[0 := ToClear(v), 1 := ToClear(v)], now, []);
            Next(env, Next(env, s, Clear(0)), Burn(0))
            == System(map[v.nonceHash := v.expiresAt], map[1 := ToClear(v)], now,
                      [Grant(v.wallet, v.nonceHash, v.expiresAt, now)])
  {
    var cleared := System(map[], map[0 := ToBurn(v), 1 := ToClear(v)], now, []);
    assert Cleared(map[], now) == map[];
    assert Next(env, System(map[], map[0 := ToClear(v), 1 := ToClear(v)], now, []), Clear(0)) == cleared;
    assert cleared.callbacks - {0} == map[1 := ToClear(v)];
  }

  lemma FirstCallbackBurns(env: Env, text: string, v: Verified, now: int)
    requires VerifyState(env, text, now) == Ok(v)
    ensures Run(env, Start(now), ReplayScript(text, v.expiresAt)[..4])
            == System(map[v.nonceHash := v.expiresAt], map[1 := ToClear(v)], now,
                      [Grant(v.wallet, v.nonceHash, v.expiresAt, now)])
  {
    var script := ReplayScript(text, v.expiresAt);
    assert script[..0] == [];
    RunStep(env, Start(now), script, 0);
    RunStep(env, Start(now), script, 1);
    RunStep(env, Start(now), script, 2);
    RunStep(env, Start(now), script, 3);
    BothArrive(env, text, v, now);
    FirstBurns(env, v, now);
  }

  /** Then the state expires, and the second deletes the record and burns it again. */
  lemma SecondCallbackBurns(env: Env, v: Verified, now: int)
    requires now <= v.expiresAt
    ensures var grant := Grant(v.wallet, v.nonceHash, v.expiresAt, now);
            var s := System(map[v.nonceHash := v.expiresAt], map[1 := ToClear(v)], now, [grant]);
            Next(env, Next(env, Next(env, s, Tick(v.expiresAt + 1)), Clear(1)), Burn(1)).grants
            == [grant, grant.(at := v.expiresAt + 1)]
  {
    assert Cleared(map[v.nonceHash := v.expiresAt], v.expiresAt + 1) == map[];
  }

  lemma ReplayOf(env: Env, text: string, v: Verified, now: int)
    requires VerifyState(env, text, now) == Ok(v) && now <= v.expiresAt
    ensures var grant := Grant(v.wallet, v.nonceHash, v.expiresAt, now);
            Run(env, Start(now), ReplayScript(text, v.expiresAt)).grants == [grant, grant.(at := v.expiresAt + 1)]
  {
    var script := ReplayScript(text, v.expiresAt);
    FirstCallbackBurns(env, text, v, now);
    RunStep(env, Start(now), script, 4);
    RunStep(env, Start(now), script, 5);
    RunStep(env, Start(now), script, 6);
    assert script[..7] == script;
    SecondCallbackBurns(env, v, now);
  }

  /** That does happen: two callbacks verify the same state in time, one burns it, and the other gets to its own
      statements after the expiry. */
  lemma ReplayAfterExpiry(env: Env, wallet: string, nonce: string, now: int)
    requires Sound(env) && env.isAddress(wallet) && nonce != ""
    requires -MAX_SAFE_INTEGER <= now + STATE_TTL_MS <= MAX_SAFE_INTEGER
    ensures var expiresAt := now + STATE_TTL_MS;
            var script := ReplayScript(IssueState(env, wallet, nonce, now).value, expiresAt);
            var grant := Grant(env.checksum(wallet), env.hash(nonce), expiresAt, now);
            Run(env, Start(now), script).grants == [grant, grant.(at := expiresAt + 1)]
  {
    var text := IssueState(env, wallet, nonce, now).value;
    IssuedVerifies(env, wallet, nonce, now, now, "");
    ReplayOf(env, text, Verified(env.checksum(wallet), env.hash(nonce), now + STATE_TTL_MS), now);
  }
}
