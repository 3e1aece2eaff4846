/** Which day of a Lock is open: the server's guards and the dashboard's search
    (src/pact-server.ts, components/pact-dashboard.tsx). */
module PactDays {
  import opened Prelude
  import opened Text

  const STRAVA_RUN_MISSION := 1
  const SUBMISSION_GRACE_MS := 86400000
  const DAY_MS := 86400000
  const DAY_SECONDS := 86400
  const MAX_SAFE_INTEGER := 9007199254740991
  const ZERO_ADDRESS := "0x0000000000000000000000000000000000000000"

  /** The fields of a pact that decide about check-ins. */
  datatype Pact = Pact(
    creator: string,
    startsAt: nat,
    dailyTarget: nat,
    participantCount: nat,
    durationDays: nat,
    requiredCompletions: nat,
    minParticipants: nat,
    missionType: nat,
    finalized: bool,
    cancelled: bool)

  /** What the chain says about a pact and a wallet at one block. */
  datatype View = View(pact: Pact, joined: bool, bitmap: nat, completed: nat, now: nat)

  function Pow2(n: nat): (r: nat)
    ensures r > 0
  {
    if n == 0 then 1 else 2 * Pow2(n - 1)
  }

  /** `(bitmap & (1n << day)) !== 0n`. */
  predicate Verified(bitmap: nat, day: nat) {
    if day == 0 then bitmap % 2 == 1 else Verified(bitmap / 2, day - 1)
  }

  /** The bitmap keeps one bit a day: at first no day is verified, and marking one verifies it and no other. */
  lemma {:induction false} MarkingVerifiesOneDay(bitmap: nat, day: nat, other: nat)
    requires !Verified(bitmap, day)
    ensures !Verified(0, other)
    ensures Verified(bitmap + Pow2(day), other) <==> other == day || Verified(bitmap, other)
    decreases day
  {
    NothingVerified(other);
    if day > 0 && other > 0 {
      assert (bitmap + 2 * Pow2(day - 1)) / 2 == bitmap / 2 + Pow2(day - 1);
      MarkingVerifiesOneDay(bitmap / 2, day - 1, other - 1);
    } else if other > 0 {
      assert (bitmap + 1) / 2 == bitmap / 2;
    }
  }

  lemma {:induction false} NothingVerified(day: nat)
    ensures !Verified(0, day)
  {
    if day == 0 {
    } else {
      NothingVerified(day - 1);
    }
  }

  // --- the server --------------------------------------------------------------------------------------

  datatype Refusal =
    | BadPactId | PactNotFound | PactClosed | UnsupportedMission | NotJoined | Underfilled | TargetMet | BadDay
    | AlreadyVerified | DayNotOpen

  datatype Policy = Policy(pactId: string, dayIndex: nat, dailyTarget: nat, startsAtMs: int, endsAtMs: int)

  function ProofSubmissionDeadlineMs(missionType: nat, endsAtMs: int): int {
    if missionType == STRAVA_RUN_MISSION then endsAtMs + SUBMISSION_GRACE_MS else endsAtMs
  }

  function ValidPactId(value: string): Option<nat> {
    if value == "" || !AllDigits(value) || ParseNat(value) < 1 then None else Some(ParseNat(value))
  }

  function DayStartMs(pact: Pact, day: nat): int {
    (pact.startsAt + day * DAY_SECONDS) * 1000
  }

  /** The guards of `loadProofPolicy` on what was read from the chain, in their order. */
  function OpenDay(view: View, dayIndex: Option<int>): Result<nat, Refusal> {
    var pact := view.pact;
    if pact.creator == ZERO_ADDRESS then Err(PactNotFound)
    else if pact.finalized || pact.cancelled then Err(PactClosed)
    else if pact.missionType != STRAVA_RUN_MISSION then Err(UnsupportedMission)
    else if !view.joined then Err(NotJoined)
    else if pact.participantCount < pact.minParticipants then Err(Underfilled)
    else if view.completed >= pact.requiredCompletions then Err(TargetMet)
    else if dayIndex.None? || !(-MAX_SAFE_INTEGER <= dayIndex.value <= MAX_SAFE_INTEGER) ||
            dayIndex.value < 0 || dayIndex.value >= pact.durationDays then Err(BadDay)
    else if Verified(view.bitmap, dayIndex.value) then Err(AlreadyVerified)
    else
      var startsAtMs := DayStartMs(pact, dayIndex.value);
      if view.now * 1000 < startsAtMs ||
         view.now * 1000 >= ProofSubmissionDeadlineMs(pact.missionType, startsAtMs + DAY_MS) then Err(DayNotOpen)
      else Ok(dayIndex.value)
  }

  /** `loadProofPolicy` for a configured escrow and a valid wallet; `chain` reads a pact at the latest block. */
  function LoadProofPolicy(pactId: string, dayIndex: Option<int>, chain: nat -> View): Result<Policy, Refusal> {
    var id := ValidPactId(pactId);
    if id.None? then Err(BadPactId)
    else
      var view := chain(id.value);
      var day := OpenDay(view, dayIndex);
      if day.Err? then Err(day.error)
      else
        var startsAtMs := DayStartMs(view.pact, day.value);
        Ok(Policy(PrintNat(id.value), day.value, view.pact.dailyTarget, startsAtMs, startsAtMs + DAY_MS))
  }

  /** A policy names one pact in canonical form, however many leading zeros were sent, and the window of its day. */
  lemma PolicyWindow(pactId: string, dayIndex: Option<int>, chain: nat -> View)
    requires LoadProofPolicy(pactId, dayIndex, chain).Ok?
    ensures var policy := LoadProofPolicy(pactId, dayIndex, chain).value;
            && ValidPactId(policy.pactId) == ValidPactId(pactId) && PositiveNumeral(policy.pactId)
            && dayIndex == Some(policy.dayIndex)
            && (var view := chain(ValidPactId(pactId).value);
                && policy.startsAtMs == DayStartMs(view.pact, policy.dayIndex)
                && policy.endsAtMs == DayStartMs(view.pact, policy.dayIndex + 1)
                && policy.startsAtMs <= view.now * 1000 < policy.endsAtMs + DAY_MS)
  {
    PrintParse(ValidPactId(pactId).value);
  }

  /** The reason a day is refused for is true of it. */
  lemma RefusalIsTrue(view: View, dayIndex: Option<int>)
    requires OpenDay(view, dayIndex).Err?
    ensures match OpenDay(view, dayIndex).error
            case PactNotFound => view.pact.creator == ZERO_ADDRESS
            case PactClosed => view.pact.finalized || view.pact.cancelled
            case UnsupportedMission => view.pact.missionType != 1
            case NotJoined => !view.joined
            case Underfilled => view.pact.participantCount < view.pact.minParticipants
            case TargetMet => view.completed >= view.pact.requiredCompletions
            case BadDay => dayIndex.None? || dayIndex.value < 0 || dayIndex.value >= view.pact.durationDays
                           || dayIndex.value > MAX_SAFE_INTEGER
            case AlreadyVerified => dayIndex.Some? && dayIndex.value >= 0 && Verified(view.bitmap, dayIndex.value)
            case DayNotOpen =>
              dayIndex.Some? && (view.now < view.pact.startsAt + 86400 * dayIndex.value
                                 || view.now >= view.pact.startsAt + 86400 * (dayIndex.value + 2))
            case _ => false
  {
  }

  /** The windows tile the Lock: a moment lies in the window of one day at most. */
  lemma WindowsAreDisjoint(pact: Pact, a: nat, b: nat, moment: int)
    requires DayStartMs(pact, a) <= moment < DayStartMs(pact, a + 1)
    requires DayStartMs(pact, b) <= moment < DayStartMs(pact, b + 1)
    ensures a == b
  {
  }

  // --- the dashboard -----------------------------------------------------------------------------------

  predicate ShownOpen(view: View, day: nat) {
    var dayStart := view.pact.startsAt + day * DAY_SECONDS;
    var submissionWindow := if view.pact.missionType == STRAVA_RUN_MISSION then 2 * DAY_SECONDS else DAY_SECONDS;
    dayStart <= view.now < dayStart + submissionWindow && !Verified(view.bitmap, day)
  }

  /** The last of the first n days that is open: `Array.from(...).reverse().find(...)`. */
  function LastOpenBelow(view: View, n: nat): Option<nat> {
    if n == 0 then None else if ShownOpen(view, n - 1) then Some(n - 1) else LastOpenBelow(view, n - 1)
  }

  function LatestOpenDay(view: View): Option<nat> {
    LastOpenBelow(view, view.pact.durationDays)
  }

  predicate IsUnderfilled(view: View) {
    var pact := view.pact;
    var registration := view.now < pact.startsAt && !pact.cancelled;
    !registration && pact.participantCount < pact.minParticipants && !pact.finalized && !pact.cancelled
  }

  /** Whether the page of an existing pact offers to check in, product flags and pending requests aside. */
  predicate CanCheckIn(view: View) {
    && view.pact.creator != ZERO_ADDRESS
    && LatestOpenDay(view).Some? && view.joined
    && !(view.completed >= view.pact.requiredCompletions)
    && !IsUnderfilled(view) && !view.pact.finalized && !view.pact.cancelled
  }

  lemma {:induction false} LastOpenIsGreatest(view: View, n: nat)
    ensures var r := LastOpenBelow(view, n);
            && (r.Some? ==> r.value < n && ShownOpen(view, r.value))
            && forall day :: 0 <= day < n && ShownOpen(view, day) ==> r.Some? && day <= r.value
  {
    if n == 0 {
    } else {
      LastOpenIsGreatest(view, n - 1);
    }
  }

  // --- agreement ---------------------------------------------------------------------------------------

  predicate Accepts(view: View, day: nat) {
    OpenDay(view, Some(day)).Ok?
  }

  /** The page offers a check-in exactly when the server accepts some day, and offers the last such day. */
  ghost predicate Agrees(view: View) {
    && (CanCheckIn(view) ==> Accepts(view, LatestOpenDay(view).value))
    && (forall day: nat :: Accepts(view, day) ==> CanCheckIn(view) && day <= LatestOpenDay(view).value)
  }

  lemma AcceptedIsShown(view: View, day: nat)
    requires view.pact.missionType == STRAVA_RUN_MISSION && view.pact.durationDays <= MAX_SAFE_INTEGER
    ensures Accepts(view, day) <==>
              && day < view.pact.durationDays && ShownOpen(view, day) && view.joined
              && view.pact.creator != ZERO_ADDRESS && !view.pact.finalized && !view.pact.cancelled
              && view.pact.participantCount >= view.pact.minParticipants
              && view.completed < view.pact.requiredCompletions
  {
    var start := view.pact.startsAt + day * DAY_SECONDS;
    assert DayStartMs(view.pact, day) == start * 1000;
    assert view.now * 1000 < start * 1000 <==> view.now < start;
  }

  /** For a running Lock the page and the server agree, on every chain state and at every time. */
  lemma StravaDashboardAgrees(view: View)
    requires view.pact.missionType == STRAVA_RUN_MISSION && view.pact.durationDays <= MAX_SAFE_INTEGER
    ensures Agrees(view)
  {
    LastOpenIsGreatest(view, view.pact.durationDays);
    if CanCheckIn(view) {
      var day := LatestOpenDay(view).value;
      assert view.now >= view.pact.startsAt;
      AcceptedIsShown(view, day);
    }
    forall day: nat | Accepts(view, day) ensures CanCheckIn(view) && day <= LatestOpenDay(view).value {
      AcceptedIsShown(view, day);
    }
  }

  /** A pact on which nobody can check in, whatever its mission. */
  predicate Idle(pact: Pact) {
    pact.creator == ZERO_ADDRESS || pact.finalized || pact.cancelled || pact.participantCount < pact.minParticipants ||
    pact.durationDays == 0 || pact.requiredCompletions == 0
  }

  /** They agree on all states of a pact if it is a running Lock or idle, and otherwise do not: during the first day
      of any other mission the page offers a check-in that the server refuses. */
  lemma DashboardAgreesExactly(pact: Pact)
    requires pact.durationDays <= MAX_SAFE_INTEGER
    ensures (forall view: View :: view.pact == pact ==> Agrees(view))
            <==> pact.missionType == STRAVA_RUN_MISSION || Idle(pact)
  {
    if pact.missionType == STRAVA_RUN_MISSION {
      forall view: View | view.pact == pact ensures Agrees(view) { StravaDashboardAgrees(view); }
    } else if Idle(pact) {
      forall view: View | view.pact == pact ensures Agrees(view) { IdleOffersNothing(view); }
    } else {
      var view := View(pact, true, 0, 0, pact.startsAt);
      assert Verified(0, 0) == false;
      assert ShownOpen(view, 0);
      LastOpenIsGreatest(view, pact.durationDays);
      assert CanCheckIn(view) && !Accepts(view, LatestOpenDay(view).value);
      assert !Agrees(view);
    }
  }

  lemma IdleOffersNothing(view: View)
    requires Idle(view.pact)
    ensures !CanCheckIn(view) && forall day: nat :: !Accepts(view, day)
  {
    LastOpenIsGreatest(view, view.pact.durationDays);
  }

  /** At any moment the server accepts two days at most, and then they are adjacent. */
  lemma AtMostTwoDaysOpen(view: View, a: nat, b: nat)
    requires Accepts(view, a) && Accepts(view, b) && a < b
    ensures b == a + 1
  {
    assert DayStartMs(view.pact, b) < DayStartMs(view.pact, a) + 2 * DAY_MS;
  }
}
