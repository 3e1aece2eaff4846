/** Picking the run that counts, and checking days in (src/strava-activities.ts, app/api/strava/checkin/route.ts). */
module StravaRuns {
  import opened Prelude
  import opened Text
  import opened PactDays

  datatype Activity = Activity(
    id: nat,
    name: string,
    sportType: Option<string>,
    activityType: Option<string>,
    distance: real,
    movingTime: int,
    elapsedTime: int,
    elevationGain: Option<real>,
    startDate: string,
    manual: bool,
    trainer: bool,
    flagged: bool,
    startLatLng: Option<seq<real>>)

  datatype RunPolicy = RunPolicy(athleteId: string, startsAtMs: int, endsAtMs: int, minDistanceMeters: nat)

  datatype Evidence = Evidence(
    athleteId: string,
    activityId: string,
    activityName: string,
    startTimeMs: int,
    distanceMeters: nat,
    movingTimeSeconds: nat,
    elapsedTimeSeconds: nat,
    elevationGainMeters: int,
    identityHash: string,
    nullifier: string,
    activityHash: string,
    sessionHash: string)

  datatype Code =
    | NoActivityToday | NoRunToday | ManualActivity | TrainerActivity | FlaggedActivity | NoGps | DistanceTooShort
    | InvalidMotion | ImplausibleSpeed | ImplausiblePace | ImplausibleElapsedTime

  /** `Date.parse`, and the keyed hash of a kind and a value. */
  datatype Env = Env(parseDate: string -> Option<int>, hmac: (string, string) -> string)

  predicate InWindow(env: Env, policy: RunPolicy, a: Activity) {
    var startedAt := env.parseDate(a.startDate);
    startedAt.Some? && policy.startsAtMs <= startedAt.value < policy.endsAtMs
  }

  function Window(env: Env, policy: RunPolicy): Activity -> bool {
    a => InWindow(env, policy, a)
  }

  predicate IsRun(a: Activity) {
    (if a.sportType.Some? then a.sportType else a.activityType) == Some("Run")
  }

  predicate HasGps(a: Activity) {
    a.startLatLng.Some? && |a.startLatLng.value| == 2
  }

  predicate IsOutdoor(a: Activity) {
    !a.manual && !a.trainer && !a.flagged && HasGps(a)
  }

  function Filter(s: seq<Activity>, keep: Activity -> bool): seq<Activity> {
    if s == [] then [] else Filter(s[..|s| - 1], keep) + if keep(s[|s| - 1]) then [s[|s| - 1]] else []
  }

  /** `[...runs].sort((a, b) => b.distance - a.distance)`: longest first, ties in their old order. */
  function ByDistance(s: seq<Activity>): (r: seq<Activity>)
    ensures |r| == |s|
  {
    if s == [] then [] else InsertRun(ByDistance(s[..|s| - 1]), s[|s| - 1])
  }

  function InsertRun(s: seq<Activity>, x: Activity): (r: seq<Activity>)
    ensures |r| == |s| + 1
  {
    if s == [] || s[0].distance < x.distance then [x] + s else [s[0]] + InsertRun(s[1..], x)
  }

  function OutdoorRuns(env: Env, policy: RunPolicy, activities: seq<Activity>): seq<Activity> {
    Filter(Filter(Filter(activities, Window(env, policy)), IsRun), IsOutdoor)
  }

  /** The checks on the longest run, and the evidence it makes. */
  function Assess(env: Env, policy: RunPolicy, best: Activity): Result<Evidence, Code>
    requires InWindow(env, policy, best)
  {
    var distanceMeters := best.distance.Floor;
    if distanceMeters < policy.minDistanceMeters then Err(DistanceTooShort)
    else if best.movingTime <= 0 || best.elapsedTime < best.movingTime then Err(InvalidMotion)
    else if distanceMeters > best.movingTime * 9 then Err(ImplausibleSpeed)
    else if distanceMeters * 2 < best.movingTime then Err(ImplausiblePace)
    else if best.elapsedTime > best.movingTime * 4 + 900 then Err(ImplausibleElapsedTime)
    else
      var gain := if best.elevationGain.Some? then best.elevationGain.value.Floor else 0;
      var key := PrintNat(best.id);
      Ok(Evidence(policy.athleteId, key, best.name, env.parseDate(best.startDate).value,
                  distanceMeters, best.movingTime, best.elapsedTime, gain,
                  env.hmac("athlete", policy.athleteId), env.hmac("activity", key),
                  env.hmac("run", key + ":" + PrintNat(distanceMeters) + ":" + PrintNat(best.movingTime) + ":"
                                  + PrintNat(best.elapsedTime) + ":" + best.startDate),
                  env.hmac("session", key)))
  }

  function SelectQualifyingRun(env: Env, policy: RunPolicy, activities: seq<Activity>): Result<Evidence, Code> {
    var inWindow := Filter(activities, Window(env, policy));
    if inWindow == [] then Err(NoActivityToday)
    else
      var runs := Filter(inWindow, IsRun);
      if runs == [] then Err(NoRunToday)
      else
        var outdoor := OutdoorRuns(env, policy, activities);
        if outdoor == [] then
          Err(if runs[0].manual then ManualActivity else if runs[0].trainer then TrainerActivity
              else if runs[0].flagged then FlaggedActivity else NoGps)
        else
          OutdoorRunsQualify(env, policy, activities);
          FirstIsMember(outdoor);
          Assess(env, policy, ByDistance(outdoor)[0])
  }

  // --- what is selected --------------------------------------------------------------------------------

  lemma {:induction false} FilterMembers(s: seq<Activity>, keep: Activity -> bool)
    ensures forall a :: a in Filter(s, keep) <==> a in s && keep(a)
  {
    if s == [] {
    } else {
      FilterMembers(s[..|s| - 1], keep);
      assert s == s[..|s| - 1] + [s[|s| - 1]];
    }
  }

  /** A genuine outdoor run that began in the window: neither entered by hand, nor on a treadmill, nor flagged, and with
      a place where it started. */
  predicate Qualifies(env: Env, policy: RunPolicy, a: Activity) {
    && (match env.parseDate(a.startDate)
        case Some(startedAt) => policy.startsAtMs <= startedAt < policy.endsAtMs
        case None => false)
    && (a.sportType == Some("Run") || (a.sportType.None? && a.activityType == Some("Run")))
    && !a.manual && !a.trainer && !a.flagged
    && a.startLatLng.Some? && |a.startLatLng.value| == 2
  }

  lemma OutdoorRunsQualify(env: Env, policy: RunPolicy, activities: seq<Activity>)
    ensures forall a :: a in OutdoorRuns(env, policy, activities) <==> a in activities && Qualifies(env, policy, a)
  {
    var inWindow := Filter(activities, Window(env, policy));
    var runs := Filter(inWindow, IsRun);
    FilterMembers(activities, Window(env, policy));
    FilterMembers(inWindow, IsRun);
    FilterMembers(runs, IsOutdoor);
  }

  /** The first of the sorted runs is the first of the longest. */
  lemma {:induction false} FirstIsLongest(s: seq<Activity>) returns (k: nat)
    requires s != []
    ensures k < |s| && ByDistance(s)[0] == s[k]
    ensures forall i :: 0 <= i < |s| ==> s[i].distance <= s[k].distance
    ensures forall i :: 0 <= i < k ==> s[i].distance < s[k].distance
  {
    var n := |s| - 1;
    if n == 0 {
      assert s[..0] == [];
      k := 0;
    } else {
      var before := ByDistance(s[..n]);
      var j := FirstIsLongest(s[..n]);
      assert before[0] == s[j];
      k := if before[0].distance < s[n].distance then n else j;
      forall i | 0 <= i < |s| ensures s[i].distance <= s[k].distance {
        if i < n { assert s[..n][i].distance <= s[..n][j].distance; }
      }
      forall i | 0 <= i < k ensures s[i].distance < s[k].distance {
        assert s[..n][i].distance <= s[..n][j].distance;
        if k == j { assert s[..n][i].distance < s[..n][j].distance; }
      }
    }
  }

  lemma FirstIsMember(s: seq<Activity>)
    requires s != []
    ensures ByDistance(s)[0] in s
  {
    var k := FirstIsLongest(s);
  }

  /** Evidence comes from one of the activities: a genuine outdoor run of the window, as long as any, the first such,
      of the distance asked for and at a plausible pace. */
  lemma EvidenceIsLongestRun(env: Env, policy: RunPolicy, activities: seq<Activity>) returns (best: Activity)
    requires SelectQualifyingRun(env, policy, activities).Ok?
    ensures best in activities && Qualifies(env, policy, best)
    ensures Assess(env, policy, best) == SelectQualifyingRun(env, policy, activities)
    ensures forall a :: a in activities && Qualifies(env, policy, a) ==> a.distance <= best.distance
    ensures var run := SelectQualifyingRun(env, policy, activities).value;
            && run.athleteId == policy.athleteId
            && run.activityId == PrintNat(best.id) && run.activityName == best.name
            && policy.startsAtMs <= run.startTimeMs < policy.endsAtMs
            && policy.minDistanceMeters <= run.distanceMeters && run.distanceMeters as real <= best.distance
            && 0 < run.movingTimeSeconds <= run.elapsedTimeSeconds <= 4 * run.movingTimeSeconds + 900
            && run.movingTimeSeconds <= 2 * run.distanceMeters <= 18 * run.movingTimeSeconds
  {
    LongestIsAssessed(env, policy, activities);
    best := EvidenceOfLongest(env, policy, activities);
  }

  /** Far enough, timed consistently, at between half a metre and nine metres a second, not paused for too long. */
  predicate Plausible(policy: RunPolicy, a: Activity) {
    && policy.minDistanceMeters <= a.distance.Floor
    && 0 < a.movingTime <= a.elapsedTime <= 4 * a.movingTime + 900
    && a.movingTime <= 2 * a.distance.Floor <= 18 * a.movingTime
  }

  /** Activity `k` is the first of the longest that qualify. */
  ghost predicate FirstLongest(env: Env, policy: RunPolicy, s: seq<Activity>, k: nat) {
    && k < |s| && Qualifies(env, policy, s[k])
    && (forall i :: 0 <= i < |s| && Qualifies(env, policy, s[i]) ==> s[i].distance <= s[k].distance)
    && (forall i :: 0 <= i < k && Qualifies(env, policy, s[i]) ==> s[i].distance < s[k].distance)
  }

  /** There is one if anything qualifies. */
  lemma {:induction false} FirstLongestExists(env: Env, policy: RunPolicy, s: seq<Activity>, m: nat) returns (k: nat)
    requires m < |s| && Qualifies(env, policy, s[m])
    ensures FirstLongest(env, policy, s, k)
    decreases |s|
  {
    var n := |s| - 1;
    var front := s[..n];
    assert forall i :: 0 <= i < n ==> front[i] == s[i];
    if i: nat :| i < n && Qualifies(env, policy, front[i]) {
      k := FirstLongestExists(env, policy, front, i);
      assert forall j :: 0 <= j < n && Qualifies(env, policy, s[j]) ==> front[j].distance <= front[k].distance;
      assert forall j :: 0 <= j < k && Qualifies(env, policy, s[j]) ==> front[j].distance < front[k].distance;
      if Qualifies(env, policy, s[n]) && front[k].distance < s[n].distance { k := n; }
    } else {
      k := n;
      assert forall j :: 0 <= j < n ==> !Qualifies(env, policy, front[j]);
    }
  }

  /** Evidence is given exactly if some activity qualifies and the first of the longest is plausible. */
  lemma AcceptedExactly(env: Env, policy: RunPolicy, s: seq<Activity>, k: nat)
    requires FirstLongest(env, policy, s, k)
    ensures SelectQualifyingRun(env, policy, s).Ok? <==> Plausible(policy, s[k])
  {
    var runs := OutdoorRuns(env, policy, s);
    OutdoorRunsQualify(env, policy, s);
    assert s[k] in runs;
    LongestIsAssessed(env, policy, s);
    FirstLongestKept(env, policy, s, k);
  }

  lemma FirstLongestKept(env: Env, policy: RunPolicy, s: seq<Activity>, k: nat)
    requires FirstLongest(env, policy, s, k)
    ensures OutdoorRuns(env, policy, s) != [] && ByDistance(OutdoorRuns(env, policy, s))[0] == s[k]
  {
    var before, x, after := s[..k], s[k], s[k + 1..];
    var runs, later := OutdoorRuns(env, policy, before), OutdoorRuns(env, policy, after);
    assert s == before + [x] + after;
    assert OutdoorRuns(env, policy, s) == runs + [x] + later by {
      OutdoorRunsConcat(env, policy, before + [x], after);
      OutdoorRunsConcat(env, policy, before, [x]);
      OnlyRun(env, policy, x);
    }
    OutdoorRunsQualify(env, policy, before);
    OutdoorRunsQualify(env, policy, after);
    var all := runs + [x] + later;
    forall i | 0 <= i < |runs| ensures all[i].distance < x.distance { assert all[i] == runs[i] && runs[i] in before; }
    forall i | 0 <= i < |later| ensures later[i].distance <= x.distance { assert later[i] in after; }
    var j := FirstIsLongest(all);
    assert all[|runs|] == x;
    assert j == |runs|;
  }

  /** If some activity qualifies, only those that do matter. */
  lemma OnlyQualifyingMatter(env: Env, policy: RunPolicy, a: seq<Activity>, b: seq<Activity>)
    requires OutdoorRuns(env, policy, a) == OutdoorRuns(env, policy, b) != []
    ensures SelectQualifyingRun(env, policy, a) == SelectQualifyingRun(env, policy, b)
  {
    LongestIsAssessed(env, policy, a);
    LongestIsAssessed(env, policy, b);
  }

  lemma NotEmptyUpstream(env: Env, policy: RunPolicy, s: seq<Activity>)
    requires OutdoorRuns(env, policy, s) != []
    ensures Filter(s, Window(env, policy)) != []
    ensures Filter(Filter(s, Window(env, policy)), IsRun) != []
  {
  }

  lemma {:induction false} FilterConcat(s: seq<Activity>, t: seq<Activity>, keep: Activity -> bool)
    ensures Filter(s + t, keep) == Filter(s, keep) + Filter(t, keep)
    decreases |t|
  {
    if t == [] {
      assert s + t == s;
    } else {
      FilterConcat(s, t[..|t| - 1], keep);
      assert (s + t)[..|s + t| - 1] == s + t[..|t| - 1];
    }
  }

  lemma OutdoorRunsConcat(env: Env, policy: RunPolicy, s: seq<Activity>, t: seq<Activity>)
    ensures OutdoorRuns(env, policy, s + t) == OutdoorRuns(env, policy, s) + OutdoorRuns(env, policy, t)
  {
    var window := Window(env, policy);
    FilterConcat(s, t, window);
    FilterConcat(Filter(s, window), Filter(t, window), IsRun);
    FilterConcat(Filter(Filter(s, window), IsRun), Filter(Filter(t, window), IsRun), IsOutdoor);
  }

  lemma EmptyOrMember(s: seq<Activity>)
    ensures s == [] || s[0] in s
  {
  }

  /** Recording something that does not qualify, at any point of the list, changes nothing for an athlete whose
      list has a qualifying run. */
  lemma OtherActivitiesDoNotMatter(env: Env, policy: RunPolicy, s: seq<Activity>, x: Activity, t: seq<Activity>)
    requires !Qualifies(env, policy, x) && OutdoorRuns(env, policy, s + t) != []
    ensures SelectQualifyingRun(env, policy, s + [x] + t) == SelectQualifyingRun(env, policy, s + t)
  {
    OutdoorRunsQualify(env, policy, [x]);
    assert OutdoorRuns(env, policy, [x]) == [] by {
      EmptyOrMember(OutdoorRuns(env, policy, [x]));
    }
    OutdoorRunsConcat(env, policy, s + [x], t);
    OutdoorRunsConcat(env, policy, s, [x]);
    OutdoorRunsConcat(env, policy, s, t);
    OnlyQualifyingMatter(env, policy, s + [x] + t, s + t);
  }

  /** A further qualifying run decides if it is longer than all before it, whether or not it is plausible, and
      changes nothing otherwise: a later warm-up cannot cost the day, a longer implausible run can. */
  lemma FurtherRunDecidesIfLonger(env: Env, policy: RunPolicy, s: seq<Activity>, x: Activity)
    requires Qualifies(env, policy, x) && OutdoorRuns(env, policy, s) != []
    ensures (exists a :: a in s && Qualifies(env, policy, a) && a.distance >= x.distance) ==>
              SelectQualifyingRun(env, policy, s + [x]) == SelectQualifyingRun(env, policy, s)
    ensures (forall a :: a in s && Qualifies(env, policy, a) ==> a.distance < x.distance) ==>
              SelectQualifyingRun(env, policy, s + [x]) == Assess(env, policy, x)
  {
    var runs := OutdoorRuns(env, policy, s);
    assert OutdoorRuns(env, policy, s + [x]) == runs + [x] by {
      OutdoorRunsConcat(env, policy, s, [x]);
      OnlyRun(env, policy, x);
    }
    LongestIsAssessed(env, policy, s);
    LongestIsAssessed(env, policy, s + [x]);
    LongestOfMore(runs, x);
    var best := EvidenceOfLongest(env, policy, s);
  }

  lemma LongestOfMore(runs: seq<Activity>, x: Activity)
    requires runs != []
    ensures var best := ByDistance(runs)[0];
            ByDistance(runs + [x])[0] == if best.distance < x.distance then x else best
  {
    assert (runs + [x])[..|runs|] == runs;
  }

  lemma LongestIsAssessed(env: Env, policy: RunPolicy, s: seq<Activity>)
    requires OutdoorRuns(env, policy, s) != []
    ensures InWindow(env, policy, ByDistance(OutdoorRuns(env, policy, s))[0])
    ensures SelectQualifyingRun(env, policy, s) == Assess(env, policy, ByDistance(OutdoorRuns(env, policy, s))[0])
  {
    NotEmptyUpstream(env, policy, s);
    OutdoorRunsQualify(env, policy, s);
    FirstIsMember(OutdoorRuns(env, policy, s));
  }

  lemma EvidenceOfLongest(env: Env, policy: RunPolicy, s: seq<Activity>) returns (best: Activity)
    requires OutdoorRuns(env, policy, s) != []
    ensures best == ByDistance(OutdoorRuns(env, policy, s))[0] && best in s && Qualifies(env, policy, best)
    ensures forall a :: a in s && Qualifies(env, policy, a) ==> a.distance <= best.distance
  {
    var runs := OutdoorRuns(env, policy, s);
    OutdoorRunsQualify(env, policy, s);
    var k := FirstIsLongest(runs);
    best := runs[k];
    assert best in runs;
    forall a | a in s && Qualifies(env, policy, a) ensures a.distance <= best.distance { assert a in runs; }
  }

  lemma OnlyRun(env: Env, policy: RunPolicy, x: Activity)
    requires Qualifies(env, policy, x)
    ensures OutdoorRuns(env, policy, [x]) == [x]
  {
    FilterOne(x, Window(env, policy));
    FilterOne(x, IsRun);
    FilterOne(x, IsOutdoor);
  }

  lemma FilterOne(x: Activity, keep: Activity -> bool)
    requires keep(x)
    ensures Filter([x], keep) == [x]
  {
    assert [x][..0] == [];
  }

  /** The answer that nothing was recorded in the window is given exactly when nothing was. */
  lemma NoActivityIsHonest(env: Env, policy: RunPolicy, s: seq<Activity>)
    ensures SelectQualifyingRun(env, policy, s) == Err(NoActivityToday)
            <==> forall a :: a in s ==> !InWindow(env, policy, a)
  {
    FilterMembers(s, Window(env, policy));
    EmptyOrMember(Filter(s, Window(env, policy)));
    if OutdoorRuns(env, policy, s) != [] { LongestIsAssessed(env, policy, s); }
  }

  predicate SaysNoneQualifies(code: Code) {
    code.NoActivityToday? || code.NoRunToday? || code.ManualActivity? || code.TrainerActivity? ||
    code.FlaggedActivity? || code.NoGps?
  }

  /** One of the answers that nothing qualifies is given exactly when nothing does. */
  lemma NoneQualifiesIsHonest(env: Env, policy: RunPolicy, s: seq<Activity>)
    ensures SelectQualifyingRun(env, policy, s).Err? && SaysNoneQualifies(SelectQualifyingRun(env, policy, s).error)
            <==> forall a :: a in s ==> !Qualifies(env, policy, a)
  {
    OutdoorRunsQualify(env, policy, s);
    EmptyOrMember(OutdoorRuns(env, policy, s));
    if OutdoorRuns(env, policy, s) != [] { LongestIsAssessed(env, policy, s); }
  }

  /** What a refusal says of a recording is true of the first run of the window. */
  lemma ReasonIsTrue(env: Env, policy: RunPolicy, s: seq<Activity>) returns (first: Activity)
    requires SelectQualifyingRun(env, policy, s).Err? && SaysNoneQualifies(SelectQualifyingRun(env, policy, s).error)
    requires !SelectQualifyingRun(env, policy, s).error.NoActivityToday?
    requires !SelectQualifyingRun(env, policy, s).error.NoRunToday?
    ensures first in s && InWindow(env, policy, first) && IsRun(first)
    ensures match SelectQualifyingRun(env, policy, s).error
            case ManualActivity => first.manual
            case TrainerActivity => first.trainer
            case FlaggedActivity => first.flagged
            case _ => !HasGps(first) && !first.manual && !first.trainer && !first.flagged
  {
    var inWindow := Filter(s, Window(env, policy));
    var runs := Filter(inWindow, IsRun);
    FilterMembers(s, Window(env, policy));
    FilterMembers(inWindow, IsRun);
    if OutdoorRuns(env, policy, s) != [] { LongestIsAssessed(env, policy, s); }
    first := runs[0];
    assert first in runs;
    NoneQualifiesIsHonest(env, policy, s);
  }

  /** The answer that the distance is too short is given exactly when it is for every qualifying run. */
  lemma TooShortIsHonest(env: Env, policy: RunPolicy, s: seq<Activity>)
    ensures SelectQualifyingRun(env, policy, s) == Err(DistanceTooShort) <==>
              && OutdoorRuns(env, policy, s) != []
              && (forall a :: a in s && Qualifies(env, policy, a) ==> a.distance.Floor < policy.minDistanceMeters)
  {
    if OutdoorRuns(env, policy, s) != [] {
      LongestIsAssessed(env, policy, s);
      var best := EvidenceOfLongest(env, policy, s);
      forall a | a in s && Qualifies(env, policy, a) ensures a.distance.Floor <= best.distance.Floor {
        FloorIsMonotone(a.distance, best.distance);
      }
    }
  }

  /** Any other complaint about the longest run is true of it. */
  lemma ComplaintIsTrue(env: Env, policy: RunPolicy, s: seq<Activity>, k: nat)
    requires FirstLongest(env, policy, s, k) && SelectQualifyingRun(env, policy, s).Err?
    ensures var a := s[k];
            var meters := a.distance.Floor;
            match SelectQualifyingRun(env, policy, s).error
            case DistanceTooShort => meters < policy.minDistanceMeters
            case InvalidMotion => a.movingTime <= 0 || a.elapsedTime < a.movingTime
            case ImplausibleSpeed => meters > 9 * a.movingTime
            case ImplausiblePace => 2 * meters < a.movingTime
            case ImplausibleElapsedTime => a.elapsedTime > 4 * a.movingTime + 900
            case _ => false
  {
    OutdoorRunsQualify(env, policy, s);
    assert s[k] in OutdoorRuns(env, policy, s);
    LongestIsAssessed(env, policy, s);
    FirstLongestKept(env, policy, s, k);
  }

  lemma FloorIsMonotone(a: real, b: real)
    requires a <= b
    ensures a.Floor <= b.Floor
  {
  }

  // --- checking days in --------------------------------------------------------------------------------

  /** One request to check a day in: what it asks, what the chain and the clock say then, and what Strava answers. */
  datatype Request = Request(pactId: string, dayIndex: Option<int>, chain: nat -> View, observedAt: int,
                             athleteId: string, activities: seq<Activity>)

  datatype Completion = Completion(
    pactId: nat,
    dayIndex: nat,
    missionType: nat,
    sessionIdHash: string,
    identityHash: string,
    eventNullifier: string,
    metric: nat,
    proofSetHash: string,
    occurredAt: int,
    oldestProofTimestamp: int,
    newestProofTimestamp: int,
    movingTimeSeconds: nat,
    elapsedTimeSeconds: nat,
    elevationGainMeters: int,
    issuedAt: int,
    expiresAt: int)

  const COMPLETION_TTL_SECONDS := 600

  /** The completion the check-in route signs, if it signs one. */
  function CheckIn(env: Env, request: Request): Option<Completion> {
    var policy := LoadProofPolicy(request.pactId, request.dayIndex, request.chain);
    if policy.Err? then None
    else
      var p := policy.value;
      var run := SelectQualifyingRun(env, RunPolicy(request.athleteId, p.startsAtMs, p.endsAtMs, p.dailyTarget),
                                     request.activities);
      if run.Err? then None
      else
        PolicyWindow(request.pactId, request.dayIndex, request.chain);
        Some(Completion(
          ParseNat(p.pactId), p.dayIndex, STRAVA_RUN_MISSION, run.value.sessionHash, run.value.identityHash,
          run.value.nullifier, run.value.distanceMeters, run.value.activityHash, run.value.startTimeMs / 1000,
          request.observedAt, request.observedAt, run.value.movingTimeSeconds, run.value.elapsedTimeSeconds,
          run.value.elevationGainMeters, request.observedAt, request.observedAt + COMPLETION_TTL_SECONDS))
  }

  /** The request names a Lock by number, and the server accepts the day it asks for. */
  ghost predicate DayAccepted(request: Request) {
    && request.pactId != "" && AllDigits(request.pactId) && ParseNat(request.pactId) >= 1
    && request.dayIndex.Some? && request.dayIndex.value >= 0
    && Accepts(request.chain(ParseNat(request.pactId)), request.dayIndex.value)
  }

  /** What counts on that day: runs of the athlete that began in it, of the Lock's daily target. */
  ghost function DayPolicy(request: Request): RunPolicy
    requires DayAccepted(request)
  {
    var pact := request.chain(ParseNat(request.pactId)).pact;
    var day := request.dayIndex.value;
    RunPolicy(request.athleteId, (pact.startsAt + 86400 * day) * 1000, (pact.startsAt + 86400 * (day + 1)) * 1000,
              pact.dailyTarget)
  }

  /** The route loads a policy exactly for an accepted day, and it is that day's. */
  lemma LoadedExactly(request: Request)
    ensures var loaded := LoadProofPolicy(request.pactId, request.dayIndex, request.chain);
            && (loaded.Ok? <==> DayAccepted(request))
            && (loaded.Ok? ==>
                  var p := loaded.value;
                  && RunPolicy(request.athleteId, p.startsAtMs, p.endsAtMs, p.dailyTarget) == DayPolicy(request)
                  && ValidPactId(p.pactId) == Some(ParseNat(request.pactId))
                  && p.dayIndex == request.dayIndex.value)
  {
    if ValidPactId(request.pactId).Some? {
      PrintParse(ParseNat(request.pactId));
      var view := request.chain(ParseNat(request.pactId));
      assert request.dayIndex.Some? && request.dayIndex.value >= 0 ==>
          OpenDay(view, request.dayIndex) == OpenDay(view, Some(request.dayIndex.value));
    }
  }

  /** A completion is signed exactly if the day is accepted and the first of the longest runs that qualify on it is
      plausible at the Lock's daily target. */
  lemma SignedExactly(env: Env, request: Request)
    ensures CheckIn(env, request).Some? <==>
              && DayAccepted(request)
              && exists k: nat :: FirstLongest(env, DayPolicy(request), request.activities, k)
                                  && Plausible(DayPolicy(request), request.activities[k])
  {
    LoadedExactly(request);
    if DayAccepted(request) {
      var policy, s := DayPolicy(request), request.activities;
      if CheckIn(env, request).Some? {
        var best := EvidenceIsLongestRun(env, policy, s);
        var m :| 0 <= m < |s| && s[m] == best;
        var k := FirstLongestExists(env, policy, s, m);
        AcceptedExactly(env, policy, s, k);
      }
      if k: nat :| FirstLongest(env, policy, s, k) && Plausible(policy, s[k]) {
        AcceptedExactly(env, policy, s, k);
      }
    }
  }

  /** And then it reports that run, field by field: its distance, times and climb, rounded down, and the keyed hashes
      of the athlete, of the activity and of what was recorded. It lasts ten minutes. */
  lemma CompletionReports(env: Env, request: Request, k: nat)
    requires CheckIn(env, request).Some?
    requires DayAccepted(request) ==> FirstLongest(env, DayPolicy(request), request.activities, k)
    ensures DayAccepted(request) && k < |request.activities|
    ensures var a := request.activities[k];
            var started := env.parseDate(a.startDate);
            var id := PrintNat(a.id);
            && 0 < a.movingTime <= a.elapsedTime && 0 <= a.distance.Floor && started.Some?
            && CheckIn(env, request).value == Completion(
                 pactId := ParseNat(request.pactId),
                 dayIndex := request.dayIndex.value,
                 missionType := 1,
                 sessionIdHash := env.hmac("session", id),
                 identityHash := env.hmac("athlete", request.athleteId),
                 eventNullifier := env.hmac("activity", id),
                 metric := a.distance.Floor,
                 proofSetHash := env.hmac("run", id + ":" + PrintNat(a.distance.Floor) + ":" + PrintNat(a.movingTime)
                                                 + ":" + PrintNat(a.elapsedTime) + ":" + a.startDate),
                 occurredAt := started.value / 1000,
                 oldestProofTimestamp := request.observedAt,
                 newestProofTimestamp := request.observedAt,
                 movingTimeSeconds := a.movingTime,
                 elapsedTimeSeconds := a.elapsedTime,
                 elevationGainMeters := if a.elevationGain.Some? then a.elevationGain.value.Floor else 0,
                 issuedAt := request.observedAt,
                 expiresAt := request.observedAt + 600)
  {
    LoadedExactly(request);
    var policy, s := DayPolicy(request), request.activities;
    AcceptedExactly(env, policy, s, k);
    OutdoorRunsQualify(env, policy, s);
    assert s[k] in OutdoorRuns(env, policy, s);
    LongestIsAssessed(env, policy, s);
    FirstLongestKept(env, policy, s, k);
  }

  /** The start of a Lock does not change. */
  ghost predicate Immutable(startsAt: nat -> nat, chain: nat -> View) {
    forall id :: chain(id).pact.startsAt == startsAt(id)
  }

  /** A signed completion is for an accepted day, and its run began inside that day. */
  lemma CompletionInsideDay(env: Env, request: Request)
    requires CheckIn(env, request).Some?
    ensures var done := CheckIn(env, request).value;
            var view := request.chain(done.pactId);
            && Accepts(view, done.dayIndex) && done.metric >= view.pact.dailyTarget
            && view.pact.startsAt + done.dayIndex * DAY_SECONDS <= done.occurredAt
               < view.pact.startsAt + (done.dayIndex + 1) * DAY_SECONDS
  {
    var p := LoadProofPolicy(request.pactId, request.dayIndex, request.chain).value;
    PolicyWindow(request.pactId, request.dayIndex, request.chain);
    PrintParse(ValidPactId(request.pactId).value);
    var best := EvidenceIsLongestRun(env, RunPolicy(request.athleteId, p.startsAtMs, p.endsAtMs, p.dailyTarget),
                                     request.activities);
  }

  /** The date Strava gives for an activity number never changes. */
  ghost predicate Dated(started: nat -> string, activities: seq<Activity>) {
    forall a :: a in activities ==> a.startDate == started(a.id)
  }

  ghost predicate Injective(hmac: (string, string) -> string) {
    forall k, a, b :: hmac(k, a) == hmac(k, b) ==> a == b
  }

  lemma RunOfCompletion(env: Env, request: Request) returns (a: Activity)
    requires CheckIn(env, request).Some?
    ensures var done := CheckIn(env, request).value;
            && a in request.activities
            && done.eventNullifier == env.hmac("activity", PrintNat(a.id))
            && env.parseDate(a.startDate).Some? && done.occurredAt == env.parseDate(a.startDate).value / 1000
  {
    var p := LoadProofPolicy(request.pactId, request.dayIndex, request.chain).value;
    a := EvidenceIsLongestRun(env, RunPolicy(request.athleteId, p.startsAtMs, p.endsAtMs, p.dailyTarget),
                              request.activities);
  }

  lemma SecondsOfOneDay(pact: Pact, other: Pact, a: nat, b: nat, second: int)
    requires pact.startsAt == other.startsAt
    requires pact.startsAt + a * DAY_SECONDS <= second < pact.startsAt + (a + 1) * DAY_SECONDS
    requires other.startsAt + b * DAY_SECONDS <= second < other.startsAt + (b + 1) * DAY_SECONDS
    ensures a == b
  {
  }

  /** One activity has one nullifier, and no other has it. */
  lemma NullifierNamesRun(env: Env, requests: seq<Request>, started: nat -> string, i: nat, j: nat)
    requires forall k :: 0 <= k < |requests| ==> Dated(started, requests[k].activities)
    requires Injective(env.hmac) && i < |requests| && j < |requests|
    requires CheckIn(env, requests[i]).Some? && CheckIn(env, requests[j]).Some?
    requires CheckIn(env, requests[i]).value.eventNullifier == CheckIn(env, requests[j]).value.eventNullifier
    ensures CheckIn(env, requests[i]).value.occurredAt == CheckIn(env, requests[j]).value.occurredAt
  {
    var x := RunOfCompletion(env, requests[i]);
    var y := RunOfCompletion(env, requests[j]);
    SameNullifierSameDate(env, requests[i].activities, requests[j].activities, started, x, y);
  }

  lemma SameNullifierSameDate(env: Env, s: seq<Activity>, t: seq<Activity>, started: nat -> string,
                              x: Activity, y: Activity)
    requires Dated(started, s) && Dated(started, t) && x in s && y in t
    requires Injective(env.hmac) && env.hmac("activity", PrintNat(x.id)) == env.hmac("activity", PrintNat(y.id))
    ensures x.startDate == y.startDate
  {
    PrintNatInjective(x.id, y.id);
  }

  /** The attested identity is the athlete's, whichever activity counted. */
  lemma IdentityNamesAthlete(env: Env, a: Request, b: Request)
    requires Injective(env.hmac) && CheckIn(env, a).Some? && CheckIn(env, b).Some?
    ensures CheckIn(env, a).value.identityHash == CheckIn(env, b).value.identityHash <==> a.athleteId == b.athleteId
  {
    IdentityOfCompletion(env, a);
    IdentityOfCompletion(env, b);
  }

  lemma IdentityOfCompletion(env: Env, request: Request)
    requires CheckIn(env, request).Some?
    ensures CheckIn(env, request).value.identityHash == env.hmac("athlete", request.athleteId)
  {
    var p := LoadProofPolicy(request.pactId, request.dayIndex, request.chain).value;
    var best := EvidenceIsLongestRun(env, RunPolicy(request.athleteId, p.startsAtMs, p.endsAtMs, p.dailyTarget),
                                     request.activities);
  }

  /** Over any sequence of requests, completions of one Lock whose runs began at the same second, or that carry the
      same nullifier, are for the same day: no run counts for two days. */
  lemma OneRunOneDay(env: Env, requests: seq<Request>, startsAt: nat -> nat, started: nat -> string, i: nat, j: nat)
    requires forall k :: 0 <= k < |requests| ==> Immutable(startsAt, requests[k].chain)
    requires forall k :: 0 <= k < |requests| ==> Dated(started, requests[k].activities)
    requires Injective(env.hmac) && i < |requests| && j < |requests|
    requires CheckIn(env, requests[i]).Some? && CheckIn(env, requests[j]).Some?
    ensures var a, b := CheckIn(env, requests[i]).value, CheckIn(env, requests[j]).value;
            a.pactId == b.pactId && (a.occurredAt == b.occurredAt || a.eventNullifier == b.eventNullifier) ==>
              a.dayIndex == b.dayIndex
  {
    var a, b := CheckIn(env, requests[i]).value, CheckIn(env, requests[j]).value;
    if a.pactId == b.pactId && (a.occurredAt == b.occurredAt || a.eventNullifier == b.eventNullifier) {
      if a.eventNullifier == b.eventNullifier { NullifierNamesRun(env, requests, started, i, j); }
      CompletionInsideDay(env, requests[i]);
      CompletionInsideDay(env, requests[j]);
      assert Immutable(startsAt, requests[i].chain) && Immutable(startsAt, requests[j].chain);
      SecondsOfOneDay(requests[i].chain(a.pactId).pact, requests[j].chain(b.pactId).pact,
                      a.dayIndex, b.dayIndex, a.occurredAt);
    }
  }
}
