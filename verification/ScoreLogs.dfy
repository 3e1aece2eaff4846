/** How the running escrow emits the day events the boards are built from (contracts/LockInEscrow.sol,
    `_recordVerifiedDay`), and what that means for the boards. */
module ScoreLogs {
  import opened Prelude
  import opened Text
  import opened LogScan
  import opened DayTables
  import opened Leaderboard
  import opened LeaderboardTheorems

  const LOCK_SCORE_PER_DAY := 10

  /** One verified completion: the account, in lower case, its mission, the service account it belongs to, and when. */
  datatype Completion = Completion(account: string, missionType: int, identityHash: string, occurredAt: nat)

  /** The contract's mappings, and the two logs it has emitted. */
  datatype Score = Score(
    owners: map<(int, string), string>,
    missionDays: set<(string, int, int)>,
    scoredDays: set<(string, int)>,
    lockScores: map<string, int>,
    missions: seq<MissionDay>,
    scores: seq<ScoreDay>)

  const NO_SCORE := Score(map[], {}, {}, map[], [], [])

  function LockScore(s: Score, account: string): int {
    if account in s.lockScores then s.lockScores[account] else 0
  }

  /** The day is scored for its account and mission, with a log entry the first time. */
  function WithMissionDay(s: Score, spell: string -> string, c: Completion, day: int): Score {
    var key := (c.account, c.missionType, day);
    if key in s.missionDays then s
    else s.(missionDays := s.missionDays + {key},
            missions := s.missions + [MissionDay(spell(c.account), day, c.missionType)])
  }

  /** The day is scored for its account, whatever the mission, with a log entry the first time. */
  function WithScoredDay(s: Score, spell: string -> string, c: Completion, day: int): Score {
    var key := (c.account, day);
    if key in s.scoredDays then s
    else s.(scoredDays := s.scoredDays + {key},
            lockScores := s.lockScores[c.account := LockScore(s, c.account) + LOCK_SCORE_PER_DAY],
            scores := s.scores + [ScoreDay(spell(c.account), day)])
  }

  /** A completion scores for the first account that showed its service account, and for no other. */
  function Recorded(s: Score, spell: string -> string, c: Completion): Score {
    var identity := (c.missionType, c.identityHash);
    if identity in s.owners && s.owners[identity] != c.account then s
    else
      var day := c.occurredAt / SECONDS_PER_DAY;
      var owned := s.(owners := s.owners[identity := c.account]);
      WithScoredDay(WithMissionDay(owned, spell, c, day), spell, c, day)
  }

  /** The contract's storage for scores; `spell` is the spelling in which log readers get an account. */
  class ScoreKeeper {
    var owners: map<(int, string), string>
    var missionDays: set<(string, int, int)>
    var scoredDays: set<(string, int)>
    var lockScores: map<string, int>
    var missions: seq<MissionDay>
    var scores: seq<ScoreDay>

    function Contents(): Score
      reads this
    {
      Score(owners, missionDays, scoredDays, lockScores, missions, scores)
    }

    constructor ()
      ensures Contents() == NO_SCORE
    {
      owners, missionDays, scoredDays, lockScores, missions, scores := map[], {}, {}, map[], [], [];
    }

    /** `_recordVerifiedDay`. */
    method RecordVerifiedDay(spell: string -> string, account: string, missionType: int, identityHash: string,
                             occurredAt: nat)
      modifies this
      ensures Contents() == Recorded(old(Contents()), spell, Completion(account, missionType, identityHash, occurredAt))
    {
      var identity := (missionType, identityHash);
      if identity !in owners {
        owners := owners[identity := account];
      } else if owners[identity] != account {
        return;
      }
      assert owners == old(owners)[identity := account];
      var utcDay := occurredAt / SECONDS_PER_DAY;
      if (account, missionType, utcDay) !in missionDays {
        missionDays := missionDays + {(account, missionType, utcDay)};
        missions := missions + [MissionDay(spell(account), utcDay, missionType)];
      }
      if (account, utcDay) !in scoredDays {
        scoredDays := scoredDays + {(account, utcDay)};
        var score := if account in lockScores then lockScores[account] else 0;
        lockScores := lockScores[account := score + LOCK_SCORE_PER_DAY];
        scores := scores + [ScoreDay(spell(account), utcDay)];
      }
    }
  }

  // --- every run of completions ------------------------------------------------------------------------

  function After(spell: string -> string, cs: seq<Completion>): Score {
    if cs == [] then NO_SCORE else Recorded(After(spell, cs[..|cs| - 1]), spell, cs[|cs| - 1])
  }

  /** Log readers get accounts in a spelling that folds back to them. */
  ghost predicate Spells(spell: string -> string, cs: seq<Completion>) {
    forall i :: 0 <= i < |cs| ==> ToLower(spell(cs[i].account)) == cs[i].account
  }

  /** The days of an account that the contract has scored. */
  function DaysScored(s: Score, key: string): set<int> {
    set p | p in s.scoredDays && p.0 == key :: p.1
  }

  /** What is logged is what is scored: every mission day is a scored day, the score log has exactly the scored days,
      and the lock score is ten for each. */
  ghost predicate Consistent(s: Score) {
    && (forall k :: k in s.missionDays ==> (k.0, k.2) in s.scoredDays)
    && (forall e :: e in s.missions ==> (ToLower(e.account), e.missionType, e.utcDay) in s.missionDays)
    && (forall key :: DaysOn(s.scores, key) == DaysScored(s, key))
    && (forall key :: LockScore(s, key) == LOCK_SCORE_PER_DAY * |DaysScored(s, key)|)
  }

  lemma ScoredDayConsistent(s: Score, spell: string -> string, c: Completion, day: int, key: string)
    requires ToLower(spell(c.account)) == c.account
    requires DaysOn(s.scores, key) == DaysScored(s, key)
    requires LockScore(s, key) == LOCK_SCORE_PER_DAY * |DaysScored(s, key)|
    ensures var t := WithScoredDay(s, spell, c, day);
            && DaysOn(t.scores, key) == DaysScored(t, key)
            && LockScore(t, key) == LOCK_SCORE_PER_DAY * |DaysScored(t, key)|
  {
    var t := WithScoredDay(s, spell, c, day);
    if (c.account, day) !in s.scoredDays {
      var last := ScoreDay(spell(c.account), day);
      assert forall e :: e in t.scores <==> e in s.scores || e == last;
      if key == c.account {
        assert (key, day) in t.scoredDays;
        assert DaysScored(t, key) == DaysScored(s, key) + {day};
        assert day !in DaysScored(s, key);
        assert DaysOn(t.scores, key) == DaysOn(s.scores, key) + {day} by { assert last in t.scores; }
      } else {
        assert DaysScored(t, key) == DaysScored(s, key);
        assert DaysOn(t.scores, key) == DaysOn(s.scores, key);
      }
    }
  }

  lemma RecordedConsistent(s: Score, spell: string -> string, c: Completion)
    requires Consistent(s) && ToLower(spell(c.account)) == c.account
    ensures Consistent(Recorded(s, spell, c))
  {
    var identity := (c.missionType, c.identityHash);
    if identity in s.owners && s.owners[identity] != c.account {
    } else {
      var day := c.occurredAt / SECONDS_PER_DAY;
      var owned := s.(owners := s.owners[identity := c.account]);
      var u := WithMissionDay(owned, spell, c, day);
      var t := WithScoredDay(u, spell, c, day);
      assert (c.account, day) in t.scoredDays;
      forall key
        ensures DaysOn(t.scores, key) == DaysScored(t, key)
        ensures LockScore(t, key) == LOCK_SCORE_PER_DAY * |DaysScored(t, key)|
      {
        assert DaysOn(s.scores, key) == DaysScored(s, key);
        assert DaysScored(u, key) == DaysScored(s, key);
        ScoredDayConsistent(u, spell, c, day, key);
      }
    }
  }

  lemma {:induction false} AfterConsistent(spell: string -> string, cs: seq<Completion>)
    requires Spells(spell, cs)
    ensures Consistent(After(spell, cs))
  {
    if cs == [] {
      assert forall key :: DaysOn([], key) == DaysScored(NO_SCORE, key);
    } else {
      AfterConsistent(spell, cs[..|cs| - 1]);
      RecordedConsistent(After(spell, cs[..|cs| - 1]), spell, cs[|cs| - 1]);
    }
  }

  // --- which completions count -------------------------------------------------------------------------

  predicate SameIdentity(a: Completion, b: Completion) {
    a.missionType == b.missionType && a.identityHash == b.identityHash
  }

  /** The account counts for its service account: it was the first to complete anything with it. */
  ghost predicate Counts(cs: seq<Completion>, i: nat) {
    && i < |cs|
    && exists j: nat :: j <= i && SameIdentity(cs[j], cs[i]) && cs[j].account == cs[i].account
                        && forall k :: 0 <= k < j ==> !SameIdentity(cs[k], cs[i])
  }

  /** The first account of each service account owns it, for good. */
  lemma {:induction false} OwnerIsFirst(spell: string -> string, cs: seq<Completion>, c: Completion)
    ensures var owners := After(spell, cs).owners;
            var identity := (c.missionType, c.identityHash);
            && (identity !in owners <==> forall k :: 0 <= k < |cs| ==> !SameIdentity(cs[k], c))
            && (identity in owners ==>
                  exists j: nat :: j < |cs| && SameIdentity(cs[j], c) && cs[j].account == owners[identity]
                                   && forall k :: 0 <= k < j ==> !SameIdentity(cs[k], c))
  {
    if cs == [] {
    } else {
      var n := |cs| - 1;
      OwnerIsFirst(spell, cs[..n], c);
      assert forall k :: 0 <= k < n ==> cs[..n][k] == cs[k];
    }
  }

  lemma {:induction false} CountsIsOwned(spell: string -> string, cs: seq<Completion>, c: Completion)
    ensures var owners := After(spell, cs).owners;
            var identity := (c.missionType, c.identityHash);
            Counts(cs + [c], |cs|) <==> identity !in owners || owners[identity] == c.account
  {
    OwnerIsFirst(spell, cs, c);
    var all := cs + [c];
    assert forall k :: 0 <= k < |cs| ==> all[k] == cs[k];
    assert all[|cs|] == c;
    var owners := After(spell, cs).owners;
    var identity := (c.missionType, c.identityHash);
    if identity in owners {
      var j: nat :| j < |cs| && SameIdentity(cs[j], c) && cs[j].account == owners[identity]
                    && forall k :: 0 <= k < j ==> !SameIdentity(cs[k], c);
      assert all[j] == cs[j];
    } else {
      assert SameIdentity(all[|cs|], c) && forall k :: 0 <= k < |cs| ==> !SameIdentity(all[k], c);
    }
  }

  /** An earlier completion counts or not, whatever comes later. */
  lemma CountsByPrefix(front: seq<Completion>, c: Completion, i: nat)
    requires i < |front|
    ensures Counts(front + [c], i) <==> Counts(front, i)
  {
    var cs := front + [c];
    assert forall k :: 0 <= k < |front| ==> front[k] == cs[k];
    if Counts(cs, i) {
      var j: nat :| j <= i && SameIdentity(cs[j], cs[i]) && cs[j].account == cs[i].account
                    && forall k :: 0 <= k < j ==> !SameIdentity(cs[k], cs[i]);
      assert SameIdentity(front[j], front[i]);
    }
    if Counts(front, i) {
      var j: nat :| j <= i && SameIdentity(front[j], front[i]) && front[j].account == front[i].account
                    && forall k :: 0 <= k < j ==> !SameIdentity(front[k], front[i]);
      assert SameIdentity(cs[j], cs[i]);
    }
  }

  /** A completion counts for a day of an account, and for a mission if one is asked for. */
  ghost predicate CountsFor(cs: seq<Completion>, i: nat, account: string, mission: Option<int>, day: int) {
    && Counts(cs, i) && cs[i].account == account && 86400 * day <= cs[i].occurredAt < 86400 * (day + 1)
    && (mission.Some? ==> cs[i].missionType == mission.value)
  }

  ghost predicate Earned(cs: seq<Completion>, account: string, mission: Option<int>, day: int) {
    exists i: nat :: CountsFor(cs, i, account, mission, day)
  }

  lemma EarnedStep(front: seq<Completion>, c: Completion, account: string, mission: Option<int>, day: int)
    ensures Earned(front + [c], account, mission, day)
            <==> Earned(front, account, mission, day) || CountsFor(front + [c], |front|, account, mission, day)
  {
    var cs := front + [c];
    if Earned(front, account, mission, day) {
      var i: nat :| CountsFor(front, i, account, mission, day);
      CountsByPrefix(front, c, i);
      assert CountsFor(cs, i, account, mission, day);
    }
    if Earned(cs, account, mission, day) {
      var i: nat :| CountsFor(cs, i, account, mission, day);
      if i < |front| {
        CountsByPrefix(front, c, i);
        assert CountsFor(front, i, account, mission, day);
      }
    }
  }

  /** A day of an account is scored exactly if some completion in it counts, and scored for a mission exactly if one of
      that mission does. */
  lemma {:induction false} ScoredExactly(spell: string -> string, cs: seq<Completion>, account: string, mission: int,
                                         day: int)
    ensures (account, day) in After(spell, cs).scoredDays <==> Earned(cs, account, None, day)
    ensures (account, mission, day) in After(spell, cs).missionDays <==> Earned(cs, account, Some(mission), day)
  {
    if cs == [] {
    } else {
      var front, c := cs[..|cs| - 1], cs[|cs| - 1];
      ScoredExactly(spell, front, account, mission, day);
      assert front + [c] == cs;
      CountsIsOwned(spell, front, c);
      EarnedStep(front, c, account, None, day);
      EarnedStep(front, c, account, Some(mission), day);
      RecordedScores(After(spell, front), spell, c, account, mission, day);
    }
  }

  /** What recording a completion adds to the scored days. */
  lemma RecordedScores(s: Score, spell: string -> string, c: Completion, account: string, mission: int, day: int)
    ensures var t := Recorded(s, spell, c);
            var identity := (c.missionType, c.identityHash);
            var counted := (identity in s.owners ==> s.owners[identity] == c.account)
                           && account == c.account && 86400 * day <= c.occurredAt < 86400 * (day + 1);
            && ((account, day) in t.scoredDays <==> (account, day) in s.scoredDays || counted)
            && ((account, mission, day) in t.missionDays
                <==> (account, mission, day) in s.missionDays || (counted && mission == c.missionType))
  {
  }

  /** Whatever is scored is logged once, in the spelling of its account, and nothing else is logged. */
  lemma {:induction false} LoggedOnce(spell: string -> string, cs: seq<Completion>, account: string, mission: int,
                                      day: int)
    requires forall a, b :: spell(a) == spell(b) ==> a == b
    ensures multiset(After(spell, cs).scores)[ScoreDay(spell(account), day)]
            == if (account, day) in After(spell, cs).scoredDays then 1 else 0
    ensures multiset(After(spell, cs).missions)[MissionDay(spell(account), day, mission)]
            == if (account, mission, day) in After(spell, cs).missionDays then 1 else 0
  {
    if cs == [] {
    } else {
      var n := |cs| - 1;
      LoggedOnce(spell, cs[..n], account, mission, day);
      RecordedLogs(After(spell, cs[..n]), spell, cs[n], account, mission, day);
    }
  }

  lemma MissionLogged(s: Score, spell: string -> string, c: Completion, scored: int, account: string, mission: int,
                      day: int)
    requires forall a, b :: spell(a) == spell(b) ==> a == b
    ensures var t := WithMissionDay(s, spell, c, scored);
            var run := MissionDay(spell(account), day, mission);
            && multiset(t.missions)[run] == multiset(s.missions)[run]
                 + (if (account, mission, day) in t.missionDays && (account, mission, day) !in s.missionDays
                    then 1 else 0)
            && s.missionDays <= t.missionDays && t.scores == s.scores && t.scoredDays == s.scoredDays
  {
  }

  lemma ScoreLogged(s: Score, spell: string -> string, c: Completion, scored: int, account: string, day: int)
    requires forall a, b :: spell(a) == spell(b) ==> a == b
    ensures var t := WithScoredDay(s, spell, c, scored);
            var score := ScoreDay(spell(account), day);
            && multiset(t.scores)[score] == multiset(s.scores)[score]
                 + (if (account, day) in t.scoredDays && (account, day) !in s.scoredDays then 1 else 0)
            && s.scoredDays <= t.scoredDays && t.missions == s.missions && t.missionDays == s.missionDays
  {
  }

  lemma RecordedLogs(s: Score, spell: string -> string, c: Completion, account: string, mission: int, day: int)
    requires forall a, b :: spell(a) == spell(b) ==> a == b
    ensures var t := Recorded(s, spell, c);
            var (score, run) := (ScoreDay(spell(account), day), MissionDay(spell(account), day, mission));
            && multiset(t.scores)[score] == multiset(s.scores)[score]
                 + (if (account, day) in t.scoredDays && (account, day) !in s.scoredDays then 1 else 0)
            && multiset(t.missions)[run] == multiset(s.missions)[run]
                 + (if (account, mission, day) in t.missionDays && (account, mission, day) !in s.missionDays
                    then 1 else 0)
            && s.scoredDays <= t.scoredDays && s.missionDays <= t.missionDays
  {
    var identity := (c.missionType, c.identityHash);
    if identity in s.owners && s.owners[identity] != c.account {
    } else {
      var scored := c.occurredAt / SECONDS_PER_DAY;
      var owned := s.(owners := s.owners[identity := c.account]);
      var u := WithMissionDay(owned, spell, c, scored);
      MissionLogged(owned, spell, c, scored, account, mission, day);
      ScoreLogged(u, spell, c, scored, account, day);
      assert Recorded(s, spell, c) == WithScoredDay(u, spell, c, scored);
    }
  }

  /** In every run each logged run is also logged as a score, so on the boards built from the contract's own logs,
      with whatever completions, handles and visibility beside them, the lock score is at least the running score. */
  lemma ChainCoversRunning(spell: string -> string, cs: seq<Completion>, events: Events, weekStart: int, cmp: Compare,
                           key: string)
    requires Spells(spell, cs)
    requires events.scores == After(spell, cs).scores && events.missions == After(spell, cs).missions
    ensures RunsOn(events.missions, key) <= DaysOn(events.scores, key)
    ensures ScoresOf(events, Running, weekStart, cmp, key).Some? ==>
              ScoresOf(events, Running, weekStart, cmp, key).value.lock
              >= ScoresOf(events, Running, weekStart, cmp, key).value.allTime
  {
    var s := After(spell, cs);
    AfterConsistent(spell, cs);
    forall d | d in RunsOn(s.missions, key) ensures d in DaysOn(s.scores, key) {
      var e :| e in s.missions && e.missionType == RUNNING_MISSION_TYPE && ToLower(e.account) == key && e.utcDay == d;
      assert (ToLower(e.account), e.missionType, e.utcDay) in s.missionDays;
      assert (key, d) in s.scoredDays;
      assert d in DaysScored(s, key);
    }
    LockScoreCoversScoredRuns(events, weekStart, cmp, key);
  }

  /** And without completions from the second escrow it is the very score the contract keeps. */
  lemma ChainLockScore(spell: string -> string, cs: seq<Completion>, events: Events, filter: Filter, weekStart: int,
                       cmp: Compare, key: string)
    requires Spells(spell, cs)
    requires events.scores == After(spell, cs).scores && events.completions == []
    ensures ScoresOf(events, filter, weekStart, cmp, key).Some? ==>
              ScoresOf(events, filter, weekStart, cmp, key).value.lock == LockScore(After(spell, cs), key)
  {
    AfterConsistent(spell, cs);
    assert DaysOn([], key) == {};
    assert Verified(events, Overall, key) == DaysOn(events.scores, key);
    TenPointsPerDay(events, filter, weekStart, cmp, key);
  }
}
