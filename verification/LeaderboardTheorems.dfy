/** What the leaderboards promise their players: scores, order, ranks, and independence from how events are read. */
module LeaderboardTheorems {
  import opened Prelude
  import opened Text
  import opened LogScan
  import opened DayTables
  import opened Leaderboard

  // --- looking an account up on a board ----------------------------------------------------------------

  function Key(e: Entry): string {
    ToLower(e.account)
  }

  predicate OnePerAccount(s: seq<Entry>) {
    forall i, j :: 0 <= i < j < |s| ==> Key(s[i]) != Key(s[j])
  }

  /** The entry of an account, if it is on the board. */
  function Standing(s: seq<Entry>, key: string): Option<Entry> {
    if s == [] then None
    else if Key(s[|s| - 1]) == key then Some(s[|s| - 1]) else Standing(s[..|s| - 1], key)
  }

  lemma {:induction false} StandingNone(s: seq<Entry>, key: string)
    ensures Standing(s, key).None? <==> forall i :: 0 <= i < |s| ==> Key(s[i]) != key
  {
    if s == [] {
    } else {
      StandingNone(s[..|s| - 1], key);
    }
  }

  lemma {:induction false} StandingConcat(a: seq<Entry>, b: seq<Entry>, key: string)
    ensures Standing(a + b, key) == if Standing(b, key).Some? then Standing(b, key) else Standing(a, key)
    decreases |b|
  {
    if b == [] {
      assert a + b == a;
    } else {
      StandingConcat(a, b[..|b| - 1], key);
      assert (a + b)[..|a + b| - 1] == a + b[..|b| - 1];
    }
  }

  /** Putting an entry with a new account anywhere into a board. */
  lemma InsertStanding(a: seq<Entry>, x: Entry, b: seq<Entry>, key: string)
    requires OnePerAccount(a + b) && Standing(a + b, Key(x)).None?
    ensures OnePerAccount(a + [x] + b)
    ensures Standing(a + [x] + b, key) == if Key(x) == key then Some(x) else Standing(a + b, key)
  {
    StandingNone(a + b, Key(x));
    forall i | 0 <= i < |a| ensures Key(a[i]) != Key(x) { assert (a + b)[i] == a[i]; }
    forall i | 0 <= i < |b| ensures Key(b[i]) != Key(x) { assert (a + b)[|a| + i] == b[i]; }
    var s := a + [x] + b;
    forall i, j | 0 <= i < j < |s| ensures Key(s[i]) != Key(s[j]) {
      var u, v := if i <= |a| then i else i - 1, if j <= |a| then j else j - 1;
      if i != |a| && j != |a| { assert s[i] == (a + b)[u] && s[j] == (a + b)[v]; }
    }
    assert s == a + ([x] + b);
    StandingConcat(a, b, key);
    StandingConcat([x], b, key);
    StandingConcat(a, [x] + b, key);
    StandingNone(b, Key(x));
    assert Standing([x], key) == if Key(x) == key then Some(x) else None by { assert [x][..0] == []; }
  }

  /** Sorting moves entries and does nothing else. */
  lemma {:induction false} SortedStanding(cmp: Compare, s: seq<Entry>, key: string)
    requires OnePerAccount(s)
    ensures OnePerAccount(Sorted(cmp, s)) && Standing(Sorted(cmp, s), key) == Standing(s, key)
  {
    if s == [] {
    } else {
      var x := s[|s| - 1];
      var before := Sorted(cmp, s[..|s| - 1]);
      SortedStanding(cmp, s[..|s| - 1], key);
      SortedStanding(cmp, s[..|s| - 1], Key(x));
      StandingNone(s[..|s| - 1], Key(x));
      var p := Place(cmp, before, x);
      assert before == before[..p] + before[p..];
      InsertStanding(before[..p], x, before[p..], key);
    }
  }

  // --- what is on a board ------------------------------------------------------------------------------

  /** The entry an account deserves, told from the events alone. */
  ghost function Deserved(events: Events, filter: Filter, weekStart: int, key: string): Option<Entry> {
    var spelling := LastSpelling(events, key);
    var handle := LastPut(events.handles, HandleAccount, HandleOf, key);
    Row(if spelling.Some? then spelling.value else key, Shown(handle, LastHides(events.visibility, key)),
        Verified(events, filter, key), Verified(events, Overall, key), weekStart)
  }

  ghost predicate Folded(accounts: map<string, string>) {
    forall k :: k in accounts ==> ToLower(accounts[k]) == k
  }

  /** Cells whose entries, where present, belong to these keys. */
  predicate Keyed(cells: seq<Option<Entry>>, order: seq<string>) {
    |cells| == |order| && forall i :: 0 <= i < |cells| && cells[i].Some? ==> Key(cells[i].value) == order[i]
  }

  lemma {:induction false} PresentStanding(cells: seq<Option<Entry>>, order: seq<string>, key: string)
    requires Keyed(cells, order) && forall i, j :: 0 <= i < j < |order| ==> order[i] != order[j]
    ensures key !in order ==> Standing(Present(cells), key).None?
    ensures forall i :: 0 <= i < |order| && order[i] == key ==> Standing(Present(cells), key) == cells[i]
  {
    if cells == [] {
    } else {
      var n := |cells| - 1;
      var before := Present(cells[..n]);
      PresentStanding(cells[..n], order[..n], key);
      assert order == order[..n] + [order[n]];
      if cells[n].Some? {
        StandingAppend(before, cells[n].value, key);
      } else {
        assert Present(cells) == before + [] == before;
      }
    }
  }

  lemma {:induction false} PresentOnePerAccount(cells: seq<Option<Entry>>, order: seq<string>)
    requires Keyed(cells, order) && forall i, j :: 0 <= i < j < |order| ==> order[i] != order[j]
    ensures OnePerAccount(Present(cells))
  {
    if cells == [] {
    } else {
      var n := |cells| - 1;
      PresentOnePerAccount(cells[..n], order[..n]);
      PresentStanding(cells[..n], order[..n], order[n]);
      StandingNone(Present(cells[..n]), order[n]);
    }
  }

  lemma StandingAppend(s: seq<Entry>, x: Entry, key: string)
    ensures Standing(s + [x], key) == if Key(x) == key then Some(x) else Standing(s, key)
  {
    assert (s + [x])[..|s|] == s;
  }

  lemma SpellingsAreFolded(events: Events)
    ensures Folded(Spellings(events))
  {
    forall k | k in Spellings(events) ensures ToLower(Spellings(events)[k]) == k { SpellingsAreLast(events, k); }
  }

  /** Each account is on a board once, with the entry it deserves, or not at all. */
  lemma BoardShowsDeserved(events: Events, filter: Filter, weekStart: int, cmp: Compare, key: string)
    ensures OnePerAccount(Board(events, filter, weekStart, cmp))
    ensures Standing(Board(events, filter, weekStart, cmp), key) == Deserved(events, filter, weekStart, key)
  {
    var order := TableOf(events, filter).order;
    TableIsWellFormed(events, filter);
    CellsAreKeyed(events, filter, weekStart);
    PresentStanding(BoardCells(events, filter, weekStart), order, key);
    PresentOnePerAccount(BoardCells(events, filter, weekStart), order);
    SortedStanding(cmp, Unsorted(events, filter, weekStart), key);
    TablesAreCovered(events, filter);
    DeservedIsRow(events, filter, weekStart, key);
    if key in order {
      var i :| 0 <= i < |order| && order[i] == key;
      assert BoardCells(events, filter, weekStart)[i] == Deserved(events, filter, weekStart, key);
    }
  }

  ghost function BoardCells(events: Events, filter: Filter, weekStart: int): seq<Option<Entry>> {
    TablesAreCovered(events, filter);
    Cells(TableOf(events, filter), TableOf(events, Overall), Handles(events), HiddenAfter(events.visibility),
          Spellings(events), weekStart)
  }

  lemma CellsAreKeyed(events: Events, filter: Filter, weekStart: int)
    ensures Keyed(BoardCells(events, filter, weekStart), TableOf(events, filter).order)
  {
    TablesAreCovered(events, filter);
    SpellingsAreFolded(events);
  }

  lemma DeservedIsRow(events: Events, filter: Filter, weekStart: int, key: string)
    requires Covered(TableOf(events, filter), Spellings(events)) && WellFormed(TableOf(events, filter))
    ensures Deserved(events, filter, weekStart, key)
            == if key in TableOf(events, filter).order then
                 RowAt(TableOf(events, filter), TableOf(events, Overall), Handles(events),
                       HiddenAfter(events.visibility), Spellings(events), weekStart, key)
               else None
  {
    TableIsVerified(events, filter, key);
    TableIsVerified(events, Overall, key);
    SpellingsAreLast(events, key);
    PutsKeepLast(map[], events.handles, HandleAccount, HandleOf, key);
    HiddenIsLast(events.visibility, key);
    if key !in TableOf(events, filter).order {
      assert InWeek({}, weekStart) == {};
    }
  }

  // --- what an entry says ------------------------------------------------------------------------------

  /** The account is written as in the last event of the last list that names it. */
  ghost predicate SpelledAsLast(events: Events, key: string, account: string) {
    var noVisibility := Silent(events.visibility, VisibilityAccount, key);
    var noHandle := noVisibility && Silent(events.handles, HandleAccount, key);
    var noCompletion := noHandle && Silent(events.completions, ScoreAccount, key);
    var noMission := noCompletion && Silent(events.missions, MissionAccount, key);
    && (forall i: nat :: LastOf(events.visibility, VisibilityAccount, key, i) ==>
          account == events.visibility[i].account)
    && (noVisibility ==>
          forall i: nat :: LastOf(events.handles, HandleAccount, key, i) ==> account == events.handles[i].account)
    && (noHandle ==>
          forall i: nat :: LastOf(events.completions, ScoreAccount, key, i) ==>
            account == events.completions[i].account)
    && (noCompletion ==>
          forall i: nat :: LastOf(events.missions, MissionAccount, key, i) ==> account == events.missions[i].account)
    && (noMission ==>
          forall i: nat :: LastOf(events.scores, ScoreAccount, key, i) ==> account == events.scores[i].account)
  }

  lemma LastPutSays<T>(events: seq<T>, account: T -> string, value: T -> string, key: string, i: nat)
    requires LastOf(events, account, key, i)
    ensures LastPut(events, account, value, key) == Some(value(events[i])) && !Silent(events, account, key)
  {
    LastPutIsLast(events, account, value, key);
  }

  lemma LastSpellingIsLast(events: Events, key: string)
    requires LastSpelling(events, key).Some?
    ensures SpelledAsLast(events, key, LastSpelling(events, key).value)
  {
    LastPutIsLast(events.scores, ScoreAccount, ScoreAccount, key);
    LastPutIsLast(events.missions, MissionAccount, MissionAccount, key);
    LastPutIsLast(events.completions, ScoreAccount, ScoreAccount, key);
    LastPutIsLast(events.handles, HandleAccount, HandleAccount, key);
    LastPutIsLast(events.visibility, VisibilityAccount, VisibilityAccount, key);
  }

  /** A handle is public exactly if the last handle event of the account sets it, it is not empty, and the last
      visibility event of the account, if any, does not hide the profile. */
  ghost predicate Public(events: Events, key: string, handle: string) {
    && handle != ""
    && (exists i: nat :: LastOf(events.handles, HandleAccount, key, i) && events.handles[i].handle == handle)
    && (forall i: nat :: LastOf(events.visibility, VisibilityAccount, key, i) ==> !events.visibility[i].hidden)
  }

  lemma ShownIsPublic(events: Events, key: string, handle: string)
    ensures Shown(LastPut(events.handles, HandleAccount, HandleOf, key), LastHides(events.visibility, key))
            == Some(handle)
            <==> Public(events, key, handle)
  {
    LastPutIsLast(events.handles, HandleAccount, HandleOf, key);
    LastHidesIsLast(events.visibility, key);
    if i: nat :| LastOf(events.handles, HandleAccount, key, i) {
      LastPutSays(events.handles, HandleAccount, HandleOf, key, i);
    }
  }

  /** Whatever stands on a board says who it is, what is public of it, and how many days it rests on. */
  lemma EntryTells(events: Events, filter: Filter, weekStart: int, cmp: Compare, key: string, e: Entry)
    requires Standing(Board(events, filter, weekStart, cmp), key) == Some(e)
    ensures ToLower(e.account) == key && SpelledAsLast(events, key, e.account)
    ensures forall handle :: e.handle == Some(handle) <==> Public(events, key, handle)
    ensures var (days, overall) := (Verified(events, filter, key), Verified(events, Overall, key));
            && e.weeklyVerifiedDays == |set d | d in days && weekStart <= d < weekStart + 7|
            && e.allTimeVerifiedDays == |days|
            && e.weeklyScore == 10 * e.weeklyVerifiedDays && e.allTimeScore == 10 * e.allTimeVerifiedDays
            && e.lockScore == 10 * |overall|
  {
    BoardShowsDeserved(events, filter, weekStart, cmp, key);
    VerifiedIsSpelled(events, filter, key);
    SpellingsAreLast(events, key);
    LastSpellingIsLast(events, key);
    forall handle ensures e.handle == Some(handle) <==> Public(events, key, handle) {
      ShownIsPublic(events, key, handle);
    }
  }

  // --- scores ------------------------------------------------------------------------------------------

  /** Who was credited with which day. */
  ghost function Credits(events: seq<ScoreDay>): set<(string, int)> {
    set e | e in events :: (ToLower(e.account), e.utcDay)
  }

  ghost function RunCredits(events: seq<MissionDay>): set<(string, int)> {
    set e | e in events && e.missionType == RUNNING_MISSION_TYPE :: (ToLower(e.account), e.utcDay)
  }

  datatype Scores = Scores(weekly: int, allTime: int, lock: int)

  function EntryScores(e: Option<Entry>): Option<Scores> {
    if e.None? then None else Some(Scores(e.value.weeklyScore, e.value.allTimeScore, e.value.lockScore))
  }

  ghost function ScoresOf(events: Events, filter: Filter, weekStart: int, cmp: Compare, key: string): Option<Scores> {
    EntryScores(Standing(Board(events, filter, weekStart, cmp), key))
  }

  lemma DaysOnFromCredits(a: seq<ScoreDay>, b: seq<ScoreDay>, key: string)
    requires Credits(a) <= Credits(b)
    ensures DaysOn(a, key) <= DaysOn(b, key)
  {
    forall d | d in DaysOn(a, key) ensures d in DaysOn(b, key) {
      var e :| e in a && ToLower(e.account) == key && e.utcDay == d;
      assert (key, d) in Credits(a);
      var f :| f in b && (ToLower(f.account), f.utcDay) == (key, d);
    }
  }

  lemma RunsOnFromCredits(a: seq<MissionDay>, b: seq<MissionDay>, key: string)
    requires RunCredits(a) <= RunCredits(b)
    ensures RunsOn(a, key) <= RunsOn(b, key)
  {
    forall d | d in RunsOn(a, key) ensures d in RunsOn(b, key) {
      var e :| e in a && e.missionType == RUNNING_MISSION_TYPE && ToLower(e.account) == key && e.utcDay == d;
      assert (key, d) in RunCredits(a);
      var f :| f in b && f.missionType == RUNNING_MISSION_TYPE && (ToLower(f.account), f.utcDay) == (key, d);
    }
  }

  lemma SmallerSet(a: set<int>, b: set<int>)
    requires a <= b
    ensures |a| <= |b|
  {
    assert b == a + (b - a);
    assert |b| == |a| + |b - a|;
  }

  lemma WeekHasSevenDays(days: set<int>, weekStart: int)
    ensures |InWeek(days, weekStart)| <= 7
  {
    var week := {weekStart, weekStart + 1, weekStart + 2, weekStart + 3, weekStart + 4, weekStart + 5, weekStart + 6};
    SmallerSet(InWeek(days, weekStart), week);
  }

  /** The scores of an account with these verified days. */
  function Tally(days: set<int>, overall: set<int>, weekStart: int): Option<Scores> {
    var weekly := |InWeek(days, weekStart)|;
    if weekly == 0 then None else Some(Scores(10 * weekly, 10 * |days|, 10 * |overall|))
  }

  /** An account is on a board exactly if it has a verified day there this week; it scores ten points for each,
      at most seventy, and ten for each of its days in all. */
  lemma TenPointsPerDay(events: Events, filter: Filter, weekStart: int, cmp: Compare, key: string)
    ensures ScoresOf(events, filter, weekStart, cmp, key)
            == Tally(Verified(events, filter, key), Verified(events, Overall, key), weekStart)
    ensures var scores := ScoresOf(events, filter, weekStart, cmp, key);
            scores.Some? ==> 10 <= scores.value.weekly <= 70 && scores.value.weekly <= scores.value.allTime
  {
    BoardShowsDeserved(events, filter, weekStart, cmp, key);
    DeservedTally(events, filter, weekStart, key);
    TallyBounds(Verified(events, filter, key), Verified(events, Overall, key), weekStart);
  }

  lemma RowTally(account: string, handle: Option<string>, days: set<int>, overall: set<int>, weekStart: int)
    ensures EntryScores(Row(account, handle, days, overall, weekStart)) == Tally(days, overall, weekStart)
  {
  }

  lemma DeservedTally(events: Events, filter: Filter, weekStart: int, key: string)
    ensures EntryScores(Deserved(events, filter, weekStart, key))
            == Tally(Verified(events, filter, key), Verified(events, Overall, key), weekStart)
  {
    var spelling := LastSpelling(events, key);
    var handle := LastPut(events.handles, HandleAccount, HandleOf, key);
    RowTally(if spelling.Some? then spelling.value else key, Shown(handle, LastHides(events.visibility, key)),
             Verified(events, filter, key), Verified(events, Overall, key), weekStart);
  }

  lemma TallyBounds(days: set<int>, overall: set<int>, weekStart: int)
    ensures var scores := Tally(days, overall, weekStart);
            scores.Some? ==> 10 <= scores.value.weekly <= 70 && scores.value.weekly <= scores.value.allTime
  {
    WeekHasSevenDays(days, weekStart);
    SmallerSet(InWeek(days, weekStart), days);
  }

  lemma SameCreditsSameDays(a: Events, b: Events, filter: Filter, key: string)
    requires Credits(a.scores) == Credits(b.scores) && RunCredits(a.missions) == RunCredits(b.missions)
    requires Credits(a.completions) == Credits(b.completions)
    ensures Verified(a, filter, key) == Verified(b, filter, key)
  {
    match filter
    case Running =>
      RunsOnFromCredits(a.missions, b.missions, key);
      RunsOnFromCredits(b.missions, a.missions, key);
    case _ =>
      DaysOnFromCredits(a.scores, b.scores, key);
      DaysOnFromCredits(b.scores, a.scores, key);
      DaysOnFromCredits(a.completions, b.completions, key);
      DaysOnFromCredits(b.completions, a.completions, key);
  }

  /** Scores depend only on who was credited with which days: events may come in any order, repeat, or spell
      their account in any case; handles, visibility and the comparison of names make no difference. */
  lemma ScoresIgnoreOrderAndRepeats(a: Events, b: Events, filter: Filter, weekStart: int, cmp: Compare, other: Compare,
                                    key: string)
    requires Credits(a.scores) == Credits(b.scores) && RunCredits(a.missions) == RunCredits(b.missions)
    requires Credits(a.completions) == Credits(b.completions)
    ensures ScoresOf(a, filter, weekStart, cmp, key) == ScoresOf(b, filter, weekStart, other, key)
  {
    TenPointsPerDay(a, filter, weekStart, cmp, key);
    TenPointsPerDay(b, filter, weekStart, other, key);
    SameCreditsSameDays(a, b, filter, key);
    SameCreditsSameDays(a, b, Overall, key);
  }

  /** Every day that counts on the learning board counts overall, so the lock score is at least the board's own. */
  lemma LockScoreCoversLearning(events: Events, filter: Filter, weekStart: int, cmp: Compare, key: string)
    requires filter != Running
    ensures ScoresOf(events, filter, weekStart, cmp, key).Some? ==>
              ScoresOf(events, filter, weekStart, cmp, key).value.lock
              >= ScoresOf(events, filter, weekStart, cmp, key).value.allTime
  {
    TenPointsPerDay(events, filter, weekStart, cmp, key);
    SmallerSet(Verified(events, filter, key), Verified(events, Overall, key));
  }

  /** On the running board it is so exactly for players with no more days of runs than verified days in all. */
  lemma LockScoreCoversRunning(events: Events, weekStart: int, cmp: Compare, key: string)
    ensures ScoresOf(events, Running, weekStart, cmp, key).Some? ==>
              (ScoresOf(events, Running, weekStart, cmp, key).value.lock
               >= ScoresOf(events, Running, weekStart, cmp, key).value.allTime
               <==> |RunsOn(events.missions, key)| <= |Verified(events, Overall, key)|)
  {
    TenPointsPerDay(events, Running, weekStart, cmp, key);
  }

  /** So it is if each of a player's runs also came as a score event. */
  lemma LockScoreCoversScoredRuns(events: Events, weekStart: int, cmp: Compare, key: string)
    requires RunsOn(events.missions, key) <= Verified(events, Overall, key)
    ensures ScoresOf(events, Running, weekStart, cmp, key).Some? ==>
              ScoresOf(events, Running, weekStart, cmp, key).value.lock
              >= ScoresOf(events, Running, weekStart, cmp, key).value.allTime
  {
    SmallerSet(RunsOn(events.missions, key), Verified(events, Overall, key));
    LockScoreCoversRunning(events, weekStart, cmp, key);
  }

  /** The builder itself does not ask for that: made by hand, a run without its score event shows on the running board
      with a lock score of nought. */
  lemma RunWithoutScoreEvent(account: string, day: int, weekStart: int, cmp: Compare)
    requires IsAddress(account) && 0 <= day <= 9007199254740991 && weekStart <= day < weekStart + 7
    ensures var events := NO_EVENTS.(missions := [MissionDay(account, day, 1)]);
            AllValid(events) && ScoresOf(events, Running, weekStart, cmp, ToLower(account)) == Some(Scores(10, 10, 0))
  {
    var run := MissionDay(account, day, RUNNING_MISSION_TYPE);
    var events := NO_EVENTS.(missions := [run]);
    var key := ToLower(account);
    assert run in events.missions;
    assert RunsOn(events.missions, key) == {day};
    assert InWeek({day}, weekStart) == {day};
    assert Verified(events, Overall, key) == {};
    TenPointsPerDay(events, Running, weekStart, cmp, key);
  }

  // --- order -------------------------------------------------------------------------------------------

  /** Weekly score first, then all-time score, then lock score. */
  predicate NotBehind(a: Entry, b: Entry) {
    a.weeklyScore > b.weeklyScore ||
    (a.weeklyScore == b.weeklyScore &&
     (a.allTimeScore > b.allTimeScore || (a.allTimeScore == b.allTimeScore && a.lockScore >= b.lockScore)))
  }

  predicate Ranked(s: seq<Entry>) {
    forall i, j :: 0 <= i < j < |s| ==> NotBehind(s[i], s[j])
  }

  lemma InsertRanked(a: seq<Entry>, x: Entry, b: seq<Entry>)
    requires Ranked(a + b)
    requires forall i :: 0 <= i < |a| ==> NotBehind(a[i], x)
    requires forall i :: 0 <= i < |b| ==> NotBehind(x, b[i])
    ensures Ranked(a + [x] + b)
  {
    var s, r := a + b, a + [x] + b;
    forall i, j | 0 <= i < j < |r| ensures NotBehind(r[i], r[j]) {
      var u, v := if i <= |a| then i else i - 1, if j <= |a| then j else j - 1;
      if i != |a| && j != |a| { assert r[i] == s[u] && r[j] == s[v]; }
    }
  }

  lemma {:induction false} SortedIsRanked(cmp: Compare, s: seq<Entry>)
    ensures Ranked(Sorted(cmp, s))
  {
    if s == [] {
    } else {
      var x := s[|s| - 1];
      var before := Sorted(cmp, s[..|s| - 1]);
      SortedIsRanked(cmp, s[..|s| - 1]);
      var p := Place(cmp, before, x);
      assert before[..p] + before[p..] == before;
      forall i | 0 <= i < p ensures NotBehind(before[i], x) { assert CompareEntries(cmp, x, before[i]) >= 0; }
      forall i | p <= i < |before| ensures NotBehind(x, before[i]) {
        assert NotBehind(x, before[p]);
        assert i == p || NotBehind(before[p], before[i]);
      }
      InsertRanked(before[..p], x, before[p..]);
    }
  }

  /** A comparison of names that is a total preorder. */
  ghost predicate Consistent(cmp: Compare) {
    && (forall a, b :: cmp(a, b) < 0 <==> cmp(b, a) > 0)
    && (forall a, b, c :: cmp(a, b) <= 0 && cmp(b, c) <= 0 ==> cmp(a, c) <= 0)
  }

  predicate InOrder(cmp: Compare, s: seq<Entry>) {
    forall i, j :: 0 <= i < j < |s| ==> CompareEntries(cmp, s[i], s[j]) <= 0
  }

  lemma CompareFlips(cmp: Compare, a: Entry, b: Entry)
    requires Consistent(cmp) && CompareEntries(cmp, a, b) >= 0
    ensures CompareEntries(cmp, b, a) <= 0
  {
    assert cmp(Name(a), Name(b)) < 0 <==> cmp(Name(b), Name(a)) > 0;
  }

  lemma CompareChains(cmp: Compare, a: Entry, b: Entry, c: Entry)
    requires Consistent(cmp) && CompareEntries(cmp, a, b) <= 0 && CompareEntries(cmp, b, c) <= 0
    ensures CompareEntries(cmp, a, c) <= 0
  {
  }

  lemma InsertInOrder(cmp: Compare, a: seq<Entry>, x: Entry, b: seq<Entry>)
    requires InOrder(cmp, a + b)
    requires forall i :: 0 <= i < |a| ==> CompareEntries(cmp, a[i], x) <= 0
    requires forall i :: 0 <= i < |b| ==> CompareEntries(cmp, x, b[i]) <= 0
    ensures InOrder(cmp, a + [x] + b)
  {
    var s, r := a + b, a + [x] + b;
    forall i, j | 0 <= i < j < |r| ensures CompareEntries(cmp, r[i], r[j]) <= 0 {
      var u, v := if i <= |a| then i else i - 1, if j <= |a| then j else j - 1;
      if i != |a| && j != |a| { assert r[i] == s[u] && r[j] == s[v]; }
    }
  }

  /** With consistent name comparison the whole comparison orders the board, names included. */
  lemma {:induction false} SortedInOrder(cmp: Compare, s: seq<Entry>)
    requires Consistent(cmp)
    ensures InOrder(cmp, Sorted(cmp, s))
  {
    if s == [] {
    } else {
      var x := s[|s| - 1];
      var before := Sorted(cmp, s[..|s| - 1]);
      SortedInOrder(cmp, s[..|s| - 1]);
      var p := Place(cmp, before, x);
      assert before[..p] + before[p..] == before;
      forall i | 0 <= i < p ensures CompareEntries(cmp, before[i], x) <= 0 { CompareFlips(cmp, x, before[i]); }
      forall i | p <= i < |before| ensures CompareEntries(cmp, x, before[i]) <= 0 {
        if i > p { CompareChains(cmp, x, before[p], before[i]); }
      }
      InsertInOrder(cmp, before[..p], x, before[p..]);
    }
  }

  /** What a player is sorted by among equals: the handle that is shown, or else the account. */
  lemma EqualScoresByName(cmp: Compare, s: seq<Entry>, i: nat, j: nat)
    requires Consistent(cmp) && i < j < |s|
    ensures var (a, b) := (Sorted(cmp, s)[i], Sorted(cmp, s)[j]);
            var nameA := match a.handle { case Some(h) => if h == "" then a.account else h case None => a.account };
            var nameB := match b.handle { case Some(h) => if h == "" then b.account else h case None => b.account };
            (a.weeklyScore, a.allTimeScore, a.lockScore) == (b.weeklyScore, b.allTimeScore, b.lockScore) ==>
              cmp(nameA, nameB) <= 0
  {
    SortedInOrder(cmp, s);
    assert CompareEntries(cmp, Sorted(cmp, s)[i], Sorted(cmp, s)[j]) <= 0;
  }

  // --- any stable sort gives the board -----------------------------------------------------------------

  /** The entries that compare equal to x, in their order. */
  function Ties(cmp: Compare, s: seq<Entry>, x: Entry): seq<Entry> {
    if s == [] then []
    else (if CompareEntries(cmp, s[0], x) == 0 then [s[0]] else []) + Ties(cmp, s[1..], x)
  }

  /** r is in order and keeps the order of entries that compare equal, as `Array.prototype.sort` must. */
  ghost predicate IsStableSort(cmp: Compare, s: seq<Entry>, r: seq<Entry>) {
    InOrder(cmp, r) && forall x :: Ties(cmp, r, x) == Ties(cmp, s, x)
  }

  lemma CompareSign(cmp: Compare, a: Entry, b: Entry)
    requires Consistent(cmp)
    ensures CompareEntries(cmp, a, b) < 0 <==> CompareEntries(cmp, b, a) > 0
    ensures CompareEntries(cmp, a, a) == 0
  {
    assert cmp(Name(a), Name(b)) < 0 <==> cmp(Name(b), Name(a)) > 0;
    assert cmp(Name(a), Name(a)) < 0 <==> cmp(Name(a), Name(a)) > 0;
    assert cmp(Name(b), Name(a)) < 0 <==> cmp(Name(a), Name(b)) > 0;
  }

  /** What ties with x ties with whatever x ties with. */
  lemma TiesChain(cmp: Compare, a: Entry, x: Entry, y: Entry)
    requires Consistent(cmp) && CompareEntries(cmp, x, y) == 0 && CompareEntries(cmp, a, y) == 0
    ensures CompareEntries(cmp, x, a) == 0
  {
    CompareSign(cmp, a, y);
    CompareSign(cmp, y, a);
    CompareSign(cmp, x, y);
    CompareSign(cmp, x, a);
    CompareSign(cmp, a, x);
    CompareSign(cmp, y, x);
    CompareChains(cmp, x, y, a);
    CompareChains(cmp, a, y, x);
  }

  lemma StrictChains(cmp: Compare, x: Entry, b: Entry, e: Entry)
    requires Consistent(cmp) && CompareEntries(cmp, x, b) < 0 && CompareEntries(cmp, b, e) <= 0
    ensures CompareEntries(cmp, x, e) < 0
  {
    CompareSign(cmp, x, b);
    CompareSign(cmp, x, e);
    CompareSign(cmp, e, x);
    if CompareEntries(cmp, e, x) <= 0 { CompareChains(cmp, b, e, x); }
  }

  lemma {:induction false} TiesConcat(cmp: Compare, a: seq<Entry>, b: seq<Entry>, x: Entry)
    ensures Ties(cmp, a + b, x) == Ties(cmp, a, x) + Ties(cmp, b, x)
  {
    if a == [] {
      assert a + b == b;
    } else {
      assert (a + b)[1..] == a[1..] + b;
      TiesConcat(cmp, a[1..], b, x);
    }
  }

  lemma {:induction false} NoTies(cmp: Compare, s: seq<Entry>, x: Entry)
    requires forall i :: 0 <= i < |s| ==> CompareEntries(cmp, s[i], x) != 0
    ensures Ties(cmp, s, x) == []
  {
    if s == [] {
    } else {
      NoTies(cmp, s[1..], x);
    }
  }

  lemma {:induction false} TiesAreMembers(cmp: Compare, s: seq<Entry>, x: Entry)
    ensures forall e :: e in Ties(cmp, s, x) ==> e in s && CompareEntries(cmp, e, x) == 0
  {
    if s == [] {
    } else {
      TiesAreMembers(cmp, s[1..], x);
    }
  }

  lemma InsertTies(cmp: Compare, a: seq<Entry>, x: Entry, b: seq<Entry>, y: Entry)
    requires CompareEntries(cmp, x, y) == 0 ==> Ties(cmp, b, y) == []
    ensures Ties(cmp, a + [x] + b, y) == Ties(cmp, a + b, y) + Ties(cmp, [x], y)
  {
    TiesConcat(cmp, a, b, y);
    TiesConcat(cmp, a + [x], b, y);
    TiesConcat(cmp, a, [x], y);
    if CompareEntries(cmp, x, y) != 0 { NoTies(cmp, [x], y); }
  }

  /** An entry put where it belongs comes last among those it ties with. */
  lemma PlacedTies(cmp: Compare, s: seq<Entry>, p: nat, x: Entry, y: Entry)
    requires Consistent(cmp) && InOrder(cmp, s) && p <= |s|
    requires p < |s| ==> CompareEntries(cmp, x, s[p]) < 0
    ensures Ties(cmp, s[..p] + [x] + s[p..], y) == Ties(cmp, s, y) + Ties(cmp, [x], y)
  {
    assert s[..p] + s[p..] == s;
    if CompareEntries(cmp, x, y) == 0 { NothingTiesBehind(cmp, s, p, x, y); }
    InsertTies(cmp, s[..p], x, s[p..], y);
  }

  lemma {:induction false} SortedKeepsTies(cmp: Compare, s: seq<Entry>, y: Entry)
    requires Consistent(cmp)
    ensures Ties(cmp, Sorted(cmp, s), y) == Ties(cmp, s, y)
  {
    if s == [] {
    } else {
      var front, x := s[..|s| - 1], s[|s| - 1];
      var before := Sorted(cmp, front);
      var p := Place(cmp, before, x);
      assert Ties(cmp, before[..p] + [x] + before[p..], y) == Ties(cmp, before, y) + Ties(cmp, [x], y) by {
        SortedInOrder(cmp, front);
        PlacedTies(cmp, before, p, x, y);
      }
      SortedKeepsTies(cmp, front, y);
      TiesConcat(cmp, front, [x], y);
      assert s == front + [x];
    }
  }

  /** Behind the place of an entry nothing ties with it. */
  lemma NothingTiesBehind(cmp: Compare, s: seq<Entry>, p: nat, x: Entry, y: Entry)
    requires Consistent(cmp) && InOrder(cmp, s) && p <= |s| && CompareEntries(cmp, x, y) == 0
    requires p < |s| ==> CompareEntries(cmp, x, s[p]) < 0
    ensures Ties(cmp, s[p..], y) == []
  {
    forall i | p <= i < |s| ensures CompareEntries(cmp, s[i], y) != 0 {
      if i > p { StrictChains(cmp, x, s[p], s[i]); }
      if CompareEntries(cmp, s[i], y) == 0 { TiesChain(cmp, s[i], x, y); }
    }
    NoTies(cmp, s[p..], y);
  }

  lemma FirstIsNotBehind(cmp: Compare, s: seq<Entry>, e: Entry)
    requires Consistent(cmp) && InOrder(cmp, s) && e in s
    ensures CompareEntries(cmp, s[0], e) <= 0
  {
    var i :| 0 <= i < |s| && s[i] == e;
    if i == 0 { CompareSign(cmp, e, e); }
  }

  /** The first entries of two stable sorts agree. */
  lemma SameFirst(cmp: Compare, r: seq<Entry>, q: seq<Entry>)
    requires Consistent(cmp) && InOrder(cmp, r) && InOrder(cmp, q) && r != []
    requires forall x :: Ties(cmp, r, x) == Ties(cmp, q, x)
    ensures q != [] && q[0] == r[0]
  {
    CompareSign(cmp, r[0], r[0]);
    TiesAreMembers(cmp, q, r[0]);
    assert Ties(cmp, q, r[0]) == Ties(cmp, r, r[0]) && Ties(cmp, r, r[0])[0] == r[0];
    assert r[0] in Ties(cmp, q, r[0]);
    FirstIsNotBehind(cmp, q, r[0]);
    CompareSign(cmp, q[0], q[0]);
    TiesAreMembers(cmp, r, q[0]);
    assert Ties(cmp, r, q[0]) == Ties(cmp, q, q[0]) && Ties(cmp, q, q[0])[0] == q[0];
    assert q[0] in Ties(cmp, r, q[0]);
    FirstIsNotBehind(cmp, r, q[0]);
    CompareSign(cmp, r[0], q[0]);
    CompareSign(cmp, q[0], r[0]);
  }

  lemma RestTies(cmp: Compare, s: seq<Entry>, x: Entry)
    requires s != []
    ensures var n := if CompareEntries(cmp, s[0], x) == 0 then 1 else 0;
            n <= |Ties(cmp, s, x)| && Ties(cmp, s[1..], x) == Ties(cmp, s, x)[n..]
  {
  }

  lemma {:induction false} StableSortsAgree(cmp: Compare, r: seq<Entry>, q: seq<Entry>)
    requires Consistent(cmp) && InOrder(cmp, r) && InOrder(cmp, q)
    requires forall x :: Ties(cmp, r, x) == Ties(cmp, q, x)
    ensures r == q
  {
    if r == [] {
      if q != [] { SameFirst(cmp, q, r); }
    } else {
      SameFirst(cmp, r, q);
      forall x ensures Ties(cmp, r[1..], x) == Ties(cmp, q[1..], x) {
        assert Ties(cmp, r, x) == Ties(cmp, q, x);
        RestTies(cmp, r, x);
        RestTies(cmp, q, x);
      }
      StableSortsAgree(cmp, r[1..], q[1..]);
      assert r == [r[0]] + r[1..] && q == [q[0]] + q[1..];
    }
  }

  /** When names compare consistently, whatever stable sort an engine uses yields exactly the modelled board. */
  lemma AnyStableSortIsSorted(cmp: Compare, s: seq<Entry>, r: seq<Entry>)
    requires Consistent(cmp)
    ensures IsStableSort(cmp, s, r) <==> r == Sorted(cmp, s)
  {
    SortedInOrder(cmp, s);
    forall x ensures Ties(cmp, Sorted(cmp, s), x) == Ties(cmp, s, x) { SortedKeepsTies(cmp, s, x); }
    if IsStableSort(cmp, s, r) { StableSortsAgree(cmp, r, Sorted(cmp, s)); }
  }

  // --- ranks and what is displayed ---------------------------------------------------------------------

  /** `entries.findIndex(entry => entry.weeklyScore === score)`, counted from `from`. */
  function FindScore(entries: seq<Entry>, score: int, from: nat): int
    requires from <= |entries|
    decreases |entries| - from
  {
    if from == |entries| then -1 else if entries[from].weeklyScore == score then from
    else FindScore(entries, score, from + 1)
  }

  function CompetitionRank(entries: seq<Entry>, index: nat): int
    requires index < |entries|
  {
    if index == 0 then 1 else FindScore(entries, entries[index].weeklyScore, 0) + 1
  }

  /** How many entries beat a weekly score. */
  function Beating(entries: seq<Entry>, score: int): nat {
    if entries == [] then 0
    else Beating(entries[..|entries| - 1], score) + if entries[|entries| - 1].weeklyScore > score then 1 else 0
  }

  /** `shown` is the board cut off after `limit` entries, except that it goes on through those tied with the last. */
  predicate Displayed(ranked: seq<Entry>, limit: nat, shown: seq<Entry>)
    requires limit > 0
  {
    && shown <= ranked
    && (|ranked| <= limit ==> shown == ranked)
    && (|ranked| > limit ==>
          && |shown| >= limit
          && (forall i :: limit <= i < |shown| ==> shown[i].weeklyScore == ranked[limit - 1].weeklyScore)
          && (|shown| < |ranked| ==> ranked[|shown|].weeklyScore != ranked[limit - 1].weeklyScore))
  }

  /** The `entries` of the page: six on the home page, fifty on the full one. */
  method DisplayedEntries(ranked: seq<Entry>, full: bool) returns (shown: seq<Entry>)
    ensures Displayed(ranked, if full then 50 else 6, shown)
  {
    var limit := if full then 50 else 6;
    if |ranked| <= limit { return ranked; }
    var cutoffScore := ranked[limit - 1].weeklyScore;
    var end := limit;
    while end < |ranked| && ranked[end].weeklyScore == cutoffScore
      invariant limit <= end <= |ranked|
      invariant forall i :: limit <= i < end ==> ranked[i].weeklyScore == cutoffScore
    {
      end := end + 1;
    }
    return ranked[..end];
  }

  lemma {:induction false} BeatingIsPrefix(ranked: seq<Entry>, score: int, first: nat)
    requires Ranked(ranked) && first <= |ranked|
    requires forall i :: 0 <= i < first ==> ranked[i].weeklyScore > score
    requires first < |ranked| ==> ranked[first].weeklyScore <= score
    ensures Beating(ranked, score) == first
  {
    if ranked == [] {
    } else {
      var n := |ranked| - 1;
      if first == |ranked| {
        BeatingIsPrefix(ranked[..n], score, n);
      } else {
        assert first < n ==> NotBehind(ranked[first], ranked[n]);
        BeatingIsPrefix(ranked[..n], score, first);
      }
    }
  }

  lemma {:induction false} FindScoreIsFirst(entries: seq<Entry>, score: int, from: nat, index: nat)
    requires from <= index < |entries| && entries[index].weeklyScore == score
    ensures from <= FindScore(entries, score, from) <= index
    ensures entries[FindScore(entries, score, from)].weeklyScore == score
    ensures forall i :: from <= i < FindScore(entries, score, from) ==> entries[i].weeklyScore != score
    decreases |entries| - from
  {
    if entries[from].weeklyScore == score {
    } else {
      FindScoreIsFirst(entries, score, from + 1, index);
    }
  }

  /** A displayed rank is one more than the number of entries, on the whole board, with a higher weekly score;
      and whoever is not displayed scored less than everyone who is. */
  lemma RankCountsBetter(ranked: seq<Entry>, limit: nat, shown: seq<Entry>, index: nat)
    requires Ranked(ranked) && limit > 0 && Displayed(ranked, limit, shown) && index < |shown|
    ensures CompetitionRank(shown, index) == 1 + Beating(ranked, shown[index].weeklyScore)
    ensures forall j :: |shown| <= j < |ranked| ==> ranked[j].weeklyScore < shown[index].weeklyScore
  {
    var score := shown[index].weeklyScore;
    FindScoreIsFirst(shown, score, 0, index);
    var first := if index == 0 then 0 else FindScore(shown, score, 0);
    forall i | 0 <= i < first ensures ranked[i].weeklyScore > score {
      assert shown[i] == ranked[i] && NotBehind(ranked[i], ranked[first]);
    }
    assert ranked[first] == shown[first];
    BeatingIsPrefix(ranked, score, first);
    OmittedScoreLess(ranked, limit, shown, index);
  }

  lemma OmittedScoreLess(ranked: seq<Entry>, limit: nat, shown: seq<Entry>, index: nat)
    requires Ranked(ranked) && limit > 0 && Displayed(ranked, limit, shown) && index < |shown|
    ensures forall j :: |shown| <= j < |ranked| ==> ranked[j].weeklyScore < shown[index].weeklyScore
  {
    forall j | |shown| <= j < |ranked| ensures ranked[j].weeklyScore < shown[index].weeklyScore {
      var next := |shown|;
      assert shown[index] == ranked[index];
      assert next == j || NotBehind(ranked[next], ranked[j]);
      assert NotBehind(ranked[limit - 1], ranked[next]);
      assert index < limit - 1 ==> NotBehind(ranked[index], ranked[limit - 1]);
    }
  }

  /** So it is on every board, whatever the events and however names compare. */
  lemma BoardRanks(events: Events, filter: Filter, weekStart: int, cmp: Compare, limit: nat, shown: seq<Entry>,
                   index: nat)
    requires limit > 0 && Displayed(Board(events, filter, weekStart, cmp), limit, shown) && index < |shown|
    ensures CompetitionRank(shown, index)
            == 1 + Beating(Board(events, filter, weekStart, cmp), shown[index].weeklyScore)
    ensures var board := Board(events, filter, weekStart, cmp);
            forall j :: |shown| <= j < |board| ==> board[j].weeklyScore < shown[index].weeklyScore
  {
    SortedIsRanked(cmp, Unsorted(events, filter, weekStart));
    RankCountsBetter(Board(events, filter, weekStart, cmp), limit, shown, index);
  }

  // --- from the chain to the boards --------------------------------------------------------------------

  /** All events since deployment, with the completions of the second escrow if there is one. */
  function AllSince(read: (int, int) -> Events, deployment: int, logs: (int, int) -> seq<CompletionLog>,
                    blockTime: int -> int, second: Option<int>, latest: int): Events
  {
    var events := if deployment > latest then NO_EVENTS else read(deployment, latest);
    var completions := if second.None? || second.value > latest then []
                       else CompletionEvents(logs(second.value, latest), blockTime);
    events.(completions := events.completions + completions)
  }

  /** `loadLeaderboard`, with the second escrow configured or not. However often the provider refuses a range,
      a response is the one for all events since deployment. */
  method LoadLeaderboard(read: (int, int) -> Events, serves: Serves, deployment: int,
                         logs: (int, int) -> seq<CompletionLog>, servesLogs: Serves, blockTime: int -> int,
                         second: Option<int>, latest: int, now: int, cmp: Compare)
    returns (r: Result<Boards, ()>)
    ensures Additive(read, Append) && Additive(logs, Concat) ==>
              var whole := AllSince(read, deployment, logs, blockTime, second, latest);
              var start := UtcWeekStartDay(now);
              && (r.Ok? <==> Readable(serves, deployment, latest)
                             && (second.Some? ==> Readable(servesLogs, second.value, latest))
                             && AllValid(whole) && ShowsAsDates(start))
              && (r.Ok? ==> r.value == AllBoards(whole, start, cmp))
  {
    var scanned := ReadAllEvents(read, serves, deployment, latest);
    if scanned.Err? { return Err(()); }
    var completions: seq<ScoreDay> := [];
    if second.Some? {
      var readCompletions := (a, b) => CompletionEvents(logs(a, b), blockTime);
      var more := ReadAllCompletions(readCompletions, servesLogs, second.value, latest);
      if more.Err? { return Err(()); }
      completions := more.value;
      if Additive(logs, Concat) && second.value <= latest {
        CompletionScanIsWhole(logs, blockTime, second.value, latest);
      }
    }
    if Additive(read, Append) && deployment <= latest { ScanReturnsWholeRange(read, deployment, latest); }
    var events := scanned.value;
    r := BuildSocialLeaderboards(events.(completions := events.completions + completions), now, cmp);
  }
}
