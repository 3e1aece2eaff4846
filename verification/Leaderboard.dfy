/** Building the three weekly leaderboards (src/social-score.ts). */
module Leaderboard {
  import opened Prelude
  import opened Text
  import opened LogScan
  import opened DayTables

  const LOCK_SCORE_PER_VERIFIED_DAY := 10
  const DAY_MS := 86400000
  /** The last day before and after the epoch that a JavaScript date can show. */
  const MAX_DATE_DAY := 100000000

  // --- the week ----------------------------------------------------------------------------------------

  /** The `%` operator of JavaScript, whose result has the sign of the dividend. */
  function Rem(a: int, b: int): int
    requires b > 0
  {
    if a >= 0 then a % b else -((-a) % b)
  }

  /** The Monday on or before a time: day 0 of the epoch was a Thursday. */
  function UtcWeekStartDay(now: int): (start: int)
    ensures start * DAY_MS <= now < (start + 7) * DAY_MS
    ensures (start + 3) % 7 == 0
  {
    var day := now / DAY_MS;
    var daysSinceMonday := Rem(Rem(day + 3, 7) + 7, 7);
    day - daysSinceMonday
  }

  // --- entries -----------------------------------------------------------------------------------------

  datatype Entry = Entry(
    account: string,
    handle: Option<string>,
    weeklyScore: int,
    weeklyVerifiedDays: int,
    allTimeScore: int,
    allTimeVerifiedDays: int,
    lockScore: int)

  function InWeek(days: set<int>, weekStart: int): set<int> {
    set d | d in days && weekStart <= d < weekStart + 7
  }

  /** The row of one account, absent without a verified day this week. */
  function Row(account: string, handle: Option<string>, days: set<int>, overall: set<int>, weekStart: int)
    : Option<Entry>
  {
    var weekly := |InWeek(days, weekStart)|;
    if weekly == 0 then None
    else Some(Entry(account, handle, weekly * LOCK_SCORE_PER_VERIFIED_DAY, weekly,
                    |days| * LOCK_SCORE_PER_VERIFIED_DAY, |days|, |overall| * LOCK_SCORE_PER_VERIFIED_DAY))
  }

  /** A hidden or empty handle is shown as none. */
  function Shown(handle: Option<string>, hidden: bool): Option<string> {
    if hidden || handle == Some("") then None else handle
  }

  /** What `localeCompare` answers: negative, zero or positive. */
  type Compare = (string, string) -> int

  function Name(e: Entry): string {
    if e.handle.Some? && e.handle.value != "" then e.handle.value else e.account
  }

  function CompareEntries(cmp: Compare, left: Entry, right: Entry): int {
    if right.weeklyScore != left.weeklyScore then right.weeklyScore - left.weeklyScore
    else if right.allTimeScore != left.allTimeScore then right.allTimeScore - left.allTimeScore
    else if right.lockScore != left.lockScore then right.lockScore - left.lockScore
    else cmp(Name(left), Name(right))
  }

  /** Where a stable sort puts an entry: before the first that it beats, after those it ties with. */
  function Place(cmp: Compare, s: seq<Entry>, x: Entry): (p: nat)
    ensures p <= |s|
    ensures forall i :: 0 <= i < p ==> CompareEntries(cmp, x, s[i]) >= 0
    ensures p < |s| ==> CompareEntries(cmp, x, s[p]) < 0
  {
    if s == [] || CompareEntries(cmp, x, s[0]) < 0 then 0 else 1 + Place(cmp, s[1..], x)
  }

  /** `entries.sort(compare)`. */
  function Sorted(cmp: Compare, s: seq<Entry>): (r: seq<Entry>)
    ensures |r| == |s|
  {
    if s == [] then []
    else
      var before := Sorted(cmp, s[..|s| - 1]);
      var x := s[|s| - 1];
      var p := Place(cmp, before, x);
      before[..p] + [x] + before[p..]
  }

  /** The tables cover every account they list. */
  predicate Covered(table: Days, accounts: map<string, string>) {
    forall i :: 0 <= i < |table.order| ==> table.order[i] in table.days && table.order[i] in accounts
  }

  function RowAt(table: Days, overall: Days, handles: map<string, string>, hidden: set<string>,
                 accounts: map<string, string>, weekStart: int, key: string): Option<Entry>
    requires key in accounts
  {
    Row(accounts[key], Shown(Get(handles, key), key in hidden), At(table, key), At(overall, key), weekStart)
  }

  /** The row of each account of a table, in the table's order. */
  function Cells(table: Days, overall: Days, handles: map<string, string>, hidden: set<string>,
                 accounts: map<string, string>, weekStart: int): seq<Option<Entry>>
    requires Covered(table, accounts)
  {
    seq(|table.order|, i requires 0 <= i < |table.order| =>
      RowAt(table, overall, handles, hidden, accounts, weekStart, table.order[i]))
  }

  function Present(cells: seq<Option<Entry>>): seq<Entry> {
    if cells == [] then []
    else
      var last := cells[|cells| - 1];
      Present(cells[..|cells| - 1]) + if last.Some? then [last.value] else []
  }

  method BuildEntries(table: DayMap, overall: DayMap, handles: map<string, string>, hidden: set<string>,
                      accounts: map<string, string>, weekStart: int, cmp: Compare) returns (r: seq<Entry>)
    requires Covered(table.Contents(), accounts)
    ensures r == Sorted(cmp, Present(Cells(table.Contents(), overall.Contents(), handles, hidden, accounts, weekStart)))
  {
    ghost var cells := Cells(table.Contents(), overall.Contents(), handles, hidden, accounts, weekStart);
    var entries: seq<Entry> := [];
    for n := 0 to |table.order|
      invariant entries == Present(cells[..n])
    {
      assert cells[..n + 1][..n] == cells[..n];
      var key := table.order[n];
      var days := table.days[key];
      var weekly := |set d | d in days && weekStart <= d < weekStart + 7|;
      if weekly == 0 { continue; }
      var overallDays := if key in overall.days then |overall.days[key]| else 0;
      var handle := if key in hidden || key !in handles || handles[key] == "" then None else Some(handles[key]);
      entries := entries + [Entry(accounts[key], handle, weekly * LOCK_SCORE_PER_VERIFIED_DAY, weekly,
                                  |days| * LOCK_SCORE_PER_VERIFIED_DAY, |days|,
                                  overallDays * LOCK_SCORE_PER_VERIFIED_DAY)];
    }
    assert cells[..|cells|] == cells;
    r := Sorted(cmp, entries);
  }

  // --- the boards --------------------------------------------------------------------------------------

  datatype Boards = Boards(startUtcDay: int, endUtcDayExclusive: int,
                           overall: seq<Entry>, running: seq<Entry>, learning: seq<Entry>)

  lemma TablesAreCovered(events: Events, filter: Filter)
    ensures Covered(TableOf(events, filter), Spellings(events))
  {
    var table := TableOf(events, filter);
    TableIsWellFormed(events, filter);
    forall i | 0 <= i < |table.order| ensures table.order[i] in table.days && table.order[i] in Spellings(events) {
      TableIsVerified(events, filter, table.order[i]);
      TableHasDays(events, filter, table.order[i]);
      VerifiedIsSpelled(events, filter, table.order[i]);
      SpellingsAreLast(events, table.order[i]);
    }
  }

  lemma {:induction false} DaysAreNotEmpty(m: Days, events: seq<ScoreDay>)
    requires forall k :: k in m.days ==> m.days[k] != {}
    ensures forall k :: k in AfterDays(m, events).days ==> AfterDays(m, events).days[k] != {}
  {
    if events == [] {
    } else {
      DaysAreNotEmpty(m, events[..|events| - 1]);
    }
  }

  lemma {:induction false} MissionsAreNotEmpty(m: Days, events: seq<MissionDay>)
    requires forall k :: k in m.days ==> m.days[k] != {}
    ensures forall k :: k in AfterMissions(m, events).days ==> AfterMissions(m, events).days[k] != {}
  {
    if events == [] {
    } else {
      MissionsAreNotEmpty(m, events[..|events| - 1]);
    }
  }

  lemma TableHasDays(events: Events, filter: Filter, key: string)
    requires key in TableOf(events, filter).days
    ensures TableOf(events, filter).days[key] != {}
  {
    DaysAreNotEmpty(NO_DAYS, events.scores);
    DaysAreNotEmpty(NO_DAYS, events.completions);
    DaysAreNotEmpty(AfterDays(NO_DAYS, events.scores), events.completions);
    MissionsAreNotEmpty(NO_DAYS, events.missions);
  }

  function Handles(events: Events): map<string, string> {
    Puts(map[], events.handles, HandleAccount, HandleOf)
  }

  /** One board, before it is sorted. */
  ghost function Unsorted(events: Events, filter: Filter, weekStart: int): seq<Entry> {
    TablesAreCovered(events, filter);
    Present(Cells(TableOf(events, filter), TableOf(events, Overall), Handles(events), HiddenAfter(events.visibility),
                  Spellings(events), weekStart))
  }

  ghost function Board(events: Events, filter: Filter, weekStart: int, cmp: Compare): seq<Entry> {
    Sorted(cmp, Unsorted(events, filter, weekStart))
  }

  ghost function AllBoards(events: Events, start: int, cmp: Compare): Boards {
    Boards(start, start + 7, Board(events, Overall, start, cmp), Board(events, Running, start, cmp),
           Board(events, Learning, start, cmp))
  }

  predicate ShowsAsDates(start: int) {
    -MAX_DATE_DAY <= start && start + 7 <= MAX_DATE_DAY
  }

  // The five loops over events, one method each. Each stops at the first event it must refuse.

  method AddScores(events: seq<ScoreDay>, overall: DayMap, known: map<string, string>)
    returns (ok: bool, accounts: map<string, string>)
    modifies overall
    ensures ok <==> forall i :: 0 <= i < |events| ==> ValidScore(events[i])
    ensures ok ==> overall.Contents() == AfterDays(old(overall.Contents()), events)
    ensures ok ==> accounts == Puts(known, events, ScoreAccount, ScoreAccount)
  {
    accounts := known;
    for i := 0 to |events|
      invariant forall j :: 0 <= j < i ==> ValidScore(events[j])
      invariant overall.Contents() == AfterDays(old(overall.Contents()), events[..i])
      invariant accounts == Puts(known, events[..i], ScoreAccount, ScoreAccount)
    {
      var event := events[i];
      assert events[..i + 1][..i] == events[..i];
      if !IsAddress(event.account) { return false, accounts; }
      accounts := accounts[ToLower(event.account) := event.account];
      if !IsUtcDay(event.utcDay) { return false, accounts; }
      overall.AddDay(ToLower(event.account), event.utcDay);
    }
    assert events[..|events|] == events;
    ok := true;
  }

  method AddMissions(events: seq<MissionDay>, running: DayMap, known: map<string, string>)
    returns (ok: bool, accounts: map<string, string>)
    modifies running
    ensures ok <==> forall i :: 0 <= i < |events| ==> ValidMission(events[i])
    ensures ok ==> running.Contents() == AfterMissions(old(running.Contents()), events)
    ensures ok ==> accounts == Puts(known, events, MissionAccount, MissionAccount)
  {
    accounts := known;
    for i := 0 to |events|
      invariant forall j :: 0 <= j < i ==> ValidMission(events[j])
      invariant running.Contents() == AfterMissions(old(running.Contents()), events[..i])
      invariant accounts == Puts(known, events[..i], MissionAccount, MissionAccount)
    {
      var event := events[i];
      assert events[..i + 1][..i] == events[..i];
      if !IsAddress(event.account) { return false, accounts; }
      accounts := accounts[ToLower(event.account) := event.account];
      if event.missionType == RUNNING_MISSION_TYPE {
        if !IsUtcDay(event.utcDay) { return false, accounts; }
        running.AddDay(ToLower(event.account), event.utcDay);
      }
    }
    assert events[..|events|] == events;
    ok := true;
  }

  method AddCompletions(events: seq<ScoreDay>, learning: DayMap, overall: DayMap, known: map<string, string>)
    returns (ok: bool, accounts: map<string, string>)
    requires learning != overall
    modifies learning, overall
    ensures ok <==> forall i :: 0 <= i < |events| ==> ValidScore(events[i])
    ensures ok ==> learning.Contents() == AfterDays(old(learning.Contents()), events)
    ensures ok ==> overall.Contents() == AfterDays(old(overall.Contents()), events)
    ensures ok ==> accounts == Puts(known, events, ScoreAccount, ScoreAccount)
  {
    accounts := known;
    for i := 0 to |events|
      invariant forall j :: 0 <= j < i ==> ValidScore(events[j])
      invariant learning.Contents() == AfterDays(old(learning.Contents()), events[..i])
      invariant overall.Contents() == AfterDays(old(overall.Contents()), events[..i])
      invariant accounts == Puts(known, events[..i], ScoreAccount, ScoreAccount)
    {
      var event := events[i];
      assert events[..i + 1][..i] == events[..i];
      if !IsAddress(event.account) { return false, accounts; }
      accounts := accounts[ToLower(event.account) := event.account];
      if !IsUtcDay(event.utcDay) { return false, accounts; }
      learning.AddDay(ToLower(event.account), event.utcDay);
      overall.AddDay(ToLower(event.account), event.utcDay);
    }
    assert events[..|events|] == events;
    ok := true;
  }

  method AddHandles(events: seq<HandleSet>, known: map<string, string>)
    returns (ok: bool, accounts: map<string, string>, handles: map<string, string>)
    ensures ok <==> forall i :: 0 <= i < |events| ==> ValidHandle(events[i])
    ensures ok ==> accounts == Puts(known, events, HandleAccount, HandleAccount)
    ensures ok ==> handles == Puts(map[], events, HandleAccount, HandleOf)
  {
    accounts, handles := known, map[];
    for i := 0 to |events|
      invariant forall j :: 0 <= j < i ==> ValidHandle(events[j])
      invariant accounts == Puts(known, events[..i], HandleAccount, HandleAccount)
      invariant handles == Puts(map[], events[..i], HandleAccount, HandleOf)
    {
      var event := events[i];
      assert events[..i + 1][..i] == events[..i];
      if !IsAddress(event.account) { return false, accounts, handles; }
      accounts := accounts[ToLower(event.account) := event.account];
      handles := handles[ToLower(event.account) := event.handle];
    }
    assert events[..|events|] == events;
    ok := true;
  }

  method AddVisibility(events: seq<VisibilitySet>, known: map<string, string>)
    returns (ok: bool, accounts: map<string, string>, hidden: set<string>)
    ensures ok <==> forall i :: 0 <= i < |events| ==> ValidVisibility(events[i])
    ensures ok ==> accounts == Puts(known, events, VisibilityAccount, VisibilityAccount)
    ensures ok ==> hidden == HiddenAfter(events)
  {
    accounts, hidden := known, {};
    for i := 0 to |events|
      invariant forall j :: 0 <= j < i ==> ValidVisibility(events[j])
      invariant accounts == Puts(known, events[..i], VisibilityAccount, VisibilityAccount)
      invariant hidden == HiddenAfter(events[..i])
    {
      var event := events[i];
      assert events[..i + 1][..i] == events[..i];
      if !IsAddress(event.account) { return false, accounts, hidden; }
      accounts := accounts[ToLower(event.account) := event.account];
      hidden := if event.hidden then hidden + {ToLower(event.account)} else hidden - {ToLower(event.account)};
    }
    assert events[..|events|] == events;
    ok := true;
  }

  method FillTables(events: Events, overall: DayMap, running: DayMap, learning: DayMap)
    returns (ok: bool, accounts: map<string, string>, handles: map<string, string>, hidden: set<string>)
    requires overall != running && running != learning && learning != overall
    requires overall.Contents() == NO_DAYS && running.Contents() == NO_DAYS && learning.Contents() == NO_DAYS
    modifies overall, running, learning
    ensures ok <==> AllValid(events)
    ensures ok ==> overall.Contents() == TableOf(events, Overall) && running.Contents() == TableOf(events, Running)
                   && learning.Contents() == TableOf(events, Learning)
    ensures ok ==> accounts == Spellings(events) && handles == Handles(events)
                   && hidden == HiddenAfter(events.visibility)
  {
    handles, hidden := map[], {};
    ok, accounts := AddScores(events.scores, overall, map[]);
    if !ok { return; }
    ok, accounts := AddMissions(events.missions, running, accounts);
    if !ok { return; }
    ok, accounts := AddCompletions(events.completions, learning, overall, accounts);
    if !ok { return; }
    ok, accounts, handles := AddHandles(events.handles, accounts);
    if !ok { return; }
    ok, accounts, hidden := AddVisibility(events.visibility, accounts);
  }

  method BuildSocialLeaderboards(events: Events, now: int, cmp: Compare) returns (r: Result<Boards, ()>)
    ensures r.Ok? <==> AllValid(events) && ShowsAsDates(UtcWeekStartDay(now))
    ensures r.Ok? ==> r.value == AllBoards(events, UtcWeekStartDay(now), cmp)
    ensures r.Ok? ==>
              var start := r.value.startUtcDay;
              && start == UtcWeekStartDay(now) && r.value.endUtcDayExclusive == start + 7
              && -100000000 <= start <= 99999993
              && r.value.overall == Board(events, Overall, start, cmp)
              && r.value.running == Board(events, Running, start, cmp)
              && r.value.learning == Board(events, Learning, start, cmp)
  {
    var overallDays := new DayMap();
    var runningDays := new DayMap();
    var learningDays := new DayMap();
    var ok, accounts, handles, hidden := FillTables(events, overallDays, runningDays, learningDays);
    if !ok { return Err(()); }
    var start := UtcWeekStartDay(now);
    if start < -MAX_DATE_DAY || start + 7 > MAX_DATE_DAY { return Err(()); }
    TablesAreCovered(events, Overall);
    TablesAreCovered(events, Running);
    TablesAreCovered(events, Learning);
    var overall := BuildEntries(overallDays, overallDays, handles, hidden, accounts, start, cmp);
    var running := BuildEntries(runningDays, overallDays, handles, hidden, accounts, start, cmp);
    var learning := BuildEntries(learningDays, overallDays, handles, hidden, accounts, start, cmp);
    return Ok(Boards(start, start + 7, overall, running, learning));
  }
}
