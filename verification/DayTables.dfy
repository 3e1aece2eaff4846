/** The tables one pass over the chain's events fills in (src/social-score.ts). */
module DayTables {
  import opened Prelude
  import opened Text
  import opened LogScan

  const RUNNING_MISSION_TYPE := 1
  const MAX_SAFE_INTEGER := 9007199254740991

  predicate IsHexDigit(c: char) {
    IsDigit(c) || 'a' <= c <= 'f' || 'A' <= c <= 'F'
  }

  predicate IsAddress(s: string) {
    |s| == 42 && s[0] == '0' && s[1] == 'x' && forall i :: 2 <= i < 42 ==> IsHexDigit(s[i])
  }

  predicate IsUtcDay(day: int) {
    0 <= day <= MAX_SAFE_INTEGER
  }

  /** An address is `0x` and forty hexadecimal digits in any case; a day counts from the epoch and is exact as a
      JavaScript number. */
  lemma ValidSpelledOut(s: string, day: int)
    ensures IsAddress(s) <==>
              |s| == 42 && s[..2] == "0x" && forall i :: 2 <= i < 42 ==> s[i] in "0123456789abcdefABCDEF"
    ensures IsUtcDay(day) <==> 0 <= day < 0x20_0000_0000_0000
  {
    forall c: char ensures IsHexDigit(c) <==> c in "0123456789abcdefABCDEF" {
      HexDigits(c);
    }
  }

  lemma HexDigits(c: char)
    ensures IsHexDigit(c) <==> c in "0123456789abcdefABCDEF"
  {
    var digits := "0123456789abcdefABCDEF";
    if IsDigit(c) {
      assert digits[c as int - '0' as int] == c;
    } else if 'a' <= c <= 'f' {
      assert digits[c as int - 'a' as int + 10] == c;
    } else if 'A' <= c <= 'F' {
      assert digits[c as int - 'A' as int + 16] == c;
    }
  }

  // --- a map from accounts to sets of days -------------------------------------------------------------

  /** A `Map<string, Set<bigint>>`: its keys in the order of insertion, and their sets. */
  datatype Days = Days(order: seq<string>, days: map<string, set<int>>)

  const NO_DAYS := Days([], map[])

  function At(m: Days, key: string): set<int> {
    if key in m.days then m.days[key] else {}
  }

  function WithDay(m: Days, key: string, day: int): Days {
    Days(if key in m.days then m.order else m.order + [key], m.days[key := At(m, key) + {day}])
  }

  class DayMap {
    var order: seq<string>
    var days: map<string, set<int>>

    function Contents(): Days
      reads this
    {
      Days(order, days)
    }

    constructor ()
      ensures Contents() == NO_DAYS
    {
      order, days := [], map[];
    }

    /** `addDay`. */
    method AddDay(key: string, day: int)
      modifies this
      ensures Contents() == WithDay(old(Contents()), key, day)
    {
      var current := if key in days then days[key] else {};
      if key !in days { order := order + [key]; }
      days := days[key := current + {day}];
    }
  }

  /** Every key is listed, and once. */
  ghost predicate WellFormed(m: Days) {
    && (forall i, j :: 0 <= i < j < |m.order| ==> m.order[i] != m.order[j])
    && (forall i :: 0 <= i < |m.order| ==> m.order[i] in m.days)
    && (forall k :: k in m.days ==> k in m.order)
  }

  // --- day events --------------------------------------------------------------------------------------

  function AfterDays(m: Days, events: seq<ScoreDay>): Days {
    if events == [] then m
    else
      var last := events[|events| - 1];
      WithDay(AfterDays(m, events[..|events| - 1]), ToLower(last.account), last.utcDay)
  }

  function AfterMissions(m: Days, events: seq<MissionDay>): Days {
    if events == [] then m
    else
      var last := events[|events| - 1];
      var before := AfterMissions(m, events[..|events| - 1]);
      if last.missionType == RUNNING_MISSION_TYPE then WithDay(before, ToLower(last.account), last.utcDay) else before
  }

  /** The days an account is credited with by day events, whatever their order and multiplicity. */
  function DaysOn(events: seq<ScoreDay>, key: string): set<int> {
    set e | e in events && ToLower(e.account) == key :: e.utcDay
  }

  function RunsOn(events: seq<MissionDay>, key: string): set<int> {
    set e | e in events && e.missionType == RUNNING_MISSION_TYPE && ToLower(e.account) == key :: e.utcDay
  }

  lemma WithDayWellFormed(m: Days, key: string, day: int)
    requires WellFormed(m)
    ensures WellFormed(WithDay(m, key, day))
  {
    var r := WithDay(m, key, day);
    if key !in m.days { assert r.order[|m.order|] == key; }
    forall k | k in r.days ensures k in r.order {
      if k in m.order { var i :| 0 <= i < |m.order| && m.order[i] == k; assert r.order[i] == k; }
    }
  }

  lemma {:induction false} AfterDaysWellFormed(m: Days, events: seq<ScoreDay>)
    requires WellFormed(m)
    ensures WellFormed(AfterDays(m, events))
  {
    if events == [] {
    } else {
      var last := events[|events| - 1];
      AfterDaysWellFormed(m, events[..|events| - 1]);
      WithDayWellFormed(AfterDays(m, events[..|events| - 1]), ToLower(last.account), last.utcDay);
    }
  }

  lemma {:induction false} AfterMissionsWellFormed(m: Days, events: seq<MissionDay>)
    requires WellFormed(m)
    ensures WellFormed(AfterMissions(m, events))
  {
    if events == [] {
    } else {
      var last := events[|events| - 1];
      AfterMissionsWellFormed(m, events[..|events| - 1]);
      WithDayWellFormed(AfterMissions(m, events[..|events| - 1]), ToLower(last.account), last.utcDay);
    }
  }

  lemma {:induction false} AfterDaysHolds(m: Days, events: seq<ScoreDay>, key: string)
    ensures At(AfterDays(m, events), key) == At(m, key) + DaysOn(events, key)
  {
    if events == [] {
    } else {
      var n := |events| - 1;
      AfterDaysHolds(m, events[..n], key);
      assert events == events[..n] + [events[n]];
      assert DaysOn(events, key)
             == DaysOn(events[..n], key) + if ToLower(events[n].account) == key then {events[n].utcDay} else {};
    }
  }

  lemma {:induction false} AfterMissionsHolds(m: Days, events: seq<MissionDay>, key: string)
    ensures At(AfterMissions(m, events), key) == At(m, key) + RunsOn(events, key)
  {
    if events == [] {
    } else {
      var n := |events| - 1;
      var last := events[n];
      AfterMissionsHolds(m, events[..n], key);
      assert events == events[..n] + [last];
      assert RunsOn(events, key)
             == RunsOn(events[..n], key)
                + if last.missionType == RUNNING_MISSION_TYPE && ToLower(last.account) == key
                  then {last.utcDay} else {};
    }
  }

  // --- last-wins maps ----------------------------------------------------------------------------------

  /** `map.set(key, value)` for each event in turn, under the event's lower-cased account. */
  function Puts<T>(m: map<string, string>, events: seq<T>, account: T -> string, value: T -> string)
    : map<string, string>
  {
    if events == [] then m
    else
      var last := events[|events| - 1];
      Puts(m, events[..|events| - 1], account, value)[ToLower(account(last)) := value(last)]
  }

  /** The value of the last event of an account. */
  function LastPut<T>(events: seq<T>, account: T -> string, value: T -> string, key: string): Option<string> {
    if events == [] then None
    else
      var last := events[|events| - 1];
      if ToLower(account(last)) == key then Some(value(last)) else LastPut(events[..|events| - 1], account, value, key)
  }

  /** Event `i` is the last one of an account. */
  ghost predicate LastOf<T>(events: seq<T>, account: T -> string, key: string, i: nat) {
    && i < |events| && ToLower(account(events[i])) == key
    && forall j :: i < j < |events| ==> ToLower(account(events[j])) != key
  }

  /** No event is of this account. */
  ghost predicate Silent<T>(events: seq<T>, account: T -> string, key: string) {
    forall i :: 0 <= i < |events| ==> ToLower(account(events[i])) != key
  }

  lemma LastOfMore<T>(events: seq<T>, account: T -> string, key: string, i: nat)
    requires events != [] && LastOf(events[..|events| - 1], account, key, i)
    requires ToLower(account(events[|events| - 1])) != key
    ensures LastOf(events, account, key, i) && events[..|events| - 1][i] == events[i]
  {
    assert forall j :: 0 <= j < |events| - 1 ==> events[..|events| - 1][j] == events[j];
  }

  lemma SilentMore<T>(events: seq<T>, account: T -> string, key: string)
    requires events != [] && ToLower(account(events[|events| - 1])) != key
    ensures Silent(events, account, key) <==> Silent(events[..|events| - 1], account, key)
  {
    assert forall j :: 0 <= j < |events| - 1 ==> events[..|events| - 1][j] == events[j];
  }

  lemma {:induction false} LastPutIsLast<T>(events: seq<T>, account: T -> string, value: T -> string, key: string)
    ensures LastPut(events, account, value, key).None? <==> Silent(events, account, key)
    ensures LastPut(events, account, value, key).Some? ==>
              exists i: nat :: LastOf(events, account, key, i)
                               && LastPut(events, account, value, key) == Some(value(events[i]))
  {
    if events == [] {
    } else {
      var n := |events| - 1;
      if ToLower(account(events[n])) == key {
        assert LastOf(events, account, key, n);
      } else {
        LastPutIsLast(events[..n], account, value, key);
        SilentMore(events, account, key);
        if LastPut(events[..n], account, value, key).Some? {
          var i: nat :| LastOf(events[..n], account, key, i)
                        && LastPut(events[..n], account, value, key) == Some(value(events[..n][i]));
          LastOfMore(events, account, key, i);
        }
      }
    }
  }

  function Get(m: map<string, string>, key: string): Option<string> {
    if key in m then Some(m[key]) else None
  }

  function OrElse(a: Option<string>, b: Option<string>): Option<string> {
    if a.Some? then a else b
  }

  lemma {:induction false} PutsKeepLast<T>(m: map<string, string>, events: seq<T>, account: T -> string,
                                           value: T -> string, key: string)
    ensures Get(Puts(m, events, account, value), key) == OrElse(LastPut(events, account, value, key), Get(m, key))
  {
    if events == [] {
    } else {
      PutsKeepLast(m, events[..|events| - 1], account, value, key);
    }
  }

  lemma {:induction false} LastPutFound<T>(events: seq<T>, account: T -> string, value: T -> string,
                                            key: string, i: nat)
    requires i < |events| && ToLower(account(events[i])) == key
    ensures LastPut(events, account, value, key).Some?
  {
    if ToLower(account(events[|events| - 1])) == key {
    } else {
      LastPutFound(events[..|events| - 1], account, value, key, i);
    }
  }

  lemma {:induction false} LastSpellingFolds<T>(events: seq<T>, account: T -> string, key: string)
    ensures var r := LastPut(events, account, account, key); r.Some? ==> ToLower(r.value) == key
  {
    if events == [] {
    } else {
      LastSpellingFolds(events[..|events| - 1], account, key);
    }
  }

  function ScoreAccount(e: ScoreDay): string { e.account }
  function MissionAccount(e: MissionDay): string { e.account }
  function HandleAccount(e: HandleSet): string { e.account }
  function VisibilityAccount(e: VisibilitySet): string { e.account }
  function HandleOf(e: HandleSet): string { e.handle }

  // --- hidden profiles ---------------------------------------------------------------------------------

  function HiddenAfter(events: seq<VisibilitySet>): set<string> {
    if events == [] then {}
    else
      var last := events[|events| - 1];
      var before := HiddenAfter(events[..|events| - 1]);
      if last.hidden then before + {ToLower(last.account)} else before - {ToLower(last.account)}
  }

  /** The last visibility event of an account hides it. */
  predicate LastHides(events: seq<VisibilitySet>, key: string) {
    events != [] &&
    var last := events[|events| - 1];
    if ToLower(last.account) == key then last.hidden else LastHides(events[..|events| - 1], key)
  }

  lemma {:induction false} LastHidesIsLast(events: seq<VisibilitySet>, key: string)
    ensures LastHides(events, key)
            <==> exists i: nat :: LastOf(events, VisibilityAccount, key, i) && events[i].hidden
  {
    if events == [] {
    } else {
      var n := |events| - 1;
      if ToLower(events[n].account) == key {
        assert LastOf(events, VisibilityAccount, key, n) <==> true;
      } else {
        LastHidesIsLast(events[..n], key);
        forall i: nat | i < n
          ensures LastOf(events, VisibilityAccount, key, i) <==> LastOf(events[..n], VisibilityAccount, key, i)
        {
          assert forall j :: 0 <= j < n ==> events[..n][j] == events[j];
        }
        if LastHides(events[..n], key) {
          var i: nat :| LastOf(events[..n], VisibilityAccount, key, i) && events[..n][i].hidden;
          assert LastOf(events, VisibilityAccount, key, i);
        }
      }
    }
  }

  lemma {:induction false} HiddenIsLast(events: seq<VisibilitySet>, key: string)
    ensures key in HiddenAfter(events) <==> LastHides(events, key)
  {
    if events == [] {
    } else {
      HiddenIsLast(events[..|events| - 1], key);
    }
  }

  // --- all the tables ----------------------------------------------------------------------------------

  predicate ValidScore(e: ScoreDay) { IsAddress(e.account) && IsUtcDay(e.utcDay) }

  predicate ValidMission(e: MissionDay) {
    IsAddress(e.account) && (e.missionType == RUNNING_MISSION_TYPE ==> IsUtcDay(e.utcDay))
  }

  predicate ValidHandle(e: HandleSet) { IsAddress(e.account) }

  predicate ValidVisibility(e: VisibilitySet) { IsAddress(e.account) }

  predicate AllValid(events: Events) {
    && (forall i :: 0 <= i < |events.scores| ==> ValidScore(events.scores[i]))
    && (forall i :: 0 <= i < |events.missions| ==> ValidMission(events.missions[i]))
    && (forall i :: 0 <= i < |events.completions| ==> ValidScore(events.completions[i]))
    && (forall i :: 0 <= i < |events.handles| ==> ValidHandle(events.handles[i]))
    && (forall i :: 0 <= i < |events.visibility| ==> ValidVisibility(events.visibility[i]))
  }

  datatype Filter = Overall | Running | Learning

  function TableOf(events: Events, filter: Filter): Days {
    match filter
    case Overall => AfterDays(AfterDays(NO_DAYS, events.scores), events.completions)
    case Running => AfterMissions(NO_DAYS, events.missions)
    case Learning => AfterDays(NO_DAYS, events.completions)
  }

  function Spellings(events: Events): map<string, string> {
    var a := Puts(map[], events.scores, ScoreAccount, ScoreAccount);
    var b := Puts(a, events.missions, MissionAccount, MissionAccount);
    var c := Puts(b, events.completions, ScoreAccount, ScoreAccount);
    var d := Puts(c, events.handles, HandleAccount, HandleAccount);
    Puts(d, events.visibility, VisibilityAccount, VisibilityAccount)
  }

  /** The days that count for an account on a board. */
  function Verified(events: Events, filter: Filter, key: string): set<int> {
    match filter
    case Overall => DaysOn(events.scores, key) + DaysOn(events.completions, key)
    case Running => RunsOn(events.missions, key)
    case Learning => DaysOn(events.completions, key)
  }

  /** The spelling of an account on the boards: that of the last event that named it, list by list. */
  function LastSpelling(events: Events, key: string): Option<string> {
    var a := LastPut(events.scores, ScoreAccount, ScoreAccount, key);
    var b := OrElse(LastPut(events.missions, MissionAccount, MissionAccount, key), a);
    var c := OrElse(LastPut(events.completions, ScoreAccount, ScoreAccount, key), b);
    var d := OrElse(LastPut(events.handles, HandleAccount, HandleAccount, key), c);
    OrElse(LastPut(events.visibility, VisibilityAccount, VisibilityAccount, key), d)
  }

  /** The table of a board holds exactly the verified days of every account. */
  lemma TableIsVerified(events: Events, filter: Filter, key: string)
    ensures At(TableOf(events, filter), key) == Verified(events, filter, key)
  {
    match filter
    case Overall =>
      AfterDaysHolds(NO_DAYS, events.scores, key);
      AfterDaysHolds(AfterDays(NO_DAYS, events.scores), events.completions, key);
    case Running => AfterMissionsHolds(NO_DAYS, events.missions, key);
    case Learning => AfterDaysHolds(NO_DAYS, events.completions, key);
  }

  lemma TableIsWellFormed(events: Events, filter: Filter)
    ensures WellFormed(TableOf(events, filter))
  {
    AfterDaysWellFormed(NO_DAYS, events.scores);
    AfterDaysWellFormed(AfterDays(NO_DAYS, events.scores), events.completions);
    AfterMissionsWellFormed(NO_DAYS, events.missions);
    AfterDaysWellFormed(NO_DAYS, events.completions);
  }

  lemma SpellingsAreLast(events: Events, key: string)
    ensures Get(Spellings(events), key) == LastSpelling(events, key)
    ensures LastSpelling(events, key).Some? ==> ToLower(LastSpelling(events, key).value) == key
  {
    var a := Puts(map[], events.scores, ScoreAccount, ScoreAccount);
    var b := Puts(a, events.missions, MissionAccount, MissionAccount);
    var c := Puts(b, events.completions, ScoreAccount, ScoreAccount);
    var d := Puts(c, events.handles, HandleAccount, HandleAccount);
    PutsKeepLast(map[], events.scores, ScoreAccount, ScoreAccount, key);
    PutsKeepLast(a, events.missions, MissionAccount, MissionAccount, key);
    PutsKeepLast(b, events.completions, ScoreAccount, ScoreAccount, key);
    PutsKeepLast(c, events.handles, HandleAccount, HandleAccount, key);
    PutsKeepLast(d, events.visibility, VisibilityAccount, VisibilityAccount, key);
    LastSpellingFolds(events.scores, ScoreAccount, key);
    LastSpellingFolds(events.missions, MissionAccount, key);
    LastSpellingFolds(events.completions, ScoreAccount, key);
    LastSpellingFolds(events.handles, HandleAccount, key);
    LastSpellingFolds(events.visibility, VisibilityAccount, key);
  }

  /** Whoever has a verified day on a board has a spelling to show. */
  lemma VerifiedIsSpelled(events: Events, filter: Filter, key: string)
    requires Verified(events, filter, key) != {}
    ensures LastSpelling(events, key).Some?
  {
    var day :| day in Verified(events, filter, key);
    if day in DaysOn(events.scores, key) && filter.Overall? {
      var e :| e in events.scores && ToLower(e.account) == key;
      var i :| 0 <= i < |events.scores| && events.scores[i] == e;
      LastPutFound(events.scores, ScoreAccount, ScoreAccount, key, i);
    } else if filter.Running? {
      var e :| e in events.missions && ToLower(e.account) == key;
      var i :| 0 <= i < |events.missions| && events.missions[i] == e;
      LastPutFound(events.missions, MissionAccount, MissionAccount, key, i);
    } else {
      var e :| e in events.completions && ToLower(e.account) == key;
      var i :| 0 <= i < |events.completions| && events.completions[i] == e;
      LastPutFound(events.completions, ScoreAccount, ScoreAccount, key, i);
    }
  }
}
