/** What the limiter guarantees over whole runs of calls with a clock that never goes back. */
module RateLimits {
  import opened Prelude
  import opened RateLimiter

  datatype Call = Call(key: string, atMs: int)

  predicate Ordered(calls: seq<Call>) {
    forall i, j :: 0 <= i < j < |calls| ==> calls[i].atMs <= calls[j].atMs
  }

  /** The map after a run of calls from an empty limiter. */
  function After(c: Config, calls: seq<Call>): seq<Slot> {
    if calls == [] then []
    else
      var last := calls[|calls| - 1];
      Checked(c, After(c, calls[..|calls| - 1]), last.key, last.atMs).0
  }

  function Decisions(c: Config, calls: seq<Call>): (ds: seq<Decision>)
    ensures |ds| == |calls|
  {
    if calls == [] then []
    else
      var last := calls[|calls| - 1];
      Decisions(c, calls[..|calls| - 1]) + [Checked(c, After(c, calls[..|calls| - 1]), last.key, last.atMs).1]
  }

  // --- order, size and eviction ------------------------------------------------------------------------

  predicate Sorted(slots: seq<Slot>) {
    forall i, j :: 0 <= i < j < |slots| ==> slots[i].resetAtMs <= slots[j].resetAtMs
  }

  ghost predicate WellKept(c: Config, slots: seq<Slot>, nowMs: int) {
    && DistinctKeys(slots) && Sorted(slots) && |slots| <= c.maxEntries
    && forall s :: s in slots ==> s.resetAtMs <= nowMs + c.windowMs && 1 <= s.count <= c.limit
  }

  lemma {:induction false} WithoutSorted(slots: seq<Slot>, key: string)
    requires DistinctKeys(slots) && Sorted(slots)
    ensures Sorted(Without(slots, key))
  {
    if slots == [] {
    } else {
      WithoutSorted(slots[1..], key);
      WithoutFacts(slots[1..], key);
      SortedPrepend(slots, Without(slots[1..], key));
    }
  }

  lemma {:induction false} LiveSorted(slots: seq<Slot>, nowMs: int)
    requires DistinctKeys(slots) && Sorted(slots)
    ensures Sorted(Live(slots, nowMs))
  {
    if slots == [] {
    } else {
      LiveSorted(slots[1..], nowMs);
      LiveFacts(slots[1..], nowMs);
      SortedPrepend(slots, Live(slots[1..], nowMs));
    }
  }

  lemma SortedPrepend(slots: seq<Slot>, rest: seq<Slot>)
    requires slots != [] && Sorted(slots) && Sorted(rest)
    requires forall s :: s in rest ==> s in slots[1..]
    ensures Sorted([slots[0]] + rest)
  {
    forall k | 0 <= k < |rest| ensures slots[0].resetAtMs <= rest[k].resetAtMs {
      assert rest[k] in slots[1..];
      var m :| 0 <= m < |slots[1..]| && slots[1..][m] == rest[k];
      assert slots[m + 1] == rest[k];
    }
  }

  lemma RoomSorted(c: Config, slots: seq<Slot>, key: string, nowMs: int)
    requires ValidConfig(c) && DistinctKeys(slots) && Sorted(slots)
    ensures Sorted(RoomFor(c, slots, key, nowMs))
  {
    var rest := Without(slots, key);
    WithoutSorted(slots, key);
    WithoutFacts(slots, key);
    LiveSorted(rest, nowMs);
    TrimmedIsSuffix(Live(rest, nowMs), c.maxEntries);
  }

  lemma ReplaceWellKept(c: Config, slots: seq<Slot>, was: Slot, slot: Slot, nowMs: int)
    requires DistinctKeys(slots) && Sorted(slots) && |slots| <= c.maxEntries
    requires was in slots && was.key == slot.key && was.resetAtMs == slot.resetAtMs
    requires slot.resetAtMs <= nowMs + c.windowMs && 1 <= slot.count <= c.limit
    requires forall s :: s in slots && s.key != slot.key ==>
               s.resetAtMs <= nowMs + c.windowMs && 1 <= s.count <= c.limit
    ensures WellKept(c, Replace(slots, slot), nowMs)
  {
    ReplaceFacts(slots, slot);
    var r := Replace(slots, slot);
    forall i | 0 <= i < |slots| ensures r[i].resetAtMs == slots[i].resetAtMs {
      if slots[i].key == slot.key {
        FindMember(slots, slots[i]);
        FindMember(slots, was);
      }
    }
    forall s | s in r ensures s.resetAtMs <= nowMs + c.windowMs && 1 <= s.count <= c.limit {
      var i :| 0 <= i < |r| && r[i] == s;
      assert slots[i] in slots;
    }
  }

  lemma PreparedWellKept(c: Config, slots: seq<Slot>, key: string, before: int, nowMs: int)
    requires ValidConfig(c) && WellKept(c, slots, before) && before <= nowMs
    ensures var (ready, slot) := Prepared(c, slots, key, nowMs);
            && DistinctKeys(ready) && Sorted(ready) && |ready| <= c.maxEntries
            && slot in ready && slot.key == key && slot.count <= c.limit && slot.resetAtMs <= nowMs + c.windowMs
            && (forall s :: s in ready && s.key != key ==> s in slots)
            && (slot.count >= c.limit ==> ready == slots)
  {
    var (ready, slot) := Prepared(c, slots, key, nowMs);
    if !HasLive(slots, key, nowMs) {
      RoomForFacts(c, slots, key, nowMs);
      RoomSorted(c, slots, key, nowMs);
      var room := RoomFor(c, slots, key, nowMs);
      assert ready == room + [slot] && ready[|room|] == slot;
      assert forall i :: 0 <= i < |room| ==> ready[i] == room[i] && room[i] in room;
    }
  }

  /** A check keeps the map sorted by expiry, bounded, and its counts within the limit. */
  lemma CheckedWellKept(c: Config, slots: seq<Slot>, key: string, before: int, nowMs: int)
    requires ValidConfig(c) && WellKept(c, slots, before) && before <= nowMs
    ensures WellKept(c, Checked(c, slots, key, nowMs).0, nowMs)
  {
    PreparedWellKept(c, slots, key, before, nowMs);
    var ready := Prepared(c, slots, key, nowMs).0;
    var slot := Prepared(c, slots, key, nowMs).1;
    if slot.count < c.limit {
      CountedWellKept(c, slots, ready, slot, before, nowMs);
    } else {
      assert WellKept(c, slots, nowMs);
    }
  }

  lemma CountedWellKept(c: Config, slots: seq<Slot>, ready: seq<Slot>, slot: Slot, before: int, nowMs: int)
    requires ValidConfig(c) && WellKept(c, slots, before) && before <= nowMs
    requires DistinctKeys(ready) && Sorted(ready) && |ready| <= c.maxEntries
    requires slot in ready && slot.count < c.limit && slot.resetAtMs <= nowMs + c.windowMs
    requires forall s :: s in ready && s.key != slot.key ==> s in slots
    ensures WellKept(c, Replace(ready, slot.(count := slot.count + 1)), nowMs)
  {
    ReplaceWellKept(c, ready, slot, slot.(count := slot.count + 1), nowMs);
  }

  function LastTime(calls: seq<Call>): int {
    if calls == [] then 0 else calls[|calls| - 1].atMs
  }

  /** In every run the map stays in expiry order and never exceeds its bound. */
  lemma {:induction false} RunWellKept(c: Config, calls: seq<Call>)
    requires ValidConfig(c) && Ordered(calls)
    ensures WellKept(c, After(c, calls), LastTime(calls))
  {
    if calls == [] {
    } else {
      var n := |calls| - 1;
      RunWellKept(c, calls[..n]);
      if n > 0 {
        CheckedWellKept(c, After(c, calls[..n]), calls[n].key, LastTime(calls[..n]), calls[n].atMs);
      } else {
        CheckedWellKept(c, [], calls[n].key, calls[n].atMs, calls[n].atMs);
      }
    }
  }

  /** A live bucket of another key that a check throws away. */
  ghost predicate Evicted(c: Config, slots: seq<Slot>, key: string, nowMs: int, s: Slot) {
    s in slots && s.key != key && s.resetAtMs > nowMs && Find(Checked(c, slots, key, nowMs).0, s.key).None?
  }

  lemma KeysAfter(c: Config, slots: seq<Slot>, key: string, nowMs: int, other: string)
    requires ValidConfig(c) && DistinctKeys(slots) && other != key
    ensures Find(Checked(c, slots, key, nowMs).0, other) == Find(Prepared(c, slots, key, nowMs).0, other)
  {
    var (ready, slot) := Prepared(c, slots, key, nowMs);
    CheckedIsCounted(c, slots, key, nowMs);
    assert DistinctKeys(ready) && other != slot.key by { PreparedHolds(c, slots, key, nowMs); }
    CountingKeepsOthers(c, ready, slot, other);
  }

  /** The map after counting a check in the bucket consulted. */
  function Counted(c: Config, ready: seq<Slot>, slot: Slot): seq<Slot> {
    if slot.count >= c.limit then ready else Replace(ready, slot.(count := slot.count + 1))
  }

  lemma CheckedIsCounted(c: Config, slots: seq<Slot>, key: string, nowMs: int)
    ensures Checked(c, slots, key, nowMs).0
            == Counted(c, Prepared(c, slots, key, nowMs).0, Prepared(c, slots, key, nowMs).1)
  {
  }

  lemma CountingKeepsOthers(c: Config, ready: seq<Slot>, slot: Slot, other: string)
    requires DistinctKeys(ready) && other != slot.key
    ensures Find(Counted(c, ready, slot), other) == Find(ready, other)
  {
    ReplaceKeepsOthers(ready, slot.(count := slot.count + 1), other);
  }

  lemma ReplaceKeepsOthers(slots: seq<Slot>, slot: Slot, other: string)
    requires DistinctKeys(slots) && other != slot.key
    ensures Find(Replace(slots, slot), other) == Find(slots, other)
  {
    ReplaceFacts(slots, slot);
    var r := Replace(slots, slot);
    forall s ensures s in slots && s.key == other <==> s in r && s.key == other {
      if s in slots && s.key == other {
        var i :| 0 <= i < |slots| && slots[i] == s;
        assert r[i] == s;
      }
      if s in r && s.key == other {
        var i :| 0 <= i < |r| && r[i] == s;
        assert slots[i] == s;
      }
    }
    FindByMembers(slots, r, other);
  }

  /** The live buckets of other keys, oldest first. */
  function Others(slots: seq<Slot>, key: string, nowMs: int): seq<Slot> {
    Live(Without(slots, key), nowMs)
  }

  lemma OthersFacts(slots: seq<Slot>, key: string, nowMs: int)
    requires DistinctKeys(slots)
    ensures DistinctKeys(Others(slots, key, nowMs))
    ensures forall s :: s in Others(slots, key, nowMs) <==> s in slots && s.key != key && s.resetAtMs > nowMs
  {
    WithoutFacts(slots, key);
    LiveFacts(Without(slots, key), nowMs);
  }

  /** What room is made of: with fewer than `maxEntries` live others they all stay, else all but the oldest. */
  lemma RoomKeepsOthers(c: Config, slots: seq<Slot>, key: string, nowMs: int, s: Slot)
    requires ValidConfig(c) && DistinctKeys(slots) && |slots| <= c.maxEntries
    requires s in Others(slots, key, nowMs)
    ensures var others := Others(slots, key, nowMs);
            s in RoomFor(c, slots, key, nowMs) <==> |others| < c.maxEntries || s != others[0]
  {
    WithoutFacts(slots, key);
    OthersFacts(slots, key, nowMs);
    var rest := Without(slots, key);
    var others := Others(slots, key, nowMs);
    LiveFacts(rest, nowMs);
    if |rest| >= c.maxEntries {
      TrimmedIsSuffix(others, c.maxEntries);
      if |others| >= c.maxEntries {
        assert RoomFor(c, slots, key, nowMs) == others[1..];
        var k :| 0 <= k < |others| && others[k] == s;
        if k > 0 { assert others[1..][k - 1] == s; }
      }
    }
  }

  /** A check evicts a live bucket exactly when it needs a fresh bucket while `maxEntries` others are live;
      the victim is then the one bucket that expires soonest. */
  lemma EvictionIsSoonest(c: Config, slots: seq<Slot>, key: string, before: int, nowMs: int, s: Slot)
    requires ValidConfig(c) && WellKept(c, slots, before)
    ensures var others := Others(slots, key, nowMs);
            Evicted(c, slots, key, nowMs, s) <==>
              !HasLive(slots, key, nowMs) && |others| >= c.maxEntries && s == others[0]
    ensures Evicted(c, slots, key, nowMs, s) ==>
              forall o :: o in slots && o.key != key && o.resetAtMs > nowMs ==> s.resetAtMs <= o.resetAtMs
  {
    var others := Others(slots, key, nowMs);
    OthersFacts(slots, key, nowMs);
    WithoutFacts(slots, key);
    WithoutSorted(slots, key);
    LiveSorted(Without(slots, key), nowMs);
    if s in others {
      KeysAfter(c, slots, key, nowMs, s.key);
      RoomKeepsOthers(c, slots, key, nowMs, s);
      RoomForFacts(c, slots, key, nowMs);
      FindMember(slots, s);
      var room := RoomFor(c, slots, key, nowMs);
      var ready := Prepared(c, slots, key, nowMs).0;
      PreparedDistinct(c, slots, key, nowMs);
      if s in ready { FindMember(ready, s); }
      if Find(ready, s.key).Some? && !HasLive(slots, key, nowMs) {
        var f := Find(ready, s.key).value;
        assert f in room;
        FindMember(slots, f);
      }
    }
  }

  // --- refusals ----------------------------------------------------------------------------------------

  /** A denied check changes nothing, and only happens to a key whose live bucket is full. */
  lemma DenialChangesNothing(c: Config, slots: seq<Slot>, key: string, nowMs: int)
    requires ValidConfig(c) && !Checked(c, slots, key, nowMs).1.allowed
    ensures Checked(c, slots, key, nowMs).0 == slots
    ensures HasLive(slots, key, nowMs) && Find(slots, key).value.count >= c.limit
  {
  }

  /** A call for another key leaves a bucket as it is or removes it. */
  lemma OtherLeavesBucket(c: Config, slots: seq<Slot>, key: string, other: string, nowMs: int)
    requires ValidConfig(c) && DistinctKeys(slots) && other != key
    ensures var after := Checked(c, slots, other, nowMs).0;
            DistinctKeys(after) && (Find(after, key) == Find(slots, key) || Find(after, key).None?)
  {
    var (ready, slot) := Prepared(c, slots, other, nowMs);
    assert DistinctKeys(ready) by { PreparedDistinct(c, slots, other, nowMs); }
    CheckedIsCounted(c, slots, other, nowMs);
    ReplaceFacts(ready, slot.(count := slot.count + 1));
    assert Find(Checked(c, slots, other, nowMs).0, key) == Find(ready, key) by {
      KeysAfter(c, slots, other, nowMs, key);
    }
    if Find(ready, key).Some? && !HasLive(slots, other, nowMs) {
      RoomForFacts(c, slots, other, nowMs);
      assert Find(ready, key).value in RoomFor(c, slots, other, nowMs);
      FindMember(slots, Find(ready, key).value);
    }
  }

  /** So do any number of calls for other keys. */
  lemma {:induction false} OthersLeaveBucket(c: Config, slots: seq<Slot>, key: string, others: seq<Call>)
    requires ValidConfig(c) && DistinctKeys(slots)
    requires forall i :: 0 <= i < |others| ==> others[i].key != key
    ensures DistinctKeys(From(c, slots, others))
    ensures Find(From(c, slots, others), key) == Find(slots, key) || Find(From(c, slots, others), key).None?
  {
    if others == [] {
    } else {
      var n := |others| - 1;
      OthersLeaveBucket(c, slots, key, others[..n]);
      OtherLeavesBucket(c, From(c, slots, others[..n]), key, others[n].key, others[n].atMs);
    }
  }

  /** The map after a run of calls from `slots`. */
  function From(c: Config, slots: seq<Slot>, calls: seq<Call>): seq<Slot> {
    if calls == [] then slots
    else
      var last := calls[|calls| - 1];
      Checked(c, From(c, slots, calls[..|calls| - 1]), last.key, last.atMs).0
  }

  /** Waiting as long as a denial asks always helps, whatever other keys do meanwhile. */
  lemma RetryIsAllowed(c: Config, slots: seq<Slot>, key: string, nowMs: int, others: seq<Call>, laterMs: int)
    requires ValidConfig(c) && DistinctKeys(slots)
    requires var d := Checked(c, slots, key, nowMs).1; !d.allowed && laterMs >= nowMs + 1000 * d.retryAfterSeconds
    requires forall i :: 0 <= i < |others| ==> others[i].key != key
    ensures Checked(c, slots, key, nowMs).1.retryAfterSeconds >= 1
    ensures Checked(c, From(c, slots, others), key, laterMs).1.allowed
  {
    DenialChangesNothing(c, slots, key, nowMs);
    OthersLeaveBucket(c, slots, key, others);
    var slot := Find(slots, key).value;
    assert 1000 * CeilDiv(slot.resetAtMs - nowMs, 1000) >= slot.resetAtMs - nowMs;
  }

  /** `remaining` counts what is left: the next check within the same window is allowed exactly if it is positive, and
      then leaves one less. Both belong to one bucket, so both name one reset time. */
  lemma RemainingCountsDown(c: Config, slots: seq<Slot>, key: string, nowMs: int, laterMs: int)
    requires ValidConfig(c) && DistinctKeys(slots) && forall s :: s in slots ==> s.count <= c.limit
    requires nowMs <= laterMs < Checked(c, slots, key, nowMs).1.resetAtMs
    ensures var (after, first) := Checked(c, slots, key, nowMs);
            var next := Checked(c, after, key, laterMs).1;
            && 0 <= first.remaining < c.limit + (if first.allowed then 0 else 1)
            && (next.allowed <==> first.remaining > 0)
            && next.remaining == (if next.allowed then first.remaining - 1 else 0)
            && next.resetAtMs == first.resetAtMs
  {
    CheckedOwnSlot(c, slots, key, nowMs);
  }

  /** An allowed check asks for no wait, and a denied one for no longer than it takes: whole seconds, at least one. */
  lemma RetryIsLeast(c: Config, slots: seq<Slot>, key: string, nowMs: int)
    requires ValidConfig(c)
    ensures var d := Checked(c, slots, key, nowMs).1;
            && d.limit == c.limit
            && (d.allowed <==> d.retryAfterSeconds == 0)
            && (d.retryAfterSeconds > 1 ==> nowMs + 1000 * (d.retryAfterSeconds - 1) < d.resetAtMs)
  {
    var slot := Prepared(c, slots, key, nowMs).1;
    CeilDivIsLeast(slot.resetAtMs - nowMs);
  }

  lemma CeilDivIsLeast(ms: int)
    ensures 1000 * (CeilDiv(ms, 1000) - 1) < ms <= 1000 * CeilDiv(ms, 1000)
  {
  }

  // --- what a decision reports -------------------------------------------------------------------------

  /** The checks counted in the window that is open for a key. */
  function Used(slots: seq<Slot>, key: string, nowMs: int): nat {
    var found := Find(slots, key);
    if found.Some? && nowMs < found.value.resetAtMs then found.value.count else 0
  }

  /** Every decision reports the bucket it leaves under the key. An open window keeps its reset time and a new one runs
      for the whole window from now; the check is allowed while the limit is not used up, and then counted. */
  lemma DecisionReports(c: Config, slots: seq<Slot>, key: string, nowMs: int)
    requires ValidConfig(c) && DistinctKeys(slots)
    ensures var (after, d) := Checked(c, slots, key, nowMs);
            var (was, bucket) := (Find(slots, key), Find(after, key));
            var used := Used(slots, key, nowMs);
            && bucket.Some? && d.resetAtMs == bucket.value.resetAtMs
            && d.resetAtMs == (if was.Some? && nowMs < was.value.resetAtMs then was.value.resetAtMs
                               else nowMs + c.windowMs)
            && nowMs < d.resetAtMs
            && (d.allowed <==> used < c.limit)
            && bucket.value.count == used + (if d.allowed then 1 else 0)
            && d.limit == c.limit
            && d.remaining == (if bucket.value.count < c.limit then c.limit - bucket.value.count else 0)
  {
    CheckedOwnSlot(c, slots, key, nowMs);
  }

  /** The window closes exactly at the reset time a decision named: until then a key that was not evicted stays in it,
      and from then on the next check opens a new one, whatever other keys did meanwhile. */
  lemma {:induction false} WindowClosesAtReset(c: Config, slots: seq<Slot>, key: string, nowMs: int,
                                               others: seq<Call>, laterMs: int)
    requires ValidConfig(c) && DistinctKeys(slots)
    requires forall i :: 0 <= i < |others| ==> others[i].key != key
    ensures var (after, first) := Checked(c, slots, key, nowMs);
            var between := From(c, after, others);
            var next := Checked(c, between, key, laterMs).1;
            if laterMs < first.resetAtMs && Find(between, key).Some? then next.resetAtMs == first.resetAtMs
            else next.resetAtMs == laterMs + c.windowMs && next.allowed && next.remaining == c.limit - 1
  {
    var after := Checked(c, slots, key, nowMs).0;
    assert DistinctKeys(after) by { CheckedStaysDistinct(c, slots, key, nowMs); }
    var between := From(c, after, others);
    assert DistinctKeys(between) && (Find(between, key) == Find(after, key) || Find(between, key).None?) by {
      OthersLeaveBucket(c, after, key, others);
    }
    DecisionReports(c, slots, key, nowMs);
    DecisionReports(c, between, key, laterMs);
  }

  lemma CheckedStaysDistinct(c: Config, slots: seq<Slot>, key: string, nowMs: int)
    requires ValidConfig(c) && DistinctKeys(slots)
    ensures DistinctKeys(Checked(c, slots, key, nowMs).0)
  {
    var (ready, slot) := Prepared(c, slots, key, nowMs);
    assert DistinctKeys(ready) by { PreparedDistinct(c, slots, key, nowMs); }
    CheckedIsCounted(c, slots, key, nowMs);
    ReplaceFacts(ready, slot.(count := slot.count + 1));
  }

  // --- the unbounded limiter ---------------------------------------------------------------------------

  type Buckets = map<string, Slot>

  /** A fixed-window limiter that never forgets: one bucket per key, no bound, no eviction. */
  function BucketFor(c: Config, m: Buckets, key: string, nowMs: int): Slot {
    if key in m && nowMs < m[key].resetAtMs then m[key] else Slot(key, 0, nowMs + c.windowMs)
  }

  function Ideal(c: Config, m: Buckets, key: string, nowMs: int): (Buckets, Decision) {
    var slot := BucketFor(c, m, key, nowMs);
    if slot.count >= c.limit then (m[key := slot], DecisionFor(c, false, slot, nowMs))
    else
      var counted := slot.(count := slot.count + 1);
      (m[key := counted], DecisionFor(c, true, counted, nowMs))
  }

  function IdealAfter(c: Config, calls: seq<Call>): Buckets {
    if calls == [] then map[]
    else
      var last := calls[|calls| - 1];
      Ideal(c, IdealAfter(c, calls[..|calls| - 1]), last.key, last.atMs).0
  }

  function IdealDecisions(c: Config, calls: seq<Call>): (ds: seq<Decision>)
    ensures |ds| == |calls|
  {
    if calls == [] then []
    else
      var last := calls[|calls| - 1];
      IdealDecisions(c, calls[..|calls| - 1]) + [Ideal(c, IdealAfter(c, calls[..|calls| - 1]), last.key, last.atMs).1]
  }

  function LiveKeys(m: Buckets, nowMs: int): set<string> {
    set key | key in m && m[key].resetAtMs > nowMs
  }

  /** The live buckets fit: at no call do more than `maxEntries` keys have a running window. */
  predicate Fits(c: Config, calls: seq<Call>) {
    forall n :: 0 < n <= |calls| ==> |LiveKeys(IdealAfter(c, calls[..n]), calls[n - 1].atMs)| <= c.maxEntries
  }

  function LiveSlot(slots: seq<Slot>, key: string, nowMs: int): Option<Slot> {
    if HasLive(slots, key, nowMs) then Find(slots, key) else None
  }

  function LiveBucket(m: Buckets, key: string, nowMs: int): Option<Slot> {
    if key in m && nowMs < m[key].resetAtMs then Some(m[key]) else None
  }

  /** Both limiters hold the same live buckets. */
  ghost predicate Agree(slots: seq<Slot>, m: Buckets, nowMs: int) {
    && (forall key :: key in m ==> m[key].key == key)
    && forall key :: LiveSlot(slots, key, nowMs) == LiveBucket(m, key, nowMs)
  }

  lemma AgreeLater(slots: seq<Slot>, m: Buckets, before: int, nowMs: int)
    requires Agree(slots, m, before) && before <= nowMs
    ensures Agree(slots, m, nowMs)
  {
    forall key ensures LiveSlot(slots, key, nowMs) == LiveBucket(m, key, nowMs) {
      assert LiveSlot(slots, key, before) == LiveBucket(m, key, before);
    }
  }

  /** The other live buckets are as many as the other live keys. */
  lemma OthersCount(slots: seq<Slot>, m: Buckets, key: string, nowMs: int)
    requires DistinctKeys(slots) && Agree(slots, m, nowMs)
    ensures |Others(slots, key, nowMs)| == |LiveKeys(m, nowMs) - {key}|
  {
    var others := Others(slots, key, nowMs);
    OthersFacts(slots, key, nowMs);
    var keys := set i | 0 <= i < |others| :: others[i].key;
    KeyCount(others);
    assert keys == LiveKeys(m, nowMs) - {key} by {
      forall k ensures k in keys <==> k in LiveKeys(m, nowMs) - {key} {
        assert LiveSlot(slots, k, nowMs) == LiveBucket(m, k, nowMs);
        if k in keys {
          var i :| 0 <= i < |others| && others[i].key == k;
          assert others[i] in others;
          FindMember(slots, others[i]);
        }
        if k in LiveKeys(m, nowMs) - {key} {
          var s := Find(slots, k).value;
          assert s in others;
          var i :| 0 <= i < |others| && others[i] == s;
        }
      }
    }
  }

  lemma {:induction false} KeyCount(slots: seq<Slot>)
    requires DistinctKeys(slots)
    ensures |set i | 0 <= i < |slots| :: slots[i].key| == |slots|
  {
    if slots == [] {
    } else {
      var n := |slots| - 1;
      KeyCount(slots[..n]);
      var init := set i | 0 <= i < |slots[..n]| :: slots[..n][i].key;
      assert (set i | 0 <= i < |slots| :: slots[i].key) == init + {slots[n].key};
      assert slots[n].key !in init;
    }
  }

  /** How many keys are live after a check: the others, and the key itself. */
  lemma LiveKeysAfter(c: Config, m: Buckets, key: string, nowMs: int)
    requires ValidConfig(c)
    ensures |LiveKeys(Ideal(c, m, key, nowMs).0, nowMs)| == |LiveKeys(m, nowMs) - {key}| + 1
  {
    assert LiveKeys(Ideal(c, m, key, nowMs).0, nowMs) == (LiveKeys(m, nowMs) - {key}) + {key};
  }

  /** The bounded map looks a key up as before, except for the checked key and what is evicted. */
  lemma CheckedLooksUp(c: Config, slots: seq<Slot>, key: string, nowMs: int, other: string)
    requires ValidConfig(c) && DistinctKeys(slots) && |slots| <= c.maxEntries && other != key
    requires HasLive(slots, key, nowMs) || |Others(slots, key, nowMs)| < c.maxEntries
    ensures LiveSlot(Checked(c, slots, key, nowMs).0, other, nowMs) == LiveSlot(slots, other, nowMs)
  {
    KeysAfter(c, slots, key, nowMs, other);
    if !HasLive(slots, key, nowMs) {
      OthersFacts(slots, key, nowMs);
      RoomForFacts(c, slots, key, nowMs);
      PreparedDistinct(c, slots, key, nowMs);
      var ready := Prepared(c, slots, key, nowMs).0;
      var room := RoomFor(c, slots, key, nowMs);
      if HasLive(slots, other, nowMs) {
        var s := Find(slots, other).value;
        RoomKeepsOthers(c, slots, key, nowMs, s);
        FindMember(ready, s);
      } else if Find(ready, other).Some? {
        var s := Find(ready, other).value;
        assert s in room;
        FindMember(slots, s);
      }
    }
  }

  lemma PreparedHolds(c: Config, slots: seq<Slot>, key: string, nowMs: int)
    requires ValidConfig(c) && DistinctKeys(slots)
    ensures var (ready, slot) := Prepared(c, slots, key, nowMs);
            DistinctKeys(ready) && slot in ready && slot.key == key
  {
    PreparedDistinct(c, slots, key, nowMs);
    var (ready, slot) := Prepared(c, slots, key, nowMs);
    if !HasLive(slots, key, nowMs) { assert ready[|ready| - 1] == slot; }
  }

  lemma CheckedOwnSlot(c: Config, slots: seq<Slot>, key: string, nowMs: int)
    requires ValidConfig(c) && DistinctKeys(slots)
    ensures var slot := Prepared(c, slots, key, nowMs).1;
            Find(Checked(c, slots, key, nowMs).0, key)
            == Some(if slot.count >= c.limit then slot else slot.(count := slot.count + 1))
  {
    var (ready, slot) := Prepared(c, slots, key, nowMs);
    CheckedIsCounted(c, slots, key, nowMs);
    assert DistinctKeys(ready) && slot in ready && slot.key == key by { PreparedHolds(c, slots, key, nowMs); }
    CountedIsFound(c, ready, slot);
  }

  lemma CountedIsFound(c: Config, ready: seq<Slot>, slot: Slot)
    requires DistinctKeys(ready) && slot in ready
    ensures Find(Counted(c, ready, slot), slot.key)
            == Some(if slot.count >= c.limit then slot else slot.(count := slot.count + 1))
  {
    if slot.count >= c.limit {
      FindMember(ready, slot);
    } else {
      var counted := slot.(count := slot.count + 1);
      assert Find(Replace(ready, counted), slot.key) == Some(counted) by { ReplacedIsFound(ready, slot, counted); }
      assert Counted(c, ready, slot) == Replace(ready, counted);
    }
  }

  lemma ReplacedIsFound(slots: seq<Slot>, was: Slot, slot: Slot)
    requires DistinctKeys(slots) && was in slots && was.key == slot.key
    ensures Find(Replace(slots, slot), slot.key) == Some(slot)
  {
    ReplaceFacts(slots, slot);
    var i :| 0 <= i < |slots| && slots[i] == was;
    assert Replace(slots, slot)[i] == slot;
    FindMember(Replace(slots, slot), slot);
  }

  /** One check of each limiter, when the live buckets fit: same decision, and they still agree. */
  lemma CheckRefines(c: Config, slots: seq<Slot>, m: Buckets, key: string, nowMs: int)
    requires ValidConfig(c) && DistinctKeys(slots) && |slots| <= c.maxEntries
    requires Agree(slots, m, nowMs)
    requires |LiveKeys(Ideal(c, m, key, nowMs).0, nowMs)| <= c.maxEntries
    ensures Checked(c, slots, key, nowMs).1 == Ideal(c, m, key, nowMs).1
    ensures Agree(Checked(c, slots, key, nowMs).0, Ideal(c, m, key, nowMs).0, nowMs)
  {
    assert LiveSlot(slots, key, nowMs) == LiveBucket(m, key, nowMs);
    CheckAgreesOnKey(c, slots, m, key, nowMs);
    assert HasLive(slots, key, nowMs) || |Others(slots, key, nowMs)| < c.maxEntries by {
      OthersCount(slots, m, key, nowMs);
      LiveKeysAfter(c, m, key, nowMs);
    }
    var after := Checked(c, slots, key, nowMs).0;
    var ideal := Ideal(c, m, key, nowMs).0;
    forall k ensures LiveSlot(after, k, nowMs) == LiveBucket(ideal, k, nowMs) {
      if k != key {
        assert LiveSlot(slots, k, nowMs) == LiveBucket(m, k, nowMs);
        CheckedLooksUp(c, slots, key, nowMs, k);
      }
    }
  }

  /** On the checked key itself the two limiters decide alike if they agreed on it, whatever they hold of others. */
  lemma CheckAgreesOnKey(c: Config, slots: seq<Slot>, m: Buckets, key: string, nowMs: int)
    requires ValidConfig(c) && DistinctKeys(slots)
    requires LiveSlot(slots, key, nowMs) == LiveBucket(m, key, nowMs)
    ensures Checked(c, slots, key, nowMs).1 == Ideal(c, m, key, nowMs).1
    ensures LiveSlot(Checked(c, slots, key, nowMs).0, key, nowMs)
            == LiveBucket(Ideal(c, m, key, nowMs).0, key, nowMs)
  {
    CheckedOwnSlot(c, slots, key, nowMs);
    assert Prepared(c, slots, key, nowMs).1 == BucketFor(c, m, key, nowMs);
  }

  /** And when they do not fit, a live bucket is lost: the condition is no stronger than it has to be. */
  lemma OverflowEvicts(c: Config, slots: seq<Slot>, m: Buckets, key: string, before: int, nowMs: int)
    requires ValidConfig(c) && WellKept(c, slots, before) && Agree(slots, m, nowMs)
    ensures |LiveKeys(Ideal(c, m, key, nowMs).0, nowMs)| > c.maxEntries
            <==> exists s :: Evicted(c, slots, key, nowMs, s)
  {
    assert LiveSlot(slots, key, nowMs) == LiveBucket(m, key, nowMs);
    OthersCount(slots, m, key, nowMs);
    LiveKeysAfter(c, m, key, nowMs);
    var others := Others(slots, key, nowMs);
    if |others| >= c.maxEntries {
      OthersFacts(slots, key, nowMs);
      if HasLive(slots, key, nowMs) {
        OthersLeaveRoom(slots, key, nowMs);
      } else {
        EvictionIsSoonest(c, slots, key, before, nowMs, others[0]);
      }
    }
    forall s | Evicted(c, slots, key, nowMs, s) ensures |others| >= c.maxEntries {
      EvictionIsSoonest(c, slots, key, before, nowMs, s);
    }
  }

  lemma OthersLeaveRoom(slots: seq<Slot>, key: string, nowMs: int)
    requires DistinctKeys(slots) && Find(slots, key).Some?
    ensures |Others(slots, key, nowMs)| < |slots|
  {
    WithoutFacts(slots, key);
    LiveFacts(Without(slots, key), nowMs);
  }

  lemma FitsByPrefix(c: Config, calls: seq<Call>)
    requires calls != []
    ensures var n := |calls| - 1;
            var m := Ideal(c, IdealAfter(c, calls[..n]), calls[n].key, calls[n].atMs).0;
            Fits(c, calls) <==> Fits(c, calls[..n]) && |LiveKeys(m, calls[n].atMs)| <= c.maxEntries
  {
    var n := |calls| - 1;
    assert calls[..n + 1] == calls;
    forall k | 0 < k <= n ensures calls[..n][..k] == calls[..k] {
    }
  }

  /** Over any run whose live buckets fit, pruning and lazy deletion are invisible: the bounded limiter takes
      exactly the decisions of the unbounded one. */
  lemma {:induction false} BoundedRefinesIdeal(c: Config, calls: seq<Call>)
    requires ValidConfig(c) && Ordered(calls) && Fits(c, calls)
    ensures Decisions(c, calls) == IdealDecisions(c, calls)
    ensures Agree(After(c, calls), IdealAfter(c, calls), LastTime(calls))
  {
    if calls == [] {
    } else {
      var n := |calls| - 1;
      var front, key, at := calls[..n], calls[n].key, calls[n].atMs;
      FitsByPrefix(c, calls);
      BoundedRefinesIdeal(c, front);
      LastRefines(c, front, After(c, front), IdealAfter(c, front), key, at);
    }
  }

  /** The last call of a run that fits, after both limiters agreed on the calls before it. */
  lemma LastRefines(c: Config, front: seq<Call>, slots: seq<Slot>, m: Buckets, key: string, at: int)
    requires ValidConfig(c) && Ordered(front) && slots == After(c, front)
    requires Agree(slots, m, LastTime(front)) && (front == [] ==> slots == [] && m == map[])
    requires front != [] ==> LastTime(front) <= at
    requires |LiveKeys(Ideal(c, m, key, at).0, at)| <= c.maxEntries
    ensures Checked(c, slots, key, at).1 == Ideal(c, m, key, at).1
    ensures Agree(Checked(c, slots, key, at).0, Ideal(c, m, key, at).0, at)
  {
    assert DistinctKeys(slots) && |slots| <= c.maxEntries by { RunWellKept(c, front); }
    if front != [] { AgreeLater(slots, m, LastTime(front), at); }
    CheckRefines(c, slots, m, key, at);
  }

  // --- runs without a live eviction --------------------------------------------------------------------

  /** A check throws away a live bucket of this key. */
  ghost predicate Evicts(c: Config, slots: seq<Slot>, call: Call, key: string) {
    exists s :: Evicted(c, slots, call.key, call.atMs, s) && s.key == key
  }

  /** Over the run, no check throws away a live bucket of this key. */
  ghost predicate NeverEvicted(c: Config, calls: seq<Call>, key: string) {
    if calls == [] then true
    else
      var n := |calls| - 1;
      NeverEvicted(c, calls[..n], key) && !Evicts(c, After(c, calls[..n]), calls[n], key)
  }

  /** Over the run, no check throws away any live bucket. */
  ghost predicate NoEviction(c: Config, calls: seq<Call>) {
    forall key :: NeverEvicted(c, calls, key)
  }

  /** A check of another key leaves a live bucket as it is, unless it throws it away. */
  lemma OtherKeysLook(c: Config, slots: seq<Slot>, key: string, nowMs: int, other: string)
    requires ValidConfig(c) && DistinctKeys(slots) && other != key
    requires !Evicts(c, slots, Call(key, nowMs), other)
    ensures LiveSlot(Checked(c, slots, key, nowMs).0, other, nowMs) == LiveSlot(slots, other, nowMs)
  {
    OtherLeavesBucket(c, slots, other, key, nowMs);
    if HasLive(slots, other, nowMs) {
      var s := Find(slots, other).value;
      assert !Evicted(c, slots, key, nowMs, s);
    }
  }

  /** For a key whose own live bucket is never thrown away, the bounded limiter takes exactly the decisions of the
      unbounded one, whatever happens to other keys. */
  lemma {:induction false} KeyKeepsItsBucket(c: Config, calls: seq<Call>, key: string)
    requires ValidConfig(c) && Ordered(calls) && NeverEvicted(c, calls, key)
    ensures LiveSlot(After(c, calls), key, LastTime(calls)) == LiveBucket(IdealAfter(c, calls), key, LastTime(calls))
    ensures forall n :: 0 <= n < |calls| && calls[n].key == key ==>
              Decisions(c, calls)[n] == IdealDecisions(c, calls)[n]
  {
    if calls == [] {
    } else {
      var n := |calls| - 1;
      var front := calls[..n];
      var (checked, at) := (calls[n].key, calls[n].atMs);
      var (slots, m) := (After(c, front), IdealAfter(c, front));
      KeyKeepsItsBucket(c, front, key);
      assert n > 0 ==> LastTime(front) <= at;
      assert LiveSlot(slots, key, at) == LiveBucket(m, key, at);
      assert DistinctKeys(slots) by { RunWellKept(c, front); }
      if checked == key {
        CheckAgreesOnKey(c, slots, m, key, at);
      } else {
        OtherKeysLook(c, slots, checked, at, key);
      }
    }
  }

  /** A run throws no live bucket away exactly if its live buckets fit. */
  lemma {:induction false} NoEvictionIsFitting(c: Config, calls: seq<Call>)
    requires ValidConfig(c) && Ordered(calls)
    ensures NoEviction(c, calls) <==> Fits(c, calls)
  {
    if calls == [] {
    } else {
      var n := |calls| - 1;
      var front := calls[..n];
      NoEvictionIsFitting(c, front);
      FitsByPrefix(c, calls);
      NoEvictionByPrefix(c, calls);
      if Fits(c, front) { LastEvictsOrFits(c, front, calls[n]); }
    }
  }

  ghost predicate EvictsAny(c: Config, slots: seq<Slot>, call: Call) {
    exists s :: Evicted(c, slots, call.key, call.atMs, s)
  }

  /** After a run that fits, a further check evicts exactly if the live buckets no longer do. */
  lemma LastEvictsOrFits(c: Config, front: seq<Call>, last: Call)
    requires ValidConfig(c) && Ordered(front + [last]) && Fits(c, front)
    ensures EvictsAny(c, After(c, front), last)
            <==> |LiveKeys(Ideal(c, IdealAfter(c, front), last.key, last.atMs).0, last.atMs)| > c.maxEntries
  {
    var all := front + [last];
    assert forall i :: 0 <= i < |front| ==> all[i] == front[i];
    assert all[|front|] == last;
    var before := if front == [] then last.atMs else LastTime(front);
    BoundedRefinesIdeal(c, front);
    RunWellKept(c, front);
    AgreeLater(After(c, front), IdealAfter(c, front), before, last.atMs);
    OverflowEvicts(c, After(c, front), IdealAfter(c, front), last.key, before, last.atMs);
  }

  lemma NoEvictionByPrefix(c: Config, calls: seq<Call>)
    requires calls != []
    ensures var n := |calls| - 1;
            NoEviction(c, calls) <==> NoEviction(c, calls[..n]) && !EvictsAny(c, After(c, calls[..n]), calls[n])
  {
    var n := |calls| - 1;
    var slots := After(c, calls[..n]);
    forall key
      ensures NeverEvicted(c, calls, key) <==> NeverEvicted(c, calls[..n], key) && !Evicts(c, slots, calls[n], key)
    {
    }
    if EvictsAny(c, slots, calls[n]) {
      var s :| Evicted(c, slots, calls[n].key, calls[n].atMs, s);
      assert Evicts(c, slots, calls[n], s.key);
      assert !NeverEvicted(c, calls, s.key);
    }
  }

  // --- how much a key can get --------------------------------------------------------------------------

  /** The times at which checks of `key` were allowed. */
  function AllowedTimes(calls: seq<Call>, decisions: seq<Decision>, key: string): seq<int>
    requires |calls| == |decisions|
  {
    if calls == [] then []
    else
      var n := |calls| - 1;
      AllowedTimes(calls[..n], decisions[..n], key)
      + if calls[n].key == key && decisions[n].allowed then [calls[n].atMs] else []
  }

  function CountIn(times: seq<int>, lo: int, hi: int): nat {
    if times == [] then 0
    else CountIn(times[..|times| - 1], lo, hi) + if lo <= times[|times| - 1] <= hi then 1 else 0
  }

  /** How many of the times fall within `windowMs` after `t`, both ends included. */
  function CountWithin(times: seq<int>, t: int, windowMs: int): nat {
    CountIn(times, t, t + windowMs)
  }

  function CountFrom(times: seq<int>, lo: int): nat {
    if times == [] then 0
    else CountFrom(times[..|times| - 1], lo) + if lo <= times[|times| - 1] then 1 else 0
  }

  lemma CountAppend(times: seq<int>, t: int, lo: int, hi: int)
    ensures CountIn(times + [t], lo, hi) == CountIn(times, lo, hi) + if lo <= t <= hi then 1 else 0
    ensures CountFrom(times + [t], lo) == CountFrom(times, lo) + if lo <= t then 1 else 0
  {
    assert (times + [t])[..|times|] == times;
  }

  lemma {:induction false} CountBounds(times: seq<int>, lo: int, lower: int, hi: int)
    requires lower <= lo
    ensures CountIn(times, lo, hi) <= CountFrom(times, lo) <= CountFrom(times, lower)
    ensures (forall i :: 0 <= i < |times| ==> times[i] < lo) ==> CountFrom(times, lo) == 0
  {
    if times == [] {
    } else {
      CountBounds(times[..|times| - 1], lo, lower, hi);
    }
  }

  /** The account kept for one key: its bucket counts the checks allowed since it started, and any stretch
      reaching back at most one more window holds at most `limit` further ones. */
  ghost predicate Account(c: Config, times: seq<int>, m: Buckets, key: string, nowMs: int) {
    && (key !in m ==> times == [])
    && (key in m ==>
          var start := m[key].resetAtMs - c.windowMs;
          && 1 <= m[key].count <= c.limit && start <= nowMs
          && (forall i :: 0 <= i < |times| ==> times[i] < m[key].resetAtMs)
          && CountFrom(times, start) == m[key].count
          && (forall x :: x >= start - c.windowMs ==> CountFrom(times, x) <= c.limit + m[key].count))
    && forall t :: CountWithin(times, t, c.windowMs) <= 2 * c.limit
  }

  lemma AllowKeepsAccount(c: Config, times: seq<int>, m: Buckets, key: string, before: int, nowMs: int)
    requires ValidConfig(c) && Account(c, times, m, key, before) && before <= nowMs
    requires Ideal(c, m, key, nowMs).1.allowed
    ensures Account(c, times + [nowMs], Ideal(c, m, key, nowMs).0, key, nowMs)
  {
    var after := Ideal(c, m, key, nowMs).0;
    var all := times + [nowMs];
    var start := after[key].resetAtMs - c.windowMs;
    var renewed := !(key in m && nowMs < m[key].resetAtMs);
    CountAppend(times, nowMs, start, 0);
    CountBounds(times, start, start, 0);
    forall x | x >= start - c.windowMs ensures CountFrom(all, x) <= c.limit + after[key].count {
      CountAppend(times, nowMs, x, 0);
      if key in m && renewed {
        CountBounds(times, x, m[key].resetAtMs - c.windowMs, 0);
      }
    }
    forall t ensures CountWithin(all, t, c.windowMs) <= 2 * c.limit {
      assert CountWithin(times, t, c.windowMs) <= 2 * c.limit;
      CountAppend(times, nowMs, t, t + c.windowMs);
      if t <= nowMs <= t + c.windowMs {
        CountBounds(all, t, t, t + c.windowMs);
        assert CountFrom(all, t) <= c.limit + after[key].count;
      }
    }
  }

  lemma {:induction false} IdealAccount(c: Config, calls: seq<Call>, key: string)
    requires ValidConfig(c) && Ordered(calls)
    ensures Account(c, AllowedTimes(calls, IdealDecisions(c, calls), key), IdealAfter(c, calls), key, LastTime(calls))
  {
    if calls == [] {
    } else {
      var n := |calls| - 1;
      var front := calls[..n];
      var m := IdealAfter(c, front);
      var times := AllowedTimes(front, IdealDecisions(c, front), key);
      IdealAccount(c, front, key);
      AllowedTimesStep(c, calls, key);
      assert front == [] ==> times == [] && m == map[];
      StepKeepsAccount(c, times, m, calls[n].key, key, if n > 0 then LastTime(front) else calls[n].atMs, calls[n].atMs);
    }
  }

  lemma AllowedTimesStep(c: Config, calls: seq<Call>, key: string)
    requires calls != []
    ensures var n := |calls| - 1;
            AllowedTimes(calls, IdealDecisions(c, calls), key)
            == AllowedTimes(calls[..n], IdealDecisions(c, calls[..n]), key)
               + if calls[n].key == key && Ideal(c, IdealAfter(c, calls[..n]), calls[n].key, calls[n].atMs).1.allowed
                 then [calls[n].atMs] else []
  {
    var n := |calls| - 1;
    assert IdealDecisions(c, calls)[..n] == IdealDecisions(c, calls[..n]);
  }

  lemma StepKeepsAccount(c: Config, times: seq<int>, m: Buckets, checked: string, key: string, before: int, nowMs: int)
    requires ValidConfig(c) && before <= nowMs
    requires Account(c, times, m, key, before)
    ensures var (after, d) := Ideal(c, m, checked, nowMs);
            Account(c, times + if checked == key && d.allowed then [nowMs] else [], after, key, nowMs)
  {
    if checked == key && Ideal(c, m, key, nowMs).1.allowed {
      AllowKeepsAccount(c, times, m, key, before, nowMs);
    } else {
      assert times + [] == times;
      DenyKeepsAccount(c, times, m, checked, key, before, nowMs);
    }
  }

  lemma DenyKeepsAccount(c: Config, times: seq<int>, m: Buckets, checked: string, key: string, before: int, nowMs: int)
    requires ValidConfig(c) && Account(c, times, m, key, before) && before <= nowMs
    requires checked != key || !Ideal(c, m, key, nowMs).1.allowed
    ensures Account(c, times, Ideal(c, m, checked, nowMs).0, key, nowMs)
  {
    var after := Ideal(c, m, checked, nowMs).0;
    assert key in m <==> key in after;
    assert key in m ==> after[key] == m[key];
  }

  /** Decisions that agree on a key allow it at the same times. */
  lemma {:induction false} SameDecisionsSameTimes(calls: seq<Call>, a: seq<Decision>, b: seq<Decision>, key: string)
    requires |calls| == |a| == |b|
    requires forall n :: 0 <= n < |calls| && calls[n].key == key ==> a[n] == b[n]
    ensures AllowedTimes(calls, a, key) == AllowedTimes(calls, b, key)
  {
    if calls == [] {
    } else {
      var n := |calls| - 1;
      SameDecisionsSameTimes(calls[..n], a[..n], b[..n], key);
    }
  }

  /** In every run that never throws away a live bucket of a key, at most `2 * limit` checks of that key are allowed
      within any `windowMs` milliseconds, both ends included, whatever other keys do. */
  lemma AtMostTwiceTheLimit(c: Config, calls: seq<Call>, key: string, t: int)
    requires ValidConfig(c) && Ordered(calls) && NeverEvicted(c, calls, key)
    ensures CountWithin(AllowedTimes(calls, Decisions(c, calls), key), t, c.windowMs) <= 2 * c.limit
  {
    KeyKeepsItsBucket(c, calls, key);
    SameDecisionsSameTimes(calls, Decisions(c, calls), IdealDecisions(c, calls), key);
    IdealAccount(c, calls, key);
  }
}
