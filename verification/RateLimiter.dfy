/** The bounded, in-memory fixed-window limiter (src/rate-limit.ts), and the unbounded limiter it stands for. */
module RateLimiter {
  import opened Prelude

  /** One bucket of the insertion-ordered map. */
  datatype Slot = Slot(key: string, count: nat, resetAtMs: int)

  datatype Decision = Decision(
    allowed: bool,
    limit: int,
    remaining: int,
    resetAtMs: int,
    retryAfterSeconds: int)

  datatype Config = Config(limit: int, windowMs: int, maxEntries: int)

  predicate ValidConfig(c: Config) {
    c.limit >= 1 && c.windowMs >= 1 && c.maxEntries >= 1
  }

  // --- the ordered map ---------------------------------------------------------------------------------

  predicate DistinctKeys(slots: seq<Slot>) {
    forall i, j :: 0 <= i < j < |slots| ==> slots[i].key != slots[j].key
  }

  function Find(slots: seq<Slot>, key: string): (r: Option<Slot>)
    ensures r.Some? ==> r.value in slots && r.value.key == key
    ensures r.None? <==> forall i :: 0 <= i < |slots| ==> slots[i].key != key
  {
    if slots == [] then None
    else if slots[0].key == key then Some(slots[0])
    else Find(slots[1..], key)
  }

  function Without(slots: seq<Slot>, key: string): seq<Slot> {
    if slots == [] then []
    else (if slots[0].key == key then [] else [slots[0]]) + Without(slots[1..], key)
  }

  function Live(slots: seq<Slot>, nowMs: int): seq<Slot> {
    if slots == [] then []
    else (if slots[0].resetAtMs > nowMs then [slots[0]] else []) + Live(slots[1..], nowMs)
  }

  function Replace(slots: seq<Slot>, slot: Slot): (r: seq<Slot>)
    ensures |r| == |slots|
  {
    if slots == [] then []
    else [if slots[0].key == slot.key then slot else slots[0]] + Replace(slots[1..], slot)
  }

  lemma {:induction false} WithoutFacts(slots: seq<Slot>, key: string)
    requires DistinctKeys(slots)
    ensures DistinctKeys(Without(slots, key))
    ensures forall s :: s in Without(slots, key) <==> s in slots && s.key != key
    ensures |Without(slots, key)| == |slots| - if Find(slots, key).Some? then 1 else 0
  {
    if slots == [] {
    } else {
      WithoutFacts(slots[1..], key);
      assert forall s :: s in slots <==> s == slots[0] || s in slots[1..];
      if slots[0].key == key { assert Find(slots[1..], key).None?; }
    }
  }

  lemma {:induction false} LiveMembers(slots: seq<Slot>, nowMs: int)
    ensures forall s :: s in Live(slots, nowMs) <==> s in slots && s.resetAtMs > nowMs
    ensures |Live(slots, nowMs)| <= |slots|
  {
    if slots == [] {
    } else {
      LiveMembers(slots[1..], nowMs);
      assert slots == [slots[0]] + slots[1..];
    }
  }

  lemma {:induction false} LiveFacts(slots: seq<Slot>, nowMs: int)
    requires DistinctKeys(slots)
    ensures DistinctKeys(Live(slots, nowMs))
    ensures forall s :: s in Live(slots, nowMs) <==> s in slots && s.resetAtMs > nowMs
    ensures |Live(slots, nowMs)| <= |slots|
  {
    LiveMembers(slots, nowMs);
    if slots == [] {
    } else {
      LiveFacts(slots[1..], nowMs);
      KeyIsNew(slots, Live(slots[1..], nowMs));
    }
  }

  /** The first key occurs in nothing drawn from the rest. */
  lemma KeyIsNew(slots: seq<Slot>, rest: seq<Slot>)
    requires slots != [] && DistinctKeys(slots) && forall s :: s in rest ==> s in slots[1..]
    ensures forall i :: 0 <= i < |rest| ==> rest[i].key != slots[0].key
  {
    forall i | 0 <= i < |rest| ensures rest[i].key != slots[0].key {
      assert rest[i] in slots[1..];
      var k :| 0 <= k < |slots[1..]| && slots[1..][k] == rest[i];
      assert slots[k + 1] == rest[i];
    }
  }

  lemma {:induction false} ReplaceFacts(slots: seq<Slot>, slot: Slot)
    requires DistinctKeys(slots)
    ensures DistinctKeys(Replace(slots, slot))
    ensures forall i :: 0 <= i < |slots| ==>
              Replace(slots, slot)[i] == if slots[i].key == slot.key then slot else slots[i]
  {
    if slots == [] {
    } else {
      ReplaceFacts(slots[1..], slot);
      var r := Replace(slots, slot);
      assert forall i :: 0 < i < |slots| ==> r[i] == Replace(slots[1..], slot)[i - 1];
    }
  }

  /** In a map with distinct keys, a member is what looking its key up finds. */
  lemma {:induction false} FindMember(slots: seq<Slot>, s: Slot)
    requires DistinctKeys(slots) && s in slots
    ensures Find(slots, s.key) == Some(s)
  {
    if slots[0] == s {
    } else {
      FindMember(slots[1..], s);
    }
  }

  /** Distinct-key maps with the same members find the same slots. */
  lemma FindByMembers(a: seq<Slot>, b: seq<Slot>, key: string)
    requires DistinctKeys(a) && DistinctKeys(b)
    requires forall s :: s in a && s.key == key <==> s in b && s.key == key
    ensures Find(a, key) == Find(b, key)
  {
    if Find(a, key).Some? { FindMember(b, Find(a, key).value); }
    if Find(b, key).Some? { FindMember(a, Find(b, key).value); }
  }

  // --- one check, as a function on the map -------------------------------------------------------------

  function CeilDiv(a: int, b: int): int
    requires b > 0
  {
    -((-a) / b)
  }

  function DecisionFor(c: Config, allowed: bool, slot: Slot, nowMs: int): Decision {
    Decision(
      allowed, c.limit, if c.limit - slot.count > 0 then c.limit - slot.count else 0, slot.resetAtMs,
      if allowed then 0
      else if CeilDiv(slot.resetAtMs - nowMs, 1000) > 1 then CeilDiv(slot.resetAtMs - nowMs, 1000) else 1)
  }

  /** Drops the oldest buckets until there is room for one more. */
  function Trimmed(slots: seq<Slot>, maxEntries: int): seq<Slot> {
    if |slots| < maxEntries || slots == [] then slots else Trimmed(slots[1..], maxEntries)
  }

  /** The map with room for a fresh bucket of `key`. */
  function RoomFor(c: Config, slots: seq<Slot>, key: string, nowMs: int): seq<Slot> {
    var rest := Without(slots, key);
    if |rest| >= c.maxEntries then Trimmed(Live(rest, nowMs), c.maxEntries) else rest
  }

  predicate HasLive(slots: seq<Slot>, key: string, nowMs: int) {
    Find(slots, key).Some? && nowMs < Find(slots, key).value.resetAtMs
  }

  /** The map and the bucket consulted, before counting this check. */
  function Prepared(c: Config, slots: seq<Slot>, key: string, nowMs: int): (seq<Slot>, Slot) {
    if HasLive(slots, key, nowMs) then (slots, Find(slots, key).value)
    else
      var first := Slot(key, 0, nowMs + c.windowMs);
      (RoomFor(c, slots, key, nowMs) + [first], first)
  }

  function Checked(c: Config, slots: seq<Slot>, key: string, nowMs: int): (seq<Slot>, Decision) {
    var (ready, slot) := Prepared(c, slots, key, nowMs);
    if slot.count >= c.limit then (ready, DecisionFor(c, false, slot, nowMs))
    else
      var counted := slot.(count := slot.count + 1);
      (Replace(ready, counted), DecisionFor(c, true, counted, nowMs))
  }

  lemma RoomForFacts(c: Config, slots: seq<Slot>, key: string, nowMs: int)
    requires ValidConfig(c) && DistinctKeys(slots)
    ensures var room := RoomFor(c, slots, key, nowMs);
            && DistinctKeys(room) && |room| < c.maxEntries
            && forall s :: s in room ==> s in slots && s.key != key
  {
    WithoutFacts(slots, key);
    var rest := Without(slots, key);
    LiveFacts(rest, nowMs);
    TrimmedIsSuffix(Live(rest, nowMs), c.maxEntries);
  }

  lemma PreparedDistinct(c: Config, slots: seq<Slot>, key: string, nowMs: int)
    requires ValidConfig(c) && DistinctKeys(slots)
    ensures DistinctKeys(Prepared(c, slots, key, nowMs).0)
  {
    RoomForFacts(c, slots, key, nowMs);
  }

  // --- the class ---------------------------------------------------------------------------------------

  class FixedWindowRateLimiter {
    const config: Config
    var entries: seq<Slot>

    ghost predicate Valid()
      reads this
    {
      ValidConfig(config) && DistinctKeys(entries)
    }

    constructor (c: Config)
      requires ValidConfig(c)
      ensures Valid() && config == c && entries == []
    {
      config := c;
      entries := [];
    }

    /** The constructor's own argument checks. */
    static method Create(limit: int, windowMs: int, maxEntries: int)
      returns (r: Result<FixedWindowRateLimiter, string>)
      ensures r.Ok? <==> limit >= 1 && windowMs >= 1 && maxEntries >= 1
      ensures r.Ok? ==> fresh(r.value) && r.value.Valid() && r.value.entries == []
                        && r.value.config == Config(limit, windowMs, maxEntries)
    {
      if limit < 1 { return Err("limit must be a positive integer"); }
      if windowMs < 1 { return Err("windowMs must be a positive integer"); }
      if maxEntries < 1 { return Err("maxEntries must be a positive integer"); }
      var limiter := new FixedWindowRateLimiter(Config(limit, windowMs, maxEntries));
      return Ok(limiter);
    }

    /** One `check`: the whole new map and the decision are those of `Checked`. */
    method Check(key: string, nowMs: int) returns (d: Decision)
      requires Valid()
      modifies this
      ensures Valid()
      ensures (entries, d) == Checked(config, old(entries), key, nowMs)
    {
      PreparedDistinct(config, entries, key, nowMs);
      var slot := EntryFor(key, nowMs);
      if slot.count >= config.limit {
        return DecisionFor(config, false, slot, nowMs);
      }
      slot := slot.(count := slot.count + 1);
      ReplaceFacts(entries, slot);
      entries := Replace(entries, slot);
      return DecisionFor(config, true, slot, nowMs);
    }

    /** Finds the live bucket of `key`, or starts a fresh one at the end of the map. */
    method EntryFor(key: string, nowMs: int) returns (slot: Slot)
      requires ValidConfig(config)
      modifies this
      ensures (entries, slot) == Prepared(config, old(entries), key, nowMs)
    {
      var found := Find(entries, key);
      if found.None? || nowMs >= found.value.resetAtMs {
        if found.Some? { entries := Without(entries, key); } else { WithoutMissing(entries, key); }
        if |entries| >= config.maxEntries {
          PruneExpired(nowMs);
          MakeRoom();
        }
        slot := Slot(key, 0, nowMs + config.windowMs);
        entries := entries + [slot];
      } else {
        slot := found.value;
      }
    }

    method PruneExpired(nowMs: int)
      modifies this
      ensures entries == Live(old(entries), nowMs)
    {
      var kept: seq<Slot> := [];
      var i := 0;
      while i < |entries|
        invariant 0 <= i <= |entries|
        invariant entries == old(entries)
        invariant kept + Live(entries[i..], nowMs) == Live(entries, nowMs)
      {
        LiveStep(kept, entries, i, nowMs);
        if entries[i].resetAtMs > nowMs { kept := kept + [entries[i]]; }
        i := i + 1;
      }
      entries := kept;
    }

    method MakeRoom()
      modifies this
      ensures entries == Trimmed(old(entries), config.maxEntries)
    {
      while |entries| >= config.maxEntries
        invariant Trimmed(entries, config.maxEntries) == Trimmed(old(entries), config.maxEntries)
        decreases |entries|
      {
        if entries == [] { return; }
        entries := entries[1..];
      }
    }
  }

  lemma LiveStep(kept: seq<Slot>, slots: seq<Slot>, i: nat, nowMs: int)
    requires i < |slots|
    ensures kept + Live(slots[i..], nowMs)
            == (if slots[i].resetAtMs > nowMs then kept + [slots[i]] else kept) + Live(slots[i + 1..], nowMs)
  {
    var rest := Live(slots[i + 1..], nowMs);
    assert slots[i..][1..] == slots[i + 1..];
    assert kept + ([slots[i]] + rest) == (kept + [slots[i]]) + rest && [] + rest == rest;
  }

  lemma WithoutMissing(slots: seq<Slot>, key: string)
    requires Find(slots, key).None?
    ensures Without(slots, key) == slots
  {
  }

  lemma {:induction false} TrimmedIsSuffix(slots: seq<Slot>, maxEntries: int)
    ensures var drop := |slots| - |Trimmed(slots, maxEntries)|;
            && 0 <= drop <= |slots| && Trimmed(slots, maxEntries) == slots[drop..]
    ensures maxEntries >= 1 ==>
              |Trimmed(slots, maxEntries)| == if |slots| < maxEntries then |slots| else maxEntries - 1
    decreases |slots|
  {
    if |slots| < maxEntries || slots == [] {
    } else {
      TrimmedIsSuffix(slots[1..], maxEntries);
    }
  }
}
