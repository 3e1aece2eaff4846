/** Reading a long block range in one call or in chunks (src/monad-logs.ts, app/api/social/leaderboard/route.ts). */
module LogScan {
  import opened Prelude

  const BLOCK_RANGE := 1000

  /** The provider's answers: `serves` says whether the n-th call, for this range, is answered at all. */
  type Serves = (nat, int, int) -> bool

  function Min(a: int, b: int): int {
    if a > b then b else a
  }

  /** The ranges the paging loop asks for, in order. */
  function Chunks(from: int, to: int): seq<(int, int)>
    decreases to - from
  {
    if from > to then [] else [(from, Min(from + BLOCK_RANGE - 1, to))] + Chunks(from + BLOCK_RANGE, to)
  }

  /** What the loop has gathered after some chunks: `append` applied from left to right. */
  function Collected<E>(read: (int, int) -> E, append: (E, E) -> E, empty: E, chunks: seq<(int, int)>): E {
    if chunks == [] then empty
    else
      var last := chunks[|chunks| - 1];
      append(Collected(read, append, empty, chunks[..|chunks| - 1]), read(last.0, last.1))
  }

  predicate AllServed(serves: Serves, chunks: seq<(int, int)>) {
    forall k :: 0 <= k < |chunks| ==> serves(k + 1, chunks[k].0, chunks[k].1)
  }

  // --- the chunks cover the range ----------------------------------------------------------------------

  /** The chunks are no longer than the provider allows, start where the range starts, follow one another
      without gap or overlap, and end where it ends. */
  lemma ChunksTile(from: int, to: int)
    requires from <= to
    ensures var chunks := Chunks(from, to);
            && chunks != [] && chunks[0].0 == from && chunks[|chunks| - 1].1 == to
            && (forall k :: 0 <= k < |chunks| ==> chunks[k].0 <= chunks[k].1 <= chunks[k].0 + 999)
            && (forall k :: 0 <= k < |chunks| - 1 ==> chunks[k].1 == chunks[k].0 + 999)
            && (forall k :: 0 <= k < |chunks| - 1 ==> chunks[k + 1].0 == chunks[k].1 + 1)
  {
    var chunks := Chunks(from, to);
    forall k | 0 <= k < |chunks| ensures chunks[k].0 <= chunks[k].1 <= chunks[k].0 + 999 {
      ChunkAt(from, to, k);
    }
    forall k | 0 <= k < |chunks| - 1 ensures chunks[k].1 == chunks[k].0 + 999 && chunks[k + 1].0 == chunks[k].1 + 1 {
      ChunkAt(from, to, k);
      ChunkAt(from, to, k + 1);
    }
    ChunkAt(from, to, |chunks| - 1);
    ChunkAt(from, to, |chunks|);
  }

  /** The k-th chunk is where the loop variable stands after k steps, and the chunks end with the range. */
  lemma {:induction false} ChunkAt(from: int, to: int, k: nat)
    requires k <= |Chunks(from, to)|
    ensures from + BLOCK_RANGE * k <= to <==> k < |Chunks(from, to)|
    ensures k < |Chunks(from, to)| ==>
              Chunks(from, to)[k] == (from + BLOCK_RANGE * k, Min(from + BLOCK_RANGE * k + BLOCK_RANGE - 1, to))
    decreases k
  {
    if k == 0 {
    } else {
      ChunkAt(from + BLOCK_RANGE, to, k - 1);
    }
  }

  /** A scan under way: `done` is read and gathered in `acc`, and the loop goes on at `from`. */
  ghost predicate Scanning<E>(read: (int, int) -> E, append: (E, E) -> E, empty: E, serves: Serves,
                              first: int, to: int, from: int, done: seq<(int, int)>, acc: E)
  {
    && done + Chunks(from, to) == Chunks(first, to)
    && acc == Collected(read, append, empty, done)
    && AllServed(serves, done)
  }

  lemma ScanStep<E>(read: (int, int) -> E, append: (E, E) -> E, empty: E, serves: Serves,
                    first: int, to: int, from: int, done: seq<(int, int)>, acc: E)
    requires from <= to && Scanning(read, append, empty, serves, first, to, from, done, acc)
    ensures var end := Min(from + BLOCK_RANGE - 1, to);
            if serves(|done| + 1, from, end) then
              Scanning(read, append, empty, serves, first, to, from + BLOCK_RANGE, done + [(from, end)],
                       append(acc, read(from, end)))
            else
              !AllServed(serves, Chunks(first, to))
  {
    var next := (from, Min(from + BLOCK_RANGE - 1, to));
    var rest := Chunks(from + BLOCK_RANGE, to);
    assert done + ([next] + rest) == (done + [next]) + rest == Chunks(first, to);
    assert Chunks(first, to)[|done|] == next;
    assert (done + [next])[..|done|] == done;
  }

  lemma ScanEnd<E>(read: (int, int) -> E, append: (E, E) -> E, empty: E, serves: Serves,
                   first: int, to: int, from: int, done: seq<(int, int)>, acc: E)
    requires from > to && Scanning(read, append, empty, serves, first, to, from, done, acc)
    ensures done == Chunks(first, to) && AllServed(serves, done)
    ensures acc == Collected(read, append, empty, Chunks(first, to))
  {
    assert done + [] == done;
  }

  predicate Covers(chunk: (int, int), block: int) {
    chunk.0 <= block <= chunk.1
  }

  /** Every block of the range lies in exactly one chunk, and no other block in any. */
  lemma EachBlockOnce(from: int, to: int, block: int)
    ensures from <= block <= to ==>
              exists k :: 0 <= k < |Chunks(from, to)| && Covers(Chunks(from, to)[k], block)
    ensures forall k :: 0 <= k < |Chunks(from, to)| && Covers(Chunks(from, to)[k], block) ==>
              from <= block <= to && k == (block - from) / BLOCK_RANGE
  {
    var chunks := Chunks(from, to);
    if from <= block <= to {
      var k := (block - from) / BLOCK_RANGE;
      var n := |chunks|;
      ChunkAt(from, to, n);
      ChunkAt(from, to, k);
      assert Covers(chunks[k], block);
    }
    forall k | 0 <= k < |chunks| && Covers(chunks[k], block)
      ensures from <= block <= to && k == (block - from) / BLOCK_RANGE
    {
      ChunkAt(from, to, k);
    }
  }

  /** A reader whose answers for adjacent ranges put together are its answer for the whole. */
  ghost predicate Additive<E(!new)>(read: (int, int) -> E, append: (E, E) -> E) {
    forall a, b, c :: a <= b < c ==> append(read(a, b), read(b + 1, c)) == read(a, c)
  }

  lemma {:induction false} CollectedPrefix<E(!new)>(read: (int, int) -> E, append: (E, E) -> E, empty: E,
                                                    from: int, to: int, n: nat)
    requires from <= to && 1 <= n <= |Chunks(from, to)|
    requires Additive(read, append) && forall x :: append(empty, x) == x
    ensures Collected(read, append, empty, Chunks(from, to)[..n]) == read(from, Chunks(from, to)[n - 1].1)
  {
    var chunks := Chunks(from, to);
    ChunksTile(from, to);
    assert chunks[..n][..n - 1] == chunks[..n - 1];
    assert chunks[..n][n - 1] == chunks[n - 1];
    if n == 1 {
      assert chunks[..0] == [];
      assert Collected(read, append, empty, chunks[..0]) == empty;
    } else {
      CollectedPrefix(read, append, empty, from, to, n - 1);
      assert chunks[n - 1].0 == chunks[n - 2 + 1].0 == chunks[n - 2].1 + 1;
      ChunkAt(from, to, n - 2);
    }
  }

  /** Chunk by chunk or all at once, the scan of an additive reader is the same. */
  lemma ChunkedScanIsWholeScan<E(!new)>(read: (int, int) -> E, append: (E, E) -> E, empty: E, from: int, to: int)
    requires from <= to && Additive(read, append) && forall x :: append(empty, x) == x
    ensures Collected(read, append, empty, Chunks(from, to)) == read(from, to)
  {
    var chunks := Chunks(from, to);
    ChunksTile(from, to);
    CollectedPrefix(read, append, empty, from, to, |chunks|);
    assert chunks[..|chunks|] == chunks;
  }

  // --- a single list of logs ---------------------------------------------------------------------------

  function Concat<T>(a: seq<T>, b: seq<T>): seq<T> {
    a + b
  }

  /** `readEventsInChunks`: the whole range first, then page by page. `asked` is the trace of ranges read. */
  method ReadEventsInChunks<T>(read: (int, int) -> seq<T>, serves: Serves, fromBlock: int, toBlock: int)
    returns (r: Result<seq<T>, ()>, asked: seq<(int, int)>)
    ensures serves(0, fromBlock, toBlock) ==> r == Ok(read(fromBlock, toBlock)) && asked == [(fromBlock, toBlock)]
    ensures !serves(0, fromBlock, toBlock) ==>
              && (r.Ok? <==> AllServed(serves, Chunks(fromBlock, toBlock)))
              && (r.Ok? ==> r.value == Collected(read, Concat, [], Chunks(fromBlock, toBlock)))
              && (r.Ok? ==> asked == [(fromBlock, toBlock)] + Chunks(fromBlock, toBlock))
  {
    asked := [(fromBlock, toBlock)];
    if serves(0, fromBlock, toBlock) { return Ok(read(fromBlock, toBlock)), asked; }
    var logs: seq<T> := [];
    var from := fromBlock;
    ghost var done: seq<(int, int)> := [];
    while from <= toBlock
      invariant Scanning(read, Concat, [], serves, fromBlock, toBlock, from, done, logs)
      invariant asked == [(fromBlock, toBlock)] + done
    {
      var to := if from + BLOCK_RANGE - 1 > toBlock then toBlock else from + BLOCK_RANGE - 1;
      ScanStep(read, Concat, [], serves, fromBlock, toBlock, from, done, logs);
      var answered := serves(|asked|, from, to);
      asked := asked + [(from, to)];
      if !answered { return Err(()), asked; }
      logs := logs + read(from, to);
      done := done + [(from, to)];
      from := from + BLOCK_RANGE;
    }
    ScanEnd(read, Concat, [], serves, fromBlock, toBlock, from, done, logs);
    return Ok(logs), asked;
  }

  // --- the leaderboard's five event lists --------------------------------------------------------------

  datatype ScoreDay = ScoreDay(account: string, utcDay: int)
  datatype MissionDay = MissionDay(account: string, utcDay: int, missionType: int)
  datatype HandleSet = HandleSet(account: string, handle: string)
  datatype VisibilitySet = VisibilitySet(account: string, hidden: bool)

  datatype Events = Events(
    scores: seq<ScoreDay>,
    missions: seq<MissionDay>,
    completions: seq<ScoreDay>,
    handles: seq<HandleSet>,
    visibility: seq<VisibilitySet>)

  const NO_EVENTS := Events([], [], [], [], [])

  function Append(a: Events, b: Events): Events {
    Events(a.scores + b.scores, a.missions + b.missions, a.completions + b.completions,
           a.handles + b.handles, a.visibility + b.visibility)
  }

  /** The lists a scan pushes onto. */
  class EventLists {
    var scores: seq<ScoreDay>
    var missions: seq<MissionDay>
    var completions: seq<ScoreDay>
    var handles: seq<HandleSet>
    var visibility: seq<VisibilitySet>

    function Contents(): Events
      reads this
    {
      Events(scores, missions, completions, handles, visibility)
    }

    constructor ()
      ensures Contents() == NO_EVENTS
    {
      scores, missions, completions, handles, visibility := [], [], [], [], [];
    }

    /** `mergeEvents(this, source)`. */
    method Merge(source: Events)
      modifies this
      ensures Contents() == Append(old(Contents()), source)
    {
      scores := scores + source.scores;
      missions := missions + source.missions;
      completions := completions + source.completions;
      handles := handles + source.handles;
      visibility := visibility + source.visibility;
    }
  }

  /** The provider serves the range at once, or it is long enough for pages and each page is served. */
  predicate Readable(serves: Serves, deployment: int, latest: int) {
    deployment > latest || serves(0, deployment, latest) ||
    (latest - deployment >= BLOCK_RANGE && AllServed(serves, Chunks(deployment, latest)))
  }

  /** `readAllEvents`: nothing before deployment, one call if it is served, pages if the range is long. */
  method ReadAllEvents(read: (int, int) -> Events, serves: Serves, deployment: int, latest: int)
    returns (r: Result<Events, ()>)
    ensures r.Ok? <==> Readable(serves, deployment, latest)
    ensures deployment > latest ==> r == Ok(NO_EVENTS)
    ensures deployment <= latest && serves(0, deployment, latest) ==> r == Ok(read(deployment, latest))
    ensures deployment <= latest && !serves(0, deployment, latest) && r.Ok? ==>
              r.value == Collected(read, Append, NO_EVENTS, Chunks(deployment, latest))
  {
    if deployment > latest { return Ok(NO_EVENTS); }
    if serves(0, deployment, latest) { return Ok(read(deployment, latest)); }
    if latest - deployment < BLOCK_RANGE { return Err(()); }
    var lists := new EventLists();
    var from := deployment;
    var call := 1;
    ghost var done: seq<(int, int)> := [];
    while from <= latest
      invariant Scanning(read, Append, NO_EVENTS, serves, deployment, latest, from, done, lists.Contents())
      invariant call == |done| + 1 && fresh(lists)
    {
      var to := if from + BLOCK_RANGE - 1 > latest then latest else from + BLOCK_RANGE - 1;
      ScanStep(read, Append, NO_EVENTS, serves, deployment, latest, from, done, lists.Contents());
      if !serves(call, from, to) { return Err(()); }
      lists.Merge(read(from, to));
      done := done + [(from, to)];
      from := from + BLOCK_RANGE;
      call := call + 1;
    }
    ScanEnd(read, Append, NO_EVENTS, serves, deployment, latest, from, done, lists.Contents());
    return Ok(lists.Contents());
  }

  /** However the provider cuts it up, a scan that succeeds returns the events of the whole range. */
  lemma ScanReturnsWholeRange(read: (int, int) -> Events, deployment: int, latest: int)
    requires deployment <= latest && Additive(read, Append)
    ensures Collected(read, Append, NO_EVENTS, Chunks(deployment, latest)) == read(deployment, latest)
  {
    forall x ensures Append(NO_EVENTS, x) == x {
      assert [] + x.scores == x.scores && [] + x.missions == x.missions && [] + x.completions == x.completions;
      assert [] + x.handles == x.handles && [] + x.visibility == x.visibility;
    }
    ChunkedScanIsWholeScan(read, Append, NO_EVENTS, deployment, latest);
  }

  // --- Duolingo completions ----------------------------------------------------------------------------

  /** A completion log: its account and time of occurrence if present, and its block. */
  datatype CompletionLog = CompletionLog(account: Option<string>, occurredAt: Option<int>, blockNumber: int)

  const SECONDS_PER_DAY := 86400

  /** The verified day of a completion: its own time if positive, else its block's. Days round down. */
  function CompletionDay(log: CompletionLog, blockTime: int -> int): int {
    var seconds := if log.occurredAt.Some? && log.occurredAt.value > 0 then log.occurredAt.value
                   else blockTime(log.blockNumber);
    seconds / SECONDS_PER_DAY
  }

  function CompletionEvents(logs: seq<CompletionLog>, blockTime: int -> int): seq<ScoreDay> {
    if logs == [] then []
    else
      var last := logs[|logs| - 1];
      CompletionEvents(logs[..|logs| - 1], blockTime)
      + if last.account.Some? && last.account.value != ""
        then [ScoreDay(last.account.value, CompletionDay(last, blockTime))] else []
  }

  /** `readCompletionRange` after its log query: logs without an account are skipped. */
  method ReadCompletionRange(logs: seq<CompletionLog>, blockTime: int -> int) returns (events: seq<ScoreDay>)
    ensures events == CompletionEvents(logs, blockTime)
  {
    events := [];
    var i := 0;
    while i < |logs|
      invariant 0 <= i <= |logs|
      invariant events == CompletionEvents(logs[..i], blockTime)
    {
      assert logs[..i + 1][..i] == logs[..i];
      var log := logs[i];
      i := i + 1;
      if log.account.None? || log.account.value == "" { continue; }
      var seconds := if log.occurredAt.Some? then log.occurredAt.value else 0;
      if seconds <= 0 { seconds := blockTime(log.blockNumber); }
      events := events + [ScoreDay(log.account.value, seconds / SECONDS_PER_DAY)];
    }
    assert logs[..i] == logs;
  }

  /** `readAllCompletions`: as `readAllEvents`, over the other escrow's own deployment block. */
  method ReadAllCompletions(read: (int, int) -> seq<ScoreDay>, serves: Serves, deployment: int, latest: int)
    returns (r: Result<seq<ScoreDay>, ()>)
    ensures r.Ok? <==> Readable(serves, deployment, latest)
    ensures deployment > latest ==> r == Ok([])
    ensures deployment <= latest && serves(0, deployment, latest) ==> r == Ok(read(deployment, latest))
    ensures deployment <= latest && !serves(0, deployment, latest) && r.Ok? ==>
              r.value == Collected(read, Concat, [], Chunks(deployment, latest))
  {
    if deployment > latest { return Ok([]); }
    if serves(0, deployment, latest) { return Ok(read(deployment, latest)); }
    if latest - deployment < BLOCK_RANGE { return Err(()); }
    var collected: seq<ScoreDay> := [];
    var from := deployment;
    var call := 1;
    ghost var done: seq<(int, int)> := [];
    while from <= latest
      invariant Scanning(read, Concat, [], serves, deployment, latest, from, done, collected)
      invariant call == |done| + 1
    {
      var to := if from + BLOCK_RANGE - 1 > latest then latest else from + BLOCK_RANGE - 1;
      ScanStep(read, Concat, [], serves, deployment, latest, from, done, collected);
      if !serves(call, from, to) { return Err(()); }
      collected := collected + read(from, to);
      done := done + [(from, to)];
      from := from + BLOCK_RANGE;
      call := call + 1;
    }
    ScanEnd(read, Concat, [], serves, deployment, latest, from, done, collected);
    return Ok(collected);
  }

  /** A log with an account is credited to the day that contains its own time if that is positive, and else its
      block's; a log without one is to nobody. With `CompletionsAddUp` this says what any list of logs becomes. */
  lemma LogIsCredited(log: CompletionLog, blockTime: int -> int)
    ensures var events := CompletionEvents([log], blockTime);
            if log.account.None? || log.account.value == "" then events == []
            else
              && |events| == 1 && events[0].account == log.account.value
              && (log.occurredAt.Some? && log.occurredAt.value > 0 ==>
                    86400 * events[0].utcDay <= log.occurredAt.value < 86400 * (events[0].utcDay + 1))
              && (log.occurredAt.None? || log.occurredAt.value <= 0 ==>
                    var time := blockTime(log.blockNumber);
                    86400 * events[0].utcDay <= time < 86400 * (events[0].utcDay + 1))
  {
    assert [log][..0] == [];
  }

  /** Turning logs into completions commutes with putting ranges together, so completions scan alike. */
  lemma {:induction false} CompletionsAddUp(a: seq<CompletionLog>, b: seq<CompletionLog>, blockTime: int -> int)
    ensures CompletionEvents(a + b, blockTime) == CompletionEvents(a, blockTime) + CompletionEvents(b, blockTime)
    decreases |b|
  {
    if b == [] {
      assert a + b == a;
    } else {
      CompletionsAddUp(a, b[..|b| - 1], blockTime);
      assert (a + b)[..|a + b| - 1] == a + b[..|b| - 1];
    }
  }

  lemma CompletionScanIsWhole(logs: (int, int) -> seq<CompletionLog>, blockTime: int -> int, from: int, to: int)
    requires from <= to && Additive(logs, Concat)
    ensures Collected((a, b) => CompletionEvents(logs(a, b), blockTime), Concat, [], Chunks(from, to))
            == CompletionEvents(logs(from, to), blockTime)
  {
    var read := (a, b) => CompletionEvents(logs(a, b), blockTime);
    forall a, b, c | a <= b < c ensures Concat(read(a, b), read(b + 1, c)) == read(a, c) {
      assert Concat(logs(a, b), logs(b + 1, c)) == logs(a, c);
      CompletionsAddUp(logs(a, b), logs(b + 1, c), blockTime);
    }
    forall x: seq<ScoreDay> ensures Concat([], x) == x { assert [] + x == x; }
    ChunkedScanIsWholeScan(read, Concat, [], from, to);
  }
}
