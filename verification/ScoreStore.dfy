/** One row of the score store, against the history of outcomes it summarises. */
module ScoreStore {
  import opened Bytes
  import opened Methods
  import opened Selection
  import opened Reducer

  const HOUR: int := 3600

  /** An outcome and the wall-clock time it was recorded at. */
  datatype Entry = Entry(outcome: Outcome, at: Time)

  /** Times are stored in whole seconds since the epoch. */
  datatype Row = Row(
    successes: nat, failures: nat,
    lastSuccessAt: Option<int>, lastFailureAt: Option<int>,
    medianLatencyMs: nat,
    blockedAt: Option<int>,
    consecutiveFailures: nat)

  /** `coarse_now`: down to the hour; a clock before the epoch reads as the epoch. */
  function Coarse(t: Time): int {
    if t < 0 then 0 else t / SECOND / HOUR * HOUR
  }

  // ---- What a history means ----

  /** The failures since the last success. */
  function Trailing(h: seq<Entry>): nat {
    if h == [] || h[|h| - 1].outcome.Success? then 0 else 1 + Trailing(h[..|h| - 1])
  }

  predicate IsBlock(e: Entry) {
    e.outcome == Failure(FingerprintBlocked)
  }

  /** When the latest fingerprint block since the last success happened. */
  function LastBlock(h: seq<Entry>): Option<Time> {
    if h == [] || h[|h| - 1].outcome.Success? then None
    else if IsBlock(h[|h| - 1]) then Some(h[|h| - 1].at)
    else LastBlock(h[..|h| - 1])
  }

  function LastTime(h: seq<Entry>, success: bool): Option<Time> {
    if h == [] then None
    else if h[|h| - 1].outcome.Success? == success then Some(h[|h| - 1].at)
    else LastTime(h[..|h| - 1], success)
  }

  function Count(h: seq<Entry>, success: bool): nat {
    if h == [] then 0
    else Count(h[..|h| - 1], success) + if h[|h| - 1].outcome.Success? == success then 1 else 0
  }

  function Ewma(current: nat, latency: nat): nat {
    if current == 0 then latency else (7 * current + 3 * latency + 5) / 10
  }

  function Average(h: seq<Entry>): nat {
    if h == [] then 0
    else
      var e := h[|h| - 1];
      if e.outcome.Success? then Ewma(Average(h[..|h| - 1]), e.outcome.latencyMs) else Average(h[..|h| - 1])
  }

  function CoarseOf(t: Option<Time>): Option<int> {
    if t.Some? then Some(Coarse(t.value)) else None
  }

  /** The row tells the history: counts, the run of failures, and coarse times. */
  ghost predicate Tells(row: Option<Row>, h: seq<Entry>) {
    if h == [] then row.None?
    else
      && row.Some?
      && row.value == Row(Count(h, true), Count(h, false), CoarseOf(LastTime(h, true)), CoarseOf(LastTime(h, false)),
                          Average(h), CoarseOf(LastBlock(h)), Trailing(h))
  }

  /** How one more outcome changes each summary. */
  lemma OneMore(h: seq<Entry>, e: Entry)
    ensures var g, won := h + [e], e.outcome.Success?;
            && Count(g, true) == Count(h, true) + (if won then 1 else 0)
            && Count(g, false) == Count(h, false) + (if won then 0 else 1)
            && LastTime(g, true) == (if won then Some(e.at) else LastTime(h, true))
            && LastTime(g, false) == (if won then LastTime(h, false) else Some(e.at))
            && Trailing(g) == (if won then 0 else 1 + Trailing(h))
            && LastBlock(g) == (if won then None else if IsBlock(e) then Some(e.at) else LastBlock(h))
            && Average(g) == if won then Ewma(Average(h), e.outcome.latencyMs) else Average(h)
  {
    hide Ewma;
    assert (h + [e])[..|h|] == h;
  }

  lemma NothingYet()
    ensures Trailing([]) == 0 && LastBlock([]) == None && Average([]) == 0
    ensures forall success :: Count([], success) == 0 && LastTime([], success) == None
  {
  }

  /** The store's row for one network and method. */
  class ScoreRow {
    var row: Option<Row>
    ghost var history: seq<Entry>

    ghost predicate Valid()
      reads this
    {
      Tells(row, history)
    }

    constructor ()
      ensures Valid() && history == []
    {
      row, history := None, [];
    }

    /** `record`: after any sequence of outcomes the row still tells the whole history. */
    method Record(outcome: Outcome, now: Time)
      requires Valid()
      modifies this
      ensures Valid() && history == old(history) + [Entry(outcome, now)]
    {
      hide Coarse, Ewma, Trailing, LastBlock, LastTime, Count, Average;
      NothingYet();
      OneMore(history, Entry(outcome, now));
      var at := Coarse(now);
      match outcome {
        case Success(latencyMs) =>
          var current := if row.Some? then row.value.medianLatencyMs else 0;
          var latency := Ewma(current, latencyMs);
          if row.None? {
            row := Some(Row(1, 0, Some(at), None, latency, None, 0));
          } else {
            row := Some(row.value.(successes := row.value.successes + 1, lastSuccessAt := Some(at),
                                   medianLatencyMs := latency, consecutiveFailures := 0, blockedAt := None));
          }
        case Failure(reason) =>
          var hard := reason == FingerprintBlocked;
          if row.None? {
            row := Some(Row(0, 1, None, Some(at), 0, if hard then Some(at) else None, 1));
          } else {
            var r := row.value.(failures := row.value.failures + 1, lastFailureAt := Some(at),
                                consecutiveFailures := row.value.consecutiveFailures + 1);
            row := Some(if hard then r.(blockedAt := Some(at)) else r);
          }
      }
      history := history + [Entry(outcome, now)];
    }
  }

  /** Any history, replayed from an empty store. */
  method Replay(h: seq<Entry>) returns (row: Option<Row>)
    ensures Tells(row, h)
  {
    hide Tells;
    var r := new ScoreRow();
    for i := 0 to |h|
      invariant fresh(r) && r.Valid() && r.history == h[..i]
    {
      r.Record(h[i].outcome, h[i].at);
    }
    row := r.row;
    assert h[..|h|] == h;
  }

  // ---- Blocked ----

  function Clamp255(n: nat): u8 {
    if n > 255 then 255 else n
  }

  function ToTime(secs: int): Time {
    secs * SECOND
  }

  /** Whether a block from `since` still holds; one from the future has lapsed. */
  predicate Unexpired(since: Time, ttl: nat, now: Time) {
    0 <= now - since <= ttl
  }

  /** `is_permanently_blocked_async`, on the row. */
  predicate PermanentlyBlocked(row: Option<Row>, ttl: nat, now: Time) {
    && row.Some? && row.value.blockedAt.Some?
    && Unexpired(ToTime(row.value.blockedAt.value), ttl, now)
    && Clamp255(row.value.consecutiveFailures) >= 5
  }

  function TimeOf(secs: Option<int>): Option<Time> {
    if secs.Some? then Some(ToTime(secs.value)) else None
  }

  /** The row as the state machine sees it: counters truncated to their widths, the run of failures saturated. */
  function EntryOf(row: Row): ScoreEntry {
    ScoreEntry(row.successes % 0x1_0000_0000, row.failures % 0x1_0000_0000,
               TimeOf(row.lastSuccessAt), TimeOf(row.lastFailureAt), row.medianLatencyMs % 0x1_0000_0000,
               TimeOf(row.blockedAt), Clamp255(row.consecutiveFailures))
  }

  /** `blocked_for`, on the cached entry. */
  predicate BlockedFor(entry: Option<ScoreEntry>, ttl: nat, now: Time) {
    && entry.Some? && entry.value.blockedAt.Some?
    && Unexpired(entry.value.blockedAt.value, ttl, now)
    && entry.value.consecutiveFailures >= 5
  }

  /** Blocked, by the history: five failures since the last success, a block among them, the latest unexpired. */
  predicate BlockedBy(h: seq<Entry>, ttl: nat, now: Time) {
    Trailing(h) >= 5 && LastBlock(h).Some? && Unexpired(ToTime(Coarse(LastBlock(h).value)), ttl, now)
  }

  /** Both checks agree with each other and with the history, however long the run of failures. */
  lemma ChecksAgree(row: Option<Row>, h: seq<Entry>, ttl: nat, now: Time)
    requires Tells(row, h)
    ensures PermanentlyBlocked(row, ttl, now) <==> BlockedBy(h, ttl, now)
    ensures BlockedFor(if row.Some? then Some(EntryOf(row.value)) else None, ttl, now) <==> BlockedBy(h, ttl, now)
  {
    hide Coarse;
  }

  // ---- What rounding to the hour costs ----

  /** The part of the hour that rounding drops. */
  function Lost(t: Time): Time {
    t - ToTime(Coarse(t))
  }

  lemma LostRange(t: Time)
    requires t >= 0
    ensures 0 <= Lost(t) < HOUR * SECOND
  {
    var secs := t / SECOND;
    assert secs * SECOND <= t < secs * SECOND + SECOND;
    assert secs / HOUR * HOUR <= secs < secs / HOUR * HOUR + HOUR;
  }

  /** The block as it would be if the store kept exact times. */
  predicate BlockedExactly(h: seq<Entry>, ttl: nat, now: Time) {
    Trailing(h) >= 5 && LastBlock(h).Some? && Unexpired(LastBlock(h).value, ttl, now)
  }

  /** At `d` after the block the exact block still holds and the stored one, `lost` older, does not. */
  predicate LapsesEarly(d: Time, lost: Time, ttl: nat) {
    0 <= d <= ttl && (d > ttl - lost || d < -lost)
  }

  /** The other way round: the clock is back before the block, or the block's own clock was before the epoch. */
  predicate BlocksOnly(d: Time, lost: Time, ttl: nat) {
    -lost <= d <= ttl - lost && (d < 0 || d > ttl)
  }

  /**
    What rounding does to a block, for every clock reading. A block recorded since the epoch
    is never prolonged and ends less than an hour early, in the last `Lost` of its time; but
    a clock stepped back to within the same hour brings it forward.
    */
  lemma RoundingEndsEarly(h: seq<Entry>, ttl: nat, now: Time)
    ensures LastBlock(h).None? ==> !BlockedBy(h, ttl, now) && !BlockedExactly(h, ttl, now)
    ensures LastBlock(h).Some? ==>
              var d, lost := now - LastBlock(h).value, Lost(LastBlock(h).value);
              && (BlockedExactly(h, ttl, now) && !BlockedBy(h, ttl, now) <==>
                    Trailing(h) >= 5 && LapsesEarly(d, lost, ttl))
              && (BlockedBy(h, ttl, now) && !BlockedExactly(h, ttl, now) <==>
                    Trailing(h) >= 5 && BlocksOnly(d, lost, ttl))
    ensures LastBlock(h).Some? && LastBlock(h).value >= 0 ==>
              var d, lost := now - LastBlock(h).value, Lost(LastBlock(h).value);
              && ((BlockedBy(h, ttl, now) <==> BlockedExactly(h, ttl, now)) <==>
                    Trailing(h) < 5 || !((d >= 0 && ttl - lost < d <= ttl) || (-lost <= d < 0 && d <= ttl - lost)))
              && (d >= 0 && BlockedBy(h, ttl, now) ==> BlockedExactly(h, ttl, now))
              && (BlockedExactly(h, ttl, now) && d <= ttl - HOUR * SECOND ==> BlockedBy(h, ttl, now))
  {
    hide Coarse;
    if LastBlock(h).Some? && LastBlock(h).value >= 0 {
      LostRange(LastBlock(h).value);
    }
  }

  function Repeated(e: Entry, n: nat): seq<Entry> {
    if n == 0 then [] else Repeated(e, n - 1) + [e]
  }

  lemma {:induction false} RepeatedBlocks(e: Entry, n: nat)
    requires IsBlock(e)
    ensures Trailing(Repeated(e, n)) == n && (n > 0 ==> LastBlock(Repeated(e, n)) == Some(e.at))
  {
    if n > 0 {
      RepeatedBlocks(e, n - 1);
      OneMore(Repeated(e, n - 1), e);
    }
  }

  /**
    So an hour of slack does change verdicts, both ways: five blocks just before an hour ends
    lapse too soon, and five blocks at half past hold at ten past when the clock is set back.
    */
  lemma RoundingChangesAVerdict(ttl: nat)
    requires ttl == 7 * 24 * HOUR * SECOND
    ensures var e := Entry(Failure(FingerprintBlocked), 3599 * SECOND);
            var h, now := Repeated(e, 5), 3599 * SECOND + ttl;
            BlockedExactly(h, ttl, now) && !BlockedBy(h, ttl, now)
    ensures var e := Entry(Failure(FingerprintBlocked), 1800 * SECOND);
            var h, now := Repeated(e, 5), 600 * SECOND;
            BlockedBy(h, ttl, now) && !BlockedExactly(h, ttl, now)
  {
    hide Trailing, LastBlock, Repeated;
    RepeatedBlocks(Entry(Failure(FingerprintBlocked), 3599 * SECOND), 5);
    RepeatedBlocks(Entry(Failure(FingerprintBlocked), 1800 * SECOND), 5);
    assert Coarse(3599 * SECOND) == 0 && Coarse(1800 * SECOND) == 0;
  }

  /** With stored times the recency bonus goes to successes of the current clock hour only. */
  lemma BonusOnlyThisHour(e: ScoreEntry, t: Time, now: Time)
    requires e.lastSuccessAt == Some(ToTime(Coarse(t)))
    ensures RecencyBonus(e, now) == 5.0 <==> now >= 0 && Coarse(now) == Coarse(t)
  {
    hide Coarse;
    HourOf(t);
    HourOf(now);
  }

  lemma HourOf(t: Time)
    ensures Coarse(t) % HOUR == 0 && (if t < 0 then Coarse(t) == 0 else Coarse(t) >= 0)
    ensures t >= 0 ==> ToTime(Coarse(t)) <= t < ToTime(Coarse(t)) + HOUR * SECOND
  {
    if t >= 0 {
      LostRange(t);
    }
  }

  /**
    And a failure costs its full penalty only while less than five minutes of the hour it
    happened in have passed: later in the hour it starts out decayed.
    */
  lemma FullPenaltyExactly(e: ScoreEntry, t: Time, now: Time)
    requires e.lastFailureAt == Some(ToTime(Coarse(t)))
    ensures FailurePenalty(e, now) == FullPenalty(e.consecutiveFailures) <==>
            e.consecutiveFailures == 0 || 0 <= now - t + Lost(t) <= 300 * SECOND
  {
    hide Weighted, FullPenalty, Decay, Coarse;
    DecayFullExactly(now - ToTime(Coarse(t)));
    WeightedFullExactly(e.consecutiveFailures, Decay(now - ToTime(Coarse(t))));
  }

  lemma DecayFullExactly(elapsed: Time)
    ensures Decay(elapsed) == 1.0 <==> 0 <= elapsed <= 300 * SECOND
  {
  }

  lemma WeightedFullExactly(failures: u8, share: real)
    ensures Weighted(failures, share) == FullPenalty(failures) <==> failures == 0 || share == 1.0
  {
    assert FullPenalty(failures) >= 0.0 && (FullPenalty(failures) == 0.0 <==> failures == 0);
    hide FullPenalty, Times;
    TimesFullExactly(FullPenalty(failures), share);
  }

  lemma TimesFullExactly(k: real, x: real)
    requires k >= 0.0
    ensures Times(k, x) == k <==> k == 0.0 || x == 1.0
  {
    if k == 0.0 {
    } else if x < 1.0 {
      ProductPositive(k, 1.0 - x);
    } else if x > 1.0 {
      ProductPositive(k, x - 1.0);
    }
  }

  lemma ProductPositive(a: real, b: real)
    requires a > 0.0 && b > 0.0
    ensures a * b > 0.0
  {
  }

  // ---- Latency ----

  /** Every latency on record lies in [lo, hi]. */
  predicate LatenciesIn(h: seq<Entry>, lo: nat, hi: nat) {
    forall i :: 0 <= i < |h| && h[i].outcome.Success? ==> lo <= h[i].outcome.latencyMs <= hi
  }

  lemma EwmaBetween(current: nat, latency: nat, lo: nat, hi: nat)
    requires lo <= latency <= hi && (current == 0 || lo <= current <= hi)
    ensures lo <= Ewma(current, latency) <= hi
  {
  }

  /** The latency average never leaves the range of the latencies recorded, so it fits its 32 bits. */
  lemma {:induction false} AverageBetween(h: seq<Entry>, lo: nat, hi: nat)
    requires LatenciesIn(h, lo, hi)
    ensures Count(h, true) > 0 ==> lo <= Average(h) <= hi
    ensures Count(h, true) == 0 ==> Average(h) == 0
  {
    hide Ewma;
    if h != [] {
      var n := |h| - 1;
      AverageBetween(h[..n], lo, hi);
      if h[n].outcome.Success? {
        EwmaBetween(Average(h[..n]), h[n].outcome.latencyMs, lo, hi);
      }
    }
  }

  /** The step of the average: seven parts of the old to three of the new, to the nearest millisecond. */
  lemma AverageStep(h: seq<Entry>, latencyMs: u32, at: Time)
    ensures var old7, new3 := 7 * Average(h), 3 * latencyMs;
            var next := Average(h + [Entry(Success(latencyMs), at)]);
            if Average(h) == 0 then next == latencyMs else old7 + new3 - 5 <= 10 * next <= old7 + new3 + 5
  {
    OneMore(h, Entry(Success(latencyMs), at));
  }

  // ---- The score of a history ----

  lemma {:induction false} CountsAddUp(h: seq<Entry>)
    ensures Count(h, true) + Count(h, false) == |h|
  {
    if h != [] {
      CountsAddUp(h[..|h| - 1]);
    }
  }

  lemma AverageFits(h: seq<Entry>)
    ensures Average(h) < 0x1_0000_0000
  {
    AverageBetween(h, 0, 0xFFFF_FFFF);
  }

  /** Points for a success in the clock hour of `now`. */
  function HourBonus(last: Option<Time>, now: Time): real {
    if last.Some? && now >= 0 && Coarse(now) == Coarse(last.value) then 5.0 else 0.0
  }

  /** Points lost to `run` failures in a row, the last of them at `last`. */
  function RunPenalty(run: nat, last: Option<Time>, now: Time): real {
    if last.None? then 0.0 else Weighted(Clamp255(run), Decay(now - ToTime(Coarse(last.value))))
  }

  function SlowPenalty(averageMs: nat): real {
    if averageMs <= 1000 then 0.0 else if averageMs >= 3000 then 20.0 else (averageMs - 1000) as real / 100.0
  }

  /**
    What the state machine makes of a stored history: the share of successes, less the run of
    failures and the latency, plus the bonus of the hour. (Up to 2^32 outcomes; beyond, the
    counters wrap in the entry.)
    */
  lemma ScoreOfHistory(row: Option<Row>, h: seq<Entry>, now: Time)
    requires Tells(row, h) && h != []
    ensures |h| < 0x1_0000_0000 ==>
              ComputeScore(Some(EntryOf(row.value)), now)
              == Count(h, true) as real / |h| as real * 100.0
                 - RunPenalty(Trailing(h), LastTime(h, false), now)
                 - SlowPenalty(Average(h)) + HourBonus(LastTime(h, true), now)
    ensures EntryOf(row.value).successes == Count(h, true) % 0x1_0000_0000
    ensures EntryOf(row.value).failures == Count(h, false) % 0x1_0000_0000
  {
    hide Decay, Weighted, Coarse, Trailing, LastBlock, LastTime, Count, Average, Clamp255;
    hide FailurePenalty, LatencyPenalty, RecencyBonus, RunPenalty, SlowPenalty, HourBonus;
    CountsAddUp(h);
    AverageFits(h);
    EntryPenalties(row.value, h, now);
  }

  lemma EntryPenalties(row: Row, h: seq<Entry>, now: Time)
    requires Tells(Some(row), h) && h != [] && Average(h) < 0x1_0000_0000
    ensures FailurePenalty(EntryOf(row), now) == RunPenalty(Trailing(h), LastTime(h, false), now)
    ensures LatencyPenalty(EntryOf(row)) == SlowPenalty(Average(h))
    ensures RecencyBonus(EntryOf(row), now) == HourBonus(LastTime(h, true), now)
  {
    hide Decay, Weighted, Coarse, Trailing, LastBlock, LastTime, Count, Average, Clamp255;
    if LastTime(h, true).Some? {
      BonusOnlyThisHour(EntryOf(row), LastTime(h, true).value, now);
    }
  }
}
