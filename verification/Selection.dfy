/** Method scores and the choice of probe candidates. */
module Selection {
  import opened Bytes
  import opened Methods

  // ---- Scores ----

  function Seconds(t: Time): real {
    (t as real) / 1000000000.0
  }

  function MaxReal(a: real, b: real): real {
    if a >= b then a else b
  }

  function MinReal(a: real, b: real): real {
    if a <= b then a else b
  }

  /** Share of the full penalty left after `elapsed`: all of it for five minutes, then a linear decay to one hour. */
  function Decay(elapsed: Time): real {
    if elapsed < 0 || elapsed > 3600 * SECOND then 0.0
    else if elapsed <= 300 * SECOND then 1.0
    else MaxReal(1.0 - (Seconds(elapsed) - 300.0) / (3600.0 - 300.0), 0.0)
  }

  function FailurePenalty(e: ScoreEntry, now: Time): real {
    match e.lastFailureAt
    case None => 0.0
    case Some(t) => Weighted(e.consecutiveFailures, Decay(now - t))
  }

  /** Twenty points for each failure in a row. */
  function FullPenalty(failures: u8): real {
    (failures as real) * 20.0
  }

  function Times(k: real, x: real): real {
    k * x
  }

  function Weighted(failures: u8, share: real): real {
    Times(FullPenalty(failures), share)
  }

  function BaseQuality(e: ScoreEntry): real
    requires e.successes + e.failures > 0
  {
    (e.successes as real) / ((e.successes + e.failures) as real) * 100.0
  }

  function LatencyPenalty(e: ScoreEntry): real {
    if e.medianLatencyMs > 1000 then MinReal((e.medianLatencyMs as real - 1000.0) / 100.0, 20.0) else 0.0
  }

  function RecencyBonus(e: ScoreEntry, now: Time): real {
    match e.lastSuccessAt
    case None => 0.0
    case Some(t) => if 0 <= now - t < 3600 * SECOND then 5.0 else 0.0
  }

  function ComputeScore(entry: Option<ScoreEntry>, now: Time): real {
    if entry.None? || entry.value.successes + entry.value.failures == 0 then 50.0
    else
      var e := entry.value;
      BaseQuality(e) - FailurePenalty(e, now) - LatencyPenalty(e) + RecencyBonus(e, now)
  }

  lemma DecayRange(elapsed: Time)
    ensures 0.0 <= Decay(elapsed) <= 1.0
  {
  }

  /** The decay never grows as a failure recedes. */
  lemma DecayFalls(a: Time, b: Time)
    requires 0 <= a <= b
    ensures Decay(b) <= Decay(a)
  {
    DecayRange(a);
    DecayRange(b);
    if 300 * SECOND < a && b <= 3600 * SECOND {
      assert Seconds(a) <= Seconds(b);
    }
  }

  lemma WeightedRises(failures: u8, x: real, y: real)
    requires 0.0 <= x <= y <= 1.0
    ensures 0.0 <= Weighted(failures, x) <= Weighted(failures, y) <= FullPenalty(failures) <= 5100.0
  {
    assert 0.0 <= FullPenalty(failures) <= 5100.0;
    hide FullPenalty, Times;
    TimesRises(FullPenalty(failures), x, y);
  }

  lemma TimesRises(k: real, x: real, y: real)
    requires 0.0 <= k && 0.0 <= x <= y <= 1.0
    ensures 0.0 <= Times(k, x) <= Times(k, y) <= k
  {
    hide Times;
    ScaleLe(k, 0.0, x);
    ScaleLe(k, x, y);
    ScaleLe(k, y, 1.0);
    TimesOne(k);
  }

  lemma TimesOne(k: real)
    ensures Times(k, 0.0) == 0.0 && Times(k, 1.0) == k
  {
  }

  lemma ScaleLe(k: real, x: real, y: real)
    requires 0.0 <= k && x <= y
    ensures Times(k, x) <= Times(k, y)
  {
  }

  /** A recorded failure weighs less and less as time passes, and at most twenty points per failure in a row. */
  lemma PenaltyFalls(e: ScoreEntry, now: Time, later: Time)
    requires e.lastFailureAt.Some? ==> e.lastFailureAt.value <= now
    requires now <= later
    ensures 0.0 <= FailurePenalty(e, later) <= FailurePenalty(e, now) <= FullPenalty(e.consecutiveFailures)
  {
    hide Decay, Weighted;
    if e.lastFailureAt.Some? {
      var t := e.lastFailureAt.value;
      DecayFalls(now - t, later - t);
      DecayRange(now - t);
      DecayRange(later - t);
      WeightedRises(e.consecutiveFailures, Decay(later - t), Decay(now - t));
    }
  }

  lemma ShareRange(part: int, whole: int)
    requires 0 <= part <= whole && whole > 0
    ensures 0.0 <= (part as real) / (whole as real) <= 1.0
  {
  }

  lemma PenaltyRange(e: ScoreEntry, now: Time)
    ensures 0.0 <= FailurePenalty(e, now) <= 5100.0
  {
    hide Decay, Weighted;
    if e.lastFailureAt.Some? {
      var d := Decay(now - e.lastFailureAt.value);
      DecayRange(now - e.lastFailureAt.value);
      WeightedRises(e.consecutiveFailures, d, d);
    }
  }

  /** Every score lies in [-5120, 105]. */
  lemma ScoreRange(entry: Option<ScoreEntry>, now: Time)
    ensures -5120.0 <= ComputeScore(entry, now) <= 105.0
  {
    hide FailurePenalty;
    if entry.Some? && entry.value.successes + entry.value.failures > 0 {
      var e := entry.value;
      ShareRange(e.successes, e.successes + e.failures);
      PenaltyRange(e, now);
      assert 0.0 <= LatencyPenalty(e) <= 20.0;
    }
  }

  /** Both ends are reached: by a fresh clean success, and by 255 slow failures in a row. */
  lemma ScoreRangeIsTight(now: Time)
    ensures ComputeScore(Some(ScoreEntry(1, 0, Some(now), None, 1000, None, 0)), now) == 105.0
    ensures ComputeScore(Some(ScoreEntry(0, 255, None, Some(now), 3000, None, 255)), now) == -5120.0
  {
    TimesOne(FullPenalty(255));
  }

  /** An untried method starts at fifty; without anything else on record the score is the share of successes. */
  lemma ScoreIsShare(successes: u32, failures: u32, now: Time)
    ensures ComputeScore(None, now) == 50.0
    ensures var e := ScoreEntry(successes, failures, None, None, 0, None, 0);
            if successes + failures == 0 then ComputeScore(Some(e), now) == 50.0
            else ComputeScore(Some(e), now) * ((successes + failures) as real) == 100.0 * (successes as real)
  {
    if successes + failures > 0 {
      ShareTimesWhole(successes as real, (successes + failures) as real);
    }
  }

  lemma ShareTimesWhole(part: real, whole: real)
    requires whole > 0.0
    ensures part / whole * 100.0 * whole == 100.0 * part
  {
    var share := part / whole;
    assert share * whole == part;
  }

  /** After five minutes the penalty falls on a straight line, to nothing at one hour. */
  lemma DecayIsLinear(elapsed: Time)
    requires 300 * SECOND <= elapsed <= 3600 * SECOND
    ensures Decay(elapsed) * 3300.0 == 3600.0 - Seconds(elapsed)
  {
  }

  /** A failure more than an hour old costs nothing, nor does one from the future. */
  lemma NoPenaltyOutside(elapsed: Time)
    requires elapsed < 0 || elapsed >= 3600 * SECOND
    ensures Decay(elapsed) == 0.0
  {
  }

  /** Between one and three seconds of latency, a point is lost every hundred milliseconds. */
  lemma LatencyCostsLinearly(e: ScoreEntry, slower: u32, now: Time)
    requires e.successes + e.failures > 0 && 1000 <= e.medianLatencyMs <= slower <= 3000
    ensures ComputeScore(Some(e), now) - ComputeScore(Some(e.(medianLatencyMs := slower)), now)
         == (slower - e.medianLatencyMs) as real / 100.0
  {
    hide FailurePenalty, BaseQuality;
    SameButLatency(e, e.(medianLatencyMs := slower), now);
  }

  /** Slower never scores higher, and a success within the hour is worth five points. */
  lemma ScoreResponds(e: ScoreEntry, slower: u32, now: Time)
    requires e.successes + e.failures > 0 && e.medianLatencyMs <= slower
    ensures ComputeScore(Some(e.(medianLatencyMs := slower)), now) <= ComputeScore(Some(e), now)
    ensures ComputeScore(Some(e), now) - ComputeScore(Some(e.(lastSuccessAt := None)), now)
         == if e.lastSuccessAt.Some? && 0 <= now - e.lastSuccessAt.value < 3600 * SECOND then 5.0 else 0.0
  {
    hide FailurePenalty, BaseQuality;
    var f, g := e.(medianLatencyMs := slower), e.(lastSuccessAt := None);
    SameButLatency(e, f, now);
    SameButLatency(e, g, now);
  }

  lemma SameButLatency(e: ScoreEntry, f: ScoreEntry, now: Time)
    requires e.successes + e.failures > 0
    requires f.(medianLatencyMs := e.medianLatencyMs, lastSuccessAt := e.lastSuccessAt) == e
    ensures FailurePenalty(f, now) == FailurePenalty(e, now) && BaseQuality(f) == BaseQuality(e)
  {
    hide Weighted, Decay;
  }

  // ---- Candidates ----

  function Score(look: Lookup, m: MethodId, now: Time): real {
    ComputeScore(look.get(m), now)
  }

  /** `a` ranks ahead of `b`: a higher score, or the same score and an earlier place in `ALL`. */
  predicate Ahead(look: Lookup, now: Time, a: MethodId, b: MethodId) {
    Score(look, a, now) > Score(look, b, now) || (Score(look, a, now) == Score(look, b, now) && Index(a) < Index(b))
  }

  predicate Ranked(look: Lookup, now: Time, s: seq<MethodId>) {
    forall i, j :: 0 <= i < j < |s| ==> Ahead(look, now, s[i], s[j])
  }

  /** Insertion behind everything that scores at least as high: one step of a stable sort. */
  function Insert(look: Lookup, now: Time, m: MethodId, s: seq<MethodId>): (r: seq<MethodId>)
    ensures multiset(r) == multiset(s) + multiset{m}
  {
    if s == [] then [m]
    else if Score(look, m, now) > Score(look, s[0], now) then [m] + s
    else
      var rest := Insert(look, now, m, s[1..]);
      assert s == [s[0]] + s[1..];
      [s[0]] + rest
  }

  /** The stable descending sort by score. */
  function Rank(look: Lookup, now: Time, s: seq<MethodId>): (r: seq<MethodId>)
    ensures multiset(r) == multiset(s)
  {
    if s == [] then []
    else
      var n := |s| - 1;
      assert s == s[..n] + [s[n]];
      Insert(look, now, s[n], Rank(look, now, s[..n]))
  }

  lemma InsertMembers(look: Lookup, now: Time, m: MethodId, s: seq<MethodId>)
    ensures forall x :: x in Insert(look, now, m, s) <==> x == m || x in s
  {
    hide Insert;
    var r := Insert(look, now, m, s);
    forall x
      ensures x in r <==> x == m || x in s
    {
      assert x in r <==> x in multiset(r);
      assert x in s <==> x in multiset(s);
    }
  }

  lemma AheadTrans(look: Lookup, now: Time, a: MethodId, b: MethodId, c: MethodId)
    requires Ahead(look, now, b, c) && Score(look, a, now) > Score(look, b, now)
    ensures Ahead(look, now, a, c)
  {
    hide Score;
  }

  lemma {:induction false} InsertKeepsRanked(look: Lookup, now: Time, m: MethodId, s: seq<MethodId>)
    requires Ranked(look, now, s) && forall x :: x in s ==> Index(x) < Index(m)
    ensures Ranked(look, now, Insert(look, now, m, s))
  {
    hide Score, Ahead, Index;
    if s == [] {
    } else if Score(look, m, now) > Score(look, s[0], now) {
      forall j | 0 <= j < |s|
        ensures Ahead(look, now, m, s[j])
      {
        if j == 0 {
          HigherIsAhead(look, now, m, s[0]);
        } else {
          AheadTrans(look, now, m, s[0], s[j]);
        }
      }
    } else {
      InsertKeepsRanked(look, now, m, s[1..]);
      InsertMembers(look, now, m, s[1..]);
      HigherIsAhead(look, now, s[0], m);
      var rest := Insert(look, now, m, s[1..]);
      forall j | 0 <= j < |rest|
        ensures Ahead(look, now, s[0], rest[j])
      {
        if rest[j] != m {
          assert rest[j] in s[1..];
        }
      }
    }
  }

  lemma HigherIsAhead(look: Lookup, now: Time, a: MethodId, b: MethodId)
    ensures Score(look, a, now) > Score(look, b, now) ==> Ahead(look, now, a, b)
    ensures Score(look, a, now) >= Score(look, b, now) && Index(a) < Index(b) ==> Ahead(look, now, a, b)
  {
    hide Score;
  }

  lemma RankMembers(look: Lookup, now: Time, s: seq<MethodId>)
    ensures forall x :: x in Rank(look, now, s) <==> x in s
    ensures |Rank(look, now, s)| == |s|
  {
    hide Rank;
    var r := Rank(look, now, s);
    assert |multiset(r)| == |multiset(s)|;
    forall x
      ensures x in r <==> x in s
    {
      assert x in r <==> x in multiset(r);
      assert x in s <==> x in multiset(s);
    }
  }

  lemma {:induction false} RankRanks(look: Lookup, now: Time, s: seq<MethodId>)
    requires Ascending(s)
    ensures Ranked(look, now, Rank(look, now, s))
  {
    hide Ahead, Index, Insert;
    if s != [] {
      var n := |s| - 1;
      RankRanks(look, now, s[..n]);
      RankMembers(look, now, s[..n]);
      InsertKeepsRanked(look, now, s[n], Rank(look, now, s[..n]));
    }
  }

  function BlockedSince(look: Lookup, m: MethodId): Option<Time> {
    match look.get(m)
    case None => None
    case Some(e) => e.blockedAt
  }

  /** The first of the stable sort by block time, over the methods that have one on record. */
  function LongestBlocked(look: Lookup, s: seq<MethodId>): (r: Option<MethodId>)
    ensures r.Some? ==> r.value in s && BlockedSince(look, r.value).Some?
    ensures r.None? <==> forall m :: m in s ==> BlockedSince(look, m).None?
  {
    if s == [] then None
    else
      var n := |s| - 1;
      assert s == s[..n] + [s[n]];
      var best := LongestBlocked(look, s[..n]);
      if BlockedSince(look, s[n]).None? then best
      else if best.None? || BlockedSince(look, s[n]).value < BlockedSince(look, best.value).value then Some(s[n])
      else best
  }

  /** It was blocked before every other such method, or at the same time and comes first. */
  lemma {:induction false} LongestBlockedIsFirst(look: Lookup, s: seq<MethodId>, x: MethodId)
    requires Ascending(s) && x in s && BlockedSince(look, x).Some?
    ensures LongestBlocked(look, s).Some? && BlockedFirst(look, LongestBlocked(look, s).value, x)
  {
    hide LongestBlocked, BlockedFirst, BlockedSince, Index;
    var n := |s| - 1;
    LongestBlockedStep(look, s);
    var rest, last := LongestBlocked(look, s[..n]), s[n];
    if x == last {
      if rest.Some? {
        assert rest.value in s[..n];
        BlockedFirstCases(look, rest.value, last);
      }
      BlockedFirstCases(look, x, x);
    } else {
      assert x in s[..n] by {
        assert s == s[..n] + [last];
      }
      LongestBlockedIsFirst(look, s[..n], x);
      BlockedFirstTrans(look, last, rest.value, x);
    }
  }

  /** `m` is `x`, or was blocked before it, or at the same time and comes first. */
  predicate BlockedFirst(look: Lookup, m: MethodId, x: MethodId)
    requires BlockedSince(look, m).Some? && BlockedSince(look, x).Some?
  {
    || m == x
    || BlockedSince(look, m).value < BlockedSince(look, x).value
    || (BlockedSince(look, m) == BlockedSince(look, x) && Index(m) < Index(x))
  }

  lemma BlockedFirstCases(look: Lookup, m: MethodId, x: MethodId)
    requires BlockedSince(look, m).Some? && BlockedSince(look, x).Some?
    ensures m == x ==> BlockedFirst(look, m, x)
    ensures BlockedSince(look, m).value <= BlockedSince(look, x).value && Index(m) < Index(x) ==>
              BlockedFirst(look, m, x)
  {
    hide BlockedSince, Index;
  }

  lemma BlockedFirstTrans(look: Lookup, a: MethodId, b: MethodId, c: MethodId)
    requires BlockedSince(look, b).Some? && BlockedSince(look, c).Some? && BlockedFirst(look, b, c)
    ensures BlockedSince(look, a).Some? && BlockedSince(look, a).value < BlockedSince(look, b).value ==>
              BlockedFirst(look, a, c)
  {
    hide BlockedSince, Index;
  }

  /** One unfolding of `LongestBlocked`. */
  lemma LongestBlockedStep(look: Lookup, s: seq<MethodId>)
    requires s != []
    ensures var n := |s| - 1;
            var best := LongestBlocked(look, s[..n]);
            var since := BlockedSince(look, s[n]);
            LongestBlocked(look, s) ==
              if since.Some? && (best.None? || since.value < BlockedSince(look, best.value).value) then Some(s[n])
              else best
  {
    hide BlockedSince;
  }

  /** `select_probe_candidates`, as a value. */
  function Candidates(bits: bv32, look: Lookup, topK: nat, now: Time): seq<MethodId> {
    var ranked := Rank(look, now, Filter(m => !look.blocked(m), Allowed(bits)));
    var k := if topK <= |ranked| then topK else |ranked|;
    if k > 0 then ranked[..k]
    else match LongestBlocked(look, Allowed(bits))
         case Some(m) => [m]
         case None => if Allowed(bits) == [] then [] else [Allowed(bits)[0]]
  }

  /** Allowed and not blocked. */
  predicate Eligible(bits: bv32, look: Lookup, m: MethodId) {
    Contains(bits, m) && !look.blocked(m)
  }

  lemma EligibleExactly(bits: bv32, look: Lookup)
    ensures var open := Filter(m => !look.blocked(m), Allowed(bits));
            Ascending(open) && forall m :: m in open <==> Eligible(bits, look, m)
  {
    hide Allowed, Contains, Filter, Index;
    AllowedExactly(bits);
    FilterExactly(m => !look.blocked(m), Allowed(bits));
    FilterAscends(m => !look.blocked(m), Allowed(bits));
  }

  /** Whatever the scores say, the candidates are distinct allowed methods, and none only when none is allowed. */
  lemma CandidatesAllowed(bits: bv32, look: Lookup, topK: nat, now: Time)
    ensures var r := Candidates(bits, look, topK, now);
            && (forall m :: m in r ==> Contains(bits, m))
            && Distinct(r)
            && |r| <= (if topK > 1 then topK else 1)
            && (r == [] <==> forall m: MethodId :: !Contains(bits, m))
  {
    hide Allowed, Contains, Filter, Rank, LongestBlocked, Score;
    var open := Filter(m => !look.blocked(m), Allowed(bits));
    AllowedExactly(bits);
    EligibleExactly(bits, look);
    RankMembers(look, now, open);
    RankRanks(look, now, open);
    var r, ranked := Candidates(bits, look, topK, now), Rank(look, now, open);
    if topK > 0 && ranked != [] {
      assert forall m :: m in r ==> m in ranked;
      assert ranked[0] in r;
    } else if Allowed(bits) != [] {
      assert Contains(bits, Allowed(bits)[0]);
      assert forall m :: m in r ==> m in Allowed(bits);
    }
  }

  /**
    While something allowed is unblocked and at least one probe may run, the candidates are
    the best of the unblocked, best first: as many as may run, none blocked, no omitted one
    ahead of a chosen one, ties in the order of `ALL`.
    */
  lemma CandidatesAreTopK(bits: bv32, look: Lookup, topK: nat, now: Time)
    requires topK >= 1 && exists m: MethodId :: Eligible(bits, look, m)
    ensures var r := Candidates(bits, look, topK, now);
            && (forall m :: m in r ==> Eligible(bits, look, m))
            && Ranked(look, now, r)
            && (forall c, o :: c in r && o !in r && Eligible(bits, look, o) ==> Ahead(look, now, c, o))
            && (|r| == topK || (|r| < topK && forall m :: Eligible(bits, look, m) ==> m in r))
  {
    hide Allowed, Eligible, Filter, Rank, LongestBlocked, Ahead;
    var open := Filter(m => !look.blocked(m), Allowed(bits));
    EligibleExactly(bits, look);
    RankMembers(look, now, open);
    RankRanks(look, now, open);
    var ranked, r := Rank(look, now, open), Candidates(bits, look, topK, now);
    forall c, o | c in r && o !in r && Eligible(bits, look, o)
      ensures Ahead(look, now, c, o)
    {
      assert o in ranked && ranked == r + ranked[|r|..];
    }
  }

  /** Otherwise the one candidate is the allowed method blocked longest ago, or the first allowed one. */
  lemma CandidatesFallBack(bits: bv32, look: Lookup, topK: nat, now: Time)
    requires topK == 0 || forall m: MethodId :: !Eligible(bits, look, m)
    requires exists m: MethodId :: Contains(bits, m)
    ensures var r := Candidates(bits, look, topK, now);
            && |r| == 1
            && (forall x :: Contains(bits, x) && x != r[0] ==>
                  if BlockedSince(look, r[0]).None? then BlockedSince(look, x).None? && Index(r[0]) < Index(x)
                  else BlockedSince(look, x).Some? ==> BlockedFirst(look, r[0], x))
  {
    hide Allowed, Filter, Contains, BlockedSince, BlockedFirst, Rank, LongestBlocked;
    var open := Filter(m => !look.blocked(m), Allowed(bits));
    AllowedExactly(bits);
    EligibleExactly(bits, look);
    assert topK > 0 ==> open == [] by {
      if open != [] {
        assert Eligible(bits, look, open[0]);
      }
    }
    RankMembers(look, now, open);
    var s := Allowed(bits);
    forall x | x in s && BlockedSince(look, x).Some?
      ensures LongestBlocked(look, s).Some? && BlockedFirst(look, LongestBlocked(look, s).value, x)
    {
      LongestBlockedIsFirst(look, s, x);
    }
  }

  // ---- The selection as the code runs it: collect, sort in place, truncate, fall back ----

  lemma InsertStep(look: Lookup, now: Time, m: MethodId, s: seq<MethodId>, p: nat)
    requires p <= |s|
    ensures Insert(look, now, m, s[p..]) ==
            if p < |s| && !(Score(look, m, now) > Score(look, s[p], now)) then [s[p]] + Insert(look, now, m, s[p + 1..])
            else [m] + s[p..]
  {
    hide Score;
    if p < |s| {
      assert s[p..][1..] == s[p + 1..];
    }
  }

  /** Passing over one more element that scores at least as high. */
  lemma InsertPasses(look: Lookup, now: Time, m: MethodId, s: seq<MethodId>, p: nat)
    requires p < |s| && !(Score(look, m, now) > Score(look, s[p], now))
    ensures s[..p] + Insert(look, now, m, s[p..]) == s[..p + 1] + Insert(look, now, m, s[p + 1..])
  {
    hide Score, Insert;
    InsertStep(look, now, m, s, p);
    Regroup(s, p, Insert(look, now, m, s[p + 1..]));
  }

  lemma Regroup(s: seq<MethodId>, p: nat, tail: seq<MethodId>)
    requires p < |s|
    ensures s[..p] + ([s[p]] + tail) == s[..p + 1] + tail
  {
  }

  method InsertInto(look: Lookup, now: Time, m: MethodId, s: seq<MethodId>) returns (r: seq<MethodId>)
    ensures r == Insert(look, now, m, s)
  {
    hide Score, Insert;
    var p := 0;
    assert s[..0] + Insert(look, now, m, s[0..]) == Insert(look, now, m, s) by {
      assert s[0..] == s;
    }
    while p < |s| && !(Score(look, m, now) > Score(look, s[p], now))
      invariant 0 <= p <= |s|
      invariant s[..p] + Insert(look, now, m, s[p..]) == Insert(look, now, m, s)
    {
      InsertPasses(look, now, m, s, p);
      p := p + 1;
    }
    InsertStep(look, now, m, s, p);
    r := s[..p] + ([m] + s[p..]);
  }

  lemma RankStep(look: Lookup, now: Time, s: seq<MethodId>, i: nat)
    requires i <= |s|
    ensures Rank(look, now, s[..0]) == []
    ensures i < |s| ==> Rank(look, now, s[..i + 1]) == Insert(look, now, s[i], Rank(look, now, s[..i]))
  {
    hide Insert;
    if i < |s| {
      assert s[..i + 1][..i] == s[..i];
    }
  }

  /** `sort_by` with the scores in descending order; the standard library's sort is stable. */
  method SortDescending(look: Lookup, now: Time, s: seq<MethodId>) returns (r: seq<MethodId>)
    ensures r == Rank(look, now, s)
  {
    hide Rank, Insert;
    r := [];
    var i := 0;
    RankStep(look, now, s, 0);
    while i < |s|
      invariant 0 <= i <= |s| && r == Rank(look, now, s[..i])
    {
      RankStep(look, now, s, i);
      r := InsertInto(look, now, s[i], r);
      i := i + 1;
    }
    assert s[..|s|] == s;
  }

  method FirstBlocked(look: Lookup, s: seq<MethodId>) returns (best: Option<MethodId>)
    ensures best == LongestBlocked(look, s)
  {
    hide BlockedSince, LongestBlocked;
    best := None;
    var i := 0;
    while i < |s|
      invariant 0 <= i <= |s| && best == LongestBlocked(look, s[..i])
    {
      assert s[..i + 1][..i] == s[..i];
      LongestBlockedStep(look, s[..i + 1]);
      var t := BlockedSince(look, s[i]);
      if t.Some? && (best.None? || t.value < BlockedSince(look, best.value).value) {
        best := Some(s[i]);
      }
      i := i + 1;
    }
    assert s[..|s|] == s;
  }

  lemma FilterStep(keep: MethodId -> bool, s: seq<MethodId>, i: nat)
    requires i <= |s|
    ensures Filter(keep, s[i..]) ==
            if i == |s| then [] else (if keep(s[i]) then [s[i]] else []) + Filter(keep, s[i + 1..])
  {
    if i < |s| {
      assert s[i..][1..] == s[i + 1..];
    }
  }

  /** Looking at one more element moves it, if kept, from what is to come to what is done. */
  lemma FilterPasses(keep: MethodId -> bool, s: seq<MethodId>, i: nat, done: seq<MethodId>)
    requires i < |s|
    ensures done + Filter(keep, s[i..]) == (if keep(s[i]) then done + [s[i]] else done) + Filter(keep, s[i + 1..])
  {
    hide Filter;
    FilterStep(keep, s, i);
    if keep(s[i]) {
      assert done + ([s[i]] + Filter(keep, s[i + 1..])) == done + [s[i]] + Filter(keep, s[i + 1..]);
    }
  }

  method Keep(keep: MethodId -> bool, s: seq<MethodId>) returns (kept: seq<MethodId>)
    ensures kept == Filter(keep, s)
  {
    hide Filter;
    kept := [];
    var i := 0;
    assert s[0..] == s && [] + Filter(keep, s) == Filter(keep, s);
    while i < |s|
      invariant 0 <= i <= |s|
      invariant kept + Filter(keep, s[i..]) == Filter(keep, s)
    {
      FilterPasses(keep, s, i, kept);
      if keep(s[i]) {
        kept := kept + [s[i]];
      }
      i := i + 1;
    }
    FilterStep(keep, s, i);
  }

  method SelectProbeCandidates(bits: bv32, look: Lookup, topK: nat, now: Time) returns (candidates: seq<MethodId>)
    ensures candidates == Candidates(bits, look, topK, now)
  {
    hide Rank, Contains, Allowed, LongestBlocked, Filter;
    var scored := Keep(m => !look.blocked(m), Allowed(bits));
    scored := SortDescending(look, now, scored);
    var k := if topK <= |scored| then topK else |scored|;
    candidates := scored[..k];
    if candidates == [] {
      var best := FirstBlocked(look, Allowed(bits));
      if best.Some? {
        candidates := [best.value];
      } else if Allowed(bits) != [] {
        candidates := [Allowed(bits)[0]];
      }
    }
  }
}
