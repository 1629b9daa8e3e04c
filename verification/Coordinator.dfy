/** One start of a session: candidates, the probe race in any arrival order, and what gets scored. */
module Coordinator {
  import opened Bytes
  import opened Methods
  import opened Selection
  import opened Reducer

  datatype ProbeResult = ProbeResult(via: MethodId, outcome: Outcome)

  datatype StartResult = Started(via: MethodId, port: nat) | NoMethods | NoneSucceeded | Stopped | BindFailed

  /** Some arrival order of probe results: each candidate reports at most once. */
  predicate Race(results: seq<ProbeResult>, methods: seq<MethodId>) {
    && (forall i :: 0 <= i < |results| ==> results[i].via in methods)
    && (forall i, j :: 0 <= i < j < |results| ==> results[i].via != results[j].via)
  }

  /** The first success, or the end. */
  function Winner(results: seq<ProbeResult>): (w: nat)
    ensures w <= |results| && (w < |results| ==> results[w].outcome.Success?)
    ensures forall i :: 0 <= i < w ==> results[i].outcome.Failure?
  {
    if results == [] || results[0].outcome.Success? then 0 else 1 + Winner(results[1..])
  }

  /** What a race should leave in the score store: the winner and those that failed before it, or every failure. */
  function Scored(results: seq<ProbeResult>): seq<ProbeResult> {
    var w := Winner(results);
    if w < |results| then [results[w]] + results[..w] else results
  }

  /** No method is scored twice; the winner once, with its success; everyone else with a failure. */
  lemma ScoredOnce(results: seq<ProbeResult>, methods: seq<MethodId>)
    requires Race(results, methods)
    ensures var s, w := Scored(results), Winner(results);
            && Race(s, methods)
            && (w < |results| ==> |s| == w + 1 && s[0] == results[w] && s[0].outcome.Success?)
            && (w == |results| ==> s == results)
            && forall i :: 0 <= i < |s| && (w == |results| || i > 0) ==> s[i].outcome.Failure?
  {
    hide Winner;
    var s, w := Scored(results), Winner(results);
    if w < |results| {
      assert s[0] == results[w] && forall i :: 1 <= i < |s| ==> s[i] == results[i - 1];
    }
  }

  function Recorded(effects: seq<Effect>): seq<ProbeResult> {
    if effects == [] then []
    else (if effects[0].RecordScore? then [ProbeResult(effects[0].via, effects[0].outcome)] else [])
         + Recorded(effects[1..])
  }

  lemma RecordedShort(effects: seq<Effect>)
    requires |effects| <= 2
    ensures Recorded(effects) == (if |effects| > 0 then Recorded([effects[0]]) else [])
                                 + (if |effects| > 1 then Recorded([effects[1]]) else [])
    ensures forall e :: e in effects ==>
              Recorded([e]) == if e.RecordScore? then [ProbeResult(e.via, e.outcome)] else []
  {
    if |effects| > 0 {
      assert effects[1..] == if |effects| > 1 then [effects[1]] else [];
    }
    forall e | e in effects
      ensures Recorded([e]) == if e.RecordScore? then [ProbeResult(e.via, e.outcome)] else []
    {
      assert [e][1..] == [];
    }
  }

  lemma FailureStep(s: State, m: MethodId, reason: FailureReason, env: Env)
    requires s.Probing? && m in s.candidates && Distinct(s.candidates)
    ensures var (t, effects) := Reduce(s, ProbeFailed(m, reason), env);
            && Recorded(effects) == [ProbeResult(m, Failure(reason))]
            && if |s.candidates| == 1 then
                 && t == Cooldown(env.now + env.cfg.cooldown)
                 && effects == [RecordScore(m, Failure(reason)), ScheduleCooldown(env.cfg.cooldown)]
               else
                 && t == Probing(Without(s.candidates, m), s.attempts - {m}, s.startedAt)
                 && effects == [RecordScore(m, Failure(reason))]
  {
    hide Candidates, Filter, Recorded;
    WithoutExactly(s.candidates, m);
    RecordedShort(Reduce(s, ProbeFailed(m, reason), env).1);
  }

  lemma SuccessStep(s: State, e: Event, env: Env)
    requires s.Probing? && e.ProbeSucceeded? && e.via in s.candidates
    ensures var (t, effects) := Reduce(s, e, env);
            && t == Active(e.via, e.port, env.now, 0)
            && Recorded(effects) == [ProbeResult(e.via, Success(e.latencyMs))]
  {
    hide Candidates, Filter, Recorded;
    RecordedShort(Reduce(s, e, env).1);
  }

  lemma WinnerIs(results: seq<ProbeResult>, w: nat)
    requires w <= |results| && (w < |results| ==> results[w].outcome.Success?)
    requires forall i :: 0 <= i < w ==> results[i].outcome.Failure?
    ensures Winner(results) == w
  {
    hide Winner;
    var v := Winner(results);
    if v < |results| {
      assert results[v].outcome.Success?;
    }
  }

  /** The probes of `methods` run one after another. */
  function Probed(probe: MethodId -> Outcome, methods: seq<MethodId>): (r: seq<ProbeResult>)
    ensures |r| == |methods| && forall i :: 0 <= i < |r| ==> r[i] == ProbeResult(methods[i], probe(methods[i]))
  {
    seq(|methods|, i requires 0 <= i < |methods| => ProbeResult(methods[i], probe(methods[i])))
  }

  lemma WithoutHead(s: seq<MethodId>)
    requires s != [] && Distinct(s)
    ensures Without(s, s[0]) == s[1..]
  {
    WithoutAbsent(s[1..], s[0]);
    assert Without(s, s[0]) == Without(s[1..], s[0]);
  }

  /** The probe of the `i`th method, as the next result and as the head of what is left. */
  lemma NextProbe(probe: MethodId -> Outcome, methods: seq<MethodId>, i: nat)
    requires i < |methods| && Distinct(methods)
    ensures var results := Probed(probe, methods);
            && results[i] == ProbeResult(methods[i], probe(methods[i]))
            && results[..i + 1] == results[..i] + [results[i]]
    ensures Distinct(methods[i..]) && methods[i] in methods[i..]
    ensures Without(methods[i..], methods[i]) == methods[i + 1..]
  {
    hide Without;
    assert methods[i..][0] == methods[i] && methods[i..][1..] == methods[i + 1..];
    WithoutHead(methods[i..]);
  }

  lemma {:induction false} WithoutAbsent(s: seq<MethodId>, m: MethodId)
    requires m !in s
    ensures Without(s, m) == s
  {
    if s != [] {
      WithoutAbsent(s[1..], m);
      assert Without(s, m) == [s[0]] + Without(s[1..], m);
    }
  }

  /** The obfuscators at hand and everything the code reads from outside. */
  datatype World = World(
    cfg: Config,
    registered: set<MethodId>,
    scores: Fingerprint -> Lookup,
    clock: nat -> (Time, Time),
    probe: MethodId -> Outcome,
    race: seq<MethodId> -> seq<ProbeResult>,
    port: Option<nat>)

  /** What the reducer is given at the `n`th reading of the clocks. */
  function EnvAt(w: World, n: nat): Env {
    Env(w.scores, w.cfg, w.clock(n).0, w.clock(n).1)
  }

  /** Masks out every method without an obfuscator. */
  method RestrictToRegistered(allowed: bv32, registered: set<MethodId>) returns (bits: bv32)
    ensures forall m: MethodId :: Contains(bits, m) <==> Contains(allowed, m) && m in registered
  {
    hide Contains, Bit;
    bits := allowed;
    var i := 0;
    while i < |ALL|
      invariant 0 <= i <= |ALL|
      invariant forall m: MethodId :: Contains(bits, m) <==> Contains(allowed, m) && (m in registered || m !in ALL[..i])
    {
      if ALL[i] !in registered {
        forall m: MethodId
          ensures Contains(bits | Bit(ALL[i]), m) <==> Contains(bits, m) && m != ALL[i]
        {
          MaskRemovesExactly(bits, ALL[i], m);
        }
        bits := bits | Bit(ALL[i]);
      }
      assert ALL[..i + 1] == ALL[..i] + [ALL[i]];
      i := i + 1;
    }
    assert ALL[..|ALL|] == ALL;
    forall m: MethodId
      ensures m in ALL
    {
      AllMethods(m);
    }
  }

  /** The run of one `start_session`: its FSM state, the score records it wrote, the sessions it installed. */
  class SessionStart {
    const world: World
    var state: State
    var log: seq<ProbeResult>
    var installed: seq<(MethodId, nat)>
    var ticks: nat

    constructor (w: World)
      ensures world == w && state == Idle && log == [] && installed == [] && ticks == 0
    {
      world, state, log, installed, ticks := w, Idle, [], [], 0;
    }

    /** One event through the reducer, at the clock of the moment. */
    method Feed(e: Event) returns (effects: seq<Effect>)
      modifies this
      ensures log == old(log) && installed == old(installed)
      ensures (state, effects) == Reduce(old(state), e, EnvAt(world, old(ticks))) && ticks == old(ticks) + 1
    {
      hide Reduce;
      var r := Reduce(state, e, EnvAt(world, ticks));
      ticks := ticks + 1;
      state, effects := r.0, r.1;
    }

    /** Writes the scores among the effects; whether the store takes them has no bearing on the start. */
    method Record(effects: seq<Effect>)
      modifies this`log
      ensures log == old(log) + Recorded(effects)
    {
      var i := 0;
      assert effects[0..] == effects;
      while i < |effects|
        invariant 0 <= i <= |effects| && log + Recorded(effects[i..]) == old(log) + Recorded(effects)
      {
        assert effects[i..][1..] == effects[i + 1..];
        if effects[i].RecordScore? {
          log := log + [ProbeResult(effects[i].via, effects[i].outcome)];
        }
        i := i + 1;
      }
    }

    method HandleProbeFailure(m: MethodId, reason: FailureReason)
      requires state.Probing? && m in state.candidates && Distinct(state.candidates)
      modifies this
      ensures log == old(log) + [ProbeResult(m, Failure(reason))] && installed == old(installed)
      ensures if |old(state).candidates| == 1 then state.Cooldown?
              else state.Probing? && state.candidates == Without(old(state).candidates, m)
    {
      hide Reduce, Filter;
      ghost var before := state;
      var e := ProbeFailed(m, reason);
      var effects := Feed(e);
      FailureStep(before, m, reason, EnvAt(world, old(ticks)));
      Record(effects);
    }

    method HandleAllProbesFailed()
      requires state.Probing? || state.Cooldown?
      modifies this
      ensures state.Cooldown? && log == old(log) && installed == old(installed)
    {
      hide Candidates, Filter;
      if state.Probing? {
        var effects := Feed(Reducer.AllProbesFailed);
      }
    }

    /** Binds the listener, then feeds the success; a listener that cannot be bound leaves everything as it was. */
    method HandleProbeSuccess(m: MethodId, latencyMs: u32) returns (ok: bool)
      requires state.Probing? && m in state.candidates
      modifies this
      ensures ok == world.port.Some?
      ensures !ok ==> state == old(state) && log == old(log) && installed == old(installed)
      ensures ok ==> && state.Active? && state.via == m && state.port == world.port.value
                     && log == old(log) + [ProbeResult(m, Success(latencyMs))]
                     && installed == old(installed) + [(m, world.port.value)]
    {
      hide Reduce, Filter;
      if world.port.None? {
        return false;
      }
      ghost var before := state;
      var e := ProbeSucceeded(m, world.port.value, latencyMs);
      var effects := Feed(e);
      SuccessStep(before, e, EnvAt(world, old(ticks)));
      Record(effects);
      installed := installed + [(m, world.port.value)];
      ok := true;
    }

    /** Candidates one after another, until one succeeds or the reducer has none left. */
    method RunSequentialProbes(methods: seq<MethodId>) returns (ok: bool)
      requires state.Probing? && state.candidates == methods && Distinct(methods) && methods != []
      modifies this
      ensures var results := Probed(world.probe, methods);
              var w := Winner(results);
              if w == |results| then ok && state.Cooldown? && log == old(log) + results && installed == old(installed)
              else if world.port.None? then !ok && log == old(log) + results[..w] && installed == old(installed)
              else && ok && state.Active? && state.via == methods[w] && state.port == world.port.value
                   && log == old(log) + results[..w + 1]
                   && installed == old(installed) + [(methods[w], world.port.value)]
    {
      hide Winner, Probed, Distinct, Without;
      ghost var results := Probed(world.probe, methods);
      var i := 0;
      assert methods[0..] == methods;
      while i < |methods|
        invariant 0 <= i <= |methods| && installed == old(installed)
        invariant if i < |methods| then state.Probing? && state.candidates == methods[i..] else state.Cooldown?
        invariant log == old(log) + results[..i]
        invariant forall k :: 0 <= k < i ==> results[k].outcome.Failure?
      {
        var outcome := world.probe(methods[i]);
        NextProbe(world.probe, methods, i);
        match outcome {
          case Success(latencyMs) =>
            WinnerIs(results, i);
            ok := HandleProbeSuccess(methods[i], latencyMs);
            return;
          case Failure(reason) =>
            HandleProbeFailure(methods[i], reason);
            i := i + 1;
            if state.Cooldown? {
              break;
            }
        }
      }
      WinnerIs(results, |results|);
      assert results[..|results|] == results;
      HandleAllProbesFailed();
      ok := true;
    }

    /** Feeds every failure of a lost race through the reducer. */
    method FeedFailures(methods: seq<MethodId>, results: seq<ProbeResult>)
      requires state.Probing? && state.candidates == methods && Distinct(methods) && methods != []
      requires Race(results, methods) && forall i :: 0 <= i < |results| ==> results[i].outcome.Failure?
      modifies this
      ensures state.Probing? || state.Cooldown?
      ensures log == old(log) + results && installed == old(installed)
    {
      hide Filter;
      var i := 0;
      while i < |results|
        invariant 0 <= i <= |results| && installed == old(installed)
        invariant state.Cooldown? || (state.Probing? && Distinct(state.candidates) && state.candidates != [])
        invariant forall m :: m in methods && (forall k :: 0 <= k < i ==> results[k].via != m) ==>
                                state.Probing? && m in state.candidates
        invariant log == old(log) + results[..i]
      {
        var r := results[i];
        WithoutExactly(state.candidates, r.via);
        OnlyOne(state.candidates, r.via);
        HandleProbeFailure(r.via, r.outcome.reason);
        assert results[..i + 1] == results[..i] + [r];
        i := i + 1;
      }
      assert results[..|results|] == results;
    }

    /** The race: the first success wins; failures that arrived before it are scored after it. */
    method RunParallelProbes(methods: seq<MethodId>) returns (ok: bool)
      requires state.Probing? && state.candidates == methods && Distinct(methods) && methods != []
      requires Race(world.race(methods), methods)
      modifies this
      ensures var results := world.race(methods);
              var w := Winner(results);
              if w == |results| then ok && state.Cooldown? && log == old(log) + results && installed == old(installed)
              else if world.port.None? then !ok && log == old(log) && installed == old(installed)
              else && ok && state.Active? && state.via == results[w].via && state.port == world.port.value
                   && log == old(log) + [results[w]] + results[..w]
                   && installed == old(installed) + [(results[w].via, world.port.value)]
    {
      hide Filter, Winner;
      var results := world.race(methods);
      var failures: seq<ProbeResult>, i := [], 0;
      while i < |results| && results[i].outcome.Failure?
        invariant 0 <= i <= |results| && failures == results[..i]
        invariant forall k :: 0 <= k < i ==> results[k].outcome.Failure?
      {
        failures := failures + [results[i]];
        i := i + 1;
      }
      WinnerIs(results, i);
      if i < |results| {
        ok := HandleProbeSuccess(results[i].via, results[i].outcome.latencyMs);
        if !ok {
          return;
        }
        log := log + failures;
      } else {
        assert failures == results;
        FeedFailures(methods, failures);
        HandleAllProbesFailed();
        ok := true;
      }
    }
  }

  lemma OnlyOne(s: seq<MethodId>, m: MethodId)
    requires m in s
    ensures |s| == 1 ==> forall x :: x in s ==> x == m
  {
  }

  /** What the probes of `candidates` report: one candidate is probed alone, several race. */
  function Reports(w: World, candidates: seq<MethodId>): seq<ProbeResult> {
    if |candidates| == 1 then Probed(w.probe, candidates) else w.race(candidates)
  }

  lemma StartStep(relay: string, fp: Fingerprint, bits: bv32, env: Env)
    requires exists m: MethodId :: Contains(bits, m)
    ensures var candidates := Candidates(bits, env.scores(fp), env.cfg.topK, env.wall);
            var (t, effects) := Reduce(Idle, Start(relay, fp, bits), env);
            && candidates != [] && Distinct(candidates) && (forall m :: m in candidates ==> Contains(bits, m))
            && t == Probing(candidates, t.attempts, env.now) && effects == [StartProbes(candidates, relay)]
            && (forall m :: m in t.attempts ==> t.attempts[m] == env.now)
  {
    hide Candidates, Contains;
    CandidatesAllowed(bits, env.scores(fp), env.cfg.topK, env.wall);
  }

  /** Allowed by the host and registered in this build. */
  predicate Usable(allowed: bv32, registered: set<MethodId>, m: MethodId) {
    Contains(allowed, m) && m in registered
  }

  /**
    The candidates a start should probe, by the scores of its own network: the best of the
    usable methods that are not blocked there, best first; or, if all are blocked, the one
    blocked longest ago (or the first, if none has a block on record).
    */
  ghost predicate Chosen(allowed: bv32, registered: set<MethodId>, look: Lookup, topK: nat, wall: Time,
                         chosen: seq<MethodId>)
  {
    && (forall m :: m in chosen ==> Usable(allowed, registered, m))
    && if topK >= 1 && exists m: MethodId :: Usable(allowed, registered, m) && !look.blocked(m) then
         && (forall m :: m in chosen ==> !look.blocked(m))
         && Ranked(look, wall, chosen)
         && (forall c, o :: c in chosen && o !in chosen && Usable(allowed, registered, o) && !look.blocked(o) ==>
               Ahead(look, wall, c, o))
         && (|chosen| == topK
             || (|chosen| < topK && forall m :: Usable(allowed, registered, m) && !look.blocked(m) ==> m in chosen))
       else
         && |chosen| == 1
         && forall x :: Usable(allowed, registered, x) && x != chosen[0] ==>
              if BlockedSince(look, chosen[0]).None? then BlockedSince(look, x).None? && Index(chosen[0]) < Index(x)
              else BlockedSince(look, x).Some? ==> BlockedFirst(look, chosen[0], x)
  }

  lemma ChosenByStart(bits: bv32, allowed: bv32, registered: set<MethodId>, look: Lookup, topK: nat, wall: Time)
    requires forall m: MethodId :: Contains(bits, m) <==> Usable(allowed, registered, m)
    requires exists m: MethodId :: Contains(bits, m)
    ensures Chosen(allowed, registered, look, topK, wall, Candidates(bits, look, topK, wall))
  {
    hide Contains, Usable, Candidates, Ahead, BlockedSince, BlockedFirst, Index;
    CandidatesAllowed(bits, look, topK, wall);
    assert forall m: MethodId ::
        (Eligible(bits, look, m) <==> Usable(allowed, registered, m) && !look.blocked(m))
        && (Contains(bits, m) <==> Usable(allowed, registered, m));
    if topK >= 1 && exists m: MethodId :: Eligible(bits, look, m) {
      CandidatesAreTopK(bits, look, topK, wall);
    } else {
      CandidatesFallBack(bits, look, topK, wall);
      assert topK == 0 || forall m: MethodId :: !(Usable(allowed, registered, m) && !look.blocked(m));
    }
  }

  /**
    `start_session_with_params`, for every arrival order of probe results. A start that has
    something to probe ends in Active or Cooldown, or with the listener's bind error; it is
    never "stopped" and never falls out of its loop. The winner is the first success; scores
    are exactly the race's: the winner's success and the failures before it, or every
    failure, and none at all when the listener cannot be bound.
    */
  method StartSession(w: World, relay: string, fp: Fingerprint, allowed: bv32)
    returns (result: StartResult, final: State, log: seq<ProbeResult>, installed: seq<(MethodId, nat)>,
             candidates: seq<MethodId>)
    requires forall methods :: Distinct(methods) ==> Race(w.race(methods), methods)
    ensures result.NoMethods? <==> forall m: MethodId :: !Usable(allowed, w.registered, m)
    ensures result.NoMethods? ==> log == [] && installed == []
    ensures !result.NoMethods? ==>
              && candidates != [] && Distinct(candidates)
              && Chosen(allowed, w.registered, w.scores(fp), w.cfg.topK, w.clock(0).1, candidates)
              && var results := Reports(w, candidates);
                 var win := Winner(results);
                 if win == |results| then
                   result.NoneSucceeded? && final.Cooldown? && log == Scored(results) && installed == []
                 else if w.port.None? then
                   result == BindFailed && log == [] && installed == []
                 else
                   && result == Started(results[win].via, w.port.value)
                   && final.Active? && final.via == results[win].via && final.port == w.port.value
                   && log == Scored(results) && installed == [(results[win].via, w.port.value)]
  {
    hide Contains, Reduce, Winner, Filter, Chosen, Candidates;
    candidates := [];
    var s := new SessionStart(w);
    var bits := RestrictToRegistered(allowed, w.registered);
    AllowedExactly(bits);
    if Allowed(bits) == [] {
      return NoMethods, s.state, [], [], [];
    }
    assert Contains(bits, Allowed(bits)[0]);
    // The first turn of the loop; the asserted-false case is its way back and its way out.
    var e := Start(relay, fp, bits);
    var effects := s.Feed(e);
    StartStep(relay, fp, bits, EnvAt(w, 0));
    candidates := effects[0].methods;
    ChosenByStart(bits, allowed, w.registered, w.scores(fp), w.cfg.topK, w.clock(0).1);
    var ok;
    if |candidates| == 1 {
      ok := s.RunSequentialProbes(candidates);
    } else {
      ok := s.RunParallelProbes(candidates);
    }
    log, installed, final := s.log, s.installed, s.state;
    OneProbe(w, candidates);
    if !ok {
      return BindFailed, final, log, installed, candidates;
    }
    match s.state {
      case Active(via, port, _, _) => result := Started(via, port);
      case Cooldown(_) => result := NoneSucceeded;
      case Idle => result := Stopped;
      case _ => assert false;
    }
  }

  lemma OneProbe(w: World, candidates: seq<MethodId>)
    ensures var results := Reports(w, candidates);
            var win := Winner(results);
            && (|candidates| == 1 && win < |results| ==>
                  win == 0 && results[..win] == [] && results[..win + 1] == [results[0]])
            && (win < |results| ==> Scored(results) == [results[win]] + results[..win])
            && (win == |results| ==> Scored(results) == results)
  {
    hide Winner;
  }
}
