/** The connection state machine: one pure step, and what every run of it keeps. */
module Reducer {
  import opened Bytes
  import opened Methods
  import opened Selection

  datatype FailureReason = FingerprintBlocked | TlsCertProblem | ConnectionFailed | Timeout | Unknown

  datatype TransportFailure = BlockedFingerprint | CertProblem | StreamTimeout | UnknownFailure

  datatype Outcome = Success(latencyMs: u32) | Failure(reason: FailureReason)

  type Fingerprint = Octets

  datatype State =
    | Idle
    | Probing(candidates: seq<MethodId>, attempts: map<MethodId, Time>, startedAt: Time)
    | Active(via: MethodId, port: nat, since: Time, failures: u8)
    | Degraded(via: MethodId, port: nat, failures: u8)
    | Cooldown(until: Time)

  datatype Event =
    | Start(relay: string, fingerprint: Fingerprint, allowed: bv32)
    | Stop
    | ProbeSucceeded(via: MethodId, port: nat, latencyMs: u32)
    | ProbeFailed(via: MethodId, reason: FailureReason)
    | AllProbesFailed
    | Transport(kind: TransportFailure)
    | CooldownElapsed

  /** A score is recorded for the network at hand: the fingerprint slot is a placeholder the caller fills. */
  datatype Effect =
    | StartProbes(methods: seq<MethodId>, relay: string)
    | CancelOtherProbes(winner: MethodId)
    | StopActive
    | ScheduleCooldown(duration: nat)
    | RecordScore(via: MethodId, outcome: Outcome)

  function SaturatingInc(n: u8): u8 {
    if n == 255 then 255 else n + 1
  }

  function Without(s: seq<MethodId>, gone: MethodId): seq<MethodId> {
    Filter(m => m != gone, s)
  }

  /** What a step is given besides state and event: the score store and the two clocks. */
  datatype Env = Env(scores: Fingerprint -> Lookup, cfg: Config, now: Time, wall: Time)

  function Reduce(s: State, e: Event, env: Env): (State, seq<Effect>) {
    match s
    case Idle => (
      if e.Start? then
        var candidates := Candidates(e.allowed, env.scores(e.fingerprint), env.cfg.topK, env.wall);
        if candidates == [] then AllFailed(env)
        else (Probing(candidates, map m | m in candidates :: env.now, env.now), [StartProbes(candidates, e.relay)])
      else (s, []))
    case Probing(candidates, attempts, startedAt) => (
      match e
      case ProbeSucceeded(via, port, latencyMs) =>
        if via !in candidates then (s, [])
        else (Active(via, port, env.now, 0), [CancelOtherProbes(via), RecordScore(via, Success(latencyMs))])
      case ProbeFailed(via, reason) =>
        if via !in candidates then (s, [])
        else if Without(candidates, via) == [] then
          (AllFailed(env).0, [RecordScore(via, Failure(reason))] + AllFailed(env).1)
        else (Probing(Without(candidates, via), attempts - {via}, startedAt), [RecordScore(via, Failure(reason))])
      case AllProbesFailed => AllFailed(env)
      case Stop => (Idle, [StopActive])
      case _ => (s, []))
    case Active(via, port, since, failures) => (
      match e
      case Transport(kind) => (
        match kind
        case BlockedFingerprint => (Degraded(via, port, 255), [])
        case CertProblem => (s, [])
        case _ =>
          var n := SaturatingInc(failures);
          if n >= env.cfg.degradedThreshold then (Degraded(via, port, n), []) else (Active(via, port, since, n), []))
      case Stop => (Idle, [StopActive])
      case _ => (s, []))
    case Degraded(via, port, failures) => (
      match e
      case Transport(kind) =>
        if kind.CertProblem? then (s, [])
        else if failures >= env.cfg.degradedThreshold then (Idle, [StopActive])
        else (Degraded(via, port, SaturatingInc(failures)), [])
      case Stop => (Idle, [StopActive])
      case _ => (s, []))
    case Cooldown(until) =>
      if e.Stop? || (e.CooldownElapsed? && env.now >= until) then (Idle, []) else (s, [])
  }

  function AllFailed(env: Env): (State, seq<Effect>) {
    (Cooldown(env.now + env.cfg.cooldown), [ScheduleCooldown(env.cfg.cooldown)])
  }

  // ---- Runs ----

  /** One step of a run. Threshold, cooldown and top-k stay the same throughout a run. */
  datatype Step = Step(event: Event, scores: Fingerprint -> Lookup, now: Time, wall: Time)

  function StepEnv(cfg: Config, step: Step): Env {
    Env(step.scores, cfg, step.now, step.wall)
  }

  function After(cfg: Config, s: State, steps: seq<Step>): State {
    if steps == [] then s
    else
      var n := |steps| - 1;
      Reduce(After(cfg, s, steps[..n]), steps[n].event, StepEnv(cfg, steps[n])).0
  }

  /** The effects of step `i` of a run. */
  function EffectsAt(cfg: Config, s: State, steps: seq<Step>, i: nat): seq<Effect>
    requires i < |steps|
  {
    Reduce(After(cfg, s, steps[..i]), steps[i].event, StepEnv(cfg, steps[i])).1
  }

  /** What holds of every state a run from Idle can reach. */
  predicate Sound(cfg: Config, s: State) {
    match s
    case Probing(candidates, attempts, _) =>
      candidates != [] && Distinct(candidates) && forall m :: m in attempts <==> m in candidates
    case Active(_, _, _, failures) => failures == 0 || failures < cfg.degradedThreshold
    case Degraded(_, _, failures) => failures >= cfg.degradedThreshold
    case _ => true
  }

  lemma {:induction false} WithoutExactly(s: seq<MethodId>, gone: MethodId)
    requires Distinct(s)
    ensures Distinct(Without(s, gone)) && forall m :: m in Without(s, gone) <==> m in s && m != gone
    ensures |Without(s, gone)| == |s| - if gone in s then 1 else 0
  {
    if s != [] {
      WithoutExactly(s[1..], gone);
      assert s == [s[0]] + s[1..];
      assert s[0] !in s[1..];
      assert Without(s, gone) == (if s[0] != gone then [s[0]] else []) + Without(s[1..], gone);
    }
  }

  lemma StepSound(s: State, e: Event, env: Env)
    requires Sound(env.cfg, s)
    ensures Sound(env.cfg, Reduce(s, e, env).0)
  {
    hide Candidates, Filter;
    if s.Idle? && e.Start? {
      CandidatesAllowed(e.allowed, env.scores(e.fingerprint), env.cfg.topK, env.wall);
    } else if s.Probing? && e.ProbeFailed? {
      WithoutExactly(s.candidates, e.via);
    }
  }

  /** Every state of every run is sound: in particular the counting branch of Degraded is dead. */
  lemma {:induction false} EveryRunIsSound(cfg: Config, steps: seq<Step>)
    ensures Sound(cfg, After(cfg, Idle, steps))
  {
    hide Reduce;
    if steps != [] {
      var n := |steps| - 1;
      EveryRunIsSound(cfg, steps[..n]);
      StepSound(After(cfg, Idle, steps[..n]), steps[n].event, StepEnv(cfg, steps[n]));
    }
  }

  // ---- Failure counting ----

  predicate CountsAsFailure(e: Event) {
    e.Transport? && (e.kind.StreamTimeout? || e.kind.UnknownFailure?)
  }

  function CountedFailures(steps: seq<Step>): nat {
    if steps == [] then 0
    else
      var n := |steps| - 1;
      CountedFailures(steps[..n]) + if CountsAsFailure(steps[n].event) then 1 else 0
  }

  function FailuresToDegrade(cfg: Config): u8 {
    if cfg.degradedThreshold == 0 then 1 else cfg.degradedThreshold
  }

  /**
    From a fresh connection, and whatever other events come in between short of Stop and a
    blocked fingerprint: exactly max(1, threshold) counted failures degrade it.
    */
  lemma {:induction false} DegradesExactly(cfg: Config, s: State, steps: seq<Step>)
    requires s.Active? && s.failures == 0
    requires forall i :: 0 <= i < |steps| ==> !steps[i].event.Stop? && steps[i].event != Transport(BlockedFingerprint)
    requires CountedFailures(steps) <= FailuresToDegrade(cfg)
    ensures var n := CountedFailures(steps);
            After(cfg, s, steps) ==
            if n < FailuresToDegrade(cfg) then Active(s.via, s.port, s.since, n)
            else Degraded(s.via, s.port, FailuresToDegrade(cfg))
  {
    hide Candidates, Filter;
    if steps != [] {
      DegradesExactly(cfg, s, steps[..|steps| - 1]);
    }
  }

  /** One more failure of any kind but a certificate problem tears the connection down. */
  lemma DegradedTearsDown(cfg: Config, steps: seq<Step>, step: Step)
    requires After(cfg, Idle, steps).Degraded? && step.event.Transport? && !step.event.kind.CertProblem?
    ensures Reduce(After(cfg, Idle, steps), step.event, StepEnv(cfg, step)) == (Idle, [StopActive])
  {
    hide After;
    EveryRunIsSound(cfg, steps);
  }

  /** A blocked fingerprint degrades a connection at once, whatever its count, and the next failure tears it down. */
  lemma RotatesAtOnce(cfg: Config, s: State, block: Step, next: Step)
    requires s.Active? && block.event == Transport(BlockedFingerprint)
    requires next.event.Transport? && !next.event.kind.CertProblem?
    ensures var (t, effects) := Reduce(s, block.event, StepEnv(cfg, block));
            && t.Degraded? && t.via == s.via && t.port == s.port && effects == []
            && Reduce(t, next.event, StepEnv(cfg, next)) == (Idle, [StopActive])
  {
  }

  /** A certificate problem is never held against the connection. */
  lemma CertProblemIsIgnored(s: State, env: Env)
    ensures Reduce(s, Transport(CertProblem), env) == (s, [])
  {
  }

  /** Stop leads to Idle from everywhere, and takes down whatever runs. */
  lemma StopAlwaysIdles(s: State, env: Env)
    ensures Reduce(s, Stop, env) == (Idle, if s.Probing? || s.Active? || s.Degraded? then [StopActive] else [])
  {
  }

  /** Everything else is ignored: news of probes that no race waits for, failures of a connection that is not there. */
  lemma OthersAreIgnored(s: State, e: Event, env: Env)
    requires match s
             case Idle => !e.Start?
             case Probing(candidates, _, _) =>
               || e.Start? || e.Transport? || e.CooldownElapsed?
               || ((e.ProbeSucceeded? || e.ProbeFailed?) && e.via !in candidates)
             case Cooldown(_) => !e.Stop? && !e.CooldownElapsed?
             case _ => !e.Transport? && !e.Stop?
    ensures Reduce(s, e, env) == (s, [])
  {
    hide Candidates, Filter;
  }

  /** A cooldown ends at the first elapsed timer that is not early, and by nothing else but Stop. */
  lemma CooldownEndsExactly(until: Time, e: Event, env: Env)
    requires !e.Stop?
    ensures Reduce(Cooldown(until), e, env)
         == (if e == CooldownElapsed && env.now >= until then Idle else Cooldown(until), [])
  {
  }

  /** Giving up a race starts a cooldown from that moment. */
  lemma GivingUpCools(s: State, env: Env)
    requires s.Probing?
    ensures Reduce(s, AllProbesFailed, env)
         == (Cooldown(env.now + env.cfg.cooldown), [ScheduleCooldown(env.cfg.cooldown)])
  {
  }

  // ---- Bracketing ----

  predicate Live(s: State) {
    s.Active? || s.Degraded?
  }

  /** In every run a connection becomes active only as a candidate of the race it won. */
  lemma ActiveOnlyFromRace(cfg: Config, steps: seq<Step>, i: nat)
    requires i < |steps|
    ensures var before, after := After(cfg, Idle, steps[..i]), After(cfg, Idle, steps[..i + 1]);
            Live(after) && !Live(before) ==>
              && before.Probing? && after.Active? && after.via in before.candidates
              && after.failures == 0 && after.since == steps[i].now
              && steps[i].event.ProbeSucceeded? && steps[i].event.via == after.via && steps[i].event.port == after.port
              && EffectsAt(cfg, Idle, steps, i)
                 == [CancelOtherProbes(after.via), RecordScore(after.via, Success(steps[i].event.latencyMs))]
  {
    hide Candidates, Filter;
    assert steps[..i + 1][..i] == steps[..i];
  }

  function Activations(cfg: Config, steps: seq<Step>): nat {
    if steps == [] then 0
    else
      var n := |steps| - 1;
      Activations(cfg, steps[..n])
      + if !Live(After(cfg, Idle, steps[..n])) && Live(After(cfg, Idle, steps)) then 1 else 0
  }

  /** Races that ended in Stop before anyone won. */
  function AbandonedRaces(cfg: Config, steps: seq<Step>): nat {
    if steps == [] then 0
    else
      var n := |steps| - 1;
      AbandonedRaces(cfg, steps[..n]) + if After(cfg, Idle, steps[..n]).Probing? && steps[n].event.Stop? then 1 else 0
  }

  function StopsEmitted(cfg: Config, steps: seq<Step>): nat {
    if steps == [] then 0
    else
      var n := |steps| - 1;
      StopsEmitted(cfg, steps[..n]) + multiset(EffectsAt(cfg, Idle, steps, n))[StopActive]
  }

  lemma StepBalance(s: State, e: Event, env: Env)
    ensures var (t, effects) := Reduce(s, e, env);
            (if !Live(s) && Live(t) then 1 else 0)
            + (if s.Probing? && e.Stop? then 1 else 0)
            + (if Live(s) then 1 else 0)
            == multiset(effects)[StopActive] + if Live(t) then 1 else 0
  {
    hide Candidates, Filter;
  }

  /**
    Every connection is torn down by exactly one StopActive: over any run, what was activated
    or abandoned has been stopped, except the one connection that is still live.
    */
  lemma {:induction false} StopsBalance(cfg: Config, steps: seq<Step>)
    ensures Activations(cfg, steps) + AbandonedRaces(cfg, steps)
         == StopsEmitted(cfg, steps) + if Live(After(cfg, Idle, steps)) then 1 else 0
  {
    hide Reduce;
    if steps != [] {
      var n := |steps| - 1;
      StopsBalance(cfg, steps[..n]);
      StepBalance(After(cfg, Idle, steps[..n]), steps[n].event, StepEnv(cfg, steps[n]));
    }
  }

  // ---- Cooldown ----

  lemma {:induction false} StaysCool(cfg: Config, steps: seq<Step>, i: nat, k: nat, until: Time)
    requires i < k <= |steps| && After(cfg, Idle, steps[..i + 1]) == Cooldown(until)
    requires forall j :: i < j < k ==> !steps[j].event.Stop? && steps[j].now < until
    ensures After(cfg, Idle, steps[..k]) == Cooldown(until)
    decreases k
  {
    hide Candidates, Filter;
    if k > i + 1 {
      StaysCool(cfg, steps, i, k - 1, until);
      assert steps[..k][..k - 1] == steps[..k - 1];
    }
  }

  lemma CooldownSetByClock(s: State, e: Event, env: Env)
    requires !s.Cooldown? && Reduce(s, e, env).0.Cooldown?
    ensures Reduce(s, e, env).0 == Cooldown(env.now + env.cfg.cooldown)
  {
    hide Candidates, Filter;
  }

  /**
    After an all-failed step no race runs for a whole cooldown, on a clock that does not run
    backwards, unless Stop came in between.
    */
  lemma NoRaceDuringCooldown(cfg: Config, steps: seq<Step>, i: nat, j: nat)
    requires i < j < |steps| && forall a, b :: 0 <= a <= b < |steps| ==> steps[a].now <= steps[b].now
    requires !After(cfg, Idle, steps[..i]).Cooldown? && After(cfg, Idle, steps[..i + 1]).Cooldown?
    requires After(cfg, Idle, steps[..j + 1]).Probing?
    ensures steps[j].now >= steps[i].now + cfg.cooldown || exists k :: i < k <= j && steps[k].event.Stop?
  {
    hide Reduce, After;
    var until := steps[i].now + cfg.cooldown;
    UntilOfRun(cfg, steps, i);
    if steps[j].now < until && forall k :: i < k <= j ==> !steps[k].event.Stop? {
      StaysCool(cfg, steps, i, j + 1, until);
    }
  }

  lemma UntilOfRun(cfg: Config, steps: seq<Step>, i: nat)
    requires i < |steps|
    requires !After(cfg, Idle, steps[..i]).Cooldown? && After(cfg, Idle, steps[..i + 1]).Cooldown?
    ensures After(cfg, Idle, steps[..i + 1]) == Cooldown(steps[i].now + cfg.cooldown)
  {
    hide Reduce;
    assert steps[..i + 1][..i] == steps[..i];
    CooldownSetByClock(After(cfg, Idle, steps[..i]), steps[i].event, StepEnv(cfg, steps[i]));
  }
}
