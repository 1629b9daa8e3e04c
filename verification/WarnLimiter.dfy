/**
  The lock-free limiter of the invalid-AUTH warning. Any number of threads call `admit`
  with clocks of their own; each atomic access is a step, and threads interleave between steps.
  */
module WarnLimiter {

  const WARN_EVERY: nat := 60

  datatype Stage =
    | Load       // about to read the time of the last warning
    | Exchange   // about to claim the slot, having seen `seen`
    | Suppress   // about to count itself as suppressed
    | Swap       // has claimed the slot, about to collect the count
    | Quiet      // returned nothing
    | Warned     // returned the count it collected

  datatype Thread = Thread(stage: Stage, now: nat, seen: nat)

  /**
    `last` and `suppressed` are the two atomics. `stored` lists the times ever stored in
    `last`, `reported` adds up the counts that callers got to report.
    */
  datatype System = System(threads: seq<Thread>, last: nat, suppressed: nat, stored: seq<nat>, reported: nat)

  const INIT := System([], 0, 0, [], 0)

  function Goto(s: System, t: nat, stage: Stage): System
    requires t < |s.threads|
  {
    s.(threads := s.threads[t := s.threads[t].(stage := stage)])
  }

  predicate Enabled(s: System, t: nat) {
    t < |s.threads| && !s.threads[t].stage.Quiet? && !s.threads[t].stage.Warned?
  }

  function SaturatingSub(a: nat, b: nat): nat {
    if a >= b then a - b else 0
  }

  /** The clock value stored for a warning: never zero, which means "never". */
  function Stamp(now: nat): nat {
    if now == 0 then 1 else now
  }

  function Advance(s: System, t: nat): System
    requires Enabled(s, t)
  {
    var th := s.threads[t];
    match th.stage
    case Load =>
      if s.last != 0 && SaturatingSub(th.now, s.last) < WARN_EVERY then Goto(s, t, Suppress)
      else s.(threads := s.threads[t := Thread(Exchange, th.now, s.last)])
    case Exchange =>
      if s.last == th.seen then Goto(s, t, Swap).(last := Stamp(th.now), stored := s.stored + [Stamp(th.now)])
      else Goto(s, t, Suppress)
    case Suppress => Goto(s, t, Quiet).(suppressed := s.suppressed + 1)
    case Swap => Goto(s, t, Warned).(suppressed := 0, reported := s.reported + s.suppressed)
    case _ => s
  }

  function Call(s: System, now: nat): System {
    s.(threads := s.threads + [Thread(Load, now, 0)])
  }

  ghost predicate Step(s: System, s': System) {
    || (exists now :: s' == Call(s, now))
    || (exists t :: Enabled(s, t) && s' == Advance(s, t))
  }

  ghost predicate Run(states: seq<System>) {
    && states != [] && states[0] == INIT
    && forall i :: 0 <= i < |states| - 1 ==> Step(states[i], states[i + 1])
  }

  // ---- Spacing ----

  predicate Spaced(stored: seq<nat>) {
    && (forall i :: 0 <= i < |stored| ==> stored[i] >= 1)
    && (forall i :: 0 <= i < |stored| - 1 ==> stored[i] + WARN_EVERY <= stored[i + 1])
  }

  /** The last stored time is the current one, and whoever is about to claim has seen enough time pass. */
  predicate SpacingInv(s: System) {
    && Spaced(s.stored)
    && s.last == (if s.stored == [] then 0 else s.stored[|s.stored| - 1])
    && forall t :: 0 <= t < |s.threads| && s.threads[t].stage.Exchange? ==>
         s.threads[t].seen == 0 || s.threads[t].seen + WARN_EVERY <= s.threads[t].now
  }

  lemma StepKeepsSpacing(s: System, s': System)
    requires SpacingInv(s) && Step(s, s')
    ensures SpacingInv(s')
  {
    if t: nat :| Enabled(s, t) && s' == Advance(s, t) {
      AdvanceKeepsSpacing(s, t);
    }
  }

  lemma AdvanceKeepsSpacing(s: System, t: nat)
    requires SpacingInv(s) && Enabled(s, t)
    ensures SpacingInv(Advance(s, t))
  {
  }

  lemma {:induction false} RunKeepsSpacing(states: seq<System>, n: nat)
    requires Run(states) && n < |states|
    ensures SpacingInv(states[n])
  {
    hide SpacingInv, Step;
    if n == 0 {
      assert SpacingInv(INIT) by {
        InitSpacing();
      }
    } else {
      RunKeepsSpacing(states, n - 1);
      assert Step(states[n - 1], states[n]);
      StepKeepsSpacing(states[n - 1], states[n]);
    }
  }

  lemma InitSpacing()
    ensures SpacingInv(INIT)
  {
  }

  /** In every interleaving, with any clocks, k warnings later means at least k minutes later. */
  lemma WarningsAreSpaced(states: seq<System>, n: nat, i: nat, j: nat)
    requires Run(states) && n < |states| && i <= j < |states[n].stored|
    ensures states[n].stored[i] + WARN_EVERY * (j - i) <= states[n].stored[j]
  {
    RunKeepsSpacing(states, n);
    SpacedFar(states[n].stored, i, j);
  }

  lemma {:induction false} SpacedFar(stored: seq<nat>, i: nat, j: nat)
    requires Spaced(stored) && i <= j < |stored|
    ensures stored[i] + WARN_EVERY * (j - i) <= stored[j]
    decreases j - i
  {
    if i < j {
      SpacedFar(stored, i, j - 1);
      assert stored[j - 1] + WARN_EVERY <= stored[j - 1 + 1];
    }
  }

  // ---- Conservation ----

  function Count(threads: seq<Thread>, stage: Stage): nat {
    if threads == [] then 0
    else Count(threads[..|threads| - 1], stage) + if threads[|threads| - 1].stage == stage then 1 else 0
  }

  lemma {:induction false} CountUpdate(threads: seq<Thread>, t: nat, th: Thread, stage: Stage)
    requires t < |threads|
    ensures Count(threads[t := th], stage) + (if threads[t].stage == stage then 1 else 0)
         == Count(threads, stage) + (if th.stage == stage then 1 else 0)
  {
    var n := |threads| - 1;
    if t == n {
      assert threads[t := th][..n] == threads[..n];
    } else {
      assert threads[t := th][..n] == threads[..n][t := th];
      CountUpdate(threads[..n], t, th, stage);
    }
  }

  lemma CountAppend(threads: seq<Thread>, th: Thread, stage: Stage)
    ensures Count(threads + [th], stage) == Count(threads, stage) + if th.stage == stage then 1 else 0
  {
    assert (threads + [th])[..|threads|] == threads;
  }

  function InFlight(s: System): nat {
    Count(s.threads, Load) + Count(s.threads, Exchange) + Count(s.threads, Suppress) + Count(s.threads, Swap)
  }

  /** Every call is in flight, has warned, has been reported as suppressed, or waits in the counter. */
  predicate Balanced(s: System) {
    && |s.threads| == InFlight(s) + Count(s.threads, Warned) + s.reported + s.suppressed
    && |s.stored| == Count(s.threads, Swap) + Count(s.threads, Warned)
  }

  lemma AdvanceKeepsBalance(s: System, t: nat)
    requires Balanced(s) && Enabled(s, t)
    ensures Balanced(Advance(s, t))
  {
    hide Count;
    var th := Advance(s, t).threads[t];
    assert Advance(s, t).threads == s.threads[t := th];
    CountUpdate(s.threads, t, th, Load);
    CountUpdate(s.threads, t, th, Exchange);
    CountUpdate(s.threads, t, th, Suppress);
    CountUpdate(s.threads, t, th, Swap);
    CountUpdate(s.threads, t, th, Warned);
  }

  lemma CallKeepsBalance(s: System, now: nat)
    requires Balanced(s)
    ensures Balanced(Call(s, now))
  {
    hide Count;
    var th := Thread(Load, now, 0);
    CountAppend(s.threads, th, Load);
    CountAppend(s.threads, th, Exchange);
    CountAppend(s.threads, th, Suppress);
    CountAppend(s.threads, th, Swap);
    CountAppend(s.threads, th, Warned);
  }

  lemma {:induction false} RunKeepsBalance(states: seq<System>, n: nat)
    requires Run(states) && n < |states|
    ensures Balanced(states[n])
  {
    hide Balanced, Advance;
    if n == 0 {
      StartBalanced(states[0]);
    } else {
      RunKeepsBalance(states, n - 1);
      var s, s' := states[n - 1], states[n];
      assert Step(s, s');
      if now: nat :| s' == Call(s, now) {
        CallKeepsBalance(s, now);
      } else {
        var t: nat :| Enabled(s, t) && s' == Advance(s, t);
        AdvanceKeepsBalance(s, t);
      }
    }
  }

  lemma StartBalanced(s: System)
    requires s.threads == [] && s.stored == [] && s.suppressed == 0 && s.reported == 0
    ensures Balanced(s)
  {
  }

  /**
    At every quiescent point of every interleaving no call is lost: calls are the warnings
    emitted, plus the suppressed ones already reported, plus those still in the counter.
    */
  lemma NoCallIsLost(states: seq<System>, n: nat)
    requires Run(states) && n < |states| && InFlight(states[n]) == 0
    ensures var s := states[n];
            && |s.threads| == |s.stored| + s.reported + s.suppressed
            && Count(s.threads, Warned) == |s.stored|
  {
    RunKeepsBalance(states, n);
  }

  // ---- A call that runs alone ----

  /** The steps of one call with nobody else in between. */
  function Alone(s: System, now: nat): System {
    var t, c := |s.threads|, Call(s, now);
    var a := Advance(c, t);
    var b := Advance(a, t);
    if Enabled(b, t) then Advance(b, t) else b
  }

  /**
    The limiter does warn: a call that runs alone warns if and only if there was no warning
    yet or the last is at least sixty seconds old, and then it reports and clears the count;
    otherwise it adds one to the count.
    */
  lemma LoneCallExactly(s: System, now: nat)
    ensures var s', th := Alone(s, now), Alone(s, now).threads[|s.threads|];
            if s.last == 0 || now >= s.last + 60 then
              && th.stage == Warned && s'.reported == s.reported + s.suppressed && s'.suppressed == 0
              && s'.stored == s.stored + [if now == 0 then 1 else now] && s'.last == if now == 0 then 1 else now
            else
              && th.stage == Quiet && s'.suppressed == s.suppressed + 1
              && s'.stored == s.stored && s'.last == s.last && s'.reported == s.reported
  {
    var t, c := |s.threads|, Call(s, now);
    assert c.threads[t] == Thread(Load, now, 0);
  }
}
