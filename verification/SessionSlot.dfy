/**
  The slot of the active session, as threads interleave on it: installs, stops and the
  exits of proxy tasks, each split into the steps between which another thread may run.
  */
module SessionSlot {
  import opened Bytes

  /** Where a thread stands. An installer goes on as the proxy task of the session it installed. */
  datatype Stage =
    | Wait          // for the lock, to install or to stop
    | Take          // about to take the slot's session
    | Send          // about to send it the shutdown signal
    | Cancel        // about to cancel its tunnels
    | Set           // about to put the new session in
    | Unlock
    | Spawn         // about to start the proxy task
    | Accepting     // in the accept loop
    | LeftLoop      // about to cancel its own tunnels
    | ExitWait      // for the lock, to clean up
    | ExitClear     // about to clear the slot, if the slot is its own
    | ExitUnlock
    | Ended

  datatype Thread = Install(at: Stage, id: nat) | Stop(at: Stage)

  /** `hand` is the session the lock holder has taken out of the slot. */
  datatype System = System(
    threads: seq<Thread>,
    nextId: nat,
    lock: Option<nat>,
    slot: Option<nat>,
    hand: Option<nat>,
    signalled: set<nat>,
    cancelled: set<nat>)

  const INIT := System([], 0, None, None, None, {}, {})

  predicate Enabled(s: System, t: nat) {
    && t < |s.threads| && !s.threads[t].at.Ended?
    && (s.threads[t].at.Wait? || s.threads[t].at.ExitWait? ==> s.lock.None?)
  }

  function Goto(s: System, t: nat, at: Stage): System
    requires t < |s.threads|
  {
    s.(threads := s.threads[t := if s.threads[t].Install? then Install(at, s.threads[t].id) else Stop(at)])
  }

  function AsSet(x: Option<nat>): set<nat> {
    if x.Some? then {x.value} else {}
  }

  /** One step of thread `t`. An accept loop may end at any time, told to or not. */
  function Advance(s: System, t: nat): System
    requires Enabled(s, t)
  {
    var install := s.threads[t].Install?;
    var done := if install then Set else Unlock;
    match s.threads[t].at
    case Wait => Goto(s, t, Take).(lock := Some(t))
    case Take => Goto(s, t, if s.slot.Some? then Send else done).(slot := None, hand := s.slot)
    case Send => Goto(s, t, Cancel).(signalled := s.signalled + AsSet(s.hand))
    case Cancel => Goto(s, t, done).(cancelled := s.cancelled + AsSet(s.hand), hand := None)
    case Set => Goto(s, t, Unlock).(slot := if install then Some(s.threads[t].id) else s.slot)
    case Unlock => Goto(s, t, if install then Spawn else Ended).(lock := None)
    case Spawn => Goto(s, t, Accepting)
    case Accepting => Goto(s, t, LeftLoop)
    case LeftLoop =>
      Goto(s, t, ExitWait).(cancelled := if install then s.cancelled + {s.threads[t].id} else s.cancelled)
    case ExitWait => Goto(s, t, ExitClear).(lock := Some(t))
    case ExitClear =>
      Goto(s, t, ExitUnlock).(slot := if install && s.slot == Some(s.threads[t].id) then None else s.slot)
    case ExitUnlock => Goto(s, t, Ended).(lock := None)
    case Ended => s
  }

  function BeginInstall(s: System): System {
    s.(nextId := s.nextId + 1, threads := s.threads + [Install(Wait, s.nextId + 1)])
  }

  function BeginStop(s: System): System {
    s.(threads := s.threads + [Stop(Wait)])
  }

  ghost predicate Step(s: System, s': System) {
    || s' == BeginInstall(s)
    || s' == BeginStop(s)
    || exists t :: Enabled(s, t) && s' == Advance(s, t)
  }

  // ---- The invariant ----

  predicate InCritical(at: Stage) {
    at.Take? || at.Send? || at.Cancel? || at.Set? || at.Unlock? || at.ExitClear? || at.ExitUnlock?
  }

  predicate OutOfLoop(at: Stage) {
    at.LeftLoop? || at.ExitWait? || at.ExitClear? || at.ExitUnlock? || at.Ended?
  }

  /** The thread's session has been put into the slot. */
  predicate Installed(th: Thread) {
    th.Install? && (OutOfLoop(th.at) || th.at.Accepting? || th.at.Spawn? || th.at.Unlock?)
  }

  /** The lock is held by exactly the thread in its critical section. */
  predicate LockOk(s: System) {
    && (s.lock.Some? ==> s.lock.value < |s.threads|)
    && forall t :: 0 <= t < |s.threads| ==> (InCritical(s.threads[t].at) <==> s.lock == Some(t))
  }

  predicate IdsOk(s: System) {
    && (forall t :: 0 <= t < |s.threads| && s.threads[t].Install? ==> s.threads[t].id <= s.nextId)
    && (forall t, u :: 0 <= t < u < |s.threads| && s.threads[t].Install? && s.threads[u].Install? ==>
          s.threads[t].id != s.threads[u].id)
    && (s.slot.Some? ==> s.slot.value <= s.nextId) && (s.hand.Some? ==> s.hand.value <= s.nextId)
    && forall t :: 0 <= t < |s.threads| && s.threads[t].Stop? ==> StopStage(s.threads[t].at)
  }

  predicate StopStage(at: Stage) {
    at.Wait? || at.Take? || at.Send? || at.Cancel? || at.Unlock? || at.Ended?
  }

  /**
    A session is in hand exactly between taking it and cancelling it; meanwhile the slot is
    empty. A stop leaves it empty, an install leaves its own session in it.
    */
  predicate HandOk(s: System) {
    if s.lock.Some? && s.lock.value < |s.threads| then
      var th := s.threads[s.lock.value];
      var at := th.at;
      && (at.Unlock? ==> s.slot == if th.Install? then Some(th.id) else None)
      && (s.hand.Some? <==> at.Send? || at.Cancel?)
      && (at.Send? || at.Cancel? || at.Set? ==> s.slot.None?)
      && (at.Cancel? ==> AsSet(s.hand) <= s.signalled)
    else s.hand.None?
  }

  /** Where the session of a thread may be. */
  predicate Placed(s: System, th: Thread) {
    th.Install? ==>
      if !Installed(th) then s.slot != Some(th.id) && s.hand != Some(th.id)
      else
        && (s.slot == Some(th.id) || s.hand == Some(th.id)
            || (th.id in s.cancelled && (th.id in s.signalled || OutOfLoop(th.at))))
        && (OutOfLoop(th.at) && !th.at.LeftLoop? ==> th.id in s.cancelled)
        && (th.at.ExitUnlock? || th.at.Ended? ==> s.slot != Some(th.id) && s.hand != Some(th.id))
  }

  predicate Inv(s: System) {
    && LockOk(s) && IdsOk(s) && HandOk(s)
    && forall t :: 0 <= t < |s.threads| ==> Placed(s, s.threads[t])
  }

  /** A step moves its own thread only, and keeps what that thread is. */
  lemma AdvanceLocal(s: System, t: nat)
    requires Enabled(s, t)
    ensures var s' := Advance(s, t);
            && |s'.threads| == |s.threads| && s'.nextId == s.nextId
            && (forall u :: 0 <= u < |s.threads| && u != t ==> s'.threads[u] == s.threads[u])
            && s'.threads[t].Install? == s.threads[t].Install?
            && (s.threads[t].Install? ==> s'.threads[t].id == s.threads[t].id)
  {
  }

  lemma AdvanceMovesLock(s: System, t: nat)
    requires Enabled(s, t) && (InCritical(s.threads[t].at) <==> s.lock == Some(t))
    requires s.threads[t].Stop? ==> StopStage(s.threads[t].at)
    ensures var s' := Advance(s, t);
            && (InCritical(s'.threads[t].at) <==> s'.lock == Some(t))
            && (s'.lock == s.lock || (s.lock in {None, Some(t)} && s'.lock in {None, Some(t)}))
            && (s.threads[t].Stop? ==> StopStage(s'.threads[t].at))
  {
  }

  lemma AdvanceMovesSlot(s: System, t: nat)
    requires Enabled(s, t)
    ensures var s' := Advance(s, t);
            && (s'.slot in {s.slot, None} || (s.threads[t].Install? && s'.slot == Some(s.threads[t].id)))
            && s'.hand in {s.hand, s.slot, None}
  {
  }

  lemma AdvanceKeepsLock(s: System, t: nat)
    requires LockOk(s) && IdsOk(s) && Enabled(s, t)
    ensures LockOk(Advance(s, t))
  {
    hide Advance, InCritical, StopStage;
    AdvanceLocal(s, t);
    AdvanceMovesLock(s, t);
  }

  lemma AdvanceKeepsIds(s: System, t: nat)
    requires LockOk(s) && IdsOk(s) && Enabled(s, t)
    ensures IdsOk(Advance(s, t))
  {
    hide Advance, InCritical, StopStage;
    AdvanceLocal(s, t);
    AdvanceMovesLock(s, t);
    AdvanceMovesSlot(s, t);
  }

  lemma AdvanceKeepsHand(s: System, t: nat)
    requires LockOk(s) && IdsOk(s) && HandOk(s) && Enabled(s, t)
    ensures HandOk(Advance(s, t))
  {
  }

  lemma InstallKeepsOwnPlace(s: System, t: nat)
    requires LockOk(s) && IdsOk(s) && HandOk(s) && Enabled(s, t) && Placed(s, s.threads[t])
    requires s.threads[t].Install? && !Installed(s.threads[t])
    ensures Placed(Advance(s, t), Advance(s, t).threads[t])
  {
  }

  lemma TaskKeepsOwnPlace(s: System, t: nat)
    requires LockOk(s) && HandOk(s) && Enabled(s, t) && Placed(s, s.threads[t])
    requires Installed(s.threads[t])
    ensures Placed(Advance(s, t), Advance(s, t).threads[t])
  {
  }

  lemma AdvanceKeepsOwnPlace(s: System, t: nat)
    requires LockOk(s) && IdsOk(s) && HandOk(s) && Enabled(s, t) && Placed(s, s.threads[t])
    ensures Placed(Advance(s, t), Advance(s, t).threads[t])
  {
    hide LockOk, IdsOk, HandOk, Installed, Advance;
    if Installed(s.threads[t]) {
      TaskKeepsOwnPlace(s, t);
    } else if s.threads[t].Install? {
      InstallKeepsOwnPlace(s, t);
    } else {
      AdvanceLocal(s, t);
    }
  }

  lemma AdvanceKeepsOtherPlace(s: System, t: nat, th: Thread)
    requires LockOk(s) && IdsOk(s) && HandOk(s) && Enabled(s, t) && Placed(s, th)
    requires th.Install? && s.threads[t].Install? ==> th.id != s.threads[t].id
    ensures Placed(Advance(s, t), th)
  {
    hide Installed, OutOfLoop;
  }

  lemma AdvanceKeepsInv(s: System, t: nat)
    requires Inv(s) && Enabled(s, t)
    ensures Inv(Advance(s, t))
  {
    hide LockOk, HandOk, Placed, Advance;
    AdvanceLocal(s, t);
    AdvanceKeepsLock(s, t);
    AdvanceKeepsIds(s, t);
    AdvanceKeepsHand(s, t);
    AdvanceKeepsOwnPlace(s, t);
    forall u | 0 <= u < |s.threads| && u != t
      ensures Placed(Advance(s, t), Advance(s, t).threads[u])
    {
      AdvanceKeepsOtherPlace(s, t, s.threads[u]);
    }
  }

  lemma BeginInstallKeepsInv(s: System)
    requires Inv(s)
    ensures Inv(BeginInstall(s))
  {
    var s' := BeginInstall(s);
    forall t | 0 <= t < |s'.threads|
      ensures Placed(s', s'.threads[t])
    {
      if t < |s.threads| {
        assert Placed(s, s.threads[t]) && s'.threads[t] == s.threads[t];
      }
    }
  }

  lemma BeginStopKeepsInv(s: System)
    requires Inv(s)
    ensures Inv(BeginStop(s))
  {
    var s' := BeginStop(s);
    forall t | 0 <= t < |s'.threads|
      ensures Placed(s', s'.threads[t])
    {
      if t < |s.threads| {
        assert Placed(s, s.threads[t]) && s'.threads[t] == s.threads[t];
      }
    }
  }

  // ---- Every interleaving ----

  ghost predicate Run(states: seq<System>) {
    && states != [] && states[0] == INIT
    && forall i :: 0 <= i < |states| - 1 ==> Step(states[i], states[i + 1])
  }

  lemma {:induction false} RunKeepsInv(states: seq<System>, n: nat)
    requires Run(states) && n < |states|
    ensures Inv(states[n])
  {
    hide Inv, Advance;
    if n == 0 {
      InitInv();
    } else {
      RunKeepsInv(states, n - 1);
      var s, s' := states[n - 1], states[n];
      assert Step(s, s');
      BeginInstallKeepsInv(s);
      BeginStopKeepsInv(s);
      if t: nat :| Enabled(s, t) && s' == Advance(s, t) {
        AdvanceKeepsInv(s, t);
      }
    }
  }

  lemma InitInv()
    ensures Inv(INIT)
  {
  }

  /**
    In every interleaving, whenever the lock is free: a session that was installed and is not
    in the slot has had its tunnels cancelled, and one that has neither been told to stop
    nor left its loop is in the slot, where a stop will find it.
    */
  lemma SlotIsSafe(states: seq<System>, n: nat, t: nat)
    requires Run(states) && n < |states| && t < |states[n].threads|
    requires states[n].lock.None? && Installed(states[n].threads[t])
    ensures var s := states[n];
            var th := s.threads[t];
            && (s.slot != Some(th.id) ==> th.id in s.cancelled)
            && (th.id !in s.signalled && !OutOfLoop(th.at) ==> s.slot == Some(th.id))
  {
    RunKeepsInv(states, n);
    assert Placed(states[n], states[n].threads[t]);
  }

  /** In every interleaving, lock held or not, at most one session accepts without having been told to stop. */
  lemma OneUnsignalled(states: seq<System>, n: nat, t: nat, u: nat)
    requires Run(states) && n < |states| && t < |states[n].threads| && u < |states[n].threads|
    requires states[n].threads[t].at.Accepting? && states[n].threads[t].Install?
    requires states[n].threads[u].at.Accepting? && states[n].threads[u].Install?
    requires states[n].threads[t].id !in states[n].signalled && states[n].threads[u].id !in states[n].signalled
    ensures t == u
  {
    RunKeepsInv(states, n);
    var s := states[n];
    assert Placed(s, s.threads[t]) && Placed(s, s.threads[u]);
    assert s.threads[t].id == s.threads[u].id;
  }

  /**
    In every interleaving, a session leaves the slot only by the hand of a thread that goes
    on to signal and cancel it before letting the lock go, or by its own exit after it has
    cancelled its tunnels: no session ever clears the slot of another.
    */
  lemma OnlyOwnExitClears(states: seq<System>, n: nat, x: nat)
    requires Run(states) && n + 1 < |states|
    requires states[n].slot == Some(x) && states[n + 1].slot != Some(x)
    ensures var s, s' := states[n], states[n + 1];
            || (s'.slot.None? && s'.hand == Some(x) && s'.lock.Some?)
            || (s'.slot.None? && x in s'.cancelled
                && exists t :: 0 <= t < |s.threads| && s.threads[t] == Install(ExitClear, x))
  {
    hide Advance, Inv;
    RunKeepsInv(states, n);
    var s, s' := states[n], states[n + 1];
    assert Step(s, s');
    var t: nat :| Enabled(s, t) && s' == Advance(s, t);
    ClearingStep(s, t, x);
  }

  lemma ClearingStep(s: System, t: nat, x: nat)
    requires Inv(s) && Enabled(s, t) && s.slot == Some(x) && Advance(s, t).slot != Some(x)
    ensures var s' := Advance(s, t);
            || (s'.slot.None? && s'.hand == Some(x) && s'.lock.Some?)
            || (s'.slot.None? && x in s'.cancelled && s.threads[t] == Install(ExitClear, x))
  {
    assert Placed(s, s.threads[t]);
  }

  // ---- What a stop and an install achieve ----

  /**
    In every interleaving, when a stop is about to let the lock go: the slot is empty, and
    every session ever installed has its tunnels cancelled and has been signalled, unless it
    has left its loop by itself.
    */
  lemma StopStopsAll(states: seq<System>, n: nat, t: nat, u: nat)
    requires Run(states) && n < |states| && t < |states[n].threads| && u < |states[n].threads|
    requires states[n].threads[t] == Stop(Unlock) && Installed(states[n].threads[u])
    ensures var s := states[n];
            var th := s.threads[u];
            && s.slot.None? && th.id in s.cancelled && (th.id in s.signalled || OutOfLoop(th.at))
  {
    RunKeepsInv(states, n);
    assert Placed(states[n], states[n].threads[u]);
  }

  /** And when an install is: its own session is in the slot, and every other one is stopped. */
  lemma InstallReplaces(states: seq<System>, n: nat, t: nat, u: nat)
    requires Run(states) && n < |states| && t < |states[n].threads| && u < |states[n].threads|
    requires states[n].threads[t].Install? && states[n].threads[t].at.Unlock?
    requires Installed(states[n].threads[u])
    ensures var s := states[n];
            var th := s.threads[u];
            && s.slot == Some(s.threads[t].id)
            && (u != t ==> th.id in s.cancelled && (th.id in s.signalled || OutOfLoop(th.at)))
  {
    RunKeepsInv(states, n);
    assert Placed(states[n], states[n].threads[u]);
  }

  /** A task that has ended has left the slot, and is in nobody's hand. */
  lemma EndedIsGone(states: seq<System>, n: nat, t: nat)
    requires Run(states) && n < |states| && t < |states[n].threads|
    requires states[n].threads[t].Install? && states[n].threads[t].at.Ended?
    ensures states[n].slot != Some(states[n].threads[t].id) && states[n].hand != Some(states[n].threads[t].id)
  {
    RunKeepsInv(states, n);
    assert Placed(states[n], states[n].threads[t]);
  }

  /** How far thread `t` has got with the session `x` it found in the slot. */
  predicate Dealt(s: System, t: nat, x: nat) {
    && t < |s.threads|
    && match s.threads[t].at
       case Wait => false
       case Take => s.slot == Some(x)
       case Send => s.hand == Some(x)
       case Cancel => s.hand == Some(x) && x in s.signalled
       case _ => x in s.signalled && x in s.cancelled
  }

  lemma OwnStepDeals(s: System, t: nat, x: nat)
    requires Inv(s) && Enabled(s, t) && Dealt(s, t, x)
    ensures Dealt(Advance(s, t), t, x)
  {
  }

  lemma OtherStepDeals(s: System, t: nat, u: nat, x: nat)
    requires Inv(s) && Enabled(s, u) && u != t && Dealt(s, t, x)
    ensures Dealt(Advance(s, u), t, x)
  {
    assert InCritical(s.threads[t].at) ==> s.lock == Some(t);
    assert InCritical(s.threads[u].at) ==> s.lock == Some(u);
  }

  lemma {:induction false} StaysDealt(states: seq<System>, n: nat, m: nat, t: nat, x: nat)
    requires Run(states) && n <= m < |states| && Dealt(states[n], t, x)
    ensures Dealt(states[m], t, x)
    decreases m
  {
    hide Inv, Advance, Enabled;
    if n < m {
      StaysDealt(states, n, m - 1, t, x);
      RunKeepsInv(states, m - 1);
      var s, s' := states[m - 1], states[m];
      assert Step(s, s');
      if u: nat :| Enabled(s, u) && s' == Advance(s, u) {
        if u == t {
          OwnStepDeals(s, t, x);
        } else {
          OtherStepDeals(s, t, u, x);
        }
      }
    }
  }

  /**
    In every interleaving, the session that a stop or an install finds in the slot when it
    gets the lock is signalled and cancelled by the time it lets the lock go, and for good.
    */
  lemma FoundIsShutDown(states: seq<System>, n: nat, m: nat, t: nat, x: nat)
    requires Run(states) && n <= m < |states| && t < |states[n].threads| && t < |states[m].threads|
    requires states[n].threads[t].at.Take? && states[n].slot == Some(x)
    requires var at := states[m].threads[t].at; !at.Wait? && !at.Take? && !at.Send? && !at.Cancel?
    ensures x in states[m].signalled && x in states[m].cancelled
  {
    hide Run;
    StaysDealt(states, n, m, t, x);
  }
}
