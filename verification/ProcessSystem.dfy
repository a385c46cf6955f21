/** Any number of `runProcess` calls in one parent process (scripts/control-ui-i18n.ts): they share the set
    `activeRunProcessParentSignals`, and the parent re-raises a signal only through it. */
module ProcessSystem {
  import opened Text
  import opened ProcessLifecycle

  /** All calls so far, the indices of those in the active set, and the signals re-raised. */
  datatype System = System(runs: seq<Run>, active: set<nat>, raised: seq<Signal>)

  const INITIAL := System([], {}, [])

  datatype SystemEvent =
    | Start(options: Options, spawned: bool)
    | Happens(run: nat, event: Event)

  predicate SystemEnabled(s: System, e: SystemEvent) {
    match e
    case Start(options, _) => options.Valid()
    case Happens(i, event) => i < |s.runs| && Enabled(s.runs[i], event)
  }

  /** The test of `maybeReraiseRunProcessParentSignal`. */
  predicate AllActiveDone(s: System) {
    forall i <- s.active :: i < |s.runs| && s.runs[i].parentSignalPending.Some? && s.runs[i].done
  }

  function SystemStep(s: System, e: SystemEvent): System
    requires SystemEnabled(s, e)
  {
    match e
    case Start(options, spawned) => s.(runs := s.runs + [Started(options, spawned)], active := s.active + {|s.runs|})
    case Happens(i, event) =>
      var before, effect := s.runs[i], Step(s.runs[i], event);
      var leaves := !before.Settled() && effect.run.Settled() && effect.run.parentSignalPending.None?;
      var s1 := s.(runs := s.runs[i := effect.run], active := if leaves then s.active - {i} else s.active);
      if effect.reraise.Some? && AllActiveDone(s1) then s1.(raised := s1.raised + [effect.reraise.value]) else s1
  }

  /** The system after a run of events; None as soon as one of them cannot happen. */
  function Execute(events: seq<SystemEvent>): Option<System> {
    if events == [] then Some(INITIAL)
    else
      match Execute(events[..|events| - 1])
      case None => None
      case Some(s) =>
        var e := events[|events| - 1];
        if SystemEnabled(s, e) then Some(SystemStep(s, e)) else None
  }

  ghost predicate SystemInv(s: System) {
    && (forall i :: 0 <= i < |s.runs| ==> Inv(s.runs[i]))
    && (forall i :: i in s.active <==>
      0 <= i < |s.runs| && (!s.runs[i].Settled() || s.runs[i].parentSignalPending.Some?))
  }

  lemma SystemStepInv(s: System, e: SystemEvent)
    requires SystemInv(s) && SystemEnabled(s, e)
    ensures SystemInv(SystemStep(s, e))
  {
    hide Inv;
    match e
    case Start(options, spawned) =>
      StartedInv(options, spawned);
    case Happens(i, event) =>
      StepInv(s.runs[i], event);
      ActiveAfter(s.runs[i], event);
  }

  /** How one event changes whether a call belongs in the active set. */
  lemma ActiveAfter(r: Run, e: Event)
    requires Inv(r) && Enabled(r, e)
    ensures var next := Step(r, e).run;
            && (r.Settled() ==> next.Settled() && next.parentSignalPending == r.parentSignalPending)
            && (r.parentSignalPending.Some? ==> next.parentSignalPending.Some?)
  {
    if r.Settled() {
      SettlesOnce(r, e);
    }
  }

  /** On every interleaving of any number of calls, every call keeps its invariant, and the active set holds exactly
      the calls that are unsettled or were handed a parent signal. */
  lemma {:induction false} EveryRunIsSafe(events: seq<SystemEvent>)
    requires Execute(events).Some?
    ensures SystemInv(Execute(events).value)
  {
    if events != [] {
      EveryRunIsSafe(events[..|events| - 1]);
      hide SystemInv, SystemStep;
      SystemStepInv(Execute(events[..|events| - 1]).value, events[|events| - 1]);
    } else {
    }
  }

  /** What is guaranteed at the moment of a re-raise. */
  ghost predicate SafeToReraise(s: System, signal: Signal) {
    && (forall i <- s.active :: i < |s.runs| && s.runs[i].parentSignalPending.Some? && Stopped(s.runs[i]))
    && (forall i :: 0 <= i < |s.runs| ==> s.runs[i].handlers == {})
    && (exists i :: 0 <= i < |s.runs| && s.runs[i].parentSignalPending == Some(signal))
  }

  lemma ReraiseStep(s: System, e: SystemEvent)
    requires SystemInv(s) && SystemEnabled(s, e) && SystemStep(s, e).raised != s.raised
    ensures var next := SystemStep(s, e);
            |next.raised| == |s.raised| + 1 && next.raised[..|s.raised|] == s.raised
            && SafeToReraise(next, next.raised[|s.raised|])
  {
    hide Inv;
    var next := SystemStep(s, e);
    SystemStepInv(s, e);
    ReraiseRequest(s.runs[e.run], e.event);
    AllActiveStopped(next);
    assert next.runs[e.run].parentSignalPending == Some(next.raised[|s.raised|]);
  }

  /** The parent signal is re-raised only when every active call was handed a signal and its process group has exited
      or was sent SIGKILL. Then no call at all has a parent-signal handler installed, so the signal takes its default
      action; and the signal is one that a call relayed. */
  lemma ReraiseOnlyWhenAllStopped(events: seq<SystemEvent>, e: SystemEvent)
    requires Execute(events + [e]).Some?
    ensures Execute(events).Some?
    ensures var before, after := Execute(events).value.raised, Execute(events + [e]).value.raised;
            after != before ==> |after| == |before| + 1 && after[..|before|] == before
                                && SafeToReraise(Execute(events + [e]).value, after[|before|])
  {
    hide SystemInv, SystemStep, SafeToReraise;
    assert (events + [e])[..|events|] == events;
    EveryRunIsSafe(events);
    var s := Execute(events).value;
    if SystemStep(s, e).raised != s.raised {
      ReraiseStep(s, e);
    }
  }

  lemma AllActiveStopped(s: System)
    requires SystemInv(s) && AllActiveDone(s)
    ensures forall i <- s.active :: i < |s.runs| && s.runs[i].parentSignalPending.Some? && Stopped(s.runs[i])
    ensures forall i :: 0 <= i < |s.runs| ==> s.runs[i].handlers == {}
  {
  }

  /** The lifecycle promises, at every point of every interleaving, for every call: it resolves only after `close`,
      without timeout and without relayed signal, and on exit code zero with the complete stdout; a timeout is
      reported only once the group has stopped; a settled call has no handler left; at most one kill timer is armed,
      and a relayed signal's stays armed until the group has stopped. */
  lemma PromiseSafety(events: seq<SystemEvent>, i: nat)
    requires Execute(events).Some? && i < |Execute(events).value.runs|
    ensures var r := Execute(events).value.runs[i];
            && (r.outcome.Some? && r.outcome.value.Resolved? ==>
                  r.world.closed.Some? && !r.timedOut && r.parentSignalPending.None?
                  && (r.outcome.value.code == 0 ==> r.outcome.value.stdout == r.world.output))
            && (r.outcome == Some(TimedOut) ==> r.timedOut && Stopped(r))
            && (r.Settled() ==> r.handlers == {} && !r.clock.timeoutArmed)
            && (forall a <- r.clock.timers, b <- r.clock.timers :: a == b)
            && (r.parentSignalPending.Some? && !Stopped(r) ==>
                  exists id <- r.clock.timers :: r.clock.timers[id] == RelayKill(r.parentSignalPending.value))
  {
    EveryRunIsSafe(events);
    var r := Execute(events).value.runs[i];
    assert Inv(r);
    if r.parentSignalPending.Some? && !r.done {
      assert Armed(r, RelayKill(r.parentSignalPending.value));
    }
  }

  lemma {:induction false} ClosesAreRemembered(events: seq<SystemEvent>, i: nat)
    requires Execute(events).Some? && i < |Execute(events).value.runs|
    ensures CloseRemembered(Execute(events).value.runs[i])
  {
    if events != [] {
      var before, e := Execute(events[..|events| - 1]).value, events[|events| - 1];
      hide Step, Enabled, CloseRemembered, AllActiveDone;
      if i < |before.runs| {
        ClosesAreRemembered(events[..|events| - 1], i);
        if e.Happens? && e.run == i {
          StepRemembersClose(before.runs[i], e.event);
        }
      } else {
        NewCallHasNoClose(e.options, e.spawned);
      }
    }
  }

  lemma NewCallHasNoClose(options: Options, spawned: bool)
    ensures CloseRemembered(Started(options, spawned))
  {
  }

  /** No call hangs after its child has closed: at every point of every interleaving, a call that saw `close` and is
      neither settled nor was handed a parent signal has its kill timer armed, and firing it settles the call. */
  lemma ClosedCallsSettle(events: seq<SystemEvent>, i: nat)
    requires Execute(events).Some? && i < |Execute(events).value.runs|
    ensures var s := Execute(events).value;
            var r := s.runs[i];
            r.world.closed.Some? && !r.Settled() && r.parentSignalPending.None? ==>
              && r.killTimer.Some?
              && var fire := Happens(i, KillTimer(r.killTimer.value));
                 SystemEnabled(s, fire) && SystemStep(s, fire).runs[i].Settled()
  {
    EveryRunIsSafe(events);
    ClosesAreRemembered(events, i);
    hide Inv, CloseRemembered, Step, Enabled, Execute, AllActiveDone;
    var r := Execute(events).value.runs[i];
    if r.world.closed.Some? && !r.Settled() && r.parentSignalPending.None? {
      DeferredCloseSettles(r);
    }
  }

  /** What one step does to one call. */
  lemma StepAt(s: System, e: SystemEvent, i: nat)
    requires SystemEnabled(s, e) && i < |s.runs|
    ensures i < |SystemStep(s, e).runs|
    ensures SystemStep(s, e).runs[i] == if e.Happens? && e.run == i then Step(s.runs[i], e.event).run else s.runs[i]
  {
    hide Step, Enabled, AllActiveDone;
  }

  lemma OutcomeStays(s: System, e: SystemEvent, i: nat)
    requires SystemEnabled(s, e) && i < |s.runs| && s.runs[i].Settled()
    ensures i < |SystemStep(s, e).runs| && SystemStep(s, e).runs[i].Settled()
    ensures SystemStep(s, e).runs[i].outcome == s.runs[i].outcome
  {
    StepAt(s, e, i);
    hide Step, Enabled, SystemStep;
    if e.Happens? && e.run == i {
      SettlesOnce(s.runs[i], e.event);
    }
  }

  /** Outcomes are final: whatever happens later, a settled promise keeps its outcome. */
  lemma {:induction false} OutcomesAreFinal(events: seq<SystemEvent>, more: seq<SystemEvent>, i: nat)
    requires Execute(events + more).Some?
    ensures Execute(events).Some?
    ensures var s, later := Execute(events).value, Execute(events + more).value;
            i < |s.runs| && s.runs[i].Settled() ==> i < |later.runs| && later.runs[i].outcome == s.runs[i].outcome
  {
    hide Execute, SystemEnabled, SystemStep;
    if more == [] {
      assert events + more == events;
    } else {
      var n := |more| - 1;
      assert events + more == (events + more[..n]) + [more[n]];
      LastEvent(events + more[..n], more[n]);
      OutcomesAreFinal(events, more[..n], i);
      var before := Execute(events + more[..n]).value;
      if i < |before.runs| && before.runs[i].Settled() {
        OutcomeStays(before, more[n], i);
      }
    }
  }

  lemma LastEvent(events: seq<SystemEvent>, e: SystemEvent)
    requires Execute(events + [e]).Some?
    ensures Execute(events).Some? && SystemEnabled(Execute(events).value, e)
    ensures Execute(events + [e]) == Some(SystemStep(Execute(events).value, e))
  {
    assert (events + [e])[..|events|] == events;
  }
}
