/** The closure of one `runProcess` call and the parent process it shares with others, as the objects their handlers
    update (scripts/control-ui-i18n.ts). Every handler is tied to its function in `ProcessLifecycle`. */
module ProcessRun {
  import opened Text
  import opened OutputBuffers
  import opened ProcessLifecycle

  /** `RunProcessParentSignalState`. */
  class ParentSignalState {
    var done: bool
    var signal: Option<Signal>

    constructor ()
      ensures !done && signal.None?
    {
      done := false;
      signal := None;
    }
  }

  /** The parent: `activeRunProcessParentSignals`, and the signals it sent to itself. */
  class Parent {
    var active: set<ParentSignalState>
    var raised: seq<Signal>

    ghost predicate AllDone()
      reads this, active
    {
      forall state <- active :: state.signal.Some? && state.done
    }

    /** `maybeReraiseRunProcessParentSignal`. */
    method MaybeReraise(signal: Signal)
      modifies this`raised
      ensures raised == if AllDone() then old(raised) + [signal] else old(raised)
    {
      var rest := active;
      while rest != {}
        invariant rest <= active
        invariant forall state <- active :: state !in rest ==> state.signal.Some? && state.done
        invariant raised == old(raised)
      {
        var state :| state in rest;
        if state.signal.None? || !state.done {
          return;
        }
        rest := rest - {state};
      }
      raised := raised + [signal];
    }
  }

  class ProcessRun {
    const options: Options
    const parent: Parent
    const parentSignalState: ParentSignalState
    var stdout: Capture
    var stderr: Capture
    var timedOut: bool
    var settled: bool
    var outcome: Option<Outcome>
    var waitingForKillGrace: bool
    var childClosedResult: Option<Closed>
    var killTimer: Option<nat>
    var parentSignalPending: Option<Signal>
    var handlers: set<Signal>
    var clock: Clock
    ghost var world: World

    /** The closure's variables as one value. */
    ghost function View(): Run
      reads this, parentSignalState
    {
      Run(options, stdout, stderr, timedOut, outcome, waitingForKillGrace, childClosedResult, killTimer,
          parentSignalPending, parentSignalState.done, handlers, clock, world)
    }

    /** The flag guards the outcome, the two copies of the pending signal agree, a settled call has no handler, and the
        state is in the active set exactly while the call is unsettled or was handed a signal. */
    ghost predicate Valid()
      reads this, parentSignalState, parent
    {
      && settled == outcome.Some?
      && parentSignalState.signal == parentSignalPending
      && (settled ==> handlers == {})
      && (parentSignalState in parent.active <==> !settled || parentSignalPending.Some?)
    }

    constructor (options: Options, parent: Parent, spawned: bool)
      modifies parent
      ensures Valid() && View() == Started(options, spawned)
      ensures this.options == options && this.parent == parent && fresh(parentSignalState)
      ensures parent.active == old(parent.active) + {parentSignalState} && parent.raised == old(parent.raised)
    {
      this.options := options;
      this.parent := parent;
      parentSignalState := new ParentSignalState();
      stdout, stderr := EMPTY_CAPTURE, EMPTY_CAPTURE;
      timedOut, settled, outcome := false, false, None;
      waitingForKillGrace, childClosedResult := false, None;
      killTimer, parentSignalPending, handlers := None, None, RELAYED_SIGNALS;
      clock := Clock(true, map[], 0);
      world := World([], "", "", !spawned, None, false);
      new;
      parent.active := parent.active + {parentSignalState};
    }

    /** `settle`. */
    method DoSettle(result: Outcome)
      requires Valid()
      modifies this, parent`active
      ensures Valid() && View() == Settle(old(View()), result)
      ensures parent.active == if old(settled) || parentSignalPending.Some? then old(parent.active)
                               else old(parent.active) - {parentSignalState}
    {
      if settled {
        return;
      }
      settled := true;
      clock := clock.(timeoutArmed := false);
      if parentSignalPending.None? {
        clock := Disarm(clock, killTimer);
      }
      if parentSignalPending.None? {
        parent.active := parent.active - {parentSignalState};
      }
      handlers := {};
      outcome := Some(result);
    }

    /** `finishClose`: the callback that `settle` runs decides the outcome. */
    method DoFinishClose(closed: Closed)
      requires Valid()
      modifies this, parent`active
      ensures Valid() && View() == FinishClose(old(View()), closed)
      ensures parent.active == if old(settled) || parentSignalPending.Some? then old(parent.active)
                               else old(parent.active) - {parentSignalState}
    {
      var result;
      var code := if closed.code.Some? then closed.code.value else 1;
      if timedOut {
        result := TimedOut;
      } else if code != 0 && options.rejectOnFailure {
        result := Failed;
      } else if code == 0 && stdout.truncatedChars > 0 {
        result := StdoutTruncated;
      } else {
        result := Resolved(code, FormatOutput(stderr), stdout.text);
      }
      DoSettle(result);
    }

    /** `signalChild`: the process group is sent the signal. */
    ghost method SignalChild(signal: Signal)
      modifies this`world
      ensures View() == Send(old(View()), signal)
      ensures world == old(world).(sent := old(world).sent + [signal])
    {
      world := world.(sent := world.sent + [signal]);
    }

    method ArmKillTimer(job: KillJob)
      requires Valid()
      modifies this`killTimer, this`clock
      ensures Valid() && View() == Arm(old(View()), job)
    {
      var id := clock.nextTimer;
      killTimer := Some(id);
      clock := clock.(timers := clock.timers[id := job], nextTimer := id + 1);
    }

    method HandleTimeout()
      requires Valid() && clock.timeoutArmed
      modifies this
      ensures Valid() && View() == OnTimeout(old(View()))
    {
      clock := clock.(timeoutArmed := false);
      timedOut := true;
      SignalChild(SIGTERM);
      if waitingForKillGrace {
        return;
      }
      waitingForKillGrace := true;
      ArmKillTimer(SettleKill);
    }

    method HandleKillTimer(id: nat)
      requires Valid() && id in clock.timers
      modifies this, parent, parentSignalState
      ensures Valid() && View() == OnKillTimer(old(View()), id).run
      ensures parent.active == if old(settled) || !settled || parentSignalPending.Some? then old(parent.active)
                               else old(parent.active) - {parentSignalState}
      ensures var reraise := old(OnKillTimer(View(), id).reraise);
              parent.raised == if reraise.Some? && parent.AllDone() then old(parent.raised) + [reraise.value]
                               else old(parent.raised)
    {
      var job := clock.timers[id];
      clock := Disarm(clock, Some(id));
      waitingForKillGrace := false;
      killTimer := None;
      SignalChild(SIGKILL);
      match job
      case SettleKill =>
        if childClosedResult.Some? {
          DoFinishClose(childClosedResult.value);
        }
      case RelayKill(signal) =>
        parentSignalState.done := true;
        parent.MaybeReraise(signal);
    }

    method HandleParentSignal(signal: Signal, alive: bool)
      requires Valid() && signal in handlers && alive == !world.groupGone
      modifies this, parentSignalState, parent`raised
      ensures Valid() && View() == OnParentSignal(old(View()), signal).run
      ensures var reraise := old(OnParentSignal(View(), signal).reraise);
              parent.raised == if reraise.Some? && parent.AllDone() then old(parent.raised) + [reraise.value]
                               else old(parent.raised)
    {
      parentSignalPending := Some(signal);
      parentSignalState.signal := Some(signal);
      SignalChild(signal);
      handlers := {};
      if !alive {
        parentSignalState.done := true;
        parent.MaybeReraise(signal);
        return;
      }
      ForceKillAfterGrace(signal);
    }

    /** The relayed signal's kill timer replaces whatever kill timer is armed. */
    method ForceKillAfterGrace(signal: Signal)
      requires Valid()
      modifies this`clock, this`waitingForKillGrace, this`killTimer
      ensures Valid()
      ensures var r := old(View());
              View() == Arm(r.(waitingForKillGrace := true, clock := Disarm(r.clock, r.killTimer)), RelayKill(signal))
    {
      if killTimer.Some? {
        clock := Disarm(clock, killTimer);
      }
      waitingForKillGrace := true;
      ArmKillTimer(RelayKill(signal));
    }

    method HandleClose(closed: Closed, alive: bool)
      requires Valid() && world.closed.None? && alive == !world.groupGone
      modifies this, parent, parentSignalState
      ensures Valid() && View() == OnClose(old(View()), closed).run
      ensures parent.active == if old(settled) || !settled || parentSignalPending.Some? then old(parent.active)
                               else old(parent.active) - {parentSignalState}
      ensures var reraise := old(OnClose(View(), closed).reraise);
              parent.raised == if reraise.Some? && parent.AllDone() then old(parent.raised) + [reraise.value]
                               else old(parent.raised)
    {
      world := world.(closed := Some(closed));
      if parentSignalPending.Some? {
        if alive {
          childClosedResult := Some(closed);
          return;
        }
        if killTimer.Some? {
          clock := Disarm(clock, killTimer);
          killTimer := None;
        }
        parentSignalState.done := true;
        parent.MaybeReraise(parentSignalPending.value);
        return;
      }
      if waitingForKillGrace && alive {
        childClosedResult := Some(closed);
        return;
      }
      DoFinishClose(closed);
    }

    method HandleError()
      requires Valid()
      modifies this, parent`active
      ensures Valid() && View() == OnError(old(View()))
      ensures parent.active == if old(settled) || parentSignalPending.Some? then old(parent.active)
                               else old(parent.active) - {parentSignalState}
    {
      world := world.(errorSeen := true);
      DoSettle(ProcessError);
    }

    method HandleData(stream: Stream, chunk: string)
      requires Valid()
      modifies this
      ensures Valid() && View() == OnData(old(View()), stream, chunk)
    {
      if stream == Stdout {
        stdout := AppendBounded(stdout, chunk, options.maxOutputChars);
        world := world.(output := world.output + chunk);
      } else {
        stderr := AppendBounded(stderr, chunk, options.maxOutputChars);
        world := world.(errors := world.errors + chunk);
      }
    }

    /** The process group exits; no handler runs. */
    ghost method GroupExits()
      requires Valid()
      modifies this`world
      ensures Valid() && View() == OnGroupExit(old(View()))
    {
      world := world.(groupGone := true);
    }

    /** The event loop hands an event to its handler. */
    method Handle(event: Event, alive: bool)
      requires Valid() && Enabled(View(), event) && alive == !world.groupGone
      modifies this, parent, parentSignalState
      ensures Valid() && View() == Step(old(View()), event).run
      ensures parent.active == if !old(settled) && settled && parentSignalPending.None?
                               then old(parent.active) - {parentSignalState} else old(parent.active)
      ensures var reraise := old(Step(View(), event).reraise);
              parent.raised == if reraise.Some? && parent.AllDone() then old(parent.raised) + [reraise.value]
                               else old(parent.raised)
    {
      hide OnClose, OnData, OnError, OnGroupExit, OnKillTimer, OnParentSignal, OnTimeout;
      match event
      case Data(stream, chunk) => HandleData(stream, chunk);
      case Timeout => HandleTimeout();
      case KillTimer(id) => HandleKillTimer(id);
      case Error => HandleError();
      case Close(closed) => HandleClose(closed, alive);
      case ParentSignal(signal) => HandleParentSignal(signal, alive);
      case GroupExit => GroupExits();
    }
  }
}
